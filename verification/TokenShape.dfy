/** The shapes of tokens the detectors ask about, character by character. */
module TokenShape {
  import opened Options
  import opened Text

  // ---- Counting ----

  lemma {:induction false} CountAdds(p: char -> bool, s: string, t: string)
    ensures Count(p, s + t) == Count(p, s) + Count(p, t)
  {
    if s == "" {
      assert s + t == t;
    } else {
      CountAdds(p, s[1..], t);
      assert (s + t)[1..] == s[1..] + t;
    }
  }

  lemma {:induction false} CountIsNoneIff(p: char -> bool, s: string)
    ensures Count(p, s) == 0 <==> NoneOf(p, s)
  {
    if s != "" {
      CountIsNoneIff(p, s[1..]);
      if NoneOf(p, s[1..]) && !p(s[0]) {
        assert forall k :: 1 <= k < |s| ==> s[k] == s[1..][k - 1];
      }
    }
  }

  /** What satisfies `p` satisfies `q`; the counts are equal exactly when the converse holds too. */
  lemma {:induction false} CountsAgreeIff(p: char -> bool, q: char -> bool, s: string)
    requires forall c :: p(c) ==> q(c)
    ensures Count(p, s) <= Count(q, s)
    ensures Count(p, s) == Count(q, s) <==> forall k :: 0 <= k < |s| && q(s[k]) ==> p(s[k])
  {
    if s != "" {
      CountsAgreeIff(p, q, s[1..]);
      assert forall k :: 1 <= k < |s| ==> s[k] == s[1..][k - 1];
      assert forall k :: 0 <= k < |s| - 1 ==> s[1..][k] == s[k + 1];
    }
  }

  // ---- Characters of words ----

  /** A hyphen, and the three shapes of an apostrophe. */
  const MARKS := "-'\U{2019}\U{02BC}"

  predicate OfWord(u: Unicode, c: char) {
    u.alphabetic(c) || c in MARKS
  }

  lemma StrayIs(u: Unicode, c: char)
    ensures !u.alphabetic(c) && !IsApostrophe(c) && c != '-' <==> !OfWord(u, c)
  {
    assert MARKS[0] == '-' && MARKS[1] == '\'' && MARKS[2] == '\U{2019}' && MARKS[3] == '\U{02BC}';
  }

  /** Strays are counted one by one, and there are none exactly when every character is a letter or a mark. */
  lemma StraysCount(u: Unicode, s: string, c: char)
    ensures NonWordCharCount(u, s + [c]) == NonWordCharCount(u, s) + if OfWord(u, c) then 0 else 1
    ensures NonWordCharCount(u, s) == 0 <==> forall k :: 0 <= k < |s| ==> OfWord(u, s[k])
  {
    var stray := (c: char) => !u.alphabetic(c) && !IsApostrophe(c) && c != '-';
    CountAdds(stray, s, [c]);
    assert [c][1..] == "";
    CountIsNoneIff(stray, s);
    StrayIs(u, c);
    forall k | 0 <= k < |s| ensures stray(s[k]) <==> !OfWord(u, s[k]) {
      StrayIs(u, s[k]);
    }
    hide OfWord, IsApostrophe, Count;
  }

  /** One to five capital letters, and nothing else but space. */
  lemma AcronymIff(u: Unicode, s: string)
    ensures LooksLikeAcronym(u, s)
       <==> 1 <= LetterCount(u, s) <= 5
            && forall c :: c in s ==> if u.alphabetic(c) then u.isUpper(c) else u.whitespace(c)
  {
    hide LetterCount;
    if forall c :: c in s ==> if u.alphabetic(c) then u.isUpper(c) else u.whitespace(c) {
      assert forall i :: 0 <= i < |s| ==> s[i] in s;
    }
  }

  // ---- Compounds ----

  /** Pieces with one separator after each but the last. */
  function Interleaved(pieces: seq<string>, separators: string): string
    requires |pieces| == |separators| + 1
  {
    if separators == "" then pieces[0]
    else pieces[0] + ([separators[0]] + Interleaved(pieces[1..], separators[1..]))
  }

  ghost predicate Separates(p: char -> bool, pieces: seq<string>, separators: string, s: string) {
    && |pieces| == |separators| + 1
    && (forall k :: 0 <= k < |separators| ==> p(separators[k]))
    && (forall k :: 0 <= k < |pieces| ==> NoneOf(p, pieces[k]))
    && Interleaved(pieces, separators) == s
  }

  lemma {:induction false} SeparatedSplits(p: char -> bool, pieces: seq<string>, separators: string, s: string)
    requires Separates(p, pieces, separators, s)
    ensures Split(p, s) == pieces
    decreases |pieces|
  {
    hide Split;
    if separators == "" {
      SplitWhole(p, s);
      assert pieces == [s];
    } else {
      var rest := Interleaved(pieces[1..], separators[1..]);
      SeparatedSplits(p, pieces[1..], separators[1..], rest);
      SplitFirst(p, separators[0], pieces[0], rest);
      assert pieces == [pieces[0]] + pieces[1..];
    }
  }

  lemma {:induction false} SplitSeparates(p: char -> bool, s: string) returns (separators: string)
    ensures Separates(p, Split(p, s), separators, s)
  {
    if s == "" {
      separators := "";
    } else {
      var rest := SplitSeparates(p, s[1..]);
      var pieces := Split(p, s[1..]);
      assert s == [s[0]] + s[1..];
      if p(s[0]) {
        separators := [s[0]] + rest;
        assert ([""] + pieces)[1..] == pieces && separators[1..] == rest;
      } else {
        separators := rest;
        LongerFirst(pieces, rest, s[0]);
      }
    }
  }

  lemma LongerFirst(pieces: seq<string>, separators: string, c: char)
    requires |pieces| == |separators| + 1
    ensures Interleaved([[c] + pieces[0]] + pieces[1..], separators) == [c] + Interleaved(pieces, separators)
  {
    var longer := [[c] + pieces[0]] + pieces[1..];
    assert longer[1..] == pieces[1..];
    if separators != "" {
      var rest := [separators[0]] + Interleaved(pieces[1..], separators[1..]);
      assert [c] + pieces[0] + rest == [c] + (pieces[0] + rest);
    }
  }

  /** A compound falls into two pieces or more, none of them empty, at hyphens and dots and nowhere else. */
  lemma CompoundIff(s: string, pieces: seq<string>)
    ensures CompoundSegments(s) == Some(pieces)
       <==> |pieces| >= 2
            && (forall k :: 0 <= k < |pieces| ==> pieces[k] != "" && '-' !in pieces[k] && '.' !in pieces[k])
            && exists separators: string ::
                 |separators| + 1 == |pieces| && (forall c :: c in separators ==> c in "-.")
                 && Interleaved(pieces, separators) == s
  {
    var p := (c: char) => c == '-' || c == '.';
    var own := SplitSeparates(p, s);
    CompoundIsSplit(s);
    hide Split, CompoundSegments;
    if CompoundSegments(s) == Some(pieces) {
      assert pieces == Split(p, s);
      SeparatorsAre(pieces, own);
    }
    forall separators: string
      ensures |separators| + 1 == |pieces| && (forall c :: c in separators ==> c in "-.")
              && Interleaved(pieces, separators) == s
              && (forall k :: 0 <= k < |pieces| ==> '-' !in pieces[k] && '.' !in pieces[k])
          ==> Split(p, s) == pieces
    {
      if |separators| + 1 == |pieces| && (forall c :: c in separators ==> c in "-.")
         && Interleaved(pieces, separators) == s
         && (forall k :: 0 <= k < |pieces| ==> '-' !in pieces[k] && '.' !in pieces[k])
      {
        SeparatorsFit(pieces, separators);
        SeparatedSplits(p, pieces, separators, s);
      }
    }
  }

  lemma CompoundIsSplit(s: string)
    ensures var pieces := Split(c => c == '-' || c == '.', s);
            CompoundSegments(s)
            == if |pieces| >= 2 && forall k :: 0 <= k < |pieces| ==> pieces[k] != "" then Some(pieces) else None
  {
    hide Split;
  }

  lemma SeparatorsAre(pieces: seq<string>, separators: string)
    requires forall k :: 0 <= k < |separators| ==> separators[k] == '-' || separators[k] == '.'
    requires forall k :: 0 <= k < |pieces| ==> NoneOf(c => c == '-' || c == '.', pieces[k])
    ensures forall c :: c in separators ==> c in "-."
    ensures forall k :: 0 <= k < |pieces| ==> '-' !in pieces[k] && '.' !in pieces[k]
  {
    assert "-."[0] == '-' && "-."[1] == '.';
  }

  lemma SeparatorsFit(pieces: seq<string>, separators: string)
    requires forall c :: c in separators ==> c in "-."
    requires forall k :: 0 <= k < |pieces| ==> '-' !in pieces[k] && '.' !in pieces[k]
    ensures forall k :: 0 <= k < |separators| ==> separators[k] == '-' || separators[k] == '.'
    ensures forall k :: 0 <= k < |pieces| ==> NoneOf(c => c == '-' || c == '.', pieces[k])
  {
    assert forall k :: 0 <= k < |separators| ==> separators[k] in separators;
    forall k | 0 <= k < |pieces| ensures NoneOf(c => c == '-' || c == '.', pieces[k]) {
      assert forall i :: 0 <= i < |pieces[k]| ==> pieces[k][i] in pieces[k];
    }
  }

  /** Two renderings are paired exactly when both are compounds of as many pieces. */
  lemma PairedIff(current: string, alt: string, c: seq<string>, a: seq<string>)
    ensures PairedSegments(current, alt) == Some((c, a))
       <==> CompoundSegments(current) == Some(c) && CompoundSegments(alt) == Some(a) && |c| == |a|
  {
    hide CompoundSegments;
  }

  /** A segment may speak for its token from three letters on, if every character of it is one of a word. */
  lemma SegmentVouchesIff(u: Unicode, segment: string)
    ensures SegmentVouches(u, segment)
       <==> LetterCount(u, segment) >= 3 && forall k :: 0 <= k < |segment| ==> OfWord(u, segment[k])
  {
    StraysCount(u, segment, ' ');
    hide LetterCount, NonWordCharCount, OfWord;
  }
}
