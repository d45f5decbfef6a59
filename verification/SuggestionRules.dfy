/** What is suggested for a token, and in what order, in numbers. */
module SuggestionRules {
  import opened Options
  import opened Ordering
  import opened Geometry
  import opened EditDistance
  import opened Text
  import opened TextOrder
  import opened Suggester

  function Apart(a: nat, b: nat): nat {
    if a <= b then b - a else a - b
  }

  /** The lower score comes first, under one score the word whose length is closer, and then the earlier text. */
  lemma BeforeIff(typedLength: nat, a: Suggestion, b: Suggestion)
    ensures Suggester.Before(typedLength, a, b)
       <==> var gapA, gapB := Apart(|a.text|, typedLength), Apart(|b.text|, typedLength);
            || a.score < b.score
            || (a.score == b.score && gapA < gapB)
            || (a.score == b.score && gapA == gapB && Precedes(a.text, b.text))
  {
    TextLessIff(a.text, b.text);
    hide TextLess, Precedes;
  }

  /** Nothing that scores over 2.6 is suggested, and everything else found is considered. */
  lemma EligibleIff(geo: Option<KeyboardGeometry>, typed: string, candidates: set<Candidate>, c: Candidate)
    ensures forall s :: s in Eligible(geo, typed, candidates) ==> s.score <= 2.6
    ensures c in candidates && Scored(geo, typed, c).score <= 2.6 ==>
              Scored(geo, typed, c) in Eligible(geo, typed, candidates)
  {
    hide Scored;
  }

  /** Where the word list is missing the candidates are the overlay's words of three letters on, near in length. */
  lemma OverlayAlone(u: Unicode, lex: Lexicon, cap: nat, typed: string, c: Candidate)
    requires !lex.hasSurface
    ensures c in Candidates(u, lex, cap, typed)
       <==> c.text in lex.overlay && !c.weak && |c.text| >= 3
            && Apart(|c.text|, LetterCount(u, typed)) <= 2 && c.text != LettersOf(u, typed)
  {
    hide LetterCount, LettersOf;
  }

  lemma {:induction false} StreamStartsFrom(
    u: Unicode, lex: Lexicon, cap: nat, typed: string, out: seq<Candidate>, stream: seq<Option<string>>
  )
    ensures out <= TakeStream(u, lex, cap, typed, out, stream)
  {
    hide TakeKey;
    if stream != [] {
      StreamStartsFrom(u, lex, cap, typed, out, stream[..|stream| - 1]);
      KeyIsAdded(u, lex, typed, TakeStream(u, lex, cap, typed, out, stream[..|stream| - 1]), stream[|stream| - 1]);
    }
  }

  lemma KeyIsAdded(u: Unicode, lex: Lexicon, typed: string, out: seq<Candidate>, key: Option<string>)
    ensures out <= TakeKey(u, lex, typed, out, key)
  {
  }

  /** Words two edits away are looked for from five letters on, and only if fewer than twelve were closer. */
  lemma FarWordsAreReadIff(u: Unicode, lex: Lexicon, cap: nat, typed: string)
    requires lex.hasSurface
    ensures var near := FromSurface(u, lex.(far := []), cap, typed);
            && near <= FromSurface(u, lex, cap, typed)
            && (LetterCount(u, typed) < 5 || |near| >= 12 ==> FromSurface(u, lex, cap, typed) == near)
            && (LetterCount(u, typed) >= 5 && |near| < 12 ==>
                  FromSurface(u, lex, cap, typed) == TakeStream(u, lex, cap, typed, near, lex.far))
  {
    hide LetterCount;
    SameNear(u, lex, cap, typed, lex.near);
    StreamStartsFrom(u, lex, cap, typed, TakeStream(u, lex, cap, typed, [], lex.near), lex.far);
  }

  /** What is read of the near words does not depend on the far ones. */
  lemma {:induction false} SameNear(u: Unicode, lex: Lexicon, cap: nat, typed: string, stream: seq<Option<string>>)
    ensures TakeStream(u, lex.(far := []), cap, typed, [], stream) == TakeStream(u, lex, cap, typed, [], stream)
  {
    hide Seen, LettersOf;
    if stream != [] {
      SameNear(u, lex, cap, typed, stream[..|stream| - 1]);
    }
  }

  /** A word of the list is taken up unless it is the token itself, was found already, or comes past the cap. */
  lemma TakesUp(u: Unicode, lex: Lexicon, cap: nat, typed: string, out: seq<Candidate>, word: string)
    ensures TakeStream(u, lex, cap, typed, out, [Some(word)])
         == if |out| < cap && word != typed && forall i :: 0 <= i < |out| ==> out[i].text != word
            then out + [Candidate(word, LettersOf(u, word) in lex.weak)] else out
  {
    hide LettersOf;
    assert [Some(word)][..0] == [];
  }

  /** Suggestions are titled where the first letter of the token, whatever stands before it, is a capital. */
  lemma {:induction false} StartsCapitalIff(u: Unicode, s: string)
    ensures StartsCapital(u, s)
       <==> exists i :: 0 <= i < |s| && u.alphabetic(s[i]) && u.isUpper(s[i]) && NoneOf(u.alphabetic, s[..i])
  {
    if s != "" {
      if u.alphabetic(s[0]) {
        assert NoneOf(u.alphabetic, s[..0]);
        forall i | 0 < i < |s| ensures !NoneOf(u.alphabetic, s[..i]) {
          assert s[..i][0] == s[0];
        }
      } else {
        StartsCapitalIff(u, s[1..]);
        forall i | 0 <= i < |s| - 1 ensures NoneOf(u.alphabetic, s[1..][..i]) <==> NoneOf(u.alphabetic, s[..i + 1]) {
          LaterLetters(u, s, i);
        }
        if StartsCapital(u, s[1..]) {
          var i :| 0 <= i < |s[1..]| && u.alphabetic(s[1..][i]) && u.isUpper(s[1..][i])
                   && NoneOf(u.alphabetic, s[1..][..i]);
          assert u.alphabetic(s[i + 1]) && NoneOf(u.alphabetic, s[..i + 1]);
        }
        if exists i :: 0 <= i < |s| && u.alphabetic(s[i]) && u.isUpper(s[i]) && NoneOf(u.alphabetic, s[..i]) {
          var i :| 0 <= i < |s| && u.alphabetic(s[i]) && u.isUpper(s[i]) && NoneOf(u.alphabetic, s[..i]);
          assert s[1..][i - 1] == s[i] && NoneOf(u.alphabetic, s[1..][..i - 1]);
        }
      }
    }
  }

  lemma LaterLetters(u: Unicode, s: string, i: nat)
    requires i < |s| - 1 && !u.alphabetic(s[0])
    ensures NoneOf(u.alphabetic, s[1..][..i]) <==> NoneOf(u.alphabetic, s[..i + 1])
  {
    assert s[..i + 1] == [s[0]] + s[1..][..i];
    assert forall k :: 0 <= k < i ==> s[..i + 1][k + 1] == s[1..][..i][k];
  }
}
