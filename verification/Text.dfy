/** Token-shape helpers shared by the suggester and the plausibility detector. */
module Text {
  import opened Options

  /** What the Unicode tables say of a character; nothing is assumed about them. */
  datatype Unicode = Unicode(
    alphabetic: char -> bool,
    whitespace: char -> bool,
    isUpper: char -> bool,
    lower: char -> string,
    upper: char -> string
  )

  predicate IsApostrophe(c: char) {
    c == '\'' || c == '\U{2019}' || c == '\U{02BC}'
  }

  function LetterLower(u: Unicode, c: char): string {
    if u.alphabetic(c) then u.lower(c) else []
  }

  /** Apostrophes fold to one shape before letters are looked at, since one of them is itself a letter. */
  function SurfaceChar(u: Unicode, c: char): string {
    if IsApostrophe(c) then ['\'']
    else if c == '-' then ['-']
    else LetterLower(u, c)
  }

  /** Each character's contribution, in order. */
  function Each(f: char -> string, s: string): string {
    if s == [] then [] else Each(f, s[..|s| - 1]) + f(s[|s| - 1])
  }

  function LettersOf(u: Unicode, s: string): string {
    Each(c => LetterLower(u, c), s)
  }

  function SurfaceOf(u: Unicode, s: string): string {
    Each(c => SurfaceChar(u, c), s)
  }

  method LettersOnlyLower(u: Unicode, s: string) returns (out: string)
    ensures out == LettersOf(u, s)
  {
    out := [];
    for i := 0 to |s|
      invariant out == LettersOf(u, s[..i])
    {
      assert s[..i + 1][..i] == s[..i];
      if u.alphabetic(s[i]) {
        out := out + u.lower(s[i]);
      }
    }
    assert s[..|s|] == s;
  }

  method SurfaceLower(u: Unicode, s: string) returns (out: string)
    ensures out == SurfaceOf(u, s)
  {
    out := [];
    for i := 0 to |s|
      invariant out == SurfaceOf(u, s[..i])
    {
      assert s[..i + 1][..i] == s[..i];
      if IsApostrophe(s[i]) {
        out := out + ['\''];
      } else if s[i] == '-' {
        out := out + ['-'];
      } else if u.alphabetic(s[i]) {
        out := out + u.lower(s[i]);
      }
    }
    assert s[..|s|] == s;
  }

  /** How many characters satisfy `p`. */
  function Count(p: char -> bool, s: string): (n: nat)
    ensures n <= |s|
  {
    if s == [] then 0 else Count(p, s[1..]) + if p(s[0]) then 1 else 0
  }

  function LetterCount(u: Unicode, s: string): nat {
    Count(u.alphabetic, s)
  }

  /** Characters that belong to no word in any layout. */
  function NonWordCharCount(u: Unicode, s: string): nat {
    Count(c => !u.alphabetic(c) && !IsApostrophe(c) && c != '-', s)
  }

  /** An all-caps token of at most five letters and nothing else but space. */
  predicate LooksLikeAcronym(u: Unicode, s: string) {
    && 0 < LetterCount(u, s) <= 5
    && (forall i :: 0 <= i < |s| ==> u.alphabetic(s[i]) || u.whitespace(s[i]))
    && (forall i :: 0 <= i < |s| && u.alphabetic(s[i]) ==> u.isUpper(s[i]))
  }

  // ---- Compounds ----

  /** The pieces of `s` between the characters `p` picks out; never empty. */
  function Split(p: char -> bool, s: string): (r: seq<string>)
    ensures |r| == Count(p, s) + 1
  {
    if s == [] then [""]
    else
      var rest := Split(p, s[1..]);
      if p(s[0]) then [""] + rest else [[s[0]] + rest[0]] + rest[1..]
  }

  /** Pieces put together again around a separator. */
  function Join(sep: char, pieces: seq<string>): string {
    if pieces == [] then ""
    else if |pieces| == 1 then pieces[0]
    else pieces[0] + [sep] + Join(sep, pieces[1..])
  }

  function Is(sep: char): char -> bool {
    c => c == sep
  }

  predicate NoneHolds(sep: char, pieces: seq<string>) {
    forall k :: 0 <= k < |pieces| ==> sep !in pieces[k]
  }

  lemma JoinAfterSeparator(sep: char, pieces: seq<string>)
    requires pieces != []
    ensures Join(sep, [""] + pieces) == [sep] + Join(sep, pieces)
  {
    assert ([""] + pieces)[1..] == pieces;
  }

  lemma JoinAfterOther(sep: char, c: char, pieces: seq<string>)
    requires pieces != []
    ensures Join(sep, [[c] + pieces[0]] + pieces[1..]) == [c] + Join(sep, pieces)
  {
    var whole := [[c] + pieces[0]] + pieces[1..];
    assert whole[1..] == pieces[1..];
  }

  /** The pieces spell the text, and the separator is in none of them. */
  lemma {:induction false} SplitJoins(sep: char, s: string)
    ensures Join(sep, Split(Is(sep), s)) == s
    ensures NoneHolds(sep, Split(Is(sep), s))
  {
    if s != [] {
      hide Join, Count;
      SplitJoins(sep, s[1..]);
      var rest := Split(Is(sep), s[1..]);
      assert s == [s[0]] + s[1..];
      JoinAfterSeparator(sep, rest);
      JoinAfterOther(sep, s[0], rest);
      NoneHoldsMore(sep, s[0], rest);
      hide NoneHolds;
    } else {
      assert Split(Is(sep), s) == [""];
    }
  }

  lemma NoneHoldsMore(sep: char, c: char, pieces: seq<string>)
    requires NoneHolds(sep, pieces) && pieces != []
    ensures NoneHolds(sep, [""] + pieces)
    ensures c != sep ==> NoneHolds(sep, [[c] + pieces[0]] + pieces[1..])
  {
  }

  predicate NoneOf(p: char -> bool, s: string) {
    forall k :: 0 <= k < |s| ==> !p(s[k])
  }

  /** Splitting what was joined gives the pieces back, where no piece has a separator in it. */
  lemma {:induction false} JoinSplits(p: char -> bool, sep: char, pieces: seq<string>)
    requires p(sep) && pieces != [] && forall k :: 0 <= k < |pieces| ==> NoneOf(p, pieces[k])
    ensures Split(p, Join(sep, pieces)) == pieces
  {
    if |pieces| == 1 {
      SplitWhole(p, pieces[0]);
    } else {
      JoinSplits(p, sep, pieces[1..]);
      SplitFirst(p, sep, pieces[0], Join(sep, pieces[1..]));
      assert pieces == [pieces[0]] + pieces[1..];
      assert pieces[0] + [sep] + Join(sep, pieces[1..]) == pieces[0] + ([sep] + Join(sep, pieces[1..]));
    }
  }

  lemma {:induction false} SplitWhole(p: char -> bool, s: string)
    requires NoneOf(p, s)
    ensures Split(p, s) == [s]
  {
    if s != "" {
      SplitWhole(p, s[1..]);
      assert [s[0]] + s[1..] == s;
    }
  }

  lemma {:induction false} SplitFirst(p: char -> bool, sep: char, first: string, rest: string)
    requires p(sep) && NoneOf(p, first)
    ensures Split(p, first + ([sep] + rest)) == [first] + Split(p, rest)
  {
    var s := first + ([sep] + rest);
    if first == "" {
      assert s == [sep] + rest && s[1..] == rest;
    } else {
      SplitFirst(p, sep, first[1..], rest);
      assert s[1..] == first[1..] + ([sep] + rest);
      assert [first[0]] + first[1..] == first;
    }
  }

  predicate HasEmpty(pieces: seq<string>) {
    exists k :: 0 <= k < |pieces| && pieces[k] == ""
  }

  /** A token joined by hyphens or dots, in its segments; an empty segment is no structure. */
  function CompoundSegments(s: string): (r: Option<seq<string>>)
    ensures r.Some? ==> |r.value| >= 2 && !HasEmpty(r.value)
  {
    var segments := Split(c => c == '-' || c == '.', s);
    if |segments| == 1 || HasEmpty(segments) then None else Some(segments)
  }

  /** A compound's segments beside another rendering's, where the two agree on how many there are. */
  function PairedSegments(current: string, alt: string): Option<(seq<string>, seq<string>)> {
    var c, a := CompoundSegments(current), CompoundSegments(alt);
    if c.Some? && a.Some? && |c.value| == |a.value| then Some((c.value, a.value)) else None
  }

  const COMPOUND_SEGMENT_MIN_LETTERS := 3

  predicate SegmentVouches(u: Unicode, segment: string) {
    NonWordCharCount(u, segment) == 0 && LetterCount(u, segment) >= COMPOUND_SEGMENT_MIN_LETTERS
  }
}
