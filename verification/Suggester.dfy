/** Spelling suggestions: candidates from the word list and the user's overlay, ranked. */
module Suggester {
  import opened Options
  import opened Ordering
  import opened Strings
  import opened Geometry
  import opened EditDistance
  import opened Text

  const MAX_RAW_CANDIDATES := 500
  const MIN_TOKEN_LETTERS := 3
  const MIN_LETTERS_FOR_D2 := 5
  const ENOUGH_AT_D1 := 12
  const MAX_SCORE := 2.6
  const FIRST_CHAR_PENALTY := 0.3
  const LAST_CHAR_PENALTY := 0.15
  const WEAK_PENALTY := 0.6
  const PREFIX_BONUS := 0.08
  const PREFIX_BONUS_CAP := 4

  datatype Candidate = Candidate(text: string, weak: bool)

  datatype Suggestion = Suggestion(text: string, score: real)

  /**
   * One layout's dictionary as the suggester sees it. The word list answers a fuzzy search with a
   * stream of keys, None for a key that is not text; the overlay is a set with no order of its own.
   */
  datatype Lexicon = Lexicon(
    near: seq<Option<string>>, // within one edit of the token
    far: seq<Option<string>>, // within two
    hasSurface: bool,
    weak: set<string>,
    overlay: set<string>
  )

  // ---- Collecting candidates ----

  predicate Seen(out: seq<Candidate>, word: string) {
    exists i :: 0 <= i < |out| && out[i].text == word
  }

  function TakeKey(u: Unicode, lex: Lexicon, typed: string, out: seq<Candidate>, key: Option<string>): seq<Candidate> {
    if key.None? || key.value == typed || Seen(out, key.value) then out
    else out + [Candidate(key.value, LettersOf(u, key.value) in lex.weak)]
  }

  /** The stream is read until it ends or `cap` candidates are found. */
  function TakeStream(
    u: Unicode, lex: Lexicon, cap: nat, typed: string, out: seq<Candidate>, stream: seq<Option<string>>
  ): seq<Candidate>
  {
    if stream == [] then out
    else
      var before := TakeStream(u, lex, cap, typed, out, stream[..|stream| - 1]);
      if |before| >= cap then before else TakeKey(u, lex, typed, before, stream[|stream| - 1])
  }

  function FromSurface(u: Unicode, lex: Lexicon, cap: nat, typed: string): seq<Candidate> {
    if !lex.hasSurface then []
    else
      var near := TakeStream(u, lex, cap, typed, [], lex.near);
      if LetterCount(u, typed) < MIN_LETTERS_FOR_D2 || |near| >= ENOUGH_AT_D1 then near
      else TakeStream(u, lex, cap, typed, near, lex.far)
  }

  function Gap(a: nat, b: nat): nat {
    if a >= b then a - b else b - a
  }

  /** Overlay words worth offering whatever the word list found. */
  predicate Suggestable(u: Unicode, typed: string, word: string) {
    && |word| >= MIN_TOKEN_LETTERS
    && Gap(|word|, LetterCount(u, typed)) <= 2
    && word != LettersOf(u, typed)
  }

  /** All candidates, as a set: the overlay's order cannot matter to it. At most `cap` are the word list's. */
  ghost function Candidates(u: Unicode, lex: Lexicon, cap: nat, typed: string): set<Candidate> {
    var surface := FromSurface(u, lex, cap, typed);
    (set c | c in surface)
    + (set w | w in lex.overlay && Suggestable(u, typed, w) && !Seen(surface, w) :: Candidate(w, false))
  }

  ghost predicate DistinctTexts(out: seq<Candidate>) {
    forall i, j :: 0 <= i < j < |out| ==> out[i].text != out[j].text
  }

  lemma {:induction false} StreamIsDistinct(
    u: Unicode, lex: Lexicon, cap: nat, typed: string, out: seq<Candidate>, stream: seq<Option<string>>
  )
    requires DistinctTexts(out)
    ensures DistinctTexts(TakeStream(u, lex, cap, typed, out, stream))
  {
    if stream != [] {
      StreamIsDistinct(u, lex, cap, typed, out, stream[..|stream| - 1]);
    }
  }

  method ReadStream(u: Unicode, lex: Lexicon, typed: string, out0: seq<Candidate>, stream: seq<Option<string>>)
    returns (out: seq<Candidate>)
    ensures out == TakeStream(u, lex, MAX_RAW_CANDIDATES, typed, out0, stream)
  {
    out := out0;
    var i := 0;
    while i < |stream|
      invariant i <= |stream|
      invariant out == TakeStream(u, lex, MAX_RAW_CANDIDATES, typed, out0, stream[..i])
    {
      if |out| >= MAX_RAW_CANDIDATES {
        break;
      }
      StreamNext(u, lex, typed, out0, stream, i);
      var key := stream[i];
      i := i + 1;
      if key.None? || key.value == typed || Seen(out, key.value) {
        continue;
      }
      var letters := LettersOnlyLower(u, key.value);
      out := out + [Candidate(key.value, letters in lex.weak)];
    }
    FullStream(u, lex, typed, out0, stream, i);
  }

  lemma StreamNext(u: Unicode, lex: Lexicon, typed: string, out: seq<Candidate>, stream: seq<Option<string>>, i: nat)
    requires i < |stream| && |TakeStream(u, lex, MAX_RAW_CANDIDATES, typed, out, stream[..i])| < MAX_RAW_CANDIDATES
    ensures TakeStream(u, lex, MAX_RAW_CANDIDATES, typed, out, stream[..i + 1])
         == TakeKey(u, lex, typed, TakeStream(u, lex, MAX_RAW_CANDIDATES, typed, out, stream[..i]), stream[i])
  {
    hide TakeKey;
    assert stream[..i + 1][..i] == stream[..i];
  }

  /** Once the cap is reached the rest of the stream changes nothing. */
  lemma {:induction false} FullStream(
    u: Unicode, lex: Lexicon, typed: string, out: seq<Candidate>, stream: seq<Option<string>>, i: nat
  )
    requires i <= |stream|
    requires i == |stream| || |TakeStream(u, lex, MAX_RAW_CANDIDATES, typed, out, stream[..i])| >= MAX_RAW_CANDIDATES
    ensures TakeStream(u, lex, MAX_RAW_CANDIDATES, typed, out, stream[..i])
         == TakeStream(u, lex, MAX_RAW_CANDIDATES, typed, out, stream)
    decreases |stream| - i
  {
    hide TakeKey;
    if i == |stream| {
      assert stream[..i] == stream;
    } else {
      assert stream[..i + 1][..i] == stream[..i];
      FullStream(u, lex, typed, out, stream, i + 1);
    }
  }

  /** `order` is the overlay in whatever order its hash table yields it. */
  method RawCandidates(u: Unicode, lex: Lexicon, typed: string, order: seq<string>) returns (out: seq<Candidate>)
    requires forall w :: w in order <==> w in lex.overlay
    requires forall i, j :: 0 <= i < j < |order| ==> order[i] != order[j]
    ensures (set c | c in out) == Candidates(u, lex, MAX_RAW_CANDIDATES, typed)
    ensures DistinctTexts(out)
  {
    var letters := LetterCount(u, typed);
    var stripped := LettersOnlyLower(u, typed);
    out := [];
    if lex.hasSurface {
      StreamIsDistinct(u, lex, MAX_RAW_CANDIDATES, typed, [], lex.near);
      out := ReadStream(u, lex, typed, out, lex.near);
      if !(letters < MIN_LETTERS_FOR_D2 || |out| >= ENOUGH_AT_D1) {
        StreamIsDistinct(u, lex, MAX_RAW_CANDIDATES, typed, out, lex.far);
        out := ReadStream(u, lex, typed, out, lex.far);
      }
    }
    ghost var surface := FromSurface(u, lex, MAX_RAW_CANDIDATES, typed);
    hide FromSurface, TakeStream;
    assert out == surface;
    for i := 0 to |order|
      invariant DistinctTexts(out)
      invariant forall c :: c in out <==> c in surface || FromOverlay(u, typed, surface, order[..i], c)
    {
      var word := order[i];
      OverlayNext(u, typed, surface, order, i);
      SeenIsOld(u, typed, surface, order, i, out);
      if |word| < MIN_TOKEN_LETTERS || Gap(|word|, letters) > 2 || word == stripped || Seen(out, word) {
        continue;
      }
      out := out + [Candidate(word, false)];
    }
    assert order[..|order|] == order;
    OverlayIsCandidates(u, lex, typed, order);
  }

  ghost predicate FromOverlay(u: Unicode, typed: string, surface: seq<Candidate>, order: seq<string>, c: Candidate) {
    c.text in order && !c.weak && Suggestable(u, typed, c.text) && !Seen(surface, c.text)
  }

  lemma OverlayNext(u: Unicode, typed: string, surface: seq<Candidate>, order: seq<string>, i: nat)
    requires i < |order|
    ensures forall c :: FromOverlay(u, typed, surface, order[..i + 1], c)
                   <==> FromOverlay(u, typed, surface, order[..i], c)
                        || (c == Candidate(order[i], false) && Suggestable(u, typed, order[i])
                            && !Seen(surface, order[i]))
  {
    hide Suggestable, Seen;
    forall c
      ensures FromOverlay(u, typed, surface, order[..i + 1], c)
         <==> FromOverlay(u, typed, surface, order[..i], c)
              || (c == Candidate(order[i], false) && Suggestable(u, typed, order[i]) && !Seen(surface, order[i]))
    {
      OneMoreWord(order, i, c.text);
    }
  }

  lemma OneMoreWord(order: seq<string>, i: nat, w: string)
    requires i < |order|
    ensures w in order[..i + 1] <==> w in order[..i] || w == order[i]
  {
    assert order[..i + 1] == order[..i] + [order[i]];
  }

  /** A new overlay word is seen among the candidates only if the word list found it. */
  lemma SeenIsOld(u: Unicode, typed: string, surface: seq<Candidate>, order: seq<string>, i: nat, out: seq<Candidate>)
    requires i < |order| && forall j, k :: 0 <= j < k < |order| ==> order[j] != order[k]
    requires forall c :: c in out <==> c in surface || FromOverlay(u, typed, surface, order[..i], c)
    ensures Seen(out, order[i]) <==> Seen(surface, order[i])
  {
    hide Suggestable;
    assert order[i] !in order[..i];
    if Seen(out, order[i]) {
      var j :| 0 <= j < |out| && out[j].text == order[i];
      assert out[j] in out;
    }
    if Seen(surface, order[i]) {
      var j :| 0 <= j < |surface| && surface[j].text == order[i];
      assert surface[j] in out;
    }
  }

  lemma OverlayIsCandidates(u: Unicode, lex: Lexicon, typed: string, order: seq<string>)
    requires forall w :: w in order <==> w in lex.overlay
    ensures var surface := FromSurface(u, lex, MAX_RAW_CANDIDATES, typed);
            forall c :: c in Candidates(u, lex, MAX_RAW_CANDIDATES, typed)
                   <==> c in surface || FromOverlay(u, typed, surface, order, c)
  {
    hide FromSurface, Suggestable, Seen;
  }

  // ---- Ranking them ----

  function FirstOf(s: string): Option<char> {
    if s == [] then None else Some(s[0])
  }

  function LastOf(s: string): Option<char> {
    if s == [] then None else Some(s[|s| - 1])
  }

  function SharedPrefix(a: string, b: string): nat {
    if a == [] || b == [] || a[0] != b[0] then 0 else 1 + SharedPrefix(a[1..], b[1..])
  }

  /** What is added to a candidate's distance: typing slips at the ends, rare words, a shared beginning. */
  function Adjustment(typed: string, c: Candidate): real {
    var prefix := SharedPrefix(typed, c.text);
    var capped := if prefix < PREFIX_BONUS_CAP then prefix else PREFIX_BONUS_CAP;
    (if FirstOf(typed) != FirstOf(c.text) then FIRST_CHAR_PENALTY else 0.0)
    + (if LastOf(typed) != LastOf(c.text) then LAST_CHAR_PENALTY else 0.0)
    + (if c.weak then WEAK_PENALTY else 0.0)
    - PREFIX_BONUS * capped as real
  }

  function Scored(geo: Option<KeyboardGeometry>, typed: string, c: Candidate): Suggestion {
    Suggestion(c.text, Distance(CostsOf(geo), typed, c.text) + Adjustment(typed, c))
  }

  /** `a` and `b` begin with the same `n` characters, and no more. */
  ghost predicate BeginAlike(a: string, b: string, n: nat) {
    && n <= |a| && n <= |b| && a[..n] == b[..n]
    && (n < |a| && n < |b| ==> a[n] != b[n])
  }

  lemma {:induction false} SharedPrefixIsLongest(a: string, b: string, n: nat)
    requires BeginAlike(a, b, n)
    ensures SharedPrefix(a, b) == n
  {
    if n > 0 {
      assert a[0] == a[..n][0] == b[..n][0] == b[0];
      assert a[1..][..n - 1] == a[..n][1..] == b[..n][1..] == b[1..][..n - 1];
      SharedPrefixIsLongest(a[1..], b[1..], n - 1);
    }
  }

  /** A rare word scores 0.6 worse than it would if it were common. */
  lemma RareWordsRankLower(geo: Option<KeyboardGeometry>, typed: string, text: string)
    ensures Scored(geo, typed, Candidate(text, true)).score == Scored(geo, typed, Candidate(text, false)).score + 0.6
  {
    hide Distance, CostsOf;
  }

  /**
   * Of two words as far from the token and as common, each beginning and end that is not the token's
   * costs 0.3 and 0.15, and each of the first four characters kept earns 0.08.
   */
  lemma BeginningsAndEndsCount(
    geo: Option<KeyboardGeometry>, typed: string, c: Candidate, m: nat, d: Candidate, n: nat
  )
    requires typed != "" && c.text != "" && d.text != "" && c.weak == d.weak
    requires Distance(CostsOf(geo), typed, c.text) == Distance(CostsOf(geo), typed, d.text)
    requires BeginAlike(typed, c.text, m) && BeginAlike(typed, d.text, n)
    ensures var first, last := typed[0], typed[|typed| - 1];
            Scored(geo, typed, d).score - Scored(geo, typed, c).score
            == (if d.text[0] == first then 0.0 else 0.3) - (if c.text[0] == first then 0.0 else 0.3)
               + (if d.text[|d.text| - 1] == last then 0.0 else 0.15)
               - (if c.text[|c.text| - 1] == last then 0.0 else 0.15)
               + 0.08 * (Smaller(m, 4) - Smaller(n, 4)) as real
  {
    AdjustmentParts(typed, c, m);
    AdjustmentParts(typed, d, n);
    hide Distance, CostsOf, Adjustment, BeginAlike;
  }

  lemma AdjustmentParts(typed: string, c: Candidate, n: nat)
    requires typed != "" && c.text != "" && BeginAlike(typed, c.text, n)
    ensures Adjustment(typed, c)
         == (if c.text[0] == typed[0] then 0.0 else 0.3)
            + (if c.text[|c.text| - 1] == typed[|typed| - 1] then 0.0 else 0.15)
            + (if c.weak then 0.6 else 0.0) - 0.08 * Smaller(n, 4) as real
  {
    SharedPrefixIsLongest(typed, c.text, n);
    hide SharedPrefix, BeginAlike;
  }

  /** Score first, then the closer length, then the text. */
  predicate Before(typedLength: nat, a: Suggestion, b: Suggestion) {
    if a.score != b.score then a.score < b.score
    else
      var gapA, gapB := Gap(|a.text|, typedLength), Gap(|b.text|, typedLength);
      if gapA != gapB then gapA < gapB else TextLess(a.text, b.text)
  }

  function Ranking(typedLength: nat): (Suggestion, Suggestion) -> bool {
    (a, b) => Before(typedLength, a, b)
  }

  lemma RankingIsTotal(typedLength: nat)
    ensures StrictTotalOrder(Ranking(typedLength))
  {
    TextLessIsTotal();
    hide TextLess;
  }

  /** Every candidate that scores well enough, with its score. */
  ghost function Eligible(geo: Option<KeyboardGeometry>, typed: string, candidates: set<Candidate>): set<Suggestion> {
    set c | c in candidates && Scored(geo, typed, c).score <= MAX_SCORE :: Scored(geo, typed, c)
  }

  /** The best `max` of the eligible candidates, best first. */
  ghost function Best(
    u: Unicode, geo: Option<KeyboardGeometry>, lex: Lexicon, cap: nat, typed: string, max: nat
  ): seq<Suggestion> {
    RankingIsTotal(|typed|);
    Top(Ranking(|typed|), Eligible(geo, typed, Candidates(u, lex, cap, typed)), max)
  }

  /** The eligible suggestions among the first `n` candidates. */
  ghost predicate EligibleIn(geo: Option<KeyboardGeometry>, typed: string, raw: seq<Candidate>, n: nat, s: Suggestion)
    requires n <= |raw|
  {
    s.score <= MAX_SCORE && exists j :: 0 <= j < n && s == Scored(geo, typed, raw[j])
  }

  method ScoreOf(geo: Option<KeyboardGeometry>, typed: string, c: Candidate) returns (s: Suggestion)
    ensures s == Scored(geo, typed, c)
  {
    hide CostsOf, Cell, Adjustment, IsCheapestScriptCost;
    var distance := WeightedOsa(typed, c.text, geo);
    return Suggestion(c.text, distance + Adjustment(typed, c));
  }

  method ScoreAll(geo: Option<KeyboardGeometry>, typed: string, raw: seq<Candidate>) returns (sorted: seq<Suggestion>)
    requires DistinctTexts(raw)
    ensures Ascending(Ranking(|typed|), sorted)
    ensures forall s :: s in sorted <==> s in Eligible(geo, typed, set c | c in raw)
  {
    var less := Ranking(|typed|);
    RankingIsTotal(|typed|);
    hide Scored, Ranking, StrictTotalOrder, Ascending, Inserted;
    NothingAscends(less);
    sorted := [];
    for i := 0 to |raw|
      invariant Ascending(less, sorted)
      invariant forall s :: s in sorted <==> EligibleIn(geo, typed, raw, i, s)
    {
      var s := ScoreOf(geo, typed, raw[i]);
      if s.score <= MAX_SCORE {
        NotYetSorted(geo, typed, raw, i);
        InsertedIsAscending(less, s, sorted);
        InsertedKeepsElements(less, s, sorted);
        sorted := Inserted(less, s, sorted);
      }
    }
    EligibleIsEligible(geo, typed, raw);
  }

  lemma NothingAscends(less: (Suggestion, Suggestion) -> bool)
    ensures Ascending(less, [])
  {
  }

  lemma EligibleIsEligible(geo: Option<KeyboardGeometry>, typed: string, raw: seq<Candidate>)
    ensures forall s :: s in Eligible(geo, typed, set c | c in raw) <==> EligibleIn(geo, typed, raw, |raw|, s)
  {
    hide Scored;
    forall s ensures s in Eligible(geo, typed, set c | c in raw) <==> EligibleIn(geo, typed, raw, |raw|, s) {
      if EligibleIn(geo, typed, raw, |raw|, s) {
        var j :| 0 <= j < |raw| && s == Scored(geo, typed, raw[j]);
        assert raw[j] in raw;
      }
    }
  }

  lemma NotYetSorted(geo: Option<KeyboardGeometry>, typed: string, raw: seq<Candidate>, i: nat)
    requires i < |raw| && DistinctTexts(raw)
    ensures !EligibleIn(geo, typed, raw, i, Scored(geo, typed, raw[i]))
  {
    assert forall j :: 0 <= j < i ==> raw[j].text != raw[i].text;
  }

  /** The first letter in upper case, where `s` has one. */
  function Titled(u: Unicode, s: string): string {
    if s == [] then []
    else if u.alphabetic(s[0]) then u.upper(s[0]) + s[1..]
    else [s[0]] + Titled(u, s[1..])
  }

  lemma TitledNext(u: Unicode, word: string, i: nat)
    requires i < |word|
    ensures word[i..] == [word[i]] + word[i + 1..]
    ensures Titled(u, word[i..]) == if u.alphabetic(word[i]) then u.upper(word[i]) + word[i + 1..]
                                    else [word[i]] + Titled(u, word[i + 1..])
    ensures Titled(u, word[|word|..]) == []
  {
    assert word[i..][1..] == word[i + 1..];
  }

  method TitleCase(u: Unicode, word: string) returns (out: string)
    ensures out == Titled(u, word)
  {
    out := [];
    var done := false;
    for i := 0 to |word|
      invariant Titled(u, word) == out + if done then word[i..] else Titled(u, word[i..])
    {
      var ch := word[i];
      TitledNext(u, word, i);
      hide Titled;
      if !done && u.alphabetic(ch) {
        Regroup(out, u.upper(ch), word[i + 1..]);
        out := out + u.upper(ch);
        done := true;
      } else {
        Regroup(out, [ch], if done then word[i + 1..] else Titled(u, word[i + 1..]));
        out := out + [ch];
      }
    }
  }

  /** The first letter of the token was typed as a capital. */
  predicate StartsCapital(u: Unicode, s: string) {
    if s == [] then false else if u.alphabetic(s[0]) then u.isUpper(s[0]) else StartsCapital(u, s[1..])
  }

  /** Each suggestion as it is typed back: titled if the token was, its score unchanged. */
  function Recased(u: Unicode, rendering: string, s: Suggestion): Suggestion {
    if StartsCapital(u, rendering) then s.(text := Titled(u, s.text)) else s
  }

  /**
   * The suggestions for a token: the best `max` of all eligible candidates, recased. Nothing in the
   * result depends on `order`, the order in which the overlay was walked.
   */
  method Suggest(
    u: Unicode, geo: Option<KeyboardGeometry>, lex: Lexicon, order: seq<string>, rendering: string, max: nat
  )
    returns (r: seq<Suggestion>)
    requires forall w :: w in order <==> w in lex.overlay
    requires forall i, j :: 0 <= i < j < |order| ==> order[i] != order[j]
    ensures var typed := SurfaceOf(u, rendering);
            if max == 0 || LetterCount(u, typed) < 3 then r == []
            else
              var best := Best(u, geo, lex, 500, typed, max);
              |r| == |best| && forall i :: 0 <= i < |r| ==> r[i] == Recased(u, rendering, best[i])
  {
    hide Candidates, DistinctTexts, Eligible, Titled, StartsCapital, Ranking, Suggestable;
    if max == 0 {
      return [];
    }
    var typed := SurfaceLower(u, rendering);
    if LetterCount(u, typed) < MIN_TOKEN_LETTERS {
      return [];
    }
    var raw := RawCandidates(u, lex, typed, order);
    var sorted := ScoreAll(geo, typed, raw);
    RankingIsTotal(|typed|);
    ghost var eligible := Eligible(geo, typed, Candidates(u, lex, MAX_RAW_CANDIDATES, typed));
    AscendingIsUnique(Ranking(|typed|), sorted, Listing(Ranking(|typed|), eligible));
    r := sorted[..Smaller(max, |sorted|)];
    ghost var best := r;
    if StartsCapital(u, rendering) {
      for i := 0 to |r|
        invariant |r| == |best|
        invariant forall k :: 0 <= k < |r| ==> r[k] == if k < i then Recased(u, rendering, best[k]) else best[k]
      {
        var titled := TitleCase(u, r[i].text);
        r := r[i := r[i].(text := titled)];
      }
    }
  }

  /**
   * What "best" means, without reference to any sort: a suggestion is among them exactly when it is
   * eligible and fewer than `max` eligible ones rank before it; and they come best first.
   */
  lemma BestMeansBest(
    u: Unicode, geo: Option<KeyboardGeometry>, lex: Lexicon, cap: nat, typed: string, max: nat, s: Suggestion
  )
    ensures var all := Eligible(geo, typed, Candidates(u, lex, cap, typed));
            s in Best(u, geo, lex, cap, typed, max)
            <==> s in all && |RankedBefore(Ranking(|typed|), all, s)| < max
    ensures Ascending(Ranking(|typed|), Best(u, geo, lex, cap, typed, max))
  {
    var all, less := Eligible(geo, typed, Candidates(u, lex, cap, typed)), Ranking(|typed|);
    RankingIsTotal(|typed|);
    hide Eligible, Candidates, Before, StrictTotalOrder, Ascending;
    TopIsRanked(less, all, max, s);
    TopAscends(less, all, max);
  }
}
