/** What the cap on candidates read from the word list costs, and when it costs nothing. */
module CandidateCap {
  import opened Options
  import opened Ordering
  import opened Geometry
  import opened EditDistance
  import opened Text
  import opened Suggester

  function First<T>(xs: seq<T>, n: nat): seq<T> {
    xs[..Smaller(n, |xs|)]
  }

  /** A smaller cap cuts the same list shorter. */
  lemma {:induction false} StreamIsCut(
    u: Unicode, lex: Lexicon, cap: nat, wide: nat, typed: string, out: seq<Candidate>, stream: seq<Option<string>>
  )
    requires |out| <= cap <= wide
    ensures TakeStream(u, lex, cap, typed, out, stream) == First(TakeStream(u, lex, wide, typed, out, stream), cap)
    ensures |TakeStream(u, lex, wide, typed, out, stream)| <= wide
  {
    if stream == [] {
      assert First(out, cap) == out;
    } else {
      StreamIsCut(u, lex, cap, wide, typed, out, stream[..|stream| - 1]);
      var most := TakeStream(u, lex, wide, typed, out, stream[..|stream| - 1]);
      KeyIsCut(u, lex, cap, typed, most, stream[|stream| - 1]);
      hide TakeKey, First;
    }
  }

  lemma KeyIsCut(u: Unicode, lex: Lexicon, cap: nat, typed: string, most: seq<Candidate>, key: Option<string>)
    ensures |most| >= cap ==>
              First(TakeKey(u, lex, typed, most, key), cap) == First(most, cap) && |First(most, cap)| == cap
    ensures |most| < cap ==> First(most, cap) == most
                             && First(TakeKey(u, lex, typed, most, key), cap) == TakeKey(u, lex, typed, most, key)
    ensures |TakeKey(u, lex, typed, most, key)| <= |most| + 1
  {
    hide Seen;
  }

  lemma SurfaceIsCut(u: Unicode, lex: Lexicon, cap: nat, wide: nat, typed: string)
    requires ENOUGH_AT_D1 <= cap <= wide
    ensures FromSurface(u, lex, cap, typed) == First(FromSurface(u, lex, wide, typed), cap)
  {
    if lex.hasSurface {
      StreamIsCut(u, lex, cap, wide, typed, [], lex.near);
      var near, most := TakeStream(u, lex, cap, typed, [], lex.near), TakeStream(u, lex, wide, typed, [], lex.near);
      if |most| <= cap {
        assert near == most;
        StreamIsCut(u, lex, cap, wide, typed, near, lex.far);
      }
      hide TakeStream;
    }
  }

  /** The cap leaves the candidates of the word list as they are exactly when there are no more than it allows. */
  lemma CapIsHarmlessIff(u: Unicode, lex: Lexicon, wide: nat, typed: string)
    requires MAX_RAW_CANDIDATES <= wide
    ensures FromSurface(u, lex, MAX_RAW_CANDIDATES, typed) == FromSurface(u, lex, wide, typed)
       <==> |FromSurface(u, lex, wide, typed)| <= MAX_RAW_CANDIDATES
  {
    SurfaceIsCut(u, lex, MAX_RAW_CANDIDATES, wide, typed);
  }

  /** What scores well enough among the candidates a cap leaves. */
  ghost function Offered(u: Unicode, geo: Option<KeyboardGeometry>, lex: Lexicon, cap: nat, typed: string)
    : set<Suggestion>
  {
    Eligible(geo, typed, Candidates(u, lex, cap, typed))
  }

  /**
   * The visible suggestions are those of another cap exactly when whatever scores well enough under one
   * cap alone, found beyond the other or let in from the overlay in its place, is outranked there by as
   * many as are shown.
   */
  lemma CapIsInvisibleIff(
    u: Unicode, geo: Option<KeyboardGeometry>, lex: Lexicon, wide: nat, typed: string, max: nat
  )
    ensures var capped := Offered(u, geo, lex, MAX_RAW_CANDIDATES, typed);
            var uncapped := Offered(u, geo, lex, wide, typed);
            Best(u, geo, lex, MAX_RAW_CANDIDATES, typed, max) == Best(u, geo, lex, wide, typed, max)
            <==> OwnAreOutranked(Ranking(|typed|), uncapped, capped, max)
                 && OwnAreOutranked(Ranking(|typed|), capped, uncapped, max)
  {
    RankingIsTotal(|typed|);
    hide Eligible, Candidates, Ranking, StrictTotalOrder, OwnAreOutranked;
    var capped, uncapped := Offered(u, geo, lex, MAX_RAW_CANDIDATES, typed), Offered(u, geo, lex, wide, typed);
    TopsAgreeIffOutranked(Ranking(|typed|), capped, uncapped, max);
  }

  /** A word list with no more than five hundred candidates is never felt to be cut. */
  lemma FewCandidatesShowAlike(
    u: Unicode, geo: Option<KeyboardGeometry>, lex: Lexicon, wide: nat, typed: string, max: nat
  )
    requires MAX_RAW_CANDIDATES <= wide && |FromSurface(u, lex, wide, typed)| <= MAX_RAW_CANDIDATES
    ensures Best(u, geo, lex, MAX_RAW_CANDIDATES, typed, max) == Best(u, geo, lex, wide, typed, max)
  {
    hide FromSurface, Eligible, StrictTotalOrder;
    CapIsHarmlessIff(u, lex, wide, typed);
  }

  // ---- A word list whose best suggestion the cap cuts off ----

  const ALL_LETTERS := Unicode(c => true, c => false, c => false, c => [c], c => [c])
  const TYPED := "\U{1000}bcd"
  const SWAPPED := "\U{1000}bdc"

  /** Five hundred words that differ from the token in their first letter, in the order of the list. */
  function Filler(i: nat): string
    requires i < MAX_RAW_CANDIDATES
  {
    [(0x200 + i) as char] + "bcd"
  }

  function Fillers(n: nat): (keys: seq<Option<string>>)
    requires n <= MAX_RAW_CANDIDATES
    ensures |keys| == n && forall i :: 0 <= i < n ==> keys[i] == Some(Filler(i))
  {
    seq(n, i requires 0 <= i < n => Some(Filler(i)))
  }

  function Crowded(): Lexicon {
    Lexicon(Fillers(MAX_RAW_CANDIDATES) + [Some(SWAPPED)], [], true, {}, {})
  }

  lemma FillersDiffer(i: nat, j: nat)
    requires i < MAX_RAW_CANDIDATES && j < MAX_RAW_CANDIDATES
    ensures Filler(i) == Filler(j) <==> i == j
    ensures Filler(i) != TYPED && Filler(i) != SWAPPED && TextLess(Filler(i), SWAPPED)
    ensures i < j ==> TextLess(Filler(i), Filler(j))
  {
    assert Filler(i)[0] == (0x200 + i) as char && Filler(j)[0] == (0x200 + j) as char;
  }

  lemma {:induction false} FillersTaken(n: nat, wide: nat)
    requires n <= MAX_RAW_CANDIDATES <= wide
    ensures AreFillers(TakeStream(ALL_LETTERS, Crowded(), wide, TYPED, [], Fillers(n)), n)
  {
    if n > 0 {
      hide Crowded, Filler, TakeKey;
      FillersTaken(n - 1, wide);
      assert Fillers(n)[..n - 1] == Fillers(n - 1);
      FillerIsNew(TakeStream(ALL_LETTERS, Crowded(), wide, TYPED, [], Fillers(n - 1)), n - 1);
    } else {
      assert Fillers(0) == [];
    }
  }

  ghost predicate AreFillers(out: seq<Candidate>, n: nat)
    requires n <= MAX_RAW_CANDIDATES
  {
    |out| == n && forall i :: 0 <= i < n ==> out[i] == Candidate(Filler(i), false)
  }

  lemma FillerIsNew(out: seq<Candidate>, n: nat)
    requires n < MAX_RAW_CANDIDATES && AreFillers(out, n)
    ensures AreFillers(TakeKey(ALL_LETTERS, Crowded(), TYPED, out, Some(Filler(n))), n + 1)
  {
    forall i | 0 <= i <= n ensures Filler(i) == Filler(n) <==> i == n {
      FillersDiffer(i, n);
    }
    FillersDiffer(n, n);
    NothingWeak();
    hide Crowded, Filler, LettersOf;
  }

  lemma NothingWeak()
    ensures Crowded().weak == {} && Crowded().overlay == {} && Crowded().hasSurface
  {
  }

  lemma CrowdedCandidates(wide: nat)
    requires MAX_RAW_CANDIDATES <= wide
    ensures var out := FromSurface(ALL_LETTERS, Crowded(), wide, TYPED);
            && (forall i :: 0 <= i < MAX_RAW_CANDIDATES ==> i < |out| && out[i] == Candidate(Filler(i), false))
            && (wide == MAX_RAW_CANDIDATES ==> |out| == wide)
            && (wide > MAX_RAW_CANDIDATES ==>
                  |out| == MAX_RAW_CANDIDATES + 1 && out[MAX_RAW_CANDIDATES] == Candidate(SWAPPED, false))
  {
    var near := Crowded().near;
    hide Filler;
    FillersTaken(MAX_RAW_CANDIDATES, wide);
    assert near[..MAX_RAW_CANDIDATES] == Fillers(MAX_RAW_CANDIDATES);
    forall i | 0 <= i < MAX_RAW_CANDIDATES ensures Filler(i) != SWAPPED {
      FillersDiffer(i, i);
    }
    assert |TYPED| == 4 && |SWAPPED| == 4 && SWAPPED[2] == 'd' && TYPED[2] == 'c';
  }

  // ---- Scores without a keyboard ----

  /** Words that differ are at least a swap apart where no substitution is graded. */
  lemma {:induction false} ApartByASwap(cost: Costs, s: string, t: string, i: nat, j: nat)
    requires forall a, b :: cost(a, b) == if a == b then 0.0 else 1.0
    requires i <= |s| && j <= |t|
    ensures Cell(cost, s, t, i, j) == 0.0 || Cell(cost, s, t, i, j) >= 0.6
    decreases i + j
  {
    hide Cell;
    CellBorder(cost, s, t, i, j);
    if i > 0 && j > 0 {
      CellStep(cost, s, t, i, j);
      ApartByASwap(cost, s, t, i - 1, j);
      ApartByASwap(cost, s, t, i, j - 1);
      ApartByASwap(cost, s, t, i - 1, j - 1);
      if i > 1 && j > 1 {
        ApartByASwap(cost, s, t, i - 2, j - 2);
      }
    }
  }

  lemma FillerScore(i: nat)
    requires i < MAX_RAW_CANDIDATES
    ensures Scored(None, TYPED, Candidate(Filler(i), false)).score >= 0.9
  {
    FillerIsApart(i);
    FillerAdjustment(i);
    hide Adjustment, Filler, Cell, CostsOf;
  }

  lemma FillerIsApart(i: nat)
    requires i < MAX_RAW_CANDIDATES
    ensures Distance(CostsOf(None), TYPED, Filler(i)) >= 0.6
  {
    FillersDiffer(i, i);
    hide Filler, Cell;
    var cost, w := CostsOf(None), Filler(i);
    DistanceProperties(None, TYPED, w);
    ApartByASwap(cost, TYPED, w, |TYPED|, |w|);
  }

  /** One substitution away, as the list's search promises. */
  lemma FillerIsNear(i: nat)
    requires i < MAX_RAW_CANDIDATES
    ensures Distance(CostsOf(None), TYPED, Filler(i)) <= 1.0
  {
    var w := Filler(i);
    assert |w| == 4 && w[1] == TYPED[1] && w[2] == TYPED[2] && w[3] == TYPED[3];
    EveryKeyboardIsFair(None);
    hide Cell, Filler, CostsOf;
    SameButFirst(CostsOf(None), TYPED, w, 4);
  }

  lemma {:induction false} SameButFirst(cost: Costs, s: string, t: string, k: nat)
    requires FairCosts(cost) && 1 <= k <= |s| && k <= |t| && forall j :: 1 <= j < k ==> s[j] == t[j]
    ensures Cell(cost, s, t, k, k) <= 1.0
  {
    hide Cell;
    CellAtMost(cost, s, t, k, k);
    if k == 1 {
      CellBorder(cost, s, t, 0, 0);
    } else {
      SameButFirst(cost, s, t, k - 1);
    }
  }

  lemma FillerAdjustment(i: nat)
    requires i < MAX_RAW_CANDIDATES
    ensures Adjustment(TYPED, Candidate(Filler(i), false)) == FIRST_CHAR_PENALTY
  {
    var w := Filler(i);
    assert TYPED[0] == '\U{1000}' && w[0] == (0x200 + i) as char;
    assert TYPED[|TYPED| - 1] == 'd' && w[|w| - 1] == 'd';
    hide Filler;
    assert SharedPrefix(TYPED, w) == 0;
  }

  lemma SwappedScore()
    ensures Scored(None, TYPED, Candidate(SWAPPED, false)).score < 0.9
  {
    SwappedIsNear();
    hide Cell, CostsOf;
  }

  lemma SwappedIsNear()
    ensures Distance(CostsOf(None), TYPED, SWAPPED) <= 0.6
  {
    var cost := CostsOf(None);
    hide Cell;
    CellStep(cost, TYPED, SWAPPED, 4, 4);
    CellAtMost(cost, TYPED, SWAPPED, 2, 2);
    CellAtMost(cost, TYPED, SWAPPED, 1, 1);
    CellBorder(cost, TYPED, SWAPPED, 0, 0);
  }

  lemma CrowdedIsNear(i: nat)
    requires i < |Crowded().near|
    ensures IsNear(Crowded().near[i])
  {
    if i < MAX_RAW_CANDIDATES {
      FillerIsNear(i);
    } else {
      SwappedIsNear();
    }
    hide Distance, Filler, CostsOf;
  }

  predicate IsNear(key: Option<string>) {
    key.Some? && Distance(CostsOf(None), TYPED, key.value) <= 1.0
  }

  lemma CrowdedIsListed(i: nat, j: nat)
    requires i < j < |Crowded().near|
    ensures ListedBefore(Crowded().near[i], Crowded().near[j])
  {
    hide Filler, TextLess;
    if j < MAX_RAW_CANDIDATES {
      FillersDiffer(i, j);
    } else {
      FillersDiffer(i, i);
    }
  }

  /** Without an overlay the candidates are the word list's. */
  lemma CrowdedHasNoOverlay(wide: nat, c: Candidate)
    requires MAX_RAW_CANDIDATES <= wide
    ensures c in Candidates(ALL_LETTERS, Crowded(), wide, TYPED)
       <==> (exists i: nat :: i < MAX_RAW_CANDIDATES && IsFiller(c, i))
            || (wide > MAX_RAW_CANDIDATES && c == Candidate(SWAPPED, false))
  {
    NothingWeak();
    CrowdedCandidates(wide);
    hide Crowded, FromSurface, Filler;
    var out := FromSurface(ALL_LETTERS, Crowded(), wide, TYPED);
    if exists i: nat :: i < MAX_RAW_CANDIDATES && IsFiller(c, i) {
      var i: nat :| i < MAX_RAW_CANDIDATES && IsFiller(c, i);
      assert out[i] in out;
    }
    if c in out {
      var k: nat :| k < |out| && out[k] == c;
      assert k < MAX_RAW_CANDIDATES ==> IsFiller(c, k);
    }
  }

  predicate IsFiller(c: Candidate, i: nat)
    requires i < MAX_RAW_CANDIDATES
  {
    c == Candidate(Filler(i), false)
  }

  lemma NothingBeatsSwapped(wide: nat, s: Suggestion)
    requires MAX_RAW_CANDIDATES <= wide && s in Offered(ALL_LETTERS, None, Crowded(), wide, TYPED)
    ensures !Suggester.Before(|TYPED|, s, Scored(None, TYPED, Candidate(SWAPPED, false)))
    ensures wide == MAX_RAW_CANDIDATES ==> s.text != SWAPPED
  {
    hide Candidates, Crowded, Distance, Adjustment;
    var c :| c in Candidates(ALL_LETTERS, Crowded(), wide, TYPED) && s == Scored(None, TYPED, c);
    CrowdedHasNoOverlay(wide, c);
    SwappedScore();
    if exists i: nat :: i < MAX_RAW_CANDIDATES && IsFiller(c, i) {
      var i: nat :| i < MAX_RAW_CANDIDATES && IsFiller(c, i);
      FillerScore(i);
      FillersDiffer(i, i);
      hide *;
    } else {
      TextLessIrreflexive(SWAPPED);
    }
  }

  /**
   * Ranking more than the first five hundred can change the visible suggestions: this list is in its
   * order, its words are within one edit of the token, and the best of them comes last.
   */
  lemma CapCutsTheBest(wide: nat)
    requires wide > MAX_RAW_CANDIDATES
    ensures forall i, j :: 0 <= i < j < |Crowded().near| ==> ListedBefore(Crowded().near[i], Crowded().near[j])
    ensures forall i :: 0 <= i < |Crowded().near| ==> IsNear(Crowded().near[i])
    ensures Best(ALL_LETTERS, None, Crowded(), wide, TYPED, 1) == [Scored(None, TYPED, Candidate(SWAPPED, false))]
    ensures forall s :: s in Best(ALL_LETTERS, None, Crowded(), MAX_RAW_CANDIDATES, TYPED, 1) ==> s.text != SWAPPED
  {
    forall i, j | 0 <= i < j < |Crowded().near| ensures ListedBefore(Crowded().near[i], Crowded().near[j]) {
      CrowdedIsListed(i, j);
    }
    forall i | 0 <= i < |Crowded().near| ensures IsNear(Crowded().near[i]) {
      CrowdedIsNear(i);
    }
    hide *;
    SwappedIsBest(wide);
    forall s | s in Best(ALL_LETTERS, None, Crowded(), MAX_RAW_CANDIDATES, TYPED, 1) ensures s.text != SWAPPED {
      SwappedIsNotShown(s);
    }
  }

  lemma SwappedIsNotShown(s: Suggestion)
    requires s in Best(ALL_LETTERS, None, Crowded(), MAX_RAW_CANDIDATES, TYPED, 1)
    ensures s.text != SWAPPED
  {
    hide Best, Eligible, Candidates, Suggester.Before, Crowded;
    BestMeansBest(ALL_LETTERS, None, Crowded(), MAX_RAW_CANDIDATES, TYPED, 1, s);
    NothingBeatsSwapped(MAX_RAW_CANDIDATES, s);
  }

  lemma SwappedIsBest(wide: nat)
    requires wide > MAX_RAW_CANDIDATES
    ensures Best(ALL_LETTERS, None, Crowded(), wide, TYPED, 1) == [Scored(None, TYPED, Candidate(SWAPPED, false))]
  {
    var all := Offered(ALL_LETTERS, None, Crowded(), wide, TYPED);
    var swapped := Scored(None, TYPED, Candidate(SWAPPED, false));
    SwappedIsOffered(wide);
    hide Offered, Candidates, Suggester.Before, Crowded, Scored;
    assert RankedBefore(Ranking(|TYPED|), all, swapped) == {} by {
      forall s | s in all ensures !Suggester.Before(|TYPED|, s, swapped) {
        NothingBeatsSwapped(wide, s);
      }
    }
    OnlyOne(wide, swapped);
  }

  lemma SwappedIsOffered(wide: nat)
    requires wide > MAX_RAW_CANDIDATES
    ensures Scored(None, TYPED, Candidate(SWAPPED, false)) in Offered(ALL_LETTERS, None, Crowded(), wide, TYPED)
  {
    hide Candidates, Crowded, Distance, Adjustment;
    SwappedScore();
    CrowdedHasNoOverlay(wide, Candidate(SWAPPED, false));
  }

  lemma OnlyOne(wide: nat, s: Suggestion)
    requires s in Offered(ALL_LETTERS, None, Crowded(), wide, TYPED)
    requires RankedBefore(Ranking(|TYPED|), Offered(ALL_LETTERS, None, Crowded(), wide, TYPED), s) == {}
    ensures Best(ALL_LETTERS, None, Crowded(), wide, TYPED, 1) == [s]
  {
    hide Eligible, Candidates, Suggester.Before, Crowded, StrictTotalOrder, Ranking;
    var all := Offered(ALL_LETTERS, None, Crowded(), wide, TYPED);
    RankingIsTotal(|TYPED|);
    TopAscends(Ranking(|TYPED|), all, 1);
    TopIsRanked(Ranking(|TYPED|), all, 1, s);
    assert |Best(ALL_LETTERS, None, Crowded(), wide, TYPED, 1)| <= 1;
    hide Top;
  }

  predicate ListedBefore(a: Option<string>, b: Option<string>) {
    a.Some? && b.Some? && TextLess(a.value, b.value)
  }
}
