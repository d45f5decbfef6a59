/** Weighted optimal-string-alignment distance between a typed token and a candidate word. */
module EditDistance {
  import opened Options
  import opened Geometry

  const TRANSPOSITION_COST := 0.6

  function Min(x: real, y: real): real {
    if x <= y then x else y
  }

  /** Cost of typing `a` where `b` was meant, graded by physical key distance. */
  function SubstitutionCost(geo: Option<KeyboardGeometry>, a: char, b: char): real {
    if a == b then
      0.0
    else
      var near := match geo case Some(g) => ProximitySq(g, a, b) case None => None;
      if near.Some? && near.value <= 2.25 then 0.3 + 0.1 * near.value else 1.0
  }

  lemma SubstitutionCostBounds(geo: Option<KeyboardGeometry>, a: char, b: char)
    ensures SubstitutionCost(geo, a, b) == SubstitutionCost(geo, b, a)
    ensures a == b ==> SubstitutionCost(geo, a, b) == 0.0
    ensures a != b ==> 0.3 <= SubstitutionCost(geo, a, b) <= 1.0
  {
    if geo.Some? {
      ProximityIsSymmetric(geo.value, a, b);
    }
  }

  /** The price list of one keyboard. */
  type Costs = (char, char) -> real

  function CostsOf(geo: Option<KeyboardGeometry>): Costs {
    (a: char, b: char) => SubstitutionCost(geo, a, b)
  }

  /** Matching is free, mistyping is not, and no single slip costs more than an insertion. */
  ghost predicate FairCosts(cost: Costs) {
    forall a, b ::
      && cost(a, b) == cost(b, a)
      && (a == b ==> cost(a, b) == 0.0)
      && (a != b ==> 0.0 < cost(a, b) <= 1.0)
  }

  lemma EveryKeyboardIsFair(geo: Option<KeyboardGeometry>)
    ensures FairCosts(CostsOf(geo))
    ensures forall a, b :: a != b ==> 0.3 <= CostsOf(geo)(a, b)
  {
    forall a, b
      ensures a != b ==> 0.3 <= CostsOf(geo)(a, b)
      ensures var cost := CostsOf(geo);
              && cost(a, b) == cost(b, a)
              && (a == b ==> cost(a, b) == 0.0)
              && (a != b ==> 0.0 < cost(a, b) <= 1.0)
    {
      SubstitutionCostBounds(geo, a, b);
    }
  }

  // ---- Edit scripts: what the distance is the minimum over ----

  datatype Edit =
    | Substitute(typed: char, meant: char) // a match when the two agree
    | Insert(missing: char)
    | Delete(extra: char)
    | Swap(first: char, second: char) // two adjacent keys, each used once

  ghost function Typed(e: Edit): string {
    match e
    case Substitute(a, _) => [a]
    case Insert(_) => []
    case Delete(a) => [a]
    case Swap(a, b) => [a, b]
  }

  ghost function Meant(e: Edit): string {
    match e
    case Substitute(_, b) => [b]
    case Insert(b) => [b]
    case Delete(_) => []
    case Swap(a, b) => [b, a]
  }

  /** The token a script starts from. */
  ghost function Before(script: seq<Edit>): string {
    if script == [] then [] else Before(script[..|script| - 1]) + Typed(script[|script| - 1])
  }

  /** The word a script ends at. */
  ghost function After(script: seq<Edit>): string {
    if script == [] then [] else After(script[..|script| - 1]) + Meant(script[|script| - 1])
  }

  ghost function EditCost(cost: Costs, e: Edit): real {
    match e
    case Substitute(a, b) => cost(a, b)
    case Insert(_) => 1.0
    case Delete(_) => 1.0
    case Swap(_, _) => TRANSPOSITION_COST
  }

  ghost function ScriptCost(cost: Costs, script: seq<Edit>): real {
    if script == [] then 0.0
    else ScriptCost(cost, script[..|script| - 1]) + EditCost(cost, script[|script| - 1])
  }

  ghost predicate Transforms(script: seq<Edit>, s: string, t: string) {
    Before(script) == s && After(script) == t
  }

  /** `price` is attained by some script from `s` to `t`, and no script is cheaper. */
  ghost predicate IsCheapestScriptCost(cost: Costs, s: string, t: string, price: real) {
    && (exists script :: Transforms(script, s, t) && ScriptCost(cost, script) == price)
    && (forall script :: Transforms(script, s, t) ==> price <= ScriptCost(cost, script))
  }

  // ---- The full matrix ----

  predicate SwappedHere(s: string, t: string, i: nat, j: nat)
    requires 0 < i <= |s| && 0 < j <= |t|
  {
    i > 1 && j > 1 && s[i - 1] == t[j - 2] && s[i - 2] == t[j - 1] && s[i - 1] != t[j - 1]
  }

  /** Matrix cell: distance between the first `i` characters of `s` and the first `j` of `t`. */
  function Cell(cost: Costs, s: string, t: string, i: nat, j: nat): real
    requires i <= |s| && j <= |t|
    decreases i + j
  {
    if i == 0 then j as real
    else if j == 0 then i as real
    else
      var sub := Cell(cost, s, t, i - 1, j - 1) + cost(s[i - 1], t[j - 1]);
      var best := Min(Min(Cell(cost, s, t, i - 1, j) + 1.0, Cell(cost, s, t, i, j - 1) + 1.0), sub);
      if SwappedHere(s, t, i, j) then Min(best, Cell(cost, s, t, i - 2, j - 2) + TRANSPOSITION_COST) else best
  }

  function Distance(cost: Costs, s: string, t: string): real {
    Cell(cost, s, t, |s|, |t|)
  }

  /** What one cell promises, without unfolding its neighbours. */
  lemma CellStep(cost: Costs, s: string, t: string, i: nat, j: nat)
    requires 0 < i <= |s| && 0 < j <= |t|
    ensures var c := Cell(cost, s, t, i, j);
            var best := Min(Min(Cell(cost, s, t, i - 1, j) + 1.0, Cell(cost, s, t, i, j - 1) + 1.0),
                            Cell(cost, s, t, i - 1, j - 1) + cost(s[i - 1], t[j - 1]));
            c == if SwappedHere(s, t, i, j) then Min(best, Cell(cost, s, t, i - 2, j - 2) + TRANSPOSITION_COST)
                else best
  {
  }

  /** The borders of the matrix: everything inserted, or everything deleted. */
  lemma CellBorder(cost: Costs, s: string, t: string, i: nat, j: nat)
    requires i <= |s| && j <= |t|
    ensures i == 0 ==> Cell(cost, s, t, i, j) == j as real
    ensures j == 0 ==> Cell(cost, s, t, i, j) == i as real
  {
  }

  /** A cell never exceeds what any single edit into it costs. */
  lemma CellAtMost(cost: Costs, s: string, t: string, i: nat, j: nat)
    requires i <= |s| && j <= |t|
    ensures i > 0 ==> Cell(cost, s, t, i, j) <= Cell(cost, s, t, i - 1, j) + 1.0
    ensures j > 0 ==> Cell(cost, s, t, i, j) <= Cell(cost, s, t, i, j - 1) + 1.0
    ensures i > 0 && j > 0 ==> Cell(cost, s, t, i, j) <= Cell(cost, s, t, i - 1, j - 1) + cost(s[i - 1], t[j - 1])
    ensures i > 0 && j > 0 && SwappedHere(s, t, i, j) ==>
              Cell(cost, s, t, i, j) <= Cell(cost, s, t, i - 2, j - 2) + TRANSPOSITION_COST
  {
    hide Cell;
    CellBorder(cost, s, t, i, j);
    if i > 0 {
      CellBorder(cost, s, t, i - 1, j);
    }
    if j > 0 {
      CellBorder(cost, s, t, i, j - 1);
    }
    if i > 0 && j > 0 {
      CellStep(cost, s, t, i, j);
    }
  }

  /** No script reaching cell (i, j) undercuts it, not even one that swaps equal neighbours. */
  lemma {:induction false} NoScriptUndercuts(
    cost: Costs, s: string, t: string, i: nat, j: nat, script: seq<Edit>
  )
    requires FairCosts(cost)
    requires i <= |s| && j <= |t|
    requires Transforms(script, s[..i], t[..j])
    ensures Cell(cost, s, t, i, j) <= ScriptCost(cost, script)
    decreases |script|
  {
    hide Cell, Before, After, ScriptCost;
    EmptyScript(cost);
    if script == [] {
      CellBorder(cost, s, t, i, j);
      return;
    }
    var init, last := script[..|script| - 1], script[|script| - 1];
    assert script == init + [last];
    AppendEdit(cost, init, last);
    Peel(s, i, Before(init), Typed(last));
    Peel(t, j, After(init), Meant(last));
    NoScriptUndercuts(cost, s, t, i - |Typed(last)|, j - |Meant(last)|, init);
    EditIsNoShortcut(cost, s, t, i, j, last);
    hide *;
  }

  /** One edit never costs less than the step it makes through the matrix. */
  lemma EditIsNoShortcut(cost: Costs, s: string, t: string, i: nat, j: nat, e: Edit)
    requires FairCosts(cost)
    requires |Typed(e)| <= i <= |s| && |Meant(e)| <= j <= |t|
    requires forall k :: 0 <= k < |Typed(e)| ==> s[i - |Typed(e)| + k] == Typed(e)[k]
    requires forall k :: 0 <= k < |Meant(e)| ==> t[j - |Meant(e)| + k] == Meant(e)[k]
    ensures Cell(cost, s, t, i, j) <= Cell(cost, s, t, i - |Typed(e)|, j - |Meant(e)|) + EditCost(cost, e)
  {
    hide Cell;
    CellAtMost(cost, s, t, i, j);
    assert |Typed(e)| > 0 ==> s[i - |Typed(e)| + 0] == Typed(e)[0];
    assert |Meant(e)| > 0 ==> t[j - |Meant(e)| + 0] == Meant(e)[0];
    if e.Swap? {
      assert s[i - 2 + 1] == Typed(e)[1] && t[j - 2 + 1] == Meant(e)[1];
      CellAtMost(cost, s, t, i - 1, j - 1);
    }
  }

  lemma Peel(s: string, i: nat, init: string, tail: string)
    requires i <= |s| && s[..i] == init + tail
    ensures |tail| <= i && init == s[..i - |tail|]
    ensures forall k :: 0 <= k < |tail| ==> s[i - |tail| + k] == tail[k]
  {
    assert forall k :: 0 <= k < |tail| ==> s[..i][i - |tail| + k] == tail[k];
  }

  /** Every cell is paid for by an actual script. */
  lemma {:induction false} CheapestScript(cost: Costs, s: string, t: string, i: nat, j: nat)
    returns (script: seq<Edit>)
    requires i <= |s| && j <= |t|
    ensures Transforms(script, s[..i], t[..j])
    ensures ScriptCost(cost, script) == Cell(cost, s, t, i, j)
    decreases i + j
  {
    hide Cell, Before, After, ScriptCost;
    CellBorder(cost, s, t, i, j);
    if i > 0 && j > 0 {
      CellStep(cost, s, t, i, j);
    }
    var init, last;
    if i == 0 && j == 0 {
      EmptyScript(cost);
      return [];
    } else if i == 0 || (j > 0 && Cell(cost, s, t, i, j) == Cell(cost, s, t, i, j - 1) + 1.0) {
      init := CheapestScript(cost, s, t, i, j - 1);
      last := Insert(t[j - 1]);
      CellBorder(cost, s, t, i, j - 1);
    } else if j == 0 || Cell(cost, s, t, i, j) == Cell(cost, s, t, i - 1, j) + 1.0 {
      init := CheapestScript(cost, s, t, i - 1, j);
      last := Delete(s[i - 1]);
      CellBorder(cost, s, t, i - 1, j);
    } else if Cell(cost, s, t, i, j) == Cell(cost, s, t, i - 1, j - 1) + cost(s[i - 1], t[j - 1]) {
      init := CheapestScript(cost, s, t, i - 1, j - 1);
      last := Substitute(s[i - 1], t[j - 1]);
    } else {
      init := CheapestScript(cost, s, t, i - 2, j - 2);
      last := Swap(s[i - 2], s[i - 1]);
    }
    AppendEdit(cost, init, last);
    script := init + [last];
  }

  lemma EmptyScript(cost: Costs)
    ensures Before([]) == [] && After([]) == [] && ScriptCost(cost, []) == 0.0
  {
  }

  /** What one more edit adds to both ends of a script and to its price. */
  lemma AppendEdit(cost: Costs, init: seq<Edit>, last: Edit)
    ensures Before(init + [last]) == Before(init) + Typed(last)
    ensures After(init + [last]) == After(init) + Meant(last)
    ensures ScriptCost(cost, init + [last]) == ScriptCost(cost, init) + EditCost(cost, last)
  {
    assert (init + [last])[..|init|] == init;
  }

  lemma DistanceIsCheapestScriptCost(cost: Costs, s: string, t: string)
    requires FairCosts(cost)
    ensures IsCheapestScriptCost(cost, s, t, Distance(cost, s, t))
  {
    assert s[..|s|] == s && t[..|t|] == t;
    var script := CheapestScript(cost, s, t, |s|, |t|);
    forall other | Transforms(other, s, t) ensures Distance(cost, s, t) <= ScriptCost(cost, other) {
      NoScriptUndercuts(cost, s, t, |s|, |t|, other);
    }
  }

  lemma KeyboardDistanceIsCheapest(geo: Option<KeyboardGeometry>, s: string, t: string)
    ensures IsCheapestScriptCost(CostsOf(geo), s, t, Distance(CostsOf(geo), s, t))
  {
    EveryKeyboardIsFair(geo);
    DistanceIsCheapestScriptCost(CostsOf(geo), s, t);
  }

  // ---- The three rolling rows ----

  /** Computes the cheapest script cost while keeping only three matrix rows. */
  method WeightedOsa(typed: string, cand: string, geo: Option<KeyboardGeometry>) returns (d: real)
    ensures IsCheapestScriptCost(CostsOf(geo), typed, cand, d)
    ensures d == Distance(CostsOf(geo), typed, cand)
  {
    hide Cell, CostsOf, IsCheapestScriptCost, SubstitutionCost;
    var cost := CostsOf(geo);
    KeyboardDistanceIsCheapest(geo, typed, cand);
    var n, m := |typed|, |cand|;
    CellBorder(cost, typed, cand, n, m);
    if n == 0 {
      return m as real;
    }
    if m == 0 {
      return n as real;
    }
    var prev2 := new real[m + 1](_ => 0.0);
    var prev := new real[m + 1](_ => 0.0);
    var cur := new real[m + 1](_ => 0.0);
    for j := 0 to m + 1
      invariant forall k :: 0 <= k < j ==> prev[k] == Cell(cost, typed, cand, 0, k)
    {
      CellBorder(cost, typed, cand, 0, j);
      prev[j] := j as real;
    }
    for i := 1 to n + 1
      invariant fresh(prev2) && fresh(prev) && fresh(cur)
      invariant prev2 != prev && prev != cur && prev2 != cur
      invariant prev2.Length == prev.Length == cur.Length == m + 1
      invariant forall j :: 0 <= j <= m ==> prev[j] == Cell(cost, typed, cand, i - 1, j)
      invariant i > 1 ==> forall j :: 0 <= j <= m ==> prev2[j] == Cell(cost, typed, cand, i - 2, j)
    {
      CellBorder(cost, typed, cand, i, 0);
      cur[0] := i as real;
      for j := 1 to m + 1
        invariant forall k :: 0 <= k <= m ==> prev[k] == Cell(cost, typed, cand, i - 1, k)
        invariant i > 1 ==> forall k :: 0 <= k <= m ==> prev2[k] == Cell(cost, typed, cand, i - 2, k)
        invariant forall k :: 0 <= k < j ==> cur[k] == Cell(cost, typed, cand, i, k)
      {
        CellStep(cost, typed, cand, i, j);
        var a, b := typed[i - 1], cand[j - 1];
        var subCost := cost(a, b);
        var best := Min(Min(prev[j] + 1.0, cur[j - 1] + 1.0), prev[j - 1] + subCost);
        if i > 1 && j > 1 && a == cand[j - 2] && typed[i - 2] == b && a != b {
          best := Min(best, prev2[j - 2] + TRANSPOSITION_COST);
        }
        cur[j] := best;
      }
      prev2, prev := prev, prev2;
      prev, cur := cur, prev;
    }
    d := prev[m];
  }

  // ---- What the distance measures ----

  /** Swapping the roles of the two words changes nothing, for any keyboard. */
  lemma {:induction false} CellIsSymmetric(cost: Costs, s: string, t: string, i: nat, j: nat)
    requires FairCosts(cost)
    requires i <= |s| && j <= |t|
    ensures Cell(cost, s, t, i, j) == Cell(cost, t, s, j, i)
    decreases i + j
  {
    hide Cell;
    CellBorder(cost, s, t, i, j);
    CellBorder(cost, t, s, j, i);
    if i > 0 && j > 0 {
      CellStep(cost, s, t, i, j);
      CellStep(cost, t, s, j, i);
      CellIsSymmetric(cost, s, t, i - 1, j);
      CellIsSymmetric(cost, s, t, i, j - 1);
      CellIsSymmetric(cost, s, t, i - 1, j - 1);
      if i > 1 && j > 1 {
        CellIsSymmetric(cost, s, t, i - 2, j - 2);
      }
    }
  }

  lemma {:induction false} CellLowerBound(cost: Costs, s: string, t: string, i: nat, j: nat)
    requires FairCosts(cost)
    requires i <= |s| && j <= |t|
    ensures Cell(cost, s, t, i, j) >= (if i >= j then i - j else j - i) as real
    decreases i + j
  {
    hide Cell;
    CellBorder(cost, s, t, i, j);
    if i > 0 && j > 0 {
      CellStep(cost, s, t, i, j);
      CellLowerBound(cost, s, t, i - 1, j);
      CellLowerBound(cost, s, t, i, j - 1);
      CellLowerBound(cost, s, t, i - 1, j - 1);
      if i > 1 && j > 1 {
        CellLowerBound(cost, s, t, i - 2, j - 2);
      }
    }
  }

  lemma {:induction false} CellUpperBound(cost: Costs, s: string, t: string, i: nat, j: nat)
    requires FairCosts(cost)
    requires i <= |s| && j <= |t|
    ensures Cell(cost, s, t, i, j) <= (if i >= j then i else j) as real
    decreases i + j
  {
    if i > 0 && j > 0 {
      CellUpperBound(cost, s, t, i - 1, j - 1);
    }
  }

  lemma {:induction false} CellZeroMeansEqual(cost: Costs, s: string, t: string, i: nat, j: nat)
    requires FairCosts(cost)
    requires i <= |s| && j <= |t|
    ensures Cell(cost, s, t, i, j) == 0.0 <==> s[..i] == t[..j]
    decreases i + j
  {
    hide Cell;
    CellBorder(cost, s, t, i, j);
    CellLowerBound(cost, s, t, i, j);
    if i > 0 && j > 0 {
      CellStep(cost, s, t, i, j);
      CellLowerBound(cost, s, t, i - 1, j);
      CellLowerBound(cost, s, t, i, j - 1);
      CellLowerBound(cost, s, t, i - 1, j - 1);
      CellZeroMeansEqual(cost, s, t, i - 1, j - 1);
      if i > 1 && j > 1 {
        CellLowerBound(cost, s, t, i - 2, j - 2);
      }
      assert s[..i] == s[..i - 1] + [s[i - 1]] && t[..j] == t[..j - 1] + [t[j - 1]];
    }
  }

  /** Symmetric, zero exactly on equal words, and pinned between the length gap and the longer length. */
  lemma DistanceProperties(geo: Option<KeyboardGeometry>, s: string, t: string)
    ensures var cost := CostsOf(geo); Distance(cost, s, t) == Distance(cost, t, s)
    ensures Distance(CostsOf(geo), s, t) == 0.0 <==> s == t
    ensures (if |s| >= |t| then |s| - |t| else |t| - |s|) as real <= Distance(CostsOf(geo), s, t)
    ensures Distance(CostsOf(geo), s, t) <= (if |s| >= |t| then |s| else |t|) as real
  {
    assert s[..|s|] == s && t[..|t|] == t;
    var cost := CostsOf(geo);
    EveryKeyboardIsFair(geo);
    CellIsSymmetric(cost, s, t, |s|, |t|);
    CellZeroMeansEqual(cost, s, t, |s|, |t|);
    CellLowerBound(cost, s, t, |s|, |t|);
    CellUpperBound(cost, s, t, |s|, |t|);
  }
}
