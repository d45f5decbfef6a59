/** When going by way of a third word is never shorter than the direct way. */
module Triangle {
  import opened Options
  import opened Geometry
  import opened EditDistance

  ghost predicate TriangleHolds(cost: Costs) {
    forall s, t, u :: Distance(cost, s, u) <= Distance(cost, s, t) + Distance(cost, t, u)
  }

  /** Every substitution costs the least there is, so that a swap is never cheaper than two of them. */
  ghost predicate AllNearest(cost: Costs) {
    forall a, b :: a != b ==> cost(a, b) == 0.3
  }

  /** Where swaps are no bargain a cell is reached by a deletion, an insertion or a substitution. */
  lemma PlainStep(cost: Costs, s: string, t: string, i: nat, j: nat)
    requires FairCosts(cost) && AllNearest(cost)
    requires 0 < i <= |s| && 0 < j <= |t|
    ensures Cell(cost, s, t, i, j)
         == Min(Min(Cell(cost, s, t, i - 1, j) + 1.0, Cell(cost, s, t, i, j - 1) + 1.0),
                Cell(cost, s, t, i - 1, j - 1) + cost(s[i - 1], t[j - 1]))
  {
    hide Cell;
    CellStep(cost, s, t, i, j);
    if SwappedHere(s, t, i, j) {
      CellAtMost(cost, s, t, i - 1, j - 1);
      assert cost(s[i - 1], t[j - 1]) == 0.3 && cost(s[i - 2], t[j - 2]) == 0.3;
    }
  }

  lemma {:induction false} CellTriangle(
    cost: Costs, s: string, t: string, u: string, i: nat, j: nat, k: nat
  )
    requires FairCosts(cost) && AllNearest(cost)
    requires i <= |s| && j <= |t| && k <= |u|
    ensures Cell(cost, s, u, i, k) <= Cell(cost, s, t, i, j) + Cell(cost, t, u, j, k)
    decreases i + j + k
  {
    hide Cell;
    CellBorder(cost, s, t, i, j);
    CellBorder(cost, t, u, j, k);
    CellBorder(cost, s, u, i, k);
    CellAtMost(cost, s, u, i, k);
    if i > 0 {
      CellBorder(cost, s, t, i - 1, j);
    }
    if k > 0 {
      CellBorder(cost, t, u, j, k - 1);
    }
    if i > 0 && Cell(cost, s, t, i, j) == Cell(cost, s, t, i - 1, j) + 1.0 {
      CellTriangle(cost, s, t, u, i - 1, j, k);
    } else if k > 0 && Cell(cost, t, u, j, k) == Cell(cost, t, u, j, k - 1) + 1.0 {
      CellTriangle(cost, s, t, u, i, j, k - 1);
    } else if j > 0 {
      ThroughMiddle(cost, s, t, u, i, j, k);
    }
  }

  /** The middle word's last character is typed on one side and used up on the other. */
  lemma ThroughMiddle(cost: Costs, s: string, t: string, u: string, i: nat, j: nat, k: nat)
    requires FairCosts(cost) && AllNearest(cost)
    requires i <= |s| && 0 < j <= |t| && k <= |u|
    requires i > 0 ==> Cell(cost, s, t, i, j) != Cell(cost, s, t, i - 1, j) + 1.0
    requires k > 0 ==> Cell(cost, t, u, j, k) != Cell(cost, t, u, j, k - 1) + 1.0
    ensures Cell(cost, s, u, i, k) <= Cell(cost, s, t, i, j) + Cell(cost, t, u, j, k)
    decreases i + j + k, 0
  {
    hide Cell;
    CellBorder(cost, s, t, i, j);
    CellBorder(cost, s, t, i, j - 1);
    CellBorder(cost, t, u, j, k);
    CellBorder(cost, t, u, j - 1, k);
    CellAtMost(cost, s, u, i, k);
    if i > 0 {
      PlainStep(cost, s, t, i, j);
      CellTriangle(cost, s, t, u, i - 1, j - 1, k);
    }
    if k > 0 {
      PlainStep(cost, t, u, j, k);
      CellTriangle(cost, s, t, u, i, j - 1, k - 1);
    }
    if i > 0 && k > 0 {
      CellTriangle(cost, s, t, u, i - 1, j - 1, k - 1);
    }
    CellTriangle(cost, s, t, u, i, j - 1, k);
  }

  /** One pair dearer than the least, and a detour over its swap beats the direct way. */
  lemma DearPairBreaksTriangle(cost: Costs, a: char, b: char, c: char)
    requires FairCosts(cost) && forall x, y :: x != y ==> 0.3 <= cost(x, y)
    requires a != b && cost(a, b) > 0.3 && c != a && c != b
    ensures Distance(cost, [a, b], [b, a]) + Distance(cost, [b, a], [b, c, a]) < Distance(cost, [a, b], [b, c, a])
  {
    hide Cell;
    SwapIsCheap(cost, a, b);
    InsertionIsOne(cost, a, b, c);
    DirectWayIsDear(cost, a, b, c);
  }

  lemma SwapIsCheap(cost: Costs, a: char, b: char)
    requires a != b
    ensures Distance(cost, [a, b], [b, a]) <= 0.6
  {
    hide Cell;
    CellStep(cost, [a, b], [b, a], 2, 2);
    CellBorder(cost, [a, b], [b, a], 0, 0);
  }

  lemma InsertionIsOne(cost: Costs, a: char, b: char, c: char)
    requires FairCosts(cost)
    ensures Distance(cost, [b, a], [b, c, a]) <= 1.0
  {
    hide Cell;
    var s, t := [b, a], [b, c, a];
    CellAtMost(cost, s, t, 2, 3);
    CellAtMost(cost, s, t, 1, 2);
    CellAtMost(cost, s, t, 1, 1);
    CellBorder(cost, s, t, 0, 0);
  }

  lemma DirectWayIsDear(cost: Costs, a: char, b: char, c: char)
    requires FairCosts(cost) && forall x, y :: x != y ==> 0.3 <= cost(x, y)
    requires a != b && cost(a, b) > 0.3 && c != a && c != b
    ensures Distance(cost, [a, b], [b, c, a]) > 1.6
  {
    hide Cell;
    var s, t := [a, b], [b, c, a];
    assert cost(b, c) >= 0.3 && cost(a, c) >= 0.3 && cost(b, a) == cost(a, b) <= 1.0;
    CellBorder(cost, s, t, 0, 0);
    CellBorder(cost, s, t, 1, 0);
    CellBorder(cost, s, t, 0, 1);
    CellBorder(cost, s, t, 0, 2);
    CellStep(cost, s, t, 1, 1);
    CellStep(cost, s, t, 1, 2);
    CellLowerBound(cost, s, t, 2, 1);
    CellLowerBound(cost, s, t, 1, 2);
    CellLowerBound(cost, s, t, 1, 3);
    CellStep(cost, s, t, 2, 2);
    CellStep(cost, s, t, 2, 3);
  }

  /** A keyboard with every character there is on one spot. */
  ghost predicate OneSpot(geo: Option<KeyboardGeometry>) {
    geo.Some? && forall a, b :: a in geo.value.pos && b in geo.value.pos && geo.value.pos[a] == geo.value.pos[b]
  }

  /** Two characters cost the least only where they share a spot. */
  lemma LeastCostIsOneSpot(geo: Option<KeyboardGeometry>, a: char, b: char)
    requires a != b
    ensures SubstitutionCost(geo, a, b) == 0.3
       <==> geo.Some? && a in geo.value.pos && b in geo.value.pos && geo.value.pos[a] == geo.value.pos[b]
  {
    hide ProximitySq;
    if geo.Some? {
      NearnessVanishes(geo.value, a, b);
    }
  }

  lemma NearnessVanishes(g: KeyboardGeometry, a: char, b: char)
    ensures ProximitySq(g, a, b).Some? <==> a in g.pos && b in g.pos
    ensures ProximitySq(g, a, b).Some? ==>
              ProximitySq(g, a, b).value >= 0.0
              && (g.pos[a] == g.pos[b] ==> ProximitySq(g, a, b).value == 0.0)
              && (g.pos[a] != g.pos[b] ==> ProximitySq(g, a, b).value > 0.0)
  {
    if a in g.pos && b in g.pos {
      var p, q := g.pos[a], g.pos[b];
      var dr, dc := p.row - q.row, p.column - q.column;
      assert p == q <==> dr == 0.0 && dc == 0.0;
      SquaresVanish(dr, dc, ProximitySq(g, a, b).value);
      hide ProximitySq;
    }
  }

  lemma SquaresVanish(x: real, y: real, sum: real)
    requires sum == x * x + y * y
    ensures if x == 0.0 && y == 0.0 then sum == 0.0 else sum > 0.0
  {
    assert sum == Times(x, x) + Times(y, y);
    SquareIsPositive(x);
    SquareIsPositive(y);
    hide Times;
  }

  function Times(x: real, y: real): real {
    x * y
  }

  lemma SquareIsPositive(x: real)
    ensures if x == 0.0 then Times(x, x) == 0.0 else Times(x, x) > 0.0
  {
    hide Times;
    if x > 0.0 {
      PositiveTimes(x, x);
    } else if x < 0.0 {
      PositiveTimes(-x, -x);
      NegatedTimes(x, x);
    } else {
      ZeroTimes(x);
    }
  }

  lemma PositiveTimes(x: real, y: real)
    requires x > 0.0 && y > 0.0
    ensures Times(x, y) > 0.0
  {
  }

  lemma NegatedTimes(x: real, y: real)
    ensures Times(-x, -y) == Times(x, y)
  {
  }

  lemma ZeroTimes(x: real)
    ensures Times(0.0, x) == 0.0
  {
  }

  lemma AllNearestIsOneSpot(geo: Option<KeyboardGeometry>)
    ensures AllNearest(CostsOf(geo)) <==> OneSpot(geo)
  {
    hide SubstitutionCost;
    forall a, b | a != b
      ensures CostsOf(geo)(a, b) == 0.3
         <==> geo.Some? && a in geo.value.pos && b in geo.value.pos && geo.value.pos[a] == geo.value.pos[b]
    {
      LeastCostIsOneSpot(geo, a, b);
    }
    if AllNearest(CostsOf(geo)) {
      assert CostsOf(geo)('x', 'y') == 0.3;
      forall a, b ensures a in geo.value.pos && b in geo.value.pos && geo.value.pos[a] == geo.value.pos[b] {
        var other := if a == 'x' then 'y' else 'x';
        assert CostsOf(geo)(a, other) == 0.3;
        if a != b {
          assert CostsOf(geo)(a, b) == 0.3;
        }
      }
    }
  }

  /**
   * The distance is a metric on no keyboard there is: going by way of a third word is never shorter
   * exactly when every character shares one spot.
   */
  lemma TriangleHoldsIffOneSpot(geo: Option<KeyboardGeometry>)
    ensures TriangleHolds(CostsOf(geo)) <==> OneSpot(geo)
  {
    var cost := CostsOf(geo);
    EveryKeyboardIsFair(geo);
    AllNearestIsOneSpot(geo);
    hide CostsOf, Cell, OneSpot;
    if AllNearest(cost) {
      forall s, t, u ensures Distance(cost, s, u) <= Distance(cost, s, t) + Distance(cost, t, u) {
        CellTriangle(cost, s, t, u, |s|, |t|, |u|);
      }
    } else {
      var a, b :| a != b && cost(a, b) != 0.3;
      var c := if a != 'x' && b != 'x' then 'x' else if a != 'y' && b != 'y' then 'y' else 'z';
      DearPairBreaksTriangle(cost, a, b, c);
    }
  }
}
