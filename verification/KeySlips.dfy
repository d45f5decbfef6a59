/** How a slip to a neighbouring key is priced, and what that does to the ranking of words. */
module KeySlips {
  import opened Options
  import opened Geometry
  import opened EditDistance

  // ---- How far apart two keys are ----

  function Square(x: real): real {
    x * x
  }

  /** The squared distance between two points of the board. */
  function Apart(p: Point, q: Point): real {
    Square(p.row - q.row) + Square(p.column - q.column)
  }

  ghost predicate OnBoard(geo: Option<KeyboardGeometry>, a: char) {
    geo.Some? && a in geo.value.pos
  }

  /** Both keys are on the board, at most one and a half keys apart. */
  ghost predicate Near(geo: Option<KeyboardGeometry>, a: char, b: char) {
    OnBoard(geo, a) && OnBoard(geo, b) && Apart(geo.value.pos[a], geo.value.pos[b]) <= 1.5 * 1.5
  }

  // ---- What a slip costs ----

  /** Only a slip to a key near by is graded; any other wrong character costs an insertion. */
  lemma SlipIsGradedIffNear(geo: Option<KeyboardGeometry>, a: char, b: char)
    requires a != b
    ensures CostsOf(geo)(a, b) < 1.0 <==> Near(geo, a, b)
    ensures !Near(geo, a, b) ==> CostsOf(geo)(a, b) == 1.0
  {
    hide SubstitutionCost, CostsOf, Apart;
    SlipPrice(geo, a, b);
  }

  /** Among the slips near by the nearer key is the cheaper, from 0.3 on, by a tenth of the squared distance. */
  lemma NearerSlipIsCheaper(geo: Option<KeyboardGeometry>, a: char, b: char, c: char, d: char)
    requires a != b && c != d && Near(geo, a, b) && Near(geo, c, d)
    ensures var ab, cd := Apart(geo.value.pos[a], geo.value.pos[b]), Apart(geo.value.pos[c], geo.value.pos[d]);
            && (CostsOf(geo)(a, b) < CostsOf(geo)(c, d) <==> ab < cd)
            && 10.0 * (CostsOf(geo)(c, d) - CostsOf(geo)(a, b)) == cd - ab
            && (ab == 0.0 ==> CostsOf(geo)(a, b) == 0.3)
  {
    hide SubstitutionCost, CostsOf, Apart;
    SlipPrice(geo, a, b);
    SlipPrice(geo, c, d);
  }

  lemma SlipPrice(geo: Option<KeyboardGeometry>, a: char, b: char)
    requires a != b
    ensures CostsOf(geo)(a, b)
         == if Near(geo, a, b) then 0.3 + 0.1 * Apart(geo.value.pos[a], geo.value.pos[b]) else 1.0
  {
    if OnBoard(geo, a) && OnBoard(geo, b) {
      ProximityIsApart(geo.value, a, b);
      hide ProximitySq, Apart;
    }
  }

  lemma ProximityIsApart(geo: KeyboardGeometry, a: char, b: char)
    requires a in geo.pos && b in geo.pos
    ensures ProximitySq(geo, a, b).Some?
    ensures ProximitySq(geo, a, b).value == Apart(geo.pos[a], geo.pos[b])
  {
    var near := ProximitySq(geo, a, b);
    var dr, dc := geo.pos[a].row - geo.pos[b].row, geo.pos[a].column - geo.pos[b].column;
    assert near.value == dr * dr + dc * dc;
  }

  // ---- What a single slip does to the distance ----

  /** `s` and `t` are alike but for position `n`. */
  ghost predicate DifferAt(s: string, t: string, n: nat) {
    n < |s| == |t| && s[n] != t[n] && forall k :: 0 <= k < |s| && k != n ==> s[k] == t[k]
  }

  lemma {:induction false} DiagonalOfOneSlip(cost: Costs, s: string, t: string, n: nat, i: nat)
    requires FairCosts(cost) && DifferAt(s, t, n) && i <= |s|
    ensures Cell(cost, s, t, i, i) == if i <= n then 0.0 else cost(s[n], t[n])
  {
    hide Cell;
    CellBorder(cost, s, t, i, i);
    if i > 0 {
      DiagonalOfOneSlip(cost, s, t, n, i - 1);
      CellStep(cost, s, t, i, i);
      CellLowerBound(cost, s, t, i - 1, i);
      CellLowerBound(cost, s, t, i, i - 1);
      assert !SwappedHere(s, t, i, i);
      assert 0.0 < cost(s[n], t[n]) <= 1.0;
    }
  }

  /** One wrong character costs what its slip costs: no other way round is cheaper. */
  lemma OneSlipCostsItself(cost: Costs, s: string, t: string, n: nat)
    requires FairCosts(cost) && DifferAt(s, t, n)
    ensures Distance(cost, s, t) == cost(s[n], t[n])
  {
    DiagonalOfOneSlip(cost, s, t, n, |s|);
  }

  /**
   * Of two words that differ from the token in the same single place the one whose key is nearer is the
   * nearer word, and a key near by is nearer than one that is not.
   */
  lemma NearerSlipRanksFirst(geo: Option<KeyboardGeometry>, typed: string, n: nat, b: char, c: char)
    requires n < |typed| && b != typed[n] && c != typed[n]
    ensures var a := typed[n];
            Distance(CostsOf(geo), typed, typed[n := b]) < Distance(CostsOf(geo), typed, typed[n := c])
            <==> Near(geo, a, b)
                 && (Near(geo, a, c) ==>
                       Apart(geo.value.pos[a], geo.value.pos[b]) < Apart(geo.value.pos[a], geo.value.pos[c]))
  {
    var a := typed[n];
    EveryKeyboardIsFair(geo);
    OneSlipCostsItself(CostsOf(geo), typed, typed[n := b], n);
    OneSlipCostsItself(CostsOf(geo), typed, typed[n := c], n);
    SlipIsGradedIffNear(geo, a, b);
    SlipIsGradedIffNear(geo, a, c);
    if Near(geo, a, b) && Near(geo, a, c) {
      NearerSlipIsCheaper(geo, a, b, a, c);
    }
    hide *;
  }

  // ---- The board itself ----

  /** Keys side by side are one apart, and each row is shifted against the one above it. */
  lemma RowsAreStaggered(i: nat)
    requires i <= 9
    ensures var digit, upper, home, lower := GridPosition(0x02 + i), GridPosition(0x10 + i), GridPosition(0x1E + i),
                                             GridPosition(0x2C + i);
            && digit.Some? && upper.Some? && home.Some? && lower.Some?
            && (upper.value.row, upper.value.column) == (digit.value.row + 1.0, digit.value.column + 0.5)
            && (home.value.row, home.value.column) == (upper.value.row + 1.0, upper.value.column + 0.25)
            && (lower.value.row, lower.value.column) == (home.value.row + 1.0, home.value.column + 0.5)
  {
  }

  /** The ends of the rows: how far each goes on, and the two keys that are out of line. */
  lemma RowsEnd(code: nat)
    ensures GridPosition(code).None?
       <==> code < 0x02 || 0x0D < code < 0x10 || 0x1B < code < 0x1E || 0x28 < code < 0x2B || 0x35 < code != 0x56
    ensures code in [0x02, 0x10, 0x1E, 0x2C] ==> 0.0 <= GridPosition(code).value.column < 1.5
    ensures GridPosition(code).Some? && GridPosition(code + 1).Some? && code != 0x2B ==>
              GridPosition(code).value.row == GridPosition(code + 1).value.row
              && GridPosition(code + 1).value.column == GridPosition(code).value.column + 1.0
    ensures GridPosition(0x2B) == Some(Point(2.0, GridPosition(0x28).value.column + 1.0))
    ensures GridPosition(0x56) == Some(Point(3.0, GridPosition(0x2C).value.column - 1.0))
  {
  }

  /** Where the letters of an English keyboard are, in part: w and e side by side, a below and between q and w. */
  ghost predicate HasWea(geo: KeyboardGeometry) {
    && 'w' in geo.pos && GridPosition(0x11) == Some(geo.pos['w'])
    && 'e' in geo.pos && GridPosition(0x12) == Some(geo.pos['e'])
    && 'a' in geo.pos && GridPosition(0x1E) == Some(geo.pos['a'])
  }

  /** The example the ranking is meant for: a slip from w to e beside it before one from w to a below it. */
  lemma HelloBeforeHallo(geo: KeyboardGeometry)
    requires HasWea(geo)
    ensures Distance(CostsOf(Some(geo)), "hwllo", "hello") < Distance(CostsOf(Some(geo)), "hwllo", "hallo") < 1.0
  {
    assert Apart(geo.pos['w'], geo.pos['e']) == 1.0;
    assert Apart(geo.pos['w'], geo.pos['a']) == 1.5625;
    hide Apart;
    NearerSlipRanksFirst(Some(geo), "hwllo", 1, 'e', 'a');
    SlipIsGradedIffNear(Some(geo), 'w', 'a');
    EveryKeyboardIsFair(Some(geo));
    OneSlipCostsItself(CostsOf(Some(geo)), "hwllo", "hallo", 1);
    assert "hwllo"[1 := 'e'] == "hello" && "hwllo"[1 := 'a'] == "hallo";
  }
}
