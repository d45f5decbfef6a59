/** Physical keyboard geometry: which keys are neighbours, measured in key units. */
module Geometry {
  import opened Options

  datatype Point = Point(row: real, column: real)

  /** The character-to-key map of one layout. */
  datatype KeyboardGeometry = KeyboardGeometry(pos: map<char, Point>)

  /** Position of a Set-1 scancode on the staggered board; None off the grid. */
  function GridPosition(scancode: nat): Option<Point> {
    if 0x02 <= scancode <= 0x0D then
      Some(Point(0.0, (scancode - 0x02) as real))
    else if 0x10 <= scancode <= 0x1B then
      Some(Point(1.0, (scancode - 0x10) as real + 0.5))
    else if 0x1E <= scancode <= 0x28 then
      Some(Point(2.0, (scancode - 0x1E) as real + 0.75))
    else if scancode == 0x2B then
      Some(Point(2.0, 11.75))
    else if 0x2C <= scancode <= 0x35 then
      Some(Point(3.0, (scancode - 0x2C) as real + 1.25))
    else if scancode == 0x56 then
      Some(Point(3.0, 0.25))
    else
      None
  }

  /** `pair` names a key on the grid, and `c` is among the lowercase of what it types. */
  predicate Produces(lower: char -> string, pair: (nat, char), c: char) {
    GridPosition(pair.0).Some? && c in lower(pair.1)
  }

  /** `c` sits where the first pair producing it says, and nowhere if no pair does. */
  ghost predicate PlacedByFirst(lower: char -> string, pairs: seq<(nat, char)>, pos: map<char, Point>, c: char) {
    if exists k :: 0 <= k < |pairs| && Produces(lower, pairs[k], c) then
      exists k :: 0 <= k < |pairs|
                  && Produces(lower, pairs[k], c)
                  && (forall j :: 0 <= j < k ==> !Produces(lower, pairs[j], c))
                  && c in pos && pos[c] == GridPosition(pairs[k].0).value
    else
      c !in pos
  }

  /** Two keys may produce one character; the first pair wins, whatever follows. */
  method FromScancodeChars(lower: char -> string, pairs: seq<(nat, char)>) returns (geo: KeyboardGeometry)
    ensures forall c :: PlacedByFirst(lower, pairs, geo.pos, c)
  {
    var pos: map<char, Point> := map[];
    for i := 0 to |pairs|
      invariant forall c :: PlacedByFirst(lower, pairs[..i], pos, c)
    {
      ghost var before := pos;
      var place := GridPosition(pairs[i].0);
      if place.Some? {
        var lowered := lower(pairs[i].1);
        for k := 0 to |lowered|
          invariant forall c :: c in pos <==> c in before || c in lowered[..k]
          invariant forall c :: c in pos ==> pos[c] == if c in before then before[c] else place.value
        {
          if lowered[k] !in pos {
            pos := pos[lowered[k] := place.value];
          }
        }
        assert lowered[..|lowered|] == lowered;
      }
      forall c: char {:trigger c in pos} ensures PlacedByFirst(lower, pairs[..i + 1], pos, c) {
        PlacedByOneMore(lower, pairs, i, before, pos, c);
      }
    }
    assert pairs[..|pairs|] == pairs;
    geo := KeyboardGeometry(pos);
  }

  /** Adding one pair keeps every earlier placement and fills only what was missing. */
  lemma PlacedByOneMore(
    lower: char -> string, pairs: seq<(nat, char)>, i: nat, before: map<char, Point>, after: map<char, Point>, c: char
  )
    requires i < |pairs|
    requires PlacedByFirst(lower, pairs[..i], before, c)
    requires c in after <==> c in before || Produces(lower, pairs[i], c)
    requires c in before ==> after[c] == before[c]
    requires c in after && c !in before ==> after[c] == GridPosition(pairs[i].0).value
    ensures PlacedByFirst(lower, pairs[..i + 1], after, c)
  {
    var seen, grown := pairs[..i], pairs[..i + 1];
    if exists k :: 0 <= k < |seen| && Produces(lower, seen[k], c) {
      var k :| 0 <= k < |seen| && Produces(lower, seen[k], c)
               && (forall j :: 0 <= j < k ==> !Produces(lower, seen[j], c))
               && c in before && before[c] == GridPosition(seen[k].0).value;
      assert grown[k] == seen[k];
      assert forall j :: 0 <= j < k ==> grown[j] == seen[j];
    } else if Produces(lower, pairs[i], c) {
      assert grown[i] == pairs[i];
      assert forall j :: 0 <= j < i ==> grown[j] == seen[j];
    } else {
      assert forall j :: 0 <= j < i ==> grown[j] == seen[j];
      assert grown[i] == pairs[i];
    }
  }

  function ProximitySq(geo: KeyboardGeometry, a: char, b: char): Option<real> {
    if a in geo.pos && b in geo.pos then
      var dr := geo.pos[a].row - geo.pos[b].row;
      var dc := geo.pos[a].column - geo.pos[b].column;
      Some(dr * dr + dc * dc)
    else
      None
  }

  /** Squared distance is never negative and does not care which key came first. */
  lemma ProximityIsSymmetric(geo: KeyboardGeometry, a: char, b: char)
    ensures ProximitySq(geo, a, b) == ProximitySq(geo, b, a)
    ensures ProximitySq(geo, a, b).Some? ==> ProximitySq(geo, a, b).value >= 0.0
  {
    if a in geo.pos && b in geo.pos {
      var dr := geo.pos[a].row - geo.pos[b].row;
      var dc := geo.pos[a].column - geo.pos[b].column;
      SquareFacts(dr);
      SquareFacts(dc);
    }
  }

  lemma SquareFacts(x: real)
    ensures x * x == (-x) * (-x)
    ensures x * x >= 0.0
  {
  }
}
