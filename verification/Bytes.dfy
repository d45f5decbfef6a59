/** Bytes, little-endian words, and rows laid end to end. */
module Bytes {

  type byte = n: nat | n < 256

  /** The low 16 bits of `n`, low byte first. */
  function Le16(n: nat): (b: seq<byte>)
    ensures |b| == 2
  {
    [n % 0x100, n / 0x100 % 0x100]
  }

  /** The low 32 bits of `n`, low byte first. */
  function Le32(n: nat): (b: seq<byte>)
    ensures |b| == 4
  {
    [n % 0x100, n / 0x100 % 0x100, n / 0x1_0000 % 0x100, n / 0x100_0000 % 0x100]
  }

  function ReadLe16(b: seq<byte>, at: nat): nat
    requires at + 2 <= |b|
  {
    b[at] as int + 0x100 * (b[at + 1] as int)
  }

  function ReadLe32(b: seq<byte>, at: nat): nat
    requires at + 4 <= |b|
  {
    b[at] as int + 0x100 * (b[at + 1] as int) + 0x1_0000 * (b[at + 2] as int) + 0x100_0000 * (b[at + 3] as int)
  }

  /** `field` is what stands in `b` from `at` on. */
  ghost predicate Holds(b: seq<byte>, at: nat, field: seq<byte>) {
    at + |field| <= |b| && b[at..at + |field|] == field
  }

  lemma Le16ReadsBack(b: seq<byte>, at: nat, n: nat)
    requires n < 0x1_0000 && Holds(b, at, Le16(n))
    ensures ReadLe16(b, at) == n
  {
    var field := b[at..at + 2];
    assert b[at] == field[0] && b[at + 1] == field[1];
  }

  lemma Digits(n: nat)
    requires n < 0x1_0000_0000
    ensures n == n % 0x100 + 0x100 * (n / 0x100 % 0x100) + 0x1_0000 * (n / 0x1_0000 % 0x100)
               + 0x100_0000 * (n / 0x100_0000 % 0x100)
  {
    assert n / 0x1_0000 == n / 0x100 / 0x100;
    assert n / 0x100_0000 == n / 0x1_0000 / 0x100;
  }

  lemma Le32ReadsBack(b: seq<byte>, at: nat, n: nat)
    requires n < 0x1_0000_0000 && Holds(b, at, Le32(n))
    ensures ReadLe32(b, at) == n
  {
    var field := b[at..at + 4];
    assert b[at] == field[0] && b[at + 1] == field[1] && b[at + 2] == field[2] && b[at + 3] == field[3];
    Digits(n);
  }

  /** Rows written one after the other. */
  function Flat(rows: seq<seq<byte>>): seq<byte> {
    if rows == [] then [] else Flat(rows[..|rows| - 1]) + rows[|rows| - 1]
  }

  lemma FlatOneMore(rows: seq<seq<byte>>, row: seq<byte>)
    ensures Flat(rows + [row]) == Flat(rows) + row
  {
    assert (rows + [row])[..|rows|] == rows;
  }

  ghost predicate AllOfWidth(rows: seq<seq<byte>>, width: nat) {
    forall k :: 0 <= k < |rows| ==> |rows[k]| == width
  }

  /** Where row `k` starts when every row has the same width. */
  function RowStart(width: nat, k: nat): nat {
    width * k
  }

  lemma OneRowMore(width: nat, k: nat)
    ensures RowStart(width, k + 1) == RowStart(width, k) + width
    ensures RowStart(width, 0) == 0
  {
  }

  lemma {:induction false} RowsInOrder(width: nat, j: nat, k: nat)
    requires j <= k
    ensures RowStart(width, j) <= RowStart(width, k)
    decreases k - j
  {
    hide RowStart;
    if j < k {
      RowsInOrder(width, j, k - 1);
      OneRowMore(width, k - 1);
    }
  }

  lemma {:induction false} FlatLength(rows: seq<seq<byte>>, width: nat)
    requires AllOfWidth(rows, width)
    ensures |Flat(rows)| == RowStart(width, |rows|)
  {
    hide RowStart;
    if rows == [] {
      OneRowMore(width, 0);
    } else {
      FlatLength(rows[..|rows| - 1], width);
      OneRowMore(width, |rows| - 1);
    }
  }

  /** In rows of equal width, row `k` is found where it should start. */
  lemma {:induction false} FlatAt(rows: seq<seq<byte>>, width: nat, k: nat)
    requires AllOfWidth(rows, width) && k < |rows|
    ensures Holds(Flat(rows), RowStart(width, k), rows[k])
  {
    hide RowStart;
    var init, last := rows[..|rows| - 1], rows[|rows| - 1];
    assert Flat(rows) == Flat(init) + last;
    if k < |init| {
      FlatAt(init, width, k);
      hide Flat;
      HoldsBefore(Flat(init), last, RowStart(width, k), rows[k]);
    } else {
      FlatLength(init, width);
      hide Flat;
      HoldsLast(Flat(init), last);
    }
  }

  lemma HoldsBefore(b: seq<byte>, after: seq<byte>, at: nat, field: seq<byte>)
    requires Holds(b, at, field)
    ensures Holds(b + after, at, field)
  {
    assert (b + after)[at..at + |field|] == b[at..at + |field|];
  }

  lemma HoldsLast(front: seq<byte>, field: seq<byte>)
    ensures Holds(front + field, |front|, field)
  {
    assert (front + field)[|front|..|front| + |field|] == field;
  }

  lemma HoldsAfter(front: seq<byte>, back: seq<byte>, at: nat, field: seq<byte>)
    requires at >= |front| && Holds(back, at - |front|, field)
    ensures Holds(front + back, at, field)
  {
    assert (front + back)[at..at + |field|] == back[at - |front|..at - |front| + |field|];
  }

  /** A field of a field. */
  lemma HoldsInside(b: seq<byte>, at: nat, row: seq<byte>, inner: nat, field: seq<byte>)
    requires Holds(b, at, row) && Holds(row, inner, field)
    ensures Holds(b, at + inner, field)
  {
    forall i | 0 <= i < |field| ensures b[at + inner..at + inner + |field|][i] == field[i] {
      assert b[at + inner + i] == b[at..at + |row|][inner + i];
      assert row[inner..inner + |field|][i] == row[inner + i];
    }
    assert b[at + inner..at + inner + |field|] == field;
  }

  /** A field of one of several rows of equal width. */
  lemma HoldsInRow(rows: seq<seq<byte>>, width: nat, k: nat, inner: nat, field: seq<byte>)
    requires AllOfWidth(rows, width) && k < |rows| && Holds(rows[k], inner, field)
    ensures Holds(Flat(rows), RowStart(width, k) + inner, field)
  {
    hide Flat, Holds, RowStart;
    FlatAt(rows, width, k);
    HoldsInside(Flat(rows), RowStart(width, k), rows[k], inner, field);
  }
}
