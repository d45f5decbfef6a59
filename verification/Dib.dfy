/** One icon image as a 32-bit bitmap: header, colour rows bottom-up, then the AND mask. */
module Dib {
  import opened Bytes

  const BMP_HEADER := 40

  // ---- Bits within a byte ----

  /** The low `n` binary digits of `v`, highest first. */
  function Bits(v: nat, n: nat): (b: seq<bool>)
    ensures |b| == n
  {
    if n == 0 then [] else Bits(v / 2, n - 1) + [v % 2 == 1]
  }

  /** The number those digits name. */
  function Value(b: seq<bool>): nat {
    if b == [] then 0 else 2 * Value(b[..|b| - 1]) + if b[|b| - 1] then 1 else 0
  }

  function Power(n: nat): nat {
    if n == 0 then 1 else 2 * Power(n - 1)
  }

  lemma {:induction false} BitsOfValue(b: seq<bool>)
    ensures Bits(Value(b), |b|) == b
    ensures Value(b) < Power(|b|)
  {
    if b != [] {
      var init, last := b[..|b| - 1], b[|b| - 1];
      BitsOfValue(init);
      assert Value(b) / 2 == Value(init) && (Value(b) % 2 == 1 <==> last);
      assert b == init + [last];
    }
  }

  function Byte(b: seq<bool>): byte
    requires |b| == 8
  {
    BitsOfValue(b);
    assert Power(8) == 16 * Power(4);
    Value(b)
  }

  /** The bit that `0x80 >> k` picks out. */
  predicate BitAt(b: byte, k: nat)
    requires k < 8
  {
    Bits(b, 8)[k]
  }

  /** `b | (0x80 >> k)`. */
  function OrBit(b: byte, k: nat): byte
    requires k < 8
  {
    Byte(Bits(b, 8)[k := true])
  }

  // ---- The rows ----

  /** Red, green, blue and alpha of a pixel, row by row from the top. */
  function PixelAt(n: nat, x: nat, y: nat): nat {
    (y * n + x) * 4
  }

  predicate Covers(rgba: seq<byte>, n: nat) {
    |rgba| >= n * n * 4
  }

  lemma PixelInside(n: nat, x: nat, y: nat)
    requires x < n && y < n
    ensures PixelAt(n, x, y) + 4 <= n * n * 4
  {
    var d := n - 1 - y;
    Distribute(y, 1 + d, n);
    assert d * n >= 0;
    assert (1 + d) * n == n + d * n;
  }

  lemma Distribute(a: int, b: int, n: int)
    ensures (a + b) * n == a * n + b * n
  {
  }

  function Colour(rgba: seq<byte>, n: nat, x: nat, y: nat): (b: seq<byte>)
    requires Covers(rgba, n) && x < n && y < n
    ensures |b| == 4
  {
    PixelInside(n, x, y);
    var i := PixelAt(n, x, y);
    [rgba[i + 2], rgba[i + 1], rgba[i], rgba[i + 3]]
  }

  predicate Clear(rgba: seq<byte>, n: nat, x: nat, y: nat)
    requires Covers(rgba, n) && x < n && y < n
  {
    PixelInside(n, x, y);
    rgba[PixelAt(n, x, y) + 3] == 0
  }

  /** The first `m` pixels of row `y`, blue first. */
  function ColourRow(rgba: seq<byte>, n: nat, y: nat, m: nat): (row: seq<byte>)
    requires Covers(rgba, n) && y < n && m <= n
    ensures |row| == 4 * m
  {
    if m == 0 then [] else ColourRow(rgba, n, y, m - 1) + Colour(rgba, n, m - 1, y)
  }

  /** Mask rows are one bit a pixel, padded to a 4-byte boundary. */
  function MaskStride(n: nat): nat {
    (n + 31) / 32 * 4
  }

  lemma StrideHasRoom(n: nat)
    ensures n <= 8 * MaskStride(n)
  {
  }

  /** The bits of mask row `y` once the first `m` pixels are in. */
  function Flags(rgba: seq<byte>, n: nat, y: nat, m: nat): (b: seq<bool>)
    requires Covers(rgba, n) && y < n && m <= n
    ensures |b| == 8 * MaskStride(n)
  {
    StrideHasRoom(n);
    seq(8 * MaskStride(n), i requires 0 <= i < 8 * MaskStride(n) => i < m && Clear(rgba, n, i, y))
  }

  function PackRow(b: seq<bool>): (row: seq<byte>)
    requires |b| % 8 == 0
    ensures |row| == |b| / 8
  {
    seq(|b| / 8, k requires 0 <= k < |b| / 8 => Byte(b[8 * k..8 * k + 8]))
  }

  /** Setting one flag ORs one bit into one byte of the row. */
  lemma PackRowSets(b: seq<bool>, x: nat)
    requires |b| % 8 == 0 && x < |b|
    ensures PackRow(b[x := true]) == PackRow(b)[x / 8 := OrBit(PackRow(b)[x / 8], x % 8)]
  {
    hide Byte;
    forall k | 0 <= k < |b| / 8
      ensures PackRow(b[x := true])[k] == if k == x / 8 then OrBit(PackRow(b)[k], x % 8) else PackRow(b)[k]
    {
      var byteBits := b[8 * k..8 * k + 8];
      if k == x / 8 {
        assert b[x := true][8 * k..8 * k + 8] == byteBits[x % 8 := true];
        OrIntoByte(byteBits, x % 8);
      } else {
        assert b[x := true][8 * k..8 * k + 8] == byteBits;
      }
    }
  }

  lemma OrIntoByte(b: seq<bool>, k: nat)
    requires |b| == 8 && k < 8
    ensures OrBit(Byte(b), k) == Byte(b[k := true])
    ensures BitAt(Byte(b), k) <==> b[k]
  {
    hide Bits, Value;
    BitsOfValue(b);
  }

  lemma PackedBit(b: seq<bool>, x: nat)
    requires |b| % 8 == 0 && x < |b|
    ensures BitAt(PackRow(b)[x / 8], x % 8) <==> b[x]
  {
    hide Byte, BitAt;
    OrIntoByte(b[8 * (x / 8)..8 * (x / 8) + 8], x % 8);
  }

  // ---- The whole bitmap ----

  /** The declared height is twice the real one: colour rows and mask count as one bitmap. */
  function BitmapHeader(n: nat): (b: seq<byte>)
    ensures |b| == BMP_HEADER
  {
    Le32(BMP_HEADER) + Le32(n) + Le32(n * 2) + Le16(1) + Le16(32)
    + Le32(0) + Le32(0) + Le32(0) + Le32(0) + Le32(0) + Le32(0)
  }

  /** The first `k` colour rows written, from the bottom of the image up. */
  function ColourRows(rgba: seq<byte>, n: nat, k: nat): (rows: seq<seq<byte>>)
    requires Covers(rgba, n) && k <= n
    ensures |rows| == k && forall j :: 0 <= j < k ==> rows[j] == ColourRow(rgba, n, n - 1 - j, n)
  {
    if k == 0 then [] else ColourRows(rgba, n, k - 1) + [ColourRow(rgba, n, n - k, n)]
  }

  function MaskRow(rgba: seq<byte>, n: nat, y: nat): (row: seq<byte>)
    requires Covers(rgba, n) && y < n
    ensures |row| == MaskStride(n)
  {
    PackRow(Flags(rgba, n, y, n))
  }

  function MaskRows(rgba: seq<byte>, n: nat, k: nat): (rows: seq<seq<byte>>)
    requires Covers(rgba, n) && k <= n
    ensures |rows| == k && forall j :: 0 <= j < k ==> rows[j] == MaskRow(rgba, n, n - 1 - j)
  {
    if k == 0 then [] else MaskRows(rgba, n, k - 1) + [MaskRow(rgba, n, n - k)]
  }

  function Colours(rgba: seq<byte>, n: nat): seq<byte>
    requires Covers(rgba, n)
  {
    BitmapHeader(n) + Flat(ColourRows(rgba, n, n))
  }

  function Bitmap(rgba: seq<byte>, n: nat): seq<byte>
    requires Covers(rgba, n)
  {
    Colours(rgba, n) + Flat(MaskRows(rgba, n, n))
  }

  method Dib(rgba: seq<byte>, size: nat) returns (out: seq<byte>)
    requires Covers(rgba, size)
    ensures out == Bitmap(rgba, size)
  {
    hide *;
    var n := size;
    out := WriteColours(rgba, n);
    var y: nat := n;
    NoRows(rgba, n);
    while y > 0
      invariant y <= n
      invariant out == Colours(rgba, n) + Flat(MaskRows(rgba, n, n - y))
    {
      y := y - 1;
      var row := WriteMaskRow(rgba, n, y);
      MaskRowsNext(rgba, n, n - 1 - y);
      out := out + row;
    }
    BitmapParts(rgba, n);
  }

  /** The header and the colour rows, the bottom row first. */
  method WriteColours(rgba: seq<byte>, n: nat) returns (out: seq<byte>)
    requires Covers(rgba, n)
    ensures out == Colours(rgba, n)
  {
    hide *;
    out := BitmapHeader(n);
    var y: nat := n;
    NoRows(rgba, n);
    while y > 0
      invariant y <= n
      invariant out == BitmapHeader(n) + Flat(ColourRows(rgba, n, n - y))
    {
      y := y - 1;
      out := AppendColourRow(out, rgba, n, y);
      ColourRowsNext(rgba, n, n - 1 - y);
    }
    BitmapParts(rgba, n);
  }

  method AppendColourRow(out0: seq<byte>, rgba: seq<byte>, n: nat, y: nat) returns (out: seq<byte>)
    requires Covers(rgba, n) && y < n
    ensures out == out0 + ColourRow(rgba, n, y, n)
  {
    hide Colour, Covers;
    out := out0;
    for x := 0 to n
      invariant out == out0 + ColourRow(rgba, n, y, x)
    {
      out := out + Colour(rgba, n, x, y);
    }
  }

  lemma BitmapParts(rgba: seq<byte>, n: nat)
    requires Covers(rgba, n)
    ensures Colours(rgba, n) == BitmapHeader(n) + Flat(ColourRows(rgba, n, n))
    ensures Bitmap(rgba, n) == Colours(rgba, n) + Flat(MaskRows(rgba, n, n))
  {
    hide BitmapHeader, Flat, ColourRows, MaskRows, Covers;
  }

  /** One mask row: a set bit lets the background through. */
  method WriteMaskRow(rgba: seq<byte>, n: nat, y: nat) returns (bytes: seq<byte>)
    requires Covers(rgba, n) && y < n
    ensures bytes == MaskRow(rgba, n, y)
  {
    hide Byte, OrBit, PackRow, Clear;
    var row := new byte[MaskStride(n)](_ => 0);
    StrideHasRoom(n);
    BlankRow(rgba, n, y);
    assert row[..] == seq(MaskStride(n), _ => 0);
    for x := 0 to n
      invariant row[..] == PackRow(Flags(rgba, n, y, x))
    {
      FlagsNext(rgba, n, y, x);
      if Clear(rgba, n, x, y) {
        PackRowSets(Flags(rgba, n, y, x), x);
        row[x / 8] := OrBit(row[x / 8], x % 8);
      }
    }
    bytes := row[..];
  }

  lemma BlankRow(rgba: seq<byte>, n: nat, y: nat)
    requires Covers(rgba, n) && y < n
    ensures PackRow(Flags(rgba, n, y, 0)) == seq(MaskStride(n), _ => 0)
  {
    var b := Flags(rgba, n, y, 0);
    forall k | 0 <= k < MaskStride(n) ensures Byte(b[8 * k..8 * k + 8]) == 0 {
      AllClear(b[8 * k..8 * k + 8]);
    }
  }

  lemma {:induction false} AllClear(b: seq<bool>)
    requires forall i :: 0 <= i < |b| ==> !b[i]
    ensures Value(b) == 0
  {
    if b != [] {
      AllClear(b[..|b| - 1]);
    }
  }

  lemma FlagsNext(rgba: seq<byte>, n: nat, y: nat, x: nat)
    requires Covers(rgba, n) && y < n && x < n
    ensures x < 8 * MaskStride(n)
    ensures Flags(rgba, n, y, x + 1)
         == if Clear(rgba, n, x, y) then Flags(rgba, n, y, x)[x := true] else Flags(rgba, n, y, x)
  {
    hide Clear;
    StrideHasRoom(n);
  }

  lemma NoRows(rgba: seq<byte>, n: nat)
    requires Covers(rgba, n)
    ensures Flat(ColourRows(rgba, n, 0)) == [] && Flat(MaskRows(rgba, n, 0)) == []
  {
    hide Covers;
  }

  lemma ColourRowsNext(rgba: seq<byte>, n: nat, k: nat)
    requires Covers(rgba, n) && k < n
    ensures Flat(ColourRows(rgba, n, k + 1)) == Flat(ColourRows(rgba, n, k)) + ColourRow(rgba, n, n - 1 - k, n)
  {
    hide Flat, ColourRow;
    FlatOneMore(ColourRows(rgba, n, k), ColourRow(rgba, n, n - 1 - k, n));
  }

  lemma MaskRowsNext(rgba: seq<byte>, n: nat, k: nat)
    requires Covers(rgba, n) && k < n
    ensures Flat(MaskRows(rgba, n, k + 1)) == Flat(MaskRows(rgba, n, k)) + MaskRow(rgba, n, n - 1 - k)
  {
    hide Flat, MaskRow;
    FlatOneMore(MaskRows(rgba, n, k), MaskRow(rgba, n, n - 1 - k));
  }

  // ---- Reading it back ----

  /** Where the four bytes of a pixel are, the rows running bottom-up. */
  function ColourOffset(n: nat, x: nat, y: nat): nat
    requires x < n && y < n
  {
    BMP_HEADER + RowStart(4 * n, n - 1 - y) + 4 * x
  }

  /** Where the mask row of image row `y` starts. */
  function MaskOffset(n: nat, y: nat): nat
    requires y < n
  {
    BMP_HEADER + RowStart(4 * n, n) + RowStart(MaskStride(n), n - 1 - y)
  }

  lemma {:induction false} ColourRowAt(rgba: seq<byte>, n: nat, y: nat, m: nat, x: nat)
    requires Covers(rgba, n) && y < n && x < m <= n
    ensures Holds(ColourRow(rgba, n, y, m), 4 * x, Colour(rgba, n, x, y))
    decreases m
  {
    hide Colour;
    if x < m - 1 {
      ColourRowAt(rgba, n, y, m - 1, x);
    }
  }

  lemma ColourInBitmap(rgba: seq<byte>, n: nat, x: nat, y: nat)
    requires Covers(rgba, n) && x < n && y < n
    ensures Holds(Bitmap(rgba, n), ColourOffset(n, x, y), Colour(rgba, n, x, y))
  {
    hide Flat, Colour, ColourRow, ColourRows, MaskRows, BitmapHeader, RowStart, Holds, Covers;
    ColourInRows(rgba, n, x, y);
    HoldsAfter(BitmapHeader(n), Flat(ColourRows(rgba, n, n)), ColourOffset(n, x, y), Colour(rgba, n, x, y));
    HoldsBefore(Colours(rgba, n), Flat(MaskRows(rgba, n, n)), ColourOffset(n, x, y), Colour(rgba, n, x, y));
  }

  lemma ColourInRows(rgba: seq<byte>, n: nat, x: nat, y: nat)
    requires Covers(rgba, n) && x < n && y < n
    ensures Holds(Flat(ColourRows(rgba, n, n)), RowStart(4 * n, n - 1 - y) + 4 * x, Colour(rgba, n, x, y))
  {
    hide Flat, Colour, ColourRow, ColourRows, RowStart, Holds, Covers;
    ColourRowAt(rgba, n, y, n, x);
    HoldsInRow(ColourRows(rgba, n, n), 4 * n, n - 1 - y, 4 * x, Colour(rgba, n, x, y));
  }

  lemma ColoursLength(rgba: seq<byte>, n: nat)
    requires Covers(rgba, n)
    ensures |Colours(rgba, n)| == BMP_HEADER + RowStart(4 * n, n)
  {
    hide Flat, ColourRow, BitmapHeader, RowStart, Covers;
    FlatLength(ColourRows(rgba, n, n), 4 * n);
  }

  lemma MaskInBitmap(rgba: seq<byte>, n: nat, y: nat)
    requires Covers(rgba, n) && y < n
    ensures Holds(Bitmap(rgba, n), MaskOffset(n, y), MaskRow(rgba, n, y))
  {
    hide Flat, MaskRow, MaskRows, RowStart, Colours, MaskStride, Holds, Covers;
    ColoursLength(rgba, n);
    MaskInRows(rgba, n, y);
    HoldsAfter(Colours(rgba, n), Flat(MaskRows(rgba, n, n)), MaskOffset(n, y), MaskRow(rgba, n, y));
  }

  lemma MaskInRows(rgba: seq<byte>, n: nat, y: nat)
    requires Covers(rgba, n) && y < n
    ensures Holds(Flat(MaskRows(rgba, n, n)), RowStart(MaskStride(n), n - 1 - y), MaskRow(rgba, n, y))
  {
    hide Flat, MaskRow, MaskRows, RowStart, MaskStride, Holds, Covers;
    FlatAt(MaskRows(rgba, n, n), MaskStride(n), n - 1 - y);
  }

  /** Nothing follows the last mask row. */
  lemma BitmapLength(rgba: seq<byte>, n: nat)
    requires Covers(rgba, n)
    ensures |Bitmap(rgba, n)| == BMP_HEADER + RowStart(4 * n, n) + RowStart(MaskStride(n), n)
  {
    hide Flat, MaskRow, RowStart, Colours, MaskStride, Covers;
    ColoursLength(rgba, n);
    FlatLength(MaskRows(rgba, n, n), MaskStride(n));
  }

  /** The four bytes of a pixel as a reader takes them: red, green, blue, alpha. */
  function ReadPixel(b: seq<byte>, n: nat, x: nat, y: nat): seq<byte>
    requires x < n && y < n && ColourOffset(n, x, y) + 4 <= |b|
  {
    var at := ColourOffset(n, x, y);
    [b[at + 2], b[at + 1], b[at], b[at + 3]]
  }

  function ReadMask(b: seq<byte>, n: nat, x: nat, y: nat): bool
    requires x < n && y < n && MaskOffset(n, y) + x / 8 < |b|
  {
    BitAt(b[MaskOffset(n, y) + x / 8], x % 8)
  }

  /** Every pixel reads back as it was, and its mask bit is set exactly when it is fully transparent. */
  lemma BitmapReadsBack(rgba: seq<byte>, n: nat, x: nat, y: nat)
    requires Covers(rgba, n) && x < n && y < n
    ensures ColourOffset(n, x, y) + 4 <= |Bitmap(rgba, n)| && MaskOffset(n, y) + x / 8 < |Bitmap(rgba, n)|
    ensures PixelAt(n, x, y) + 4 <= |rgba|
    ensures ReadPixel(Bitmap(rgba, n), n, x, y) == rgba[PixelAt(n, x, y)..PixelAt(n, x, y) + 4]
    ensures ReadMask(Bitmap(rgba, n), n, x, y) <==> rgba[PixelAt(n, x, y) + 3] == 0
  {
    hide Bitmap, ReadMask, ReadPixel, ColourOffset, MaskOffset;
    ColourReadsBack(rgba, n, x, y);
    MaskReadsBack(rgba, n, x, y);
  }

  lemma ColourReadsBack(rgba: seq<byte>, n: nat, x: nat, y: nat)
    requires Covers(rgba, n) && x < n && y < n
    ensures PixelAt(n, x, y) + 4 <= |rgba| && ColourOffset(n, x, y) + 4 <= |Bitmap(rgba, n)|
    ensures ReadPixel(Bitmap(rgba, n), n, x, y) == rgba[PixelAt(n, x, y)..PixelAt(n, x, y) + 4]
  {
    hide Bitmap, ColourOffset, PixelAt;
    PixelInside(n, x, y);
    ColourInBitmap(rgba, n, x, y);
    var b, at := Bitmap(rgba, n), ColourOffset(n, x, y);
    var field := b[at..at + 4];
    assert b[at] == field[0] && b[at + 1] == field[1] && b[at + 2] == field[2] && b[at + 3] == field[3];
  }

  lemma MaskReadsBack(rgba: seq<byte>, n: nat, x: nat, y: nat)
    requires Covers(rgba, n) && x < n && y < n
    ensures MaskOffset(n, y) + x / 8 < |Bitmap(rgba, n)|
    ensures ReadMask(Bitmap(rgba, n), n, x, y) <==> Clear(rgba, n, x, y)
  {
    FlagAt(rgba, n, x, y);
    MaskInBitmap(rgba, n, y);
    hide Bitmap, BitAt, MaskRow, Clear, MaskStride, MaskOffset, Covers;
    var b, at, row := Bitmap(rgba, n), MaskOffset(n, y), MaskRow(rgba, n, y);
    assert b[at + x / 8] == b[at..at + |row|][x / 8];
  }

  lemma FlagAt(rgba: seq<byte>, n: nat, x: nat, y: nat)
    requires Covers(rgba, n) && x < n && y < n
    ensures x / 8 < |MaskRow(rgba, n, y)|
    ensures BitAt(MaskRow(rgba, n, y)[x / 8], x % 8) <==> Clear(rgba, n, x, y)
  {
    hide BitAt, PackRow, Clear;
    StrideHasRoom(n);
    PackedBit(Flags(rgba, n, y, n), x);
  }

  /** Mask rows are whole 32-bit words, as few as have a bit for every pixel. */
  lemma StrideIsLeast(n: nat)
    ensures MaskStride(n) % 4 == 0
    ensures forall words: nat :: 32 * words >= n <==> 4 * words >= MaskStride(n)
  {
  }

  /** The header names one plane of 32 bits a pixel, uncompressed, and leaves the rest to the reader. */
  lemma HeaderIsPlain(rgba: seq<byte>, n: nat)
    requires Covers(rgba, n)
    ensures |Bitmap(rgba, n)| >= BMP_HEADER == 40
    ensures ReadLe16(Bitmap(rgba, n), 12) == 1
    ensures forall at :: 16 <= at < BMP_HEADER ==> Bitmap(rgba, n)[at] == 0
  {
    hide Flat, Le16, Le32, ReadLe16, ReadLe32, ColourRows, MaskRows;
    var b := Bitmap(rgba, n);
    assert b[12..14] == Le16(1);
    Le16ReadsBack(b, 12, 1);
    ZeroWord();
    forall at | 16 <= at < BMP_HEADER ensures b[at] == 0 {
      assert b[at] == Le32(0)[at % 4];
    }
  }

  lemma ZeroWord()
    ensures Le32(0) == [0, 0, 0, 0]
  {
  }

  /** The header names the image's own size, the doubled height, and 32 bits a pixel. */
  lemma HeaderReadsBack(rgba: seq<byte>, n: nat)
    requires Covers(rgba, n) && n < 0x8000_0000
    ensures |Bitmap(rgba, n)| >= BMP_HEADER
    ensures ReadLe32(Bitmap(rgba, n), 0) == BMP_HEADER
    ensures ReadLe32(Bitmap(rgba, n), 4) == n && ReadLe32(Bitmap(rgba, n), 8) == n * 2
    ensures ReadLe16(Bitmap(rgba, n), 14) == 32
  {
    hide Flat, Le16, Le32, ReadLe16, ReadLe32, ColourRows, MaskRows;
    var b := Bitmap(rgba, n);
    assert b[0..4] == Le32(BMP_HEADER) && b[4..8] == Le32(n) && b[8..12] == Le32(n * 2) && b[14..16] == Le16(32);
    Le32ReadsBack(b, 0, BMP_HEADER);
    Le32ReadsBack(b, 4, n);
    Le32ReadsBack(b, 8, n * 2);
    Le16ReadsBack(b, 14, 32);
  }
}
