/** Alpha-blending coverage masks into a premultiplied picture. */
module Blit {
  import opened Bytes

  /** A pixel of the picture: colour channels already multiplied by alpha. */
  datatype Pixel = Pixel(r: byte, g: byte, b: byte, a: byte)

  /** A text colour, not premultiplied. */
  datatype Rgba = Rgba(r: byte, g: byte, b: byte, a: byte)

  // ---- One pixel ----

  /** The product of two fractions of 255, to the nearest fraction; 16 bits hold what is computed. */
  function MulU8(a: byte, b: byte): (r: byte)
    ensures a * b + 127 < 0x1_0000
    ensures -127 <= 255 * r - a * b <= 127
  {
    ProductFits(a, b);
    (a * b + 127) / 255
  }

  lemma ProductFits(a: byte, b: byte)
    ensures 0 <= a * b <= 255 * b <= 65025
  {
    assert (255 - a) * b >= 0;
  }

  function SaturatingAdd(a: byte, b: byte): byte {
    if a + b > 255 then 255 else a + b
  }

  /** One channel: the source over what the source leaves visible. */
  function Over(source: byte, inverse: byte, channel: byte): byte {
    SaturatingAdd(source, MulU8(channel, inverse))
  }

  /** What a pixel becomes under coverage `m`. */
  function Inked(px: Pixel, m: byte, color: Rgba): Pixel {
    if m == 0 then px
    else
      var a := MulU8(m, color.a);
      var inv := 255 - a;
      Pixel(Over(MulU8(color.r, a), inv, px.r), Over(MulU8(color.g, a), inv, px.g),
            Over(MulU8(color.b, a), inv, px.b), Over(a, inv, px.a))
  }

  predicate Premultiplied(px: Pixel) {
    px.r <= px.a && px.g <= px.a && px.b <= px.a
  }

  /** Rounding is monotone. */
  lemma MulU8IsMonotone(a: byte, b: byte, c: byte)
    requires a <= b
    ensures MulU8(a, c) <= MulU8(b, c)
  {
    assert a * c <= b * c by {
      assert (b - a) * c >= 0;
    }
  }

  /** A fraction of a channel never exceeds either factor, and the whole of it is itself. */
  lemma MulU8IsAFraction(a: byte, b: byte)
    ensures MulU8(a, b) <= a && MulU8(a, b) <= b
    ensures MulU8(a, b) >= a + b - 255
    ensures MulU8(a, 255) == a && MulU8(255, a) == a && MulU8(a, 0) == 0
  {
    hide MulU8;
    ProductBounds(a, b);
    ProductBounds(a, 255);
    ProductBounds(255, a);
    ProductBounds(a, 0);
    var r, product := MulU8(a, b), a * b;
  }

  lemma ProductBounds(a: byte, b: byte)
    ensures a * b <= 255 * a && a * b <= 255 * b && a * b >= 255 * a + 255 * b - 65025
  {
    ProductFits(a, b);
    ProductFits(b, a);
    Complements(a, b);
  }

  lemma Complements(a: int, b: int)
    requires a <= 255 && b <= 255
    ensures a * b >= 255 * a + 255 * b - 65025
  {
    var x, y := 255 - a, 255 - b;
    assert x * y >= 0;
    assert x * y == (255 - a) * 255 - (255 - a) * b;
    assert (255 - a) * b == 255 * b - a * b;
  }

  /** Over a premultiplied pixel no addition saturates: every channel is the plain sum. */
  lemma NothingSaturates(px: Pixel, color: byte, channel: byte, a: byte)
    requires channel <= px.a
    ensures MulU8(color, a) + MulU8(channel, 255 - a) <= a + MulU8(px.a, 255 - a) <= 255
    ensures Over(MulU8(color, a), 255 - a, channel) == MulU8(color, a) + MulU8(channel, 255 - a)
    ensures Over(a, 255 - a, px.a) == a + MulU8(px.a, 255 - a)
  {
    hide MulU8;
    MulU8IsAFraction(color, a);
    MulU8IsAFraction(px.a, 255 - a);
    MulU8IsMonotone(channel, px.a, 255 - a);
  }

  /** Ink keeps a pixel premultiplied and never makes it more transparent. */
  lemma InkKeepsPremultiplied(px: Pixel, m: byte, color: Rgba)
    requires Premultiplied(px)
    ensures Premultiplied(Inked(px, m, color))
    ensures px.a <= Inked(px, m, color).a
  {
    hide MulU8, Over;
    var a := MulU8(m, color.a);
    NothingSaturates(px, color.r, px.r, a);
    NothingSaturates(px, color.g, px.g, a);
    NothingSaturates(px, color.b, px.b, a);
    MulU8IsAFraction(px.a, 255 - a);
  }

  lemma ChannelExtremes(color: byte, channel: byte)
    ensures Over(MulU8(color, 0), 255, channel) == channel && Over(0, 255, channel) == channel
    ensures Over(MulU8(color, 255), 0, channel) == color && Over(255, 0, channel) == 255
  {
    hide MulU8;
    MulU8IsAFraction(color, 0);
    MulU8IsAFraction(channel, 255);
    MulU8IsAFraction(channel, 0);
    MulU8IsAFraction(color, 255);
  }

  /** Ink whose effective alpha is zero leaves any pixel alone; full ink covers it entirely. */
  lemma InkExtremes(px: Pixel, m: byte, color: Rgba)
    ensures MulU8(m, color.a) == 0 ==> Inked(px, m, color) == px
    ensures m == 255 && color.a == 255 ==> Inked(px, m, color) == Pixel(color.r, color.g, color.b, 255)
  {
    hide MulU8, Over;
    MulU8IsAFraction(m, 255);
    ChannelExtremes(color.r, px.r);
    ChannelExtremes(color.g, px.g);
    ChannelExtremes(color.b, px.b);
    ChannelExtremes(color.a, px.a);
  }

  /** Each channel of the result is within one level of the exact `src + dst * (1 - alpha)`. */
  lemma InkIsWithinOneLevel(px: Pixel, color: byte, channel: byte, a: byte)
    requires channel <= px.a
    ensures -255 < 255 * Over(MulU8(color, a), 255 - a, channel) - (color * a + channel * (255 - a)) < 255
  {
    NothingSaturates(px, color, channel, a);
    hide MulU8, Over;
    var x, y := MulU8(color, a), MulU8(channel, 255 - a);
  }

  // ---- The picture ----

  /** A picture, row by row; `data[i]` stands for the four bytes from `4 * i`. */
  class Pixmap {
    const width: nat
    const height: nat
    const data: array<Pixel>

    ghost predicate Valid() {
      data.Length == RowStart(width, height)
    }

    constructor (width: nat, height: nat, fill: Pixel)
      ensures Valid() && fresh(data) && this.width == width && this.height == height
      ensures forall x: nat, y: nat | x < width && y < height :: At(x, y) == fill
    {
      this.width, this.height := width, height;
      data := new Pixel[RowStart(width, height)](_ => fill);
      new;
      hide RowStart;
      forall x: nat, y: nat | x < width && y < height ensures At(x, y) == fill {
        IndexFits(width, height, x, y);
      }
    }

    function At(x: nat, y: nat): Pixel
      requires Valid() && x < width && y < height
      reads data
    {
      IndexFits(width, height, x, y);
      data[RowStart(width, y) + x]
    }

    method Put(x: nat, y: nat, px: Pixel)
      requires Valid() && x < width && y < height
      modifies data
      ensures forall i: nat, j: nat | i < width && j < height ::
                At(i, j) == if i == x && j == y then px else old(At(i, j))
    {
      IndexFits(width, height, x, y);
      data[RowStart(width, y) + x] := px;
      forall i: nat, j: nat | i < width && j < height
        ensures At(i, j) == if i == x && j == y then px else old(At(i, j))
      {
        IndexFits(width, height, i, j);
        IndexIsOnce(width, x, y, i, j);
      }
    }
  }

  lemma IndexFits(width: nat, height: nat, x: nat, y: nat)
    requires x < width && y < height
    ensures RowStart(width, y) + x < RowStart(width, height)
  {
    OneRowMore(width, y);
    RowsInOrder(width, y + 1, height);
  }

  lemma IndexIsOnce(width: nat, x: nat, y: nat, i: nat, j: nat)
    requires x < width && i < width
    ensures RowStart(width, y) + x == RowStart(width, j) + i ==> x == i && y == j
  {
    OneRowMore(width, y);
    OneRowMore(width, j);
    if y < j {
      RowsInOrder(width, y + 1, j);
    } else if j < y {
      RowsInOrder(width, j + 1, y);
    }
  }

  /** A coverage mask, placed; it may be shorter than its size says, and may lie off the picture. */
  datatype Mask = Mask(left: int, top: int, width: nat, height: nat, coverage: seq<byte>)

  function CoverageAt(mask: Mask, col: nat, row: nat): byte {
    var i := RowStart(mask.width, row) + col;
    if i < |mask.coverage| then mask.coverage[i] else 0
  }

  /** The coverage a mask gives to the picture's pixel (x, y). */
  function CoverageOf(mask: Mask, x: nat, y: nat): byte {
    if mask.left <= x < mask.left + mask.width && mask.top <= y < mask.top + mask.height
    then CoverageAt(mask, x - mask.left, y - mask.top)
    else 0
  }

  /** A mask covers nothing outside its rectangle, nor where its bytes run out before its rows do. */
  lemma CoversOnlyItsOwn(mask: Mask, x: nat, y: nat)
    requires CoverageOf(mask, x, y) != 0
    ensures mask.left <= x < mask.left + mask.width && mask.top <= y < mask.top + mask.height
    ensures var i := (y - mask.top) * mask.width + (x - mask.left);
            i < |mask.coverage| && CoverageOf(mask, x, y) == mask.coverage[i]
  {
    var row := y - mask.top;
    assert RowStart(mask.width, row) == row * mask.width;
    hide RowStart;
  }

  /** Blends a mask into the picture: every pixel takes exactly the ink its own coverage gives. */
  method BlitMask(p: Pixmap, mask: Mask, color: Rgba)
    requires p.Valid()
    modifies p.data
    ensures forall x: nat, y: nat | x < p.width && y < p.height ::
              p.At(x, y) == Inked(old(p.At(x, y)), CoverageOf(mask, x, y), color)
  {
    for row := 0 to mask.height
      invariant forall x: nat, y: nat | x < p.width && y < p.height ::
                  p.At(x, y) == if y < mask.top + row then Inked(old(p.At(x, y)), CoverageOf(mask, x, y), color)
                                else old(p.At(x, y))
    {
      var y := mask.top + row;
      if y < 0 || y >= p.height {
        continue;
      }
      BlitRow(p, mask, color, row, y);
    }
  }

  method BlitRow(p: Pixmap, mask: Mask, color: Rgba, row: nat, y: nat)
    requires p.Valid() && row < mask.height && y == mask.top + row && y < p.height
    modifies p.data
    ensures forall x: nat, j: nat | x < p.width && j < p.height ::
              p.At(x, j) == if j == y then Inked(old(p.At(x, j)), CoverageOf(mask, x, j), color) else old(p.At(x, j))
  {
    hide MulU8, Over;
    for col := 0 to mask.width
      invariant forall x: nat, j: nat | x < p.width && j < p.height ::
                  p.At(x, j) == if j == y && x < mask.left + col
                                then Inked(old(p.At(x, j)), CoverageOf(mask, x, j), color)
                                else old(p.At(x, j))
    {
      var x := mask.left + col;
      if x < 0 || x >= p.width {
        continue;
      }
      var m := CoverageAt(mask, col, row);
      if m == 0 {
        continue;
      }
      var a := MulU8(m, color.a);
      var inv := 255 - a;
      var px := p.At(x, y);
      p.Put(x, y, Pixel(Over(MulU8(color.r, a), inv, px.r), Over(MulU8(color.g, a), inv, px.g),
                        Over(MulU8(color.b, a), inv, px.b), Over(a, inv, px.a)));
    }
  }

  // ---- Whole drawings ----

  datatype Stroke = Stroke(mask: Mask, color: Rgba)

  /** What a list of masks, blended in order, makes of the pixel at (x, y). */
  ghost function Drawn(px: Pixel, strokes: seq<Stroke>, x: nat, y: nat): Pixel {
    if strokes == [] then px
    else
      var s := strokes[|strokes| - 1];
      Inked(Drawn(px, strokes[..|strokes| - 1], x, y), CoverageOf(s.mask, x, y), s.color)
  }

  /** Draws a run of glyphs. */
  method BlitAll(p: Pixmap, strokes: seq<Stroke>)
    requires p.Valid()
    modifies p.data
    ensures forall x: nat, y: nat | x < p.width && y < p.height :: p.At(x, y) == Drawn(old(p.At(x, y)), strokes, x, y)
  {
    for i := 0 to |strokes|
      invariant forall x: nat, y: nat | x < p.width && y < p.height ::
                  p.At(x, y) == Drawn(old(p.At(x, y)), strokes[..i], x, y)
    {
      hide Inked, CoverageOf;
      assert strokes[..i + 1][..i] == strokes[..i];
      BlitMask(p, strokes[i].mask, strokes[i].color);
    }
    assert strokes[..|strokes|] == strokes;
  }

  /**
   * Whatever is drawn, and however often: pixels stay premultiplied, never turn more transparent
   * (so opaque ones stay opaque), and one that no mask covers with ink is what it was.
   */
  lemma {:induction false} DrawingKeepsPixels(px: Pixel, strokes: seq<Stroke>, x: nat, y: nat)
    ensures Premultiplied(px) ==> Premultiplied(Drawn(px, strokes, x, y)) && px.a <= Drawn(px, strokes, x, y).a
    ensures (forall s :: s in strokes ==> MulU8(CoverageOf(s.mask, x, y), s.color.a) == 0) ==>
        Drawn(px, strokes, x, y) == px
  {
    hide MulU8, Inked, CoverageOf, Premultiplied;
    if strokes != [] {
      var before, s := strokes[..|strokes| - 1], strokes[|strokes| - 1];
      DrawingKeepsPixels(px, before, x, y);
      var m := CoverageOf(s.mask, x, y);
      if Premultiplied(px) {
        InkKeepsPremultiplied(Drawn(px, before, x, y), m, s.color);
      }
      InkExtremes(Drawn(px, before, x, y), m, s.color);
      assert s in strokes && forall t :: t in before ==> t in strokes;
    }
  }
}
