/**
 * Pixel buffers shared by every stage.
 *
 * The source keeps an image as `{width, height, data}` where `data` is an
 * interleaved RGBA `Uint8ClampedArray`.  The model keeps one `Color` per pixel
 * in row-major order (pixel (x, y) at index y * width + x); `Interleave` and
 * `Deinterleave` connect the two layouts.
 */
module Pixels {

  /** One channel value of a `Uint8ClampedArray`. */
  type Byte = x: int | 0 <= x < 256

  /** A value or its absence (the source's `null`, `NaN` or `Infinity` sentinels). */
  datatype Option<T> = None | Some(value: T)

  /** An RGBA colour, channel order R, G, B, A. */
  datatype Color = Color(r: Byte, g: Byte, b: Byte, a: Byte)

  /** Channel `k` of `c`, in the order R, G, B, A (the source's `pixel[k]`). */
  function Channel(c: Color, k: nat): (v: Byte)
    requires k < 4
  {
    if k == 0 then c.r else if k == 1 then c.g else if k == 2 then c.b else c.a
  }

  lemma ChannelsDetermineColor(c: Color, d: Color)
    requires forall k :: 0 <= k < 4 ==> Channel(c, k) == Channel(d, k)
    ensures c == d
  {
    assert Channel(c, 0) == Channel(d, 0) && Channel(c, 1) == Channel(d, 1);
    assert Channel(c, 2) == Channel(d, 2) && Channel(c, 3) == Channel(d, 3);
  }

  /** A row-major raster of `width * height` pixels. */
  predicate IsRaster(pixels: seq<Color>, width: nat, height: nat)
  {
    |pixels| == width * height
  }

  /** Index of pixel (x, y): the source's `(y * width + x) * 4`, divided by 4. */
  function PixelIndex(width: nat, x: nat, y: nat): nat
  {
    y * width + x
  }

  lemma PixelIndexInBounds(width: nat, height: nat, x: nat, y: nat)
    requires x < width && y < height
    ensures PixelIndex(width, x, y) < width * height
  {
    assert y * width <= (height - 1) * width by {
      MulLeftMono(y, height - 1, width);
    }
    assert (height - 1) * width == height * width - width;
  }

  /** Every pixel index decomposes into its column and row. */
  lemma PixelIndexDecompose(width: nat, x: nat, y: nat)
    requires x < width
    ensures PixelIndex(width, x, y) % width == x && PixelIndex(width, x, y) / width == y
  {
    DivModUnique(y, width, x);
  }

  lemma MulLeftMono(a: nat, b: nat, c: nat)
    requires a <= b
    ensures a * c <= b * c
  {
  }

  lemma MulSuccessor(n: nat, m: nat)
    ensures (n + 1) * m == n * m + m
  {
  }

  /** Integer division and remainder recover the row and column of an index. */
  lemma DivModUnique(q: nat, d: nat, r: nat)
    requires r < d
    ensures (q * d + r) / d == q && (q * d + r) % d == r
  {
    var n := q * d + r;
    var k := n / d;
    assert k * d + n % d == n;
    MulSuccessor(k, d);
    MulSuccessor(q, d);
    MulStrictCancel(k, q + 1, d);
    MulStrictCancel(q, k + 1, d);
  }

  /**
   * `Math.round(s / c)` for a non-negative sum `s` and a positive count `c`:
   * JavaScript rounds halves up, so the result is floor(s / c + 1/2).
   */
  function RoundDiv(s: nat, c: nat): nat
    requires c > 0
  {
    (2 * s + c) / (2 * c)
  }

  /** `x < y` follows from `x * d < y * d` when `d` is positive. */
  lemma MulStrictCancel(x: nat, y: nat, d: nat)
    requires d > 0 && x * d < y * d
    ensures x < y
  {
    if y <= x {
      MulLeftMono(y, x, d);
    }
  }

  /** A rounded mean lies between the bounds of the values it averages. */
  lemma RoundDivBetween(s: nat, c: nat, lo: nat, hi: nat)
    requires c > 0 && c * lo <= s <= c * hi
    ensures lo <= RoundDiv(s, c) <= hi
  {
    var n := 2 * s + c;
    var d := 2 * c;
    var q := n / d;
    assert q * d <= n < (q + 1) * d;
    assert lo * d <= n < (hi + 1) * d;
    MulStrictCancel(lo, q + 1, d);
    MulStrictCancel(q, hi + 1, d);
  }

  /** The rounded mean of `c` copies of `v` is `v`. */
  lemma RoundDivOfCopies(v: nat, c: nat)
    requires c > 0
    ensures RoundDiv(c * v, c) == v
  {
    RoundDivBetween(c * v, c, v, v);
  }

  /** The rounded mean of byte values is a byte. */
  lemma RoundDivIsByte(s: nat, c: nat)
    requires c > 0 && s <= c * 255
    ensures RoundDiv(s, c) < 256
  {
    RoundDivBetween(s, c, 0, 255);
  }

  /** The interleaved byte layout `[r, g, b, a, r, g, b, a, ...]`. */
  function Interleave(pixels: seq<Color>): (data: seq<Byte>)
    ensures |data| == 4 * |pixels|
  {
    if pixels == [] then []
    else [pixels[0].r, pixels[0].g, pixels[0].b, pixels[0].a] + Interleave(pixels[1..])
  }

  /**
   * Reading four bytes at a time, as the median-cut code does when it
   * collects `pixels` from `imageData.data`.
   */
  function Deinterleave(data: seq<Byte>): (pixels: seq<Color>)
    requires |data| % 4 == 0
    ensures 4 * |pixels| == |data|
  {
    if data == [] then []
    else [Color(data[0], data[1], data[2], data[3])] + Deinterleave(data[4..])
  }

  /** Byte `4 * i + k` of the interleaved buffer is channel `k` of pixel `i`. */
  lemma {:induction false} InterleaveAt(pixels: seq<Color>, i: nat, k: nat)
    requires i < |pixels| && k < 4
    ensures Interleave(pixels)[4 * i + k] == Channel(pixels[i], k)
  {
    if i > 0 {
      InterleaveAt(pixels[1..], i - 1, k);
    }
  }

  lemma {:induction false} DeinterleaveInterleave(pixels: seq<Color>)
    ensures Deinterleave(Interleave(pixels)) == pixels
  {
    if pixels != [] {
      var data := Interleave(pixels);
      assert data[4..] == Interleave(pixels[1..]);
      DeinterleaveInterleave(pixels[1..]);
    }
  }

  lemma {:induction false} InterleaveDeinterleave(data: seq<Byte>)
    requires |data| % 4 == 0
    ensures Interleave(Deinterleave(data)) == data
  {
    if data != [] {
      var pixels := Deinterleave(data);
      assert pixels[1..] == Deinterleave(data[4..]);
      InterleaveDeinterleave(data[4..]);
    }
  }
}
