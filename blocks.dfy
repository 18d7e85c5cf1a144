/**
 * Per-channel sums and rounded means over a rectangle of pixels.  Both
 * `sampleBlock` (pixelizer.js) and the tile loop of `processImage` (main.js)
 * accumulate `r, g, b, a` and a `count` over a rectangle clipped to the
 * image and then take `Math.round(sum / count)` per channel; this module is
 * the specification both are proved against.
 */
module Blocks {
  import opened Pixels

  /** The half-open rectangle [x0, x1) x [y0, y1) lies inside a width x height image. */
  predicate InImage(width: nat, height: nat, x0: nat, x1: nat, y0: nat, y1: nat)
  {
    x0 <= x1 <= width && y0 <= y1 <= height
  }

  /** Pixel (x, y) of a raster. */
  function At(img: seq<Color>, width: nat, height: nat, x: nat, y: nat): Color
    requires IsRaster(img, width, height) && x < width && y < height
  {
    PixelIndexInBounds(width, height, x, y);
    img[PixelIndex(width, x, y)]
  }

  /** Sum of channel `k` over row `y`, columns [x0, x1), accumulated left to right. */
  function RowSum(img: seq<Color>, width: nat, height: nat, y: nat, x0: nat, x1: nat, k: nat): nat
    requires IsRaster(img, width, height) && y < height && x0 <= x1 <= width && k < 4
    decreases x1 - x0
  {
    if x1 == x0 then 0
    else RowSum(img, width, height, y, x0, x1 - 1, k) + Channel(At(img, width, height, x1 - 1, y), k)
  }

  /** Sum of channel `k` over the rectangle, accumulated row by row. */
  function BlockSum(img: seq<Color>, width: nat, height: nat, x0: nat, x1: nat, y0: nat, y1: nat, k: nat): nat
    requires IsRaster(img, width, height) && InImage(width, height, x0, x1, y0, y1) && k < 4
    decreases y1 - y0
  {
    if y1 == y0 then 0
    else BlockSum(img, width, height, x0, x1, y0, y1 - 1, k) + RowSum(img, width, height, y1 - 1, x0, x1, k)
  }

  /** Number of pixels in the rectangle (the source's `count`). */
  function Area(x0: nat, x1: nat, y0: nat, y1: nat): nat
    requires x0 <= x1 && y0 <= y1
  {
    (x1 - x0) * (y1 - y0)
  }

  /** Every pixel of the rectangle has channel `k` within [lo, hi]. */
  ghost predicate ChannelWithin(img: seq<Color>, width: nat, height: nat,
                                x0: nat, x1: nat, y0: nat, y1: nat, k: nat, lo: nat, hi: nat)
    requires IsRaster(img, width, height) && InImage(width, height, x0, x1, y0, y1) && k < 4
  {
    forall x, y :: x0 <= x < x1 && y0 <= y < y1 ==>
      lo <= Channel(At(img, width, height, x, y), k) <= hi
  }

  lemma {:induction false} RowSumBounds(img: seq<Color>, width: nat, height: nat, y: nat,
                                        x0: nat, x1: nat, k: nat, lo: nat, hi: nat)
    requires IsRaster(img, width, height) && y < height && x0 <= x1 <= width && k < 4
    requires forall x :: x0 <= x < x1 ==> lo <= Channel(At(img, width, height, x, y), k) <= hi
    ensures (x1 - x0) * lo <= RowSum(img, width, height, y, x0, x1, k) <= (x1 - x0) * hi
    decreases x1 - x0
  {
    if x1 > x0 {
      RowSumBounds(img, width, height, y, x0, x1 - 1, k, lo, hi);
      assert (x1 - x0) * lo == (x1 - 1 - x0) * lo + lo;
      assert (x1 - x0) * hi == (x1 - 1 - x0) * hi + hi;
    }
  }

  /** A block sum lies between `Area * lo` and `Area * hi`. */
  lemma {:induction false} BlockSumBounds(img: seq<Color>, width: nat, height: nat,
                                          x0: nat, x1: nat, y0: nat, y1: nat, k: nat, lo: nat, hi: nat)
    requires IsRaster(img, width, height) && InImage(width, height, x0, x1, y0, y1) && k < 4
    requires ChannelWithin(img, width, height, x0, x1, y0, y1, k, lo, hi)
    ensures Area(x0, x1, y0, y1) * lo <= BlockSum(img, width, height, x0, x1, y0, y1, k)
    ensures BlockSum(img, width, height, x0, x1, y0, y1, k) <= Area(x0, x1, y0, y1) * hi
    decreases y1 - y0
  {
    if y1 > y0 {
      var prev := BlockSum(img, width, height, x0, x1, y0, y1 - 1, k);
      var row := RowSum(img, width, height, y1 - 1, x0, x1, k);
      assert BlockSum(img, width, height, x0, x1, y0, y1, k) == prev + row;
      BlockSumBounds(img, width, height, x0, x1, y0, y1 - 1, k, lo, hi);
      RowSumBounds(img, width, height, y1 - 1, x0, x1, k, lo, hi);
      AreaAddRow(x0, x1, y0, y1, lo);
      AreaAddRow(x0, x1, y0, y1, hi);
    } else {
      assert Area(x0, x1, y0, y1) == 0;
    }
  }

  lemma AreaAddRow(x0: nat, x1: nat, y0: nat, y1: nat, v: nat)
    requires x0 <= x1 && y0 < y1
    ensures Area(x0, x1, y0, y1) * v == Area(x0, x1, y0, y1 - 1) * v + (x1 - x0) * v
  {
    var w, h := x1 - x0, y1 - 1 - y0;
    assert Area(x0, x1, y0, y1) == w * (h + 1) == w * h + w;
    assert (w * h + w) * v == w * h * v + w * v;
  }

  lemma AreaStep(x0: nat, x1: nat, y0: nat, y1: nat)
    requires x0 <= x1 && y0 < y1
    ensures Area(x0, x1, y0, y1) == Area(x0, x1, y0, y1 - 1) + (x1 - x0)
  {
    var w, h := x1 - x0, y1 - 1 - y0;
    assert w * (h + 1) == w * h + w;
  }

  lemma AreaPositive(x0: nat, x1: nat, y0: nat, y1: nat)
    requires x0 < x1 && y0 < y1
    ensures Area(x0, x1, y0, y1) >= 1
  {
    MulLeftMono(1, x1 - x0, y1 - y0);
  }

  /** The rounded mean of channel `k` over a non-empty rectangle. */
  function ChannelMean(img: seq<Color>, width: nat, height: nat,
                       x0: nat, x1: nat, y0: nat, y1: nat, k: nat): (v: Byte)
    requires IsRaster(img, width, height) && InImage(width, height, x0, x1, y0, y1) && k < 4
    requires x0 < x1 && y0 < y1
  {
    AreaPositive(x0, x1, y0, y1);
    BlockSumBounds(img, width, height, x0, x1, y0, y1, k, 0, 255);
    RoundDivIsByte(BlockSum(img, width, height, x0, x1, y0, y1, k), Area(x0, x1, y0, y1));
    RoundDiv(BlockSum(img, width, height, x0, x1, y0, y1, k), Area(x0, x1, y0, y1))
  }

  /** The per-channel rounded mean colour of a non-empty rectangle. */
  function BlockMean(img: seq<Color>, width: nat, height: nat,
                     x0: nat, x1: nat, y0: nat, y1: nat): Color
    requires IsRaster(img, width, height) && InImage(width, height, x0, x1, y0, y1)
    requires x0 < x1 && y0 < y1
  {
    Color(ChannelMean(img, width, height, x0, x1, y0, y1, 0),
          ChannelMean(img, width, height, x0, x1, y0, y1, 1),
          ChannelMean(img, width, height, x0, x1, y0, y1, 2),
          ChannelMean(img, width, height, x0, x1, y0, y1, 3))
  }

  /** Each channel of a block mean lies between that channel's bounds over the block. */
  lemma BlockMeanBetween(img: seq<Color>, width: nat, height: nat,
                         x0: nat, x1: nat, y0: nat, y1: nat, k: nat, lo: nat, hi: nat)
    requires IsRaster(img, width, height) && InImage(width, height, x0, x1, y0, y1) && k < 4
    requires x0 < x1 && y0 < y1
    requires ChannelWithin(img, width, height, x0, x1, y0, y1, k, lo, hi)
    ensures lo <= Channel(BlockMean(img, width, height, x0, x1, y0, y1), k) <= hi
  {
    BlockSumBounds(img, width, height, x0, x1, y0, y1, k, lo, hi);
    AreaPositive(x0, x1, y0, y1);
    RoundDivBetween(BlockSum(img, width, height, x0, x1, y0, y1, k), Area(x0, x1, y0, y1), lo, hi);
    BlockMeanChannel(img, width, height, x0, x1, y0, y1, k);
  }

  /** Channel `k` of the block mean is the rounded mean of channel `k`. */
  lemma BlockMeanChannel(img: seq<Color>, width: nat, height: nat,
                         x0: nat, x1: nat, y0: nat, y1: nat, k: nat)
    requires IsRaster(img, width, height) && InImage(width, height, x0, x1, y0, y1) && k < 4
    requires x0 < x1 && y0 < y1
    ensures Channel(BlockMean(img, width, height, x0, x1, y0, y1), k) == ChannelMean(img, width, height, x0, x1, y0, y1, k)
  {
  }

  /** A block whose pixels all have colour `c` averages to exactly `c`. */
  lemma BlockMeanUniform(img: seq<Color>, width: nat, height: nat,
                         x0: nat, x1: nat, y0: nat, y1: nat, c: Color)
    requires IsRaster(img, width, height) && InImage(width, height, x0, x1, y0, y1)
    requires x0 < x1 && y0 < y1
    requires forall x, y :: x0 <= x < x1 && y0 <= y < y1 ==> At(img, width, height, x, y) == c
    ensures BlockMean(img, width, height, x0, x1, y0, y1) == c
  {
    var m := BlockMean(img, width, height, x0, x1, y0, y1);
    forall k | 0 <= k < 4
      ensures Channel(m, k) == Channel(c, k)
    {
      BlockMeanBetween(img, width, height, x0, x1, y0, y1, k, Channel(c, k), Channel(c, k));
    }
    ChannelsDetermineColor(m, c);
  }

  /** The mean of a single-pixel block is that pixel. */
  lemma BlockMeanSingle(img: seq<Color>, width: nat, height: nat, x: nat, y: nat)
    requires IsRaster(img, width, height) && x < width && y < height
    ensures BlockMean(img, width, height, x, x + 1, y, y + 1) == At(img, width, height, x, y)
  {
    BlockMeanUniform(img, width, height, x, x + 1, y, y + 1, At(img, width, height, x, y));
  }

  /** Two rasters that agree on row `y`, columns [x0, x1), have the same row sums there. */
  lemma {:induction false} RowSumAgree(img: seq<Color>, other: seq<Color>, width: nat, height: nat,
                                       y: nat, x0: nat, x1: nat, k: nat)
    requires IsRaster(img, width, height) && IsRaster(other, width, height)
    requires y < height && x0 <= x1 <= width && k < 4
    requires forall x :: x0 <= x < x1 ==> At(img, width, height, x, y) == At(other, width, height, x, y)
    ensures RowSum(img, width, height, y, x0, x1, k) == RowSum(other, width, height, y, x0, x1, k)
    decreases x1 - x0
  {
    if x1 > x0 {
      RowSumAgree(img, other, width, height, y, x0, x1 - 1, k);
    }
  }

  /** Two rasters that agree on a rectangle have the same block sums over it. */
  lemma {:induction false} BlockSumAgree(img: seq<Color>, other: seq<Color>, width: nat, height: nat,
                                         x0: nat, x1: nat, y0: nat, y1: nat, k: nat)
    requires IsRaster(img, width, height) && IsRaster(other, width, height)
    requires InImage(width, height, x0, x1, y0, y1) && k < 4
    requires forall x, y :: x0 <= x < x1 && y0 <= y < y1 ==>
               At(img, width, height, x, y) == At(other, width, height, x, y)
    ensures BlockSum(img, width, height, x0, x1, y0, y1, k) == BlockSum(other, width, height, x0, x1, y0, y1, k)
    decreases y1 - y0
  {
    if y1 > y0 {
      BlockSumAgree(img, other, width, height, x0, x1, y0, y1 - 1, k);
      RowSumAgree(img, other, width, height, y1 - 1, x0, x1, k);
    }
  }

  /** A block mean depends only on the pixels inside the block. */
  lemma BlockMeanAgree(img: seq<Color>, other: seq<Color>, width: nat, height: nat,
                       x0: nat, x1: nat, y0: nat, y1: nat)
    requires IsRaster(img, width, height) && IsRaster(other, width, height)
    requires InImage(width, height, x0, x1, y0, y1) && x0 < x1 && y0 < y1
    requires forall x, y :: x0 <= x < x1 && y0 <= y < y1 ==>
               At(img, width, height, x, y) == At(other, width, height, x, y)
    ensures BlockMean(img, width, height, x0, x1, y0, y1) == BlockMean(other, width, height, x0, x1, y0, y1)
  {
    forall k | 0 <= k < 4 {
      BlockSumAgree(img, other, width, height, x0, x1, y0, y1, k);
    }
  }
}
