/**
 * Exact block downsampling of pixelizer.js (`sampleBlock`, `downsampleToBase`):
 * once a block size is known, each output pixel is the per-channel rounded
 * mean of one `blockSize x blockSize` block of the source image.
 */
module Downsample {
  import opened Pixels
  import opened Blocks

  function Min(a: nat, b: nat): nat
  {
    if a < b then a else b
  }

  /** The colour `sampleBlock` returns when its block holds no pixel. */
  const Transparent := Color(0, 0, 0, 0)

  /**
   * `sampleBlock`: the rounded mean of the block at (startX, startY), clipped
   * to the image at the right and bottom edges; transparent black when the
   * clipped block is empty.
   */
  method SampleBlock(img: seq<Color>, width: nat, height: nat, startX: nat, startY: nat, blockSize: nat)
    returns (c: Color)
    requires IsRaster(img, width, height)
    ensures var x1, y1 := Min(startX + blockSize, width), Min(startY + blockSize, height);
            if startX < x1 && startY < y1 then c == BlockMean(img, width, height, startX, x1, startY, y1)
            else c == Transparent
  {
    var x1 := Min(startX + blockSize, width);
    var y1 := Min(startY + blockSize, height);
    var r, g, b, a, count := 0, 0, 0, 0, 0;
    // When the clipped block is empty neither loop of the source runs.
    if startX < x1 && startY < y1 {
      var y := startY;
      while y < y1
        invariant startY <= y <= y1
        invariant count == Area(startX, x1, startY, y)
        invariant r == BlockSum(img, width, height, startX, x1, startY, y, 0)
        invariant g == BlockSum(img, width, height, startX, x1, startY, y, 1)
        invariant b == BlockSum(img, width, height, startX, x1, startY, y, 2)
        invariant a == BlockSum(img, width, height, startX, x1, startY, y, 3)
      {
        ghost var count0, r0, g0, b0, a0 := count, r, g, b, a;
        var x := startX;
        while x < x1
          invariant startX <= x <= x1
          invariant count == count0 + (x - startX)
          invariant r == r0 + RowSum(img, width, height, y, startX, x, 0)
          invariant g == g0 + RowSum(img, width, height, y, startX, x, 1)
          invariant b == b0 + RowSum(img, width, height, y, startX, x, 2)
          invariant a == a0 + RowSum(img, width, height, y, startX, x, 3)
        {
          var p := At(img, width, height, x, y);
          r, g, b, a := r + p.r, g + p.g, b + p.b, a + p.a;
          count := count + 1;
          x := x + 1;
        }
        AreaStep(startX, x1, startY, y + 1);
        y := y + 1;
      }
      AreaPositive(startX, x1, startY, y1);
    }
    if count == 0 {
      return Transparent;
    }
    MeanOfSums(img, width, height, startX, x1, startY, y1, r, g, b, a, count);
    c := Color(RoundDiv(r, count), RoundDiv(g, count), RoundDiv(b, count), RoundDiv(a, count));
  }

  /** Rounding the four accumulated sums by the pixel count gives the block mean. */
  lemma MeanOfSums(img: seq<Color>, width: nat, height: nat, x0: nat, x1: nat, y0: nat, y1: nat,
                   r: nat, g: nat, b: nat, a: nat, count: nat)
    requires IsRaster(img, width, height) && InImage(width, height, x0, x1, y0, y1)
    requires x0 < x1 && y0 < y1 && count == Area(x0, x1, y0, y1)
    requires r == BlockSum(img, width, height, x0, x1, y0, y1, 0)
    requires g == BlockSum(img, width, height, x0, x1, y0, y1, 1)
    requires b == BlockSum(img, width, height, x0, x1, y0, y1, 2)
    requires a == BlockSum(img, width, height, x0, x1, y0, y1, 3)
    ensures count > 0
    ensures RoundDiv(r, count) < 256 && RoundDiv(g, count) < 256
    ensures RoundDiv(b, count) < 256 && RoundDiv(a, count) < 256
    ensures BlockMean(img, width, height, x0, x1, y0, y1)
         == Color(RoundDiv(r, count), RoundDiv(g, count), RoundDiv(b, count), RoundDiv(a, count))
  {
    AreaPositive(x0, x1, y0, y1);
    assert RoundDiv(r, count) == ChannelMean(img, width, height, x0, x1, y0, y1, 0);
    assert RoundDiv(g, count) == ChannelMean(img, width, height, x0, x1, y0, y1, 1);
    assert RoundDiv(b, count) == ChannelMean(img, width, height, x0, x1, y0, y1, 2);
    assert RoundDiv(a, count) == ChannelMean(img, width, height, x0, x1, y0, y1, 3);
  }

  /** A cell of the base grid covers a full block of the source image. */
  lemma CellInImage(x: nat, size: nat, blockSize: nat)
    requires blockSize >= 1 && x < size / blockSize
    ensures x * blockSize + blockSize <= size
  {
    MulLeftMono(x + 1, size / blockSize, blockSize);
  }

  /** An index below `cols * rows` lies in one of the `rows` rows. */
  lemma RowOfIndex(i: nat, cols: nat, rows: nat)
    requires i < rows * cols
    ensures cols > 0 && i / cols < rows && i % cols < cols
  {
    assert cols > 0;
    MulStrictCancel(i / cols, rows, cols);
  }

  lemma IndexSplit(i: nat, cols: nat)
    requires cols > 0
    ensures PixelIndex(cols, i % cols, i / cols) == i
  {
    assert (i / cols) * cols + i % cols == i;
  }

  /** Output pixel `i` of the base grid: the mean of its full source block. */
  function Cell(img: seq<Color>, width: nat, height: nat, blockSize: nat, i: nat): Color
    requires IsRaster(img, width, height) && blockSize >= 1
    requires i < (width / blockSize) * (height / blockSize)
  {
    var tw, th := width / blockSize, height / blockSize;
    RowOfIndex(i, tw, th);
    var x, y := i % tw, i / tw;
    CellInImage(x, width, blockSize);
    CellInImage(y, height, blockSize);
    BlockMean(img, width, height, x * blockSize, x * blockSize + blockSize, y * blockSize, y * blockSize + blockSize)
  }

  /** The base grid of `floor(width / blockSize) x floor(height / blockSize)` block means. */
  function Downsampled(img: seq<Color>, width: nat, height: nat, blockSize: nat): seq<Color>
    requires IsRaster(img, width, height) && blockSize >= 1
  {
    var tw: nat, th: nat := width / blockSize, height / blockSize;
    MulLeftMono(0, tw, th);
    var n := tw * th;
    seq(n, i requires 0 <= i < n => Cell(img, width, height, blockSize, i))
  }

  /** `downsampleToBase`: fills a new `targetWidth x targetHeight` buffer block by block. */
  method DownsampleToBase(img: seq<Color>, width: nat, height: nat, blockSize: nat)
    returns (target: seq<Color>, targetWidth: nat, targetHeight: nat)
    requires IsRaster(img, width, height) && blockSize >= 1
    ensures targetWidth == width / blockSize && targetHeight == height / blockSize
    ensures target == Downsampled(img, width, height, blockSize)
  {
    targetWidth := width / blockSize;
    targetHeight := height / blockSize;
    MulLeftMono(0, targetWidth, targetHeight);
    var targetData := new Color[targetWidth * targetHeight](_ => Transparent);
    ghost var spec := Downsampled(img, width, height, blockSize);
    ghost var row := 0;
    var y := 0;
    while y < targetHeight
      invariant 0 <= y <= targetHeight && row == y * targetWidth
      invariant row <= targetData.Length == |spec|
      invariant forall i :: 0 <= i < row ==> targetData[i] == spec[i]
    {
      var x := 0;
      while x < targetWidth
        invariant 0 <= x <= targetWidth
        invariant row + x <= targetData.Length
        invariant forall i :: 0 <= i < row + x ==> targetData[i] == spec[i]
      {
        FillCell(targetData, img, width, height, blockSize, x, y);
        x := x + 1;
      }
      MulSuccessor(y, targetWidth);
      row := row + targetWidth;
      y := y + 1;
    }
    assert row == targetData.Length;
    target := targetData[..];
    assert forall i :: 0 <= i < |spec| ==> target[i] == spec[i];
  }

  /** One step of `downsampleToBase`: output pixel (x, y) receives the mean of its block. */
  method FillCell(data: array<Color>, img: seq<Color>, width: nat, height: nat, blockSize: nat, x: nat, y: nat)
    requires IsRaster(img, width, height) && blockSize >= 1
    requires x < width / blockSize && y < height / blockSize
    requires data.Length == (width / blockSize) * (height / blockSize)
    modifies data
    ensures PixelIndex(width / blockSize, x, y) < data.Length
    ensures data[..] == old(data[..])[PixelIndex(width / blockSize, x, y) :=
                          Downsampled(img, width, height, blockSize)[PixelIndex(width / blockSize, x, y)]]
  {
    CellAt(img, width, height, blockSize, x, y);
    MulLeftMono(0, x, blockSize);
    MulLeftMono(0, y, blockSize);
    var color := SampleBlock(img, width, height, x * blockSize, y * blockSize, blockSize);
    data[PixelIndex(width / blockSize, x, y)] := color;
  }

  /** Output pixel (x, y) is the rounded mean of the full block whose corner is (x * blockSize, y * blockSize). */
  lemma CellAt(img: seq<Color>, width: nat, height: nat, blockSize: nat, x: nat, y: nat)
    requires IsRaster(img, width, height) && blockSize >= 1
    requires x < width / blockSize && y < height / blockSize
    ensures PixelIndex(width / blockSize, x, y) < (width / blockSize) * (height / blockSize)
    ensures x * blockSize + blockSize <= width && y * blockSize + blockSize <= height
    ensures Cell(img, width, height, blockSize, PixelIndex(width / blockSize, x, y))
         == BlockMean(img, width, height, x * blockSize, x * blockSize + blockSize, y * blockSize, y * blockSize + blockSize)
  {
    var tw, th := width / blockSize, height / blockSize;
    CellInImage(x, width, blockSize);
    CellInImage(y, height, blockSize);
    PixelIndexInBounds(tw, th, x, y);
    PixelIndexDecompose(tw, x, y);
  }

  /**
   * A base grid drawn with every pixel as a solid `blockSize x blockSize`
   * square: pixel (x, y) takes the colour of base pixel (x / blockSize, y / blockSize).
   */
  function Upscale(base: seq<Color>, baseWidth: nat, baseHeight: nat, blockSize: nat): (img: seq<Color>)
    requires IsRaster(base, baseWidth, baseHeight) && blockSize >= 1
    ensures IsRaster(img, baseWidth * blockSize, baseHeight * blockSize)
  {
    var w, h := baseWidth * blockSize, baseHeight * blockSize;
    seq(w * h, i requires 0 <= i < w * h => UpscaledPixel(base, baseWidth, baseHeight, blockSize, i))
  }

  function UpscaledPixel(base: seq<Color>, baseWidth: nat, baseHeight: nat, blockSize: nat, i: nat): Color
    requires IsRaster(base, baseWidth, baseHeight) && blockSize >= 1
    requires i < (baseWidth * blockSize) * (baseHeight * blockSize)
  {
    var w, h := baseWidth * blockSize, baseHeight * blockSize;
    RowOfIndex(i, w, h);
    DivModUnique(baseWidth, blockSize, 0);
    DivModUnique(baseHeight, blockSize, 0);
    DivMonotone(i % w, w, blockSize);
    DivMonotone(i / w, h, blockSize);
    At(base, baseWidth, baseHeight, (i % w) / blockSize, (i / w) / blockSize)
  }

  lemma DivMonotone(a: nat, b: nat, d: nat)
    requires d >= 1 && a < b && b % d == 0
    ensures a / d < b / d
  {
    assert (a / d) * d <= a < b == (b / d) * d;
    MulStrictCancel(a / d, b / d, d);
  }

  /** Every pixel of the block at base cell (x, y) of an upscaled image has that cell's colour. */
  lemma UpscaleBlockUniform(base: seq<Color>, baseWidth: nat, baseHeight: nat, blockSize: nat, x: nat, y: nat)
    requires IsRaster(base, baseWidth, baseHeight) && blockSize >= 1
    requires x < baseWidth && y < baseHeight
    ensures x * blockSize + blockSize <= baseWidth * blockSize
    ensures y * blockSize + blockSize <= baseHeight * blockSize
    ensures forall px, py :: x * blockSize <= px < x * blockSize + blockSize &&
                             y * blockSize <= py < y * blockSize + blockSize ==>
      At(Upscale(base, baseWidth, baseHeight, blockSize), baseWidth * blockSize, baseHeight * blockSize, px, py)
        == At(base, baseWidth, baseHeight, x, y)
  {
    var w, h := baseWidth * blockSize, baseHeight * blockSize;
    assert x * blockSize + blockSize <= w by {
      MulLeftMono(x + 1, baseWidth, blockSize);
      MulSuccessor(x, blockSize);
    }
    assert y * blockSize + blockSize <= h by {
      MulLeftMono(y + 1, baseHeight, blockSize);
      MulSuccessor(y, blockSize);
    }
    forall px, py | x * blockSize <= px < x * blockSize + blockSize &&
                    y * blockSize <= py < y * blockSize + blockSize
      ensures At(Upscale(base, baseWidth, baseHeight, blockSize), w, h, px, py) == At(base, baseWidth, baseHeight, x, y)
    {
      UpscaleInBlock(base, baseWidth, baseHeight, blockSize, x, y, px, py);
    }
  }

  lemma UpscaleInBlock(base: seq<Color>, baseWidth: nat, baseHeight: nat, blockSize: nat,
                       x: nat, y: nat, px: nat, py: nat)
    requires IsRaster(base, baseWidth, baseHeight) && blockSize >= 1
    requires x < baseWidth && y < baseHeight
    requires x * blockSize <= px < x * blockSize + blockSize && y * blockSize <= py < y * blockSize + blockSize
    requires px < baseWidth * blockSize && py < baseHeight * blockSize
    ensures At(Upscale(base, baseWidth, baseHeight, blockSize), baseWidth * blockSize, baseHeight * blockSize, px, py)
         == At(base, baseWidth, baseHeight, x, y)
  {
    var rx: nat, ry: nat := px - x * blockSize, py - y * blockSize;
    DivModUnique(x, blockSize, rx);
    DivModUnique(y, blockSize, ry);
    UpscaleAt(base, baseWidth, baseHeight, blockSize, baseWidth * blockSize, baseHeight * blockSize, px, py);
  }

  /** Pixel (px, py) of an upscaled image is base pixel (px / blockSize, py / blockSize). */
  lemma UpscaleAt(base: seq<Color>, baseWidth: nat, baseHeight: nat, blockSize: nat,
                  w: nat, h: nat, px: nat, py: nat)
    requires IsRaster(base, baseWidth, baseHeight) && blockSize >= 1
    requires w == baseWidth * blockSize && h == baseHeight * blockSize
    requires px < w && py < h
    ensures px / blockSize < baseWidth && py / blockSize < baseHeight
    ensures var cx, cy := px / blockSize, py / blockSize;
            At(Upscale(base, baseWidth, baseHeight, blockSize), w, h, px, py) == At(base, baseWidth, baseHeight, cx, cy)
  {
    var i := PixelIndex(w, px, py);
    assert i < w * h by { PixelIndexInBounds(w, h, px, py); }
    assert i % w == px && i / w == py by { PixelIndexDecompose(w, px, py); }
    assert px / blockSize < baseWidth by {
      DivModUnique(baseWidth, blockSize, 0);
      DivMonotone(px, w, blockSize);
    }
    assert py / blockSize < baseHeight by {
      DivModUnique(baseHeight, blockSize, 0);
      DivMonotone(py, h, blockSize);
    }
    assert Upscale(base, baseWidth, baseHeight, blockSize)[i] == UpscaledPixel(base, baseWidth, baseHeight, blockSize, i);
  }

  /**
   * Round trip: downsampling an image made of solid `blockSize x blockSize`
   * squares gives back the grid the squares were drawn from.
   */
  lemma DownsampleUpscale(base: seq<Color>, baseWidth: nat, baseHeight: nat, blockSize: nat)
    requires IsRaster(base, baseWidth, baseHeight) && blockSize >= 1
    ensures (baseWidth * blockSize) / blockSize == baseWidth
    ensures (baseHeight * blockSize) / blockSize == baseHeight
    ensures Downsampled(Upscale(base, baseWidth, baseHeight, blockSize),
                        baseWidth * blockSize, baseHeight * blockSize, blockSize) == base
  {
    var w, h := baseWidth * blockSize, baseHeight * blockSize;
    var img := Upscale(base, baseWidth, baseHeight, blockSize);
    DivModUnique(baseWidth, blockSize, 0);
    DivModUnique(baseHeight, blockSize, 0);
    var down := Downsampled(img, w, h, blockSize);
    assert |down| == |base|;
    forall i | 0 <= i < |base|
      ensures down[i] == base[i]
    {
      RowOfIndex(i, baseWidth, baseHeight);
      IndexSplit(i, baseWidth);
      var x, y := i % baseWidth, i / baseWidth;
      CellAt(img, w, h, blockSize, x, y);
      UpscaleBlockUniform(base, baseWidth, baseHeight, blockSize, x, y);
      BlockMeanUniform(img, w, h, x * blockSize, x * blockSize + blockSize,
                       y * blockSize, y * blockSize + blockSize, At(base, baseWidth, baseHeight, x, y));
    }
  }
}
