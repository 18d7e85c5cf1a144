/**
 * The tile loop of `processImage` (web/js/main.js): the image is cut into
 * `blockSize x blockSize` tiles starting at the top-left corner (tiles on the
 * right and bottom edges are clipped to the image), and every pixel of a tile
 * is overwritten, in place, by the tile's per-channel rounded mean colour.
 * Tiles are visited row of tiles by row of tiles, left to right.
 */
module Pixelate {
  import opened Pixels
  import opened Blocks
  import opened Downsample

  /** Left (or top) edge of the tile holding column (or row) `v`. */
  function TileStart(v: nat, blockSize: nat): (start: nat)
    requires blockSize >= 1
    ensures start <= v < start + blockSize
  {
    DivModUnique(v / blockSize, blockSize, v % blockSize);
    (v / blockSize) * blockSize
  }

  /** Every coordinate of the tile starting at `q * blockSize` has that tile's start. */
  lemma TileStartOf(v: nat, q: nat, blockSize: nat)
    requires blockSize >= 1 && q * blockSize <= v < q * blockSize + blockSize
    ensures TileStart(v, blockSize) == q * blockSize
  {
    DivModUnique(q, blockSize, v - q * blockSize);
  }

  /** The clipped tile [x0, x1) x [y0, y1) that holds pixel (x, y). */
  function TileOf(width: nat, height: nat, blockSize: nat, x: nat, y: nat): (t: (nat, nat, nat, nat))
    requires blockSize >= 1 && x < width && y < height
    ensures t.0 <= x < t.1 <= width && t.2 <= y < t.3 <= height
  {
    var x0, y0 := TileStart(x, blockSize), TileStart(y, blockSize);
    (x0, Min(x0 + blockSize, width), y0, Min(y0 + blockSize, height))
  }

  /** The colour pixel (x, y) ends with: the rounded mean of its tile in `img`. */
  function PixelatedAt(img: seq<Color>, width: nat, height: nat, blockSize: nat, x: nat, y: nat): Color
    requires IsRaster(img, width, height) && blockSize >= 1 && x < width && y < height
  {
    var t := TileOf(width, height, blockSize, x, y);
    BlockMean(img, width, height, t.0, t.1, t.2, t.3)
  }

  function PixelatedIndex(img: seq<Color>, width: nat, height: nat, blockSize: nat, i: nat): Color
    requires IsRaster(img, width, height) && blockSize >= 1 && i < |img|
  {
    RowOfIndex(i, width, height);
    PixelatedAt(img, width, height, blockSize, i % width, i / width)
  }

  /** The whole image after the tile loop, pixel by pixel. */
  function Pixelated(img: seq<Color>, width: nat, height: nat, blockSize: nat): (out: seq<Color>)
    requires IsRaster(img, width, height) && blockSize >= 1
    ensures IsRaster(out, width, height)
  {
    seq(|img|, i requires 0 <= i < |img| => PixelatedIndex(img, width, height, blockSize, i))
  }

  /** Index `i` lies in the rectangle [x0, x1) x [y0, y1). */
  predicate InRect(i: nat, width: nat, x0: nat, x1: nat, y0: nat, y1: nat)
  {
    width > 0 && y0 <= i / width < y1 && x0 <= i % width < x1
  }

  /**
   * Index `i` lies in a tile the loop has finished when it is about to visit
   * the tile at (x, y): a row of tiles above, or an earlier tile of this row.
   */
  predicate Done(i: nat, width: nat, blockSize: nat, x: nat, y: nat)
  {
    width > 0 && (i / width < y || (i / width < y + blockSize && i % width < x))
  }

  lemma DivModSplit(i: nat, width: nat)
    requires width > 0
    ensures i == (i / width) * width + i % width
  {
  }

  /** Overwrites indices [start, end) with `c`. */
  method FillRun(data: array<Color>, start: nat, end: nat, c: Color)
    requires start <= end <= data.Length
    modifies data
    ensures forall i :: 0 <= i < data.Length ==> data[i] == if start <= i < end then c else old(data[i])
  {
    for i := start to end
      invariant forall j :: 0 <= j < data.Length ==> data[j] == if start <= j < i then c else old(data[j])
    {
      data[i] := c;
    }
  }

  /** The fill loops of a tile: every pixel of [x0, x1) x [y0, y1) becomes `c`, nothing else changes. */
  method FillRect(data: array<Color>, width: nat, height: nat, x0: nat, x1: nat, y0: nat, y1: nat, c: Color)
    requires data.Length == width * height && InImage(width, height, x0, x1, y0, y1) && x0 < x1
    modifies data
    ensures forall i :: 0 <= i < data.Length ==>
              data[i] == if InRect(i, width, x0, x1, y0, y1) then c else old(data[i])
  {
    for y := y0 to y1
      invariant forall i :: 0 <= i < data.Length ==>
                  data[i] == if InRect(i, width, x0, x1, y0, y) then c else old(data[i])
    {
      PixelIndexInBounds(width, height, x1 - 1, y);
      ghost var before := data[..];
      FillRun(data, y * width + x0, y * width + x1, c);
      forall i | 0 <= i < data.Length
        ensures data[i] == if InRect(i, width, x0, x1, y0, y + 1) then c else old(data[i])
      {
        if y * width + x0 <= i < y * width + x1 {
          DivModUnique(y, width, i - y * width);
        } else {
          DivModSplit(i, width);
          assert before[i] == data[i];
        }
      }
    }
  }

  /** Before a tile is visited its pixels still hold their original colours, so its mean is the original one. */
  lemma TileUnvisited(cur: seq<Color>, img: seq<Color>, width: nat, height: nat, blockSize: nat,
                      x: nat, y: nat, x1: nat, y1: nat)
    requires IsRaster(img, width, height) && IsRaster(cur, width, height) && blockSize >= 1
    requires x < x1 == Min(x + blockSize, width) && y < y1 == Min(y + blockSize, height)
    requires forall i :: 0 <= i < |cur| && !Done(i, width, blockSize, x, y) ==> cur[i] == img[i]
    ensures BlockMean(cur, width, height, x, x1, y, y1) == BlockMean(img, width, height, x, x1, y, y1)
  {
    forall px, py | x <= px < x1 && y <= py < y1
      ensures At(cur, width, height, px, py) == At(img, width, height, px, py)
    {
      PixelIndexInBounds(width, height, px, py);
      PixelIndexDecompose(width, px, py);
      assert !Done(PixelIndex(width, px, py), width, blockSize, x, y);
    }
    BlockMeanAgree(cur, img, width, height, x, x1, y, y1);
  }

  /** Every pixel of the tile at (q * blockSize, y) ends with that tile's mean. */
  lemma TileTarget(img: seq<Color>, width: nat, height: nat, blockSize: nat,
                   q: nat, r: nat, x1: nat, y1: nat, i: nat)
    requires IsRaster(img, width, height) && blockSize >= 1 && i < |img|
    requires q * blockSize < x1 == Min(q * blockSize + blockSize, width)
    requires r * blockSize < y1 == Min(r * blockSize + blockSize, height)
    requires InRect(i, width, q * blockSize, x1, r * blockSize, y1)
    ensures Pixelated(img, width, height, blockSize)[i]
            == BlockMean(img, width, height, q * blockSize, x1, r * blockSize, y1)
  {
    TileStartOf(i % width, q, blockSize);
    TileStartOf(i / width, r, blockSize);
  }

  /** One index of `TileStep`. */
  lemma TileStepAt(prev: seq<Color>, cur: seq<Color>, img: seq<Color>, width: nat, height: nat,
                   blockSize: nat, q: nat, r: nat, x1: nat, y1: nat, c: Color, i: nat)
    requires IsRaster(img, width, height) && IsRaster(prev, width, height) && IsRaster(cur, width, height)
    requires blockSize >= 1 && i < |cur|
    requires q * blockSize < x1 == Min(q * blockSize + blockSize, width)
    requires r * blockSize < y1 == Min(r * blockSize + blockSize, height)
    requires c == BlockMean(img, width, height, q * blockSize, x1, r * blockSize, y1)
    requires prev[i] == if Done(i, width, blockSize, q * blockSize, r * blockSize)
                        then Pixelated(img, width, height, blockSize)[i] else img[i]
    requires cur[i] == if InRect(i, width, q * blockSize, x1, r * blockSize, y1) then c else prev[i]
    ensures cur[i] == if Done(i, width, blockSize, q * blockSize + blockSize, r * blockSize)
                      then Pixelated(img, width, height, blockSize)[i] else img[i]
  {
    if InRect(i, width, q * blockSize, x1, r * blockSize, y1) {
      TileTarget(img, width, height, blockSize, q, r, x1, y1, i);
    } else {
      RowOfIndex(i, width, height);
    }
  }

  /**
   * After the tile at (x, y) has been filled with its mean, the finished
   * region grows by that tile and holds the final colours there.
   */
  lemma TileStep(prev: seq<Color>, cur: seq<Color>, img: seq<Color>, width: nat, height: nat,
                 blockSize: nat, q: nat, r: nat, x1: nat, y1: nat, c: Color)
    requires IsRaster(img, width, height) && IsRaster(prev, width, height) && IsRaster(cur, width, height)
    requires blockSize >= 1
    requires q * blockSize < x1 == Min(q * blockSize + blockSize, width)
    requires r * blockSize < y1 == Min(r * blockSize + blockSize, height)
    requires c == BlockMean(img, width, height, q * blockSize, x1, r * blockSize, y1)
    requires forall i :: 0 <= i < |prev| ==>
               prev[i] == if Done(i, width, blockSize, q * blockSize, r * blockSize)
                          then Pixelated(img, width, height, blockSize)[i] else img[i]
    requires forall i :: 0 <= i < |cur| ==>
               cur[i] == if InRect(i, width, q * blockSize, x1, r * blockSize, y1) then c else prev[i]
    ensures forall i :: 0 <= i < |cur| ==>
              cur[i] == if Done(i, width, blockSize, q * blockSize + blockSize, r * blockSize)
                        then Pixelated(img, width, height, blockSize)[i] else img[i]
  {
    forall i | 0 <= i < |cur|
      ensures cur[i] == if Done(i, width, blockSize, q * blockSize + blockSize, r * blockSize)
                        then Pixelated(img, width, height, blockSize)[i] else img[i]
    {
      TileStepAt(prev, cur, img, width, height, blockSize, q, r, x1, y1, c, i);
    }
  }

  /** The tile loop of `processImage`, in place on the pixel buffer. */
  method PixelateBlocks(data: array<Color>, width: nat, height: nat, blockSize: nat)
    requires data.Length == width * height && blockSize >= 1
    modifies data
    ensures data[..] == Pixelated(old(data[..]), width, height, blockSize)
  {
    ghost var img := data[..];
    ghost var target := Pixelated(img, width, height, blockSize);
    var y := 0;
    ghost var r := 0;
    while y < height
      invariant y == r * blockSize
      invariant forall i :: 0 <= i < data.Length ==>
                  data[i] == if Done(i, width, blockSize, 0, y) then target[i] else img[i]
    {
      var x := 0;
      ghost var q := 0;
      while x < width
        invariant x == q * blockSize && y < height
        invariant forall i :: 0 <= i < data.Length ==>
                    data[i] == if Done(i, width, blockSize, x, y) then target[i] else img[i]
      {
        var x1, y1 := Min(x + blockSize, width), Min(y + blockSize, height);
        // The sums are taken over the buffer as it is when the tile is reached.
        var c := SampleBlock(data[..], width, height, x, y, blockSize);
        TileUnvisited(data[..], img, width, height, blockSize, x, y, x1, y1);
        ghost var prev := data[..];
        FillRect(data, width, height, x, x1, y, y1, c);
        TileStep(prev, data[..], img, width, height, blockSize, q, r, x1, y1, c);
        MulSuccessor(q, blockSize);
        x, q := x + blockSize, q + 1;
      }
      forall i | 0 <= i < data.Length
        ensures data[i] == if Done(i, width, blockSize, 0, y + blockSize) then target[i] else img[i]
      {
        RowOfIndex(i, width, height);
      }
      MulSuccessor(r, blockSize);
      y, r := y + blockSize, r + 1;
    }
    forall i | 0 <= i < data.Length
      ensures data[i] == target[i]
    {
      RowOfIndex(i, width, height);
    }
  }

  /** Pixel (x, y) of `Pixelated` is the mean of its tile. */
  lemma PixelatedAtPixel(img: seq<Color>, width: nat, height: nat, blockSize: nat, x: nat, y: nat)
    requires IsRaster(img, width, height) && blockSize >= 1 && x < width && y < height
    ensures At(Pixelated(img, width, height, blockSize), width, height, x, y)
            == PixelatedAt(img, width, height, blockSize, x, y)
  {
    PixelIndexInBounds(width, height, x, y);
    PixelIndexDecompose(width, x, y);
  }

  /** Every pixel of a tile has that tile as its own tile. */
  lemma TileOfSame(width: nat, height: nat, blockSize: nat, x: nat, y: nat, px: nat, py: nat)
    requires blockSize >= 1 && x < width && y < height
    requires var t := TileOf(width, height, blockSize, x, y); t.0 <= px < t.1 && t.2 <= py < t.3
    ensures TileOf(width, height, blockSize, px, py) == TileOf(width, height, blockSize, x, y)
  {
    TileStartOf(px, x / blockSize, blockSize);
    TileStartOf(py, y / blockSize, blockSize);
  }

  /** After the tile loop every tile is uniform: all its pixels hold the tile's original mean. */
  lemma PixelatedTileUniform(img: seq<Color>, width: nat, height: nat, blockSize: nat, x: nat, y: nat)
    requires IsRaster(img, width, height) && blockSize >= 1 && x < width && y < height
    ensures var t := TileOf(width, height, blockSize, x, y);
            forall px, py :: t.0 <= px < t.1 && t.2 <= py < t.3 ==>
              At(Pixelated(img, width, height, blockSize), width, height, px, py)
              == BlockMean(img, width, height, t.0, t.1, t.2, t.3)
  {
    var t := TileOf(width, height, blockSize, x, y);
    forall px, py | t.0 <= px < t.1 && t.2 <= py < t.3
      ensures At(Pixelated(img, width, height, blockSize), width, height, px, py)
              == BlockMean(img, width, height, t.0, t.1, t.2, t.3)
    {
      PixelatedAtPixel(img, width, height, blockSize, px, py);
      TileOfSame(width, height, blockSize, x, y, px, py);
    }
  }

  /** Pixelating twice with the same block size changes nothing more. */
  lemma PixelatedIdempotent(img: seq<Color>, width: nat, height: nat, blockSize: nat)
    requires IsRaster(img, width, height) && blockSize >= 1
    ensures Pixelated(Pixelated(img, width, height, blockSize), width, height, blockSize)
            == Pixelated(img, width, height, blockSize)
  {
    var once := Pixelated(img, width, height, blockSize);
    var twice := Pixelated(once, width, height, blockSize);
    forall i | 0 <= i < |img|
      ensures twice[i] == once[i]
    {
      RowOfIndex(i, width, height);
      var x, y := i % width, i / width;
      var t := TileOf(width, height, blockSize, x, y);
      PixelatedTileUniform(img, width, height, blockSize, x, y);
      BlockMeanUniform(once, width, height, t.0, t.1, t.2, t.3, BlockMean(img, width, height, t.0, t.1, t.2, t.3));
    }
  }

  /** With a block size of 1 every tile is a single pixel and the image is unchanged. */
  lemma PixelatedUnitBlocks(img: seq<Color>, width: nat, height: nat)
    requires IsRaster(img, width, height)
    ensures Pixelated(img, width, height, 1) == img
  {
    forall i | 0 <= i < |img|
      ensures Pixelated(img, width, height, 1)[i] == img[i]
    {
      UnitTile(img, width, height, i);
    }
  }

  lemma UnitTile(img: seq<Color>, width: nat, height: nat, i: nat)
    requires IsRaster(img, width, height) && i < |img|
    ensures Pixelated(img, width, height, 1)[i] == img[i]
  {
    RowOfIndex(i, width, height);
    var x, y := i % width, i / width;
    assert PixelIndex(width, x, y) == i by { DivModSplit(i, width); }
    UnitTileAt(img, width, height, x, y);
  }

  lemma UnitTileAt(img: seq<Color>, width: nat, height: nat, x: nat, y: nat)
    requires IsRaster(img, width, height) && x < width && y < height
    ensures At(Pixelated(img, width, height, 1), width, height, x, y) == At(img, width, height, x, y)
  {
    PixelatedAtPixel(img, width, height, 1, x, y);
    assert TileOf(width, height, 1, x, y) == (x, x + 1, y, y + 1) by {
      TileStartOf(x, x, 1);
      TileStartOf(y, y, 1);
    }
    BlockMeanSingle(img, width, height, x, y);
  }
}
