/**
 * Background handling of web/js/main.js: `detectBackgroundColor` averages the
 * four corner pixels, and `removeAntiAliasing` snaps every pixel that lies
 * close to that colour onto it, in place, unless the background is mostly
 * transparent.
 */
module Background {
  import opened Pixels
  import opened Blocks
  import opened ColorBoxes
  import opened MedianCut

  /** The default `threshold` of `removeAntiAliasing`. */
  const DefaultThreshold: nat := 30

  /** Alpha below which the background counts as transparent and nothing is snapped. */
  const OpaqueAlpha: nat := 128

  /** The corners in the order the source visits them: (0,0), (0,h-1), (w-1,0), (w-1,h-1). */
  function Corners(img: seq<Color>, width: nat, height: nat): (corners: seq<Color>)
    requires IsRaster(img, width, height) && width >= 1 && height >= 1
    ensures |corners| == 4
  {
    [At(img, width, height, 0, 0), At(img, width, height, 0, height - 1),
     At(img, width, height, width - 1, 0), At(img, width, height, width - 1, height - 1)]
  }

  /**
   * `detectBackgroundColor`: sums each channel over the four corners and
   * divides by 4 with `Math.round`, i.e. the rounded mean of the corners.
   */
  method DetectBackgroundColor(img: seq<Color>, width: nat, height: nat) returns (bg: Color)
    requires IsRaster(img, width, height) && width >= 1 && height >= 1
    ensures bg == MeanColor(Corners(img, width, height))
  {
    var points := [(0, 0), (0, height - 1), (width - 1, 0), (width - 1, height - 1)];
    ghost var corners := Corners(img, width, height);
    var r, g, b, a := 0, 0, 0, 0;
    for j := 0 to 4
      invariant r == ChannelSum(corners[..j], 0) && g == ChannelSum(corners[..j], 1)
      invariant b == ChannelSum(corners[..j], 2) && a == ChannelSum(corners[..j], 3)
    {
      var (x, y) := points[j];
      var p := At(img, width, height, x, y);
      assert corners[..j + 1][..j] == corners[..j];
      r, g, b, a := r + p.r, g + p.g, b + p.b, a + p.a;
    }
    assert corners[..4] == corners;
    ChannelSumBounds(corners, 0, 0, 255);
    ChannelSumBounds(corners, 1, 0, 255);
    ChannelSumBounds(corners, 2, 0, 255);
    ChannelSumBounds(corners, 3, 0, 255);
    RoundDivIsByte(r, 4);
    RoundDivIsByte(g, 4);
    RoundDivIsByte(b, 4);
    RoundDivIsByte(a, 4);
    bg := Color(RoundDiv(r, 4), RoundDiv(g, 4), RoundDiv(b, 4), RoundDiv(a, 4));
  }

  /** Each channel of the detected background lies between that channel's extremes over the corners. */
  lemma BackgroundBetweenCorners(img: seq<Color>, width: nat, height: nat, k: nat)
    requires IsRaster(img, width, height) && width >= 1 && height >= 1 && k < 4
    ensures var corners := Corners(img, width, height);
            MinOf(corners, k) <= Channel(MeanColor(corners), k) <= MaxOf(corners, k)
  {
    MeanWithinBounds(Corners(img, width, height));
  }

  /** When all four corners share a colour, that colour is the background. */
  lemma BackgroundOfUniformCorners(img: seq<Color>, width: nat, height: nat, c: Color)
    requires IsRaster(img, width, height) && width >= 1 && height >= 1
    requires At(img, width, height, 0, 0) == c && At(img, width, height, 0, height - 1) == c
    requires At(img, width, height, width - 1, 0) == c && At(img, width, height, width - 1, height - 1) == c
    ensures MeanColor(Corners(img, width, height)) == c
  {
    MeanOfUniform(Corners(img, width, height), c);
  }

  /**
   * Whether a pixel is snapped: `colorDistance(pixel, bg) < threshold`.  The
   * source compares the square root of the squared distance; for a
   * non-negative threshold that is the same as comparing the square.
   */
  predicate Close(p: Color, bg: Color, threshold: nat)
  {
    SqDistance(p, bg) < threshold * threshold
  }

  /** The colour one pixel ends with. */
  function Snap(p: Color, bg: Color, threshold: nat): Color
  {
    if Close(p, bg, threshold) then bg else p
  }

  /** The whole buffer after `removeAntiAliasing`. */
  function AntiAliasRemoved(img: seq<Color>, bg: Color, threshold: nat): (out: seq<Color>)
    ensures |out| == |img|
  {
    if bg.a < OpaqueAlpha then img else seq(|img|, i requires 0 <= i < |img| => Snap(img[i], bg, threshold))
  }

  /** `removeAntiAliasing`: visits the pixels row by row and snaps those close to `bg`. */
  method RemoveAntiAliasing(data: array<Color>, width: nat, height: nat, bg: Color, threshold: nat)
    requires data.Length == width * height
    modifies data
    ensures data[..] == AntiAliasRemoved(old(data[..]), bg, threshold)
  {
    if bg.a < OpaqueAlpha {
      return;
    }
    ghost var img := data[..];
    for y := 0 to height
      invariant forall i :: 0 <= i < data.Length ==>
                  data[i] == if i < y * width then Snap(img[i], bg, threshold) else img[i]
    {
      for x := 0 to width
        invariant forall i :: 0 <= i < data.Length ==>
                    data[i] == if i < y * width + x then Snap(img[i], bg, threshold) else img[i]
      {
        PixelIndexInBounds(width, height, x, y);
        var idx := y * width + x;
        if SqDistance(data[idx], bg) < threshold * threshold {
          data[idx] := bg;
        }
      }
      MulSuccessor(y, width);
    }
    assert data[..] == AntiAliasRemoved(img, bg, threshold);
  }

  /** Every pixel either keeps its colour or becomes the background, and it becomes the background exactly when it was close to it. */
  lemma AntiAliasRemovedPixel(img: seq<Color>, bg: Color, threshold: nat, i: nat)
    requires bg.a >= OpaqueAlpha && i < |img|
    ensures var out := AntiAliasRemoved(img, bg, threshold);
            (out[i] == bg || out[i] == img[i]) && (out[i] != img[i] ==> Close(img[i], bg, threshold))
            && (Close(img[i], bg, threshold) ==> out[i] == bg)
  {
  }

  /** Afterwards no pixel other than the background itself is still close to the background. */
  lemma AntiAliasRemovedClean(img: seq<Color>, bg: Color, threshold: nat)
    requires bg.a >= OpaqueAlpha
    ensures var out := AntiAliasRemoved(img, bg, threshold);
            forall i :: 0 <= i < |out| && out[i] != bg ==> !Close(out[i], bg, threshold)
  {
  }

  /** Removing anti-aliasing twice with the same background and threshold changes nothing more. */
  lemma AntiAliasRemovedIdempotent(img: seq<Color>, bg: Color, threshold: nat)
    ensures AntiAliasRemoved(AntiAliasRemoved(img, bg, threshold), bg, threshold)
            == AntiAliasRemoved(img, bg, threshold)
  {
    if bg.a >= OpaqueAlpha {
      var once := AntiAliasRemoved(img, bg, threshold);
      forall i | 0 <= i < |img|
        ensures Snap(once[i], bg, threshold) == once[i]
      {
        if Close(img[i], bg, threshold) {
          SqDistanceZero(bg, bg);
        }
      }
    }
  }

  /** A mostly transparent background leaves the buffer untouched. */
  lemma AntiAliasRemovedTransparent(img: seq<Color>, bg: Color, threshold: nat)
    requires bg.a < OpaqueAlpha
    ensures AntiAliasRemoved(img, bg, threshold) == img
  {
  }

  /** A zero threshold snaps nothing. */
  lemma AntiAliasRemovedZeroThreshold(img: seq<Color>, bg: Color)
    ensures AntiAliasRemoved(img, bg, 0) == img
  {
  }
}
