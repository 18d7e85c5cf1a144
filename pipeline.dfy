/**
 * The pixel stages of `processImage` (web/js/main.js), in the source's order:
 * the background colour is taken from the corners of the scaled image, the
 * image is averaged tile by tile, pixels close to the background are snapped
 * onto it with the default threshold, and finally the colours are reduced by
 * median cut.  All stages work in place on one buffer.
 */
module Pipeline {
  import opened Pixels
  import opened ColorBoxes
  import opened MedianCut
  import opened Pixelate
  import opened Background

  /** The buffer median cut starts from: pixelated, then snapped onto the corner background. */
  function Cleaned(img: seq<Color>, width: nat, height: nat, blockSize: nat): seq<Color>
    requires IsRaster(img, width, height) && width >= 1 && height >= 1 && blockSize >= 1
  {
    var bg := MeanColor(Corners(img, width, height));
    AntiAliasRemoved(Pixelated(img, width, height, blockSize), bg, DefaultThreshold)
  }

  /** The buffer `processImage` ends with, given the palette median cut chose. */
  function Processed(img: seq<Color>, width: nat, height: nat, blockSize: nat, palette: seq<Color>): seq<Color>
    requires IsRaster(img, width, height) && width >= 1 && height >= 1 && blockSize >= 1 && palette != []
  {
    MapToPalette(Cleaned(img, width, height, blockSize), palette)
  }

  /**
   * The pixel stages of `processImage`: the palette is the one median cut
   * builds from the cleaned buffer, and every pixel ends as its nearest
   * palette colour.
   */
  method ProcessPixels(data: array<Color>, width: nat, height: nat, blockSize: nat, colorCount: int)
    returns (palette: seq<Color>)
    requires data.Length == width * height && width >= 1 && height >= 1 && blockSize >= 1
    requires data.Length >= 2 || colorCount <= 1
    modifies data
    ensures |Cleaned(old(data[..]), width, height, blockSize)| == data.Length
    ensures palette == MedianCutPalette(Cleaned(old(data[..]), width, height, blockSize), colorCount)
    ensures palette != [] && |palette| <= Max(1, colorCount)
    ensures data[..] == Processed(old(data[..]), width, height, blockSize, palette)
  {
    var bg := DetectBackgroundColor(data[..], width, height);
    PixelateBlocks(data, width, height, blockSize);
    RemoveAntiAliasing(data, width, height, bg, DefaultThreshold);
    palette := MedianCutQuantization(data, colorCount);
  }

  /** Every pixel of the output is a palette colour. */
  lemma ProcessedUsesPalette(img: seq<Color>, width: nat, height: nat, blockSize: nat, palette: seq<Color>)
    requires IsRaster(img, width, height) && width >= 1 && height >= 1 && blockSize >= 1 && palette != []
    ensures var out := Processed(img, width, height, blockSize, palette);
            |out| == |img| && (forall i :: 0 <= i < |out| ==> out[i] in palette)
  {
    MapToPaletteIdempotent(Cleaned(img, width, height, blockSize), palette);
  }
}
