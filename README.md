# image2pixel-web, modelled in Dafny

image2pixel-web turns an ordinary picture into pixel art in the browser. This
project models the image-processing core of its two scripts.

- **pixelizer.js** has three parts:
  - **Block-size detection.** It takes run lengths of identical colour along sampled rows and columns, their mode and gcd, the candidate block sizes derived from them, and the choice among the candidates.
  - **Downsampling.** Each `blockSize x blockSize` block becomes one pixel of a smaller image, the per-channel rounded mean of the block.
  - **Median-cut colour quantisation.** This uses the `ColorBox` class and `colorDistance`.
- **web/js/main.js** has four parts:
  - **Background detection.** The background is the rounded mean of the four corner pixels.
  - **Anti-alias removal.** Pixels close to the background are snapped onto it, in place.
  - **Display scaling.** The image is scaled to fit an 800 x 600 box.
  - **The tile loop of `processImage`.** Every tile is overwritten by its mean, in place.

  main.js also carries its own copy of `ColorBox`, `medianCutQuantization` and `colorDistance` (lines 111-245). That copy is the same code as in pixelizer.js, so one model serves both.

The model has these modules:

| module | file | contents |
|---|---|---|
| `Pixels` | pixels.dfy | The `Color` record. The raster layout. `Math.round(s / c)` on non-negative integers (`RoundDiv`). The interleaved RGBA byte layout. |
| `Blocks` | blocks.dfy | Channel sums and rounded means over a clipped rectangle. This is the specification `sampleBlock` and the tile loop are proved against. |
| `Scanlines` | scanlines.dfy | `analyzeScanline`. Its runs are proved to be the unique maximal run-length encoding of the line. |
| `Detection` | detection.dfy | `calculateSizeStatistics`, `gcd`, `findCommonSizes`, `validateCandidates`, `detectPixelBlockSize` and `calculateSuggestedWidth`. |
| `Downsample` | downsample.dfy | `sampleBlock` and `downsampleToBase`. |
| `ColorBoxes` | colorbox.dfy | The `ColorBox` class, whose fields are updated in place. The specification functions for its bounds, mean and sort. |
| `MedianCut` | mediancut.dfy | `medianCutQuantization` (box loop, palette, in-place mapping) and `colorDistance`. |
| `Background` | background.dfy | `detectBackgroundColor` and `removeAntiAliasing`. |
| `Scaling` | scaling.dfy | `calculateScaledDimensions`. |
| `Pixelate` | pixelate.dfy | The tile loop of `processImage`. |
| `Pipeline` | pipeline.dfy | The pixel stages of `processImage` in order. |

Conventions used throughout:

- A pixel buffer is a row-major `seq<Color>` or `array<Color>` with one element per pixel. The source's `imageData.data` holds four bytes per pixel, at `(y * width + x) * 4`. `Pixels.Interleave` and `Pixels.Deinterleave` connect the two layouts, and the round-trip lemmas prove they agree.
- `colorDistance` takes a square root. Only comparisons of distances matter, and the root is monotone, so the model compares squared distances. `distance < threshold` becomes `squared < threshold * threshold`.

Two tie rules of the code matter:

- **Which box median cut splits.** `boxes.reduce((a, b) => a.largestRange > b.largestRange ? a : b)` keeps the earlier box only when it is strictly wider. Of several equally wide boxes it therefore picks the **last**, not the first. `MedianCut.WidestBoxIsLast` states this.
- **The mode of the run lengths.** `Object.keys` lists integer keys in ascending order. The reduction keeps the later key on ties. The mode is therefore the **largest** of the most frequent lengths.

## Model

| member | source | states |
|---|---|---|
| Pixels.RoundDivBetween | pixelizer.js:636-639 | `Math.round(s / c)` of a sum of `c` values in [lo, hi] lies in [lo, hi] |
| Pixels.RoundDivOfCopies | pixelizer.js:636-639 | `Math.round(c * v / c) == v`: the mean of equal values is that value |
| Pixels.RoundDivIsByte | pixelizer.js:636-639 | the rounded mean of byte values is a byte |
| Pixels.InterleaveAt | pixelizer.js:624-628 | byte `4 * i + k` of the interleaved buffer is channel `k` of pixel `i` |
| Pixels.DeinterleaveInterleave | pixelizer.js:750-758 | reading the bytes four at a time gives back the pixels that were laid out |
| Pixels.InterleaveDeinterleave | pixelizer.js:750-758 | laying the collected pixels out again gives back the byte buffer |
| Pixels.PixelIndexDecompose | pixelizer.js:624 | index `y * width + x` determines `x` (its remainder) and `y` (its quotient) |
| Blocks.BlockSumBounds | pixelizer.js:622-631 | the sum over a rectangle lies between `count * lo` and `count * hi` |
| Blocks.BlockMeanBetween | pixelizer.js:633-640 | each channel of a block mean lies between that channel's bounds over the block |
| Blocks.BlockMeanUniform | pixelizer.js:633-640 | a block of one colour averages to that colour |
| Blocks.BlockMeanAgree | web/js/main.js:346-362 | a block mean depends only on the pixels inside the block |
| Scanlines.LeadRun | pixelizer.js:332-340 | the current run has length at least 1 and stays inside the line |
| Scanlines.RunLengths | pixelizer.js:313-348 | the `currentColor`/`currentLength` loop returns exactly the maximal run lengths of the line |
| Scanlines.AnalyzeScanline | pixelizer.js:313-348 | reads row `pos` or column `pos`; the result is that line's run lengths and they sum to the line's length |
| Scanlines.RunsEncode | pixelizer.js:313-348 | the runs, with their colours, are a run-length encoding that decodes back to the line; runs are non-empty and neighbours differ |
| Scanlines.RunsLengths | pixelizer.js:313-348 | every run length is at least 1 and the lengths sum to the line length |
| Scanlines.RunEncodingUnique | pixelizer.js:313-348 | any encoding into non-empty runs whose neighbours differ equals the one computed: the runs are maximal |
| Detection.GcdDivides | pixelizer.js:373-375 | Euclid's `gcd(a, b)` divides `a` and `b` |
| Detection.GcdGreatest | pixelizer.js:373-375 | every common divisor of `a` and `b` divides `gcd(a, b)` |
| Detection.GcdAllDivides | pixelizer.js:364 | the gcd folded over the lengths divides every length |
| Detection.GcdAllGreatest | pixelizer.js:364 | every common divisor of the lengths divides the folded gcd |
| Detection.KeysBelow | pixelizer.js:359 | the integer keys of the frequency table, in ascending order, exactly those present |
| Detection.ModeOf | pixelizer.js:359-361 | the reduction over the keys returns one of the keys |
| Detection.ModeOfMostFrequent | pixelizer.js:359-361 | over ascending keys the reduction returns a most frequent key, and every larger key is strictly less frequent |
| Detection.Frequencies | pixelizer.js:354-357 | the frequency table has a key for exactly the lengths that occur |
| Detection.FrequenciesAppend | pixelizer.js:355-357 | counting one more length increments its entry, or creates it with 1 |
| Detection.StatisticsOfCorrect | pixelizer.js:350-371 | `{1, 1}` for no lengths; otherwise the mode is the largest most frequent length and the gcd divides every length and is divided by every common divisor |
| Detection.SizeStatisticsUnique | pixelizer.js:350-371 | at most one result meets that statement |
| Detection.StatisticsPositive | pixelizer.js:350-371 | lengths of at least 1 give a mode and gcd of at least 1 |
| Detection.CalculateSizeStatistics | pixelizer.js:350-371 | the frequency-table loop and the two reductions compute the statistics so specified |
| Detection.SampledRunsSum | pixelizer.js:287-311 | the concatenated run lengths of the sampled lines sum to lines times line length |
| Detection.AnalyzeScanlines | pixelizer.js:287-311 | the statistics of the concatenated run lengths of the given sampled lines |
| Detection.FindCommonSizes | pixelizer.js:377-397 | a 0.9 mode candidate iff both modes agree and exceed 1; a 0.7 gcd candidate iff the common gcd is in (1, 16]; `{1, 0.1}` iff neither; confidences descending; sizes >= 1 |
| Detection.SelectedIsCandidate | pixelizer.js:399-414 | the result is `{1, 0}` or a candidate's size with its score times its prior |
| Detection.SelectedBlockSize | pixelizer.js:399-414 | the chosen block size is 1 or one of the candidates' sizes |
| Detection.SelectedInUnitRange | pixelizer.js:399-414 | scores and priors in [0, 1] give a confidence in [0, 1] |
| Detection.SelectedComparesRawScore | pixelizer.js:405-409 | the test compares the raw score against the stored product, so a candidate with a lower product can replace a higher one |
| Detection.ValidateCandidates | pixelizer.js:399-414 | the loop over the candidates computes that left fold from `{1, 0}` |
| Detection.DetectPixelBlockSize | pixelizer.js:269-285 | horizontal and vertical statistics, then candidates, then selection with the given scores |
| Detection.CalculateSuggestedWidth | pixelizer.js:473-483 | the suggestion is 24, 32, 64 or 128, and smaller than the longer side once that exceeds 200 |
| Detection.SuggestedWidthMonotone | pixelizer.js:473-483 | a larger image never gets a smaller suggestion |
| Downsample.SampleBlock | pixelizer.js:618-641 | the per-channel rounded mean of the block clipped to the image, or transparent black when the clipped block is empty |
| Downsample.MeanOfSums | pixelizer.js:633-640 | rounding the accumulated sums by the count gives the block mean, and each channel fits a byte |
| Downsample.DownsampleToBase | pixelizer.js:587-616 | the target is `floor(width / blockSize) x floor(height / blockSize)` and pixel (x, y) is the mean of the full block at (x * blockSize, y * blockSize) |
| Downsample.CellAt | pixelizer.js:602-611 | base pixel (x, y) is the mean of its full source block, which lies inside the image |
| Downsample.UpscaleBlockUniform | pixelizer.js:602-611 | every pixel of a block of an image drawn as solid squares has its square's colour |
| Downsample.DownsampleUpscale | pixelizer.js:587-616 | round trip: downsampling an image of solid squares gives back the grid they were drawn from |
| ColorBoxes.ChannelBounds | pixelizer.js:1235-1247 | the loop's running minima (from 255) and maxima (from 0) are the per-channel bounds of the pixels |
| ColorBoxes.WidestOf | pixelizer.js:1252-1262 | `Math.max` of the four ranges and the first channel, R to A, that attains it |
| ColorBoxes.BoundsOf | pixelizer.js:1235-1250 | every pixel lies within the computed bounds, and on a non-empty box both bounds are attained |
| ColorBoxes.BoundsStep | pixelizer.js:1238-1247 | folding one more pixel into the running bounds gives the bounds of the longer prefix |
| ColorBoxes.RangesOfNonEmpty | pixelizer.js:1252-1257 | on a non-empty box min <= max on every channel, so `largestRange >= 0` |
| ColorBoxes.BoundsOfPermutation | pixelizer.js:1286 | the bounds do not depend on the order of the pixels, so sorting keeps them |
| ColorBoxes.BoundsOfSorted | pixelizer.js:1286 | sorting on any channel keeps the per-channel minima and maxima, so a box stays valid after `split` sorts it |
| ColorBoxes.LargestRangeIsMaximum | pixelizer.js:1257 | `largestRange` bounds every channel's range and equals one of them |
| ColorBoxes.SplitChannelIsFirstWidest | pixelizer.js:1259-1262 | `splitChannel` has the largest range and every earlier channel a strictly smaller one |
| ColorBoxes.ChannelSumBounds | pixelizer.js:1266-1272 | a channel sum lies between `count * lo` and `count * hi` |
| ColorBoxes.MeanWithin | pixelizer.js:1273-1279 | each channel of the average lies within any bounds of that channel over the box |
| ColorBoxes.MeanWithinBounds | pixelizer.js:1265-1280 | the average lies within the box's [min, max] on every channel |
| ColorBoxes.MeanOfUniform | pixelizer.js:1265-1280 | a box of one colour averages to that colour |
| ColorBoxes.Insert | pixelizer.js:1286 | inserting keeps every element and adds the new one |
| ColorBoxes.InsertSorted | pixelizer.js:1286 | inserting into a list sorted on channel `k` keeps it sorted |
| ColorBoxes.SortOn | pixelizer.js:1286 | sorting on channel `k` returns a permutation, sorted on that channel |
| ColorBoxes.InsertStable | pixelizer.js:1286 | inserting a pixel into a sorted list puts it after every pixel with the same key and keeps the order of those pixels |
| ColorBoxes.SortOnStable | pixelizer.js:1286 | the sort is stable: for every key value, the pixels with that key come out in their original order |
| ColorBoxes.SortedHalves | pixelizer.js:1286-1290 | after sorting, every value in the lower half is at most every value in the upper half |
| ColorBoxes.SplitHalves | pixelizer.js:1282-1293 | the halves have `floor(n / 2)` and `n - floor(n / 2)` pixels, are non-empty, together are a permutation of the parent, and are ordered on the split channel |
| ColorBoxes.ColorBox.constructor | pixelizer.js:1228-1232 | the box holds the given pixels and level, with its bounds, range and split channel computed |
| ColorBoxes.ColorBox.ComputeMinMax | pixelizer.js:1234-1263 | sets the eight bound fields, `largestRange` and `splitChannel` from the pixels and leaves the pixels and level as they were |
| ColorBoxes.ColorBox.GetAverageColor | pixelizer.js:1265-1280 | the summing loop and `Math.round(sum / count)` per channel give the per-channel rounded mean of the box's pixels |
| ColorBoxes.ColorBox.Split | pixelizer.js:1282-1293 | `null` for fewer than two pixels; otherwise the pixels are sorted in place on the split channel and two new valid boxes one level deeper hold the lower and upper halves; the box itself stays valid, with its bounds, range and split channel unchanged |
| MedianCut.SqDistanceZero | pixelizer.js:805-812 | the distance is zero exactly between equal colours |
| MedianCut.SqDistanceSymmetric | pixelizer.js:805-812 | the distance does not depend on the order of the two colours |
| MedianCut.NearestIn | pixelizer.js:787-796 | no colour before the first palette entry, then always an index of an entry already seen |
| MedianCut.NearestInIsFirstClosest | pixelizer.js:787-796 | the kept entry is at the smallest distance among those seen, and every earlier one is strictly farther |
| MedianCut.NearestIsFirstClosest | pixelizer.js:787-796 | the chosen palette colour is at the smallest distance, and every earlier palette entry is strictly farther |
| MedianCut.NearestOfPaletteColor | pixelizer.js:787-796 | a palette colour is mapped to itself |
| MedianCut.NearestColor | pixelizer.js:787-796 | the `minDistance`/`closestColor` loop returns the first closest palette colour |
| MedianCut.MapToPaletteIdempotent | pixelizer.js:779-802 | the mapped image uses palette colours only, and mapping it again changes nothing |
| MedianCut.WidestBoxIn | pixelizer.js:763-765 | the reduction returns an index among those it has seen |
| MedianCut.WidestBoxInIsLast | pixelizer.js:763-765 | the kept box has the largest range seen, and every later box seen is strictly narrower |
| MedianCut.WidestBoxIsLast | pixelizer.js:763-765 | the chosen box has the largest range, and every later box is strictly narrower, so ties go to the last box |
| MedianCut.Ranges | pixelizer.js:763-765 | the list of the boxes' `largestRange` values, in list order |
| MedianCut.Without | pixelizer.js:767 | the filter keeps only boxes of the list other than the removed one |
| MedianCut.WithoutKeeps | pixelizer.js:767 | every other box stays in the list |
| MedianCut.WithoutOne | pixelizer.js:767 | removing a box that occurs once shortens the list by one and keeps it free of repeats |
| MedianCut.WithoutAbsent | pixelizer.js:767 | removing a box that is not in the list changes nothing |
| MedianCut.SplitWidest | pixelizer.js:763-774 | one pass on the boxes: the last widest box leaves the list, the others keep their order, and its two halves are appended when it has two or more pixels; the pixel lists of the result are exactly `CutStep` of the pixel lists before; the list stays free of repeats and holds only new boxes or boxes it had |
| MedianCut.PushSplit | pixelizer.js:769-774 | `split()` then `push(...newBoxes)`: the halves of the sorted pixels are appended as two new boxes when there are two or more pixels, otherwise the list is left as it was |
| MedianCut.CutStepOfBoxes | pixelizer.js:763-774 | `CutStep` on the boxes' pixel lists removes the pixels of the box the reduction picks and appends its two halves |
| MedianCut.RangesOfContents | pixelizer.js:763-765 | the `largestRange` values of valid boxes are the ranges of their pixel lists |
| MedianCut.WithoutAt | pixelizer.js:767 | filtering out the box at index `i` of a repeat-free list leaves the boxes before and after it, in order |
| MedianCut.CutStep | pixelizer.js:763-774 | one pass on the pixel lists grows the list by one when the widest list is split and shrinks it by one when it is not |
| MedianCut.CutPartsStep | pixelizer.js:762-775 | while there are fewer than `colorCount` lists, the loop result is that of one more pass, or the list the failed pass left |
| MedianCut.CutStepTotal | pixelizer.js:763-774 | a pass keeps every list non-empty; it splits exactly when the widest list has two or more pixels and then keeps every pixel; otherwise it drops the one pixel of that list |
| MedianCut.CutPartsFacts | pixelizer.js:762-775 | the loop keeps lists non-empty, loses at most one pixel, ends with at most `max(|lists|, colorCount)` lists, ends empty only from one list of one pixel, and does nothing once there are `colorCount` lists |
| MedianCut.MedianCutPartition | pixelizer.js:760-775 | starting from all pixels, the loop ends with non-empty lists drawn from the image, losing at most one pixel, at most `max(1, colorCount)` of them; with `colorCount <= 1` it is the whole image; it is empty only for one pixel with `colorCount >= 2` |
| MedianCut.Means | pixelizer.js:777 | one average colour per list |
| MedianCut.MedianCutPaletteMeans | pixelizer.js:777 | palette entry `i` is the average of list `i`, so every palette colour is the average of a non-empty part of the image |
| MedianCut.MedianCutPaletteFacts | pixelizer.js:760-777 | the palette has at most `max(1, colorCount)` colours, each the average of a part of the image; it is the overall average for `colorCount <= 1` and empty only for one pixel with `colorCount >= 2` |
| MedianCut.PartsOfMedianCut | pixelizer.js:760-775 | boxes holding the loop's pixel lists are non-empty boxes of image pixels, with the size facts above |
| MedianCut.SplitBoxes | pixelizer.js:760-775 | the box loop builds new boxes whose pixel lists are exactly `MedianCutParts` of the image: each is valid, non-empty and drawn from the image; at most `max(1, colorCount)` of them; the single box of all pixels for `colorCount <= 1`; none only for one pixel with `colorCount >= 2` |
| MedianCut.BuildPalette | pixelizer.js:760-777 | the palette is `MedianCutPalette`, the averages of the loop's pixel lists in box order, with the facts of `MedianCutPaletteFacts` |
| MedianCut.AverageColors | pixelizer.js:777 | `boxes.map(box => box.getAverageColor())`: the averages of the boxes' pixel lists, in box order |
| MedianCut.MeanOfPartWithinBounds | pixelizer.js:777 | every palette colour lies within the image's per-channel bounds |
| MedianCut.MeanOfPartUniform | pixelizer.js:777 | an image of one colour gets only that colour in its palette |
| MedianCut.MedianCutQuantization | pixelizer.js:748-803 | the palette is `MedianCutPalette` of the image, non-empty and of at most `max(1, colorCount)` colours, each the average of a part of the image; every pixel of the buffer is replaced, in place, by its first closest palette colour |
| Background.Corners | web/js/main.js:250-255 | the four corners in the source's visiting order |
| Background.DetectBackgroundColor | web/js/main.js:248-272 | the channel sums over the four corners, each divided by 4 and rounded: the mean colour of the corners |
| Background.BackgroundBetweenCorners | web/js/main.js:248-272 | each channel of the background lies between that channel's minimum and maximum over the corners |
| Background.BackgroundOfUniformCorners | web/js/main.js:248-272 | four corners of one colour give that colour |
| Background.RemoveAntiAliasing | web/js/main.js:275-298 | leaves the buffer alone when the background's alpha is below 128; otherwise replaces, in place, exactly the pixels within the threshold of the background by the background |
| Background.AntiAliasRemoved | web/js/main.js:275-298 | the buffer keeps its length |
| Background.AntiAliasRemovedPixel | web/js/main.js:286-295 | every pixel either keeps its colour or becomes the background, and it becomes the background exactly when it was close to it |
| Background.AntiAliasRemovedClean | web/js/main.js:280-297 | afterwards no pixel other than the background is within the threshold of the background |
| Background.AntiAliasRemovedIdempotent | web/js/main.js:275-298 | removing anti-aliasing twice with the same background and threshold changes nothing more |
| Background.AntiAliasRemovedTransparent | web/js/main.js:276-278 | a background with alpha below 128 leaves the buffer untouched |
| Background.AntiAliasRemovedZeroThreshold | web/js/main.js:290 | a zero threshold snaps nothing |
| Scaling.Scale | web/js/main.js:302-308 | the scale factor is in (0, 1] |
| Scaling.ScaledFits | web/js/main.js:301-314 | the result fits the box and neither side grows |
| Scaling.ScaledUnchangedIffFits | web/js/main.js:301-314 | the size is unchanged exactly when the image already fits the box |
| Scaling.ScaledTouchesBox | web/js/main.js:304-312 | a shrunk image reaches the box's width or height exactly |
| Pixelate.TileStart | web/js/main.js:342-343 | the tile holding a coordinate starts no later than it and less than `blockSize` before it |
| Pixelate.TileOfSame | web/js/main.js:342-343 | every pixel of a tile has that same tile |
| Pixelate.FillRun | web/js/main.js:365-372 | one row of the fill loop: the indices of the run hold the mean and nothing else changes |
| Pixelate.FillRect | web/js/main.js:364-374 | the fill loops: every pixel of the clipped tile holds the mean and nothing else changes |
| Pixelate.TileUnvisited | web/js/main.js:346-356 | when a tile is reached its pixels are still the original ones, so its sums are taken over the original image |
| Pixelate.PixelateBlocks | web/js/main.js:342-375 | the in-place tile loop leaves every pixel holding the rounded mean of its clipped tile in the original image |
| Pixelate.PixelatedTileUniform | web/js/main.js:342-375 | afterwards every tile is uniform and holds its original mean |
| Pixelate.PixelatedIdempotent | web/js/main.js:342-375 | running the tile loop again with the same block size changes nothing |
| Pixelate.PixelatedUnitBlocks | web/js/main.js:342-375 | a block size of 1 leaves the image unchanged |
| Pipeline.ProcessPixels | web/js/main.js:317-381 | the background is taken from the corners first; then come the tile loop and anti-alias removal with threshold 30 on one buffer; the palette is `MedianCutPalette` of that cleaned buffer, and every pixel ends as its first closest palette colour |
| Pipeline.ProcessedUsesPalette | web/js/main.js:378-381 | every output pixel is a colour of the chosen palette |

## Left out

- **DOM, canvas and the browser.** Left out:
  - file loading, event handlers, sliders and zoom;
  - preview, grid drawing, export and printing;
  - progress and error UI;
  - `drawImage` resampling;
  - `getImageData`/`putImageData`;
  - the WeChat QR code;
  - all of web/js/pixel-text-generator.js.

  A canvas read or write is modelled as the pixel buffer it yields or receives.
- **`pixelateToWidth`, `applyPrefilter` and `applyFloydSteinbergDithering`.** They lie outside the modelled core. `pixelateToWidth` scales through the canvas. The prefilter is a floating-point blur. Dithering is a stub in the source.
- **`validateBlockSize` and `calculateBlockVariance`.** They sample blocks at `Math.random()` positions and compute floating-point variances. The resulting score of each candidate is an input to `Detection.ValidateCandidates` and `Detection.DetectPixelBlockSize`. A NaN score (no block sampled) is `None`, which never compares greater.
- **The `variance` field of `calculateSizeStatistics`.** It is a floating-point value that no caller reads, so it is left out.
- **Detection.AnalyzeScanlines:** the sampled row and column indices are a parameter. The model does not compute them from `Math.floor((height * i) / (sampleLines - 1))` and its vertical counterpart. As written, that formula reaches `height` (or `width`) for the last line, which lies outside the image, and it divides by zero when the image has one row or column. Out-of-image reads yield `undefined` in JavaScript, and a vertical one wraps to the next row. The model requires every position to lie inside the image.
- **Degenerate median-cut inputs.** `MedianCut.MedianCutQuantization` requires an image that is not empty, and more than one pixel when `colorCount >= 2`. The two excluded cases behave differently in the source:
  - **An empty image.** With `colorCount <= 1` the palette is the average of the empty root box, where `getAverageColor` divides 0 by 0 and gets a NaN colour. With `colorCount >= 2` the empty root box fails to split, so the box list and the palette are empty. Either way no pixel is mapped and the buffer stays as it was. The model has no NaN colour, and its boxes hold at least one pixel.
  - **One pixel with `colorCount >= 2`.** The box list empties, and the mapping then dereferences a `null` colour. `MedianCut.BuildPalette` still states when its palette would be empty.
- **MedianCut.MedianCutQuantization:** the palette is returned as an out-parameter. That lets the contract name the colours the buffer is mapped to. The source returns nothing.
- **ColorBoxes.SortOn:** the sort is an insertion sort rather than the engine's own algorithm. `Array.prototype.sort` is stable, and `ColorBoxes.SortOnStable` proves that the insertion sort is stable too, so both give the same order.
- **Floating point.**
  - Distances are compared squared, with exact integers.
  - `Math.round` of a non-negative quotient is modelled exactly.
  - **Scaling.ScaledTouchesBox:** this uses exact reals. With IEEE doubles, `width * (maxWidth / width)` can round just below `maxWidth`, and the floor then gives `maxWidth - 1`.
- **Integer widths.** Channels are bytes (`Uint8ClampedArray`), and every value written back is a rounded mean or copy of bytes, so clamping never applies. Sums are unbounded integers, and JavaScript's doubles hold them exactly at any realistic image size.
- **Pipeline.ProcessPixels:** the model requires what the source assumes of the inputs:
  - a `blockSize` of at least 1 (`parseInt(...) || 8` admits negative values, which never end the tile loop);
  - an image of at least one row and column (`detectBackgroundColor` reads outside the image otherwise).
- **Pixelate.PixelateBlocks:** requires `blockSize >= 1` for the same reason.
- **Background.DetectBackgroundColor:** requires an image of at least one row and column for the same reason.
- **Concurrency.** The asynchronous processing and its cancellation are not modelled.
