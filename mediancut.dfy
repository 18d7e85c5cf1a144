/**
 * `medianCutQuantization` and `colorDistance` (pixelizer.js; web/js/main.js
 * carries the same two functions).  The pixels are put in one `ColorBox`; while
 * there are fewer boxes than `colorCount`, the box with the largest channel
 * range is removed from the list and split in two at the median of its split
 * channel.  The palette is the average colour of each remaining box, and every
 * pixel is then replaced by the first palette colour at the smallest distance.
 */
module MedianCut {
  import opened Pixels
  import opened ColorBoxes

  // ---------------------------------------------------------------------------
  // Distance and nearest palette colour

  function Square(x: int): nat
  {
    if x < 0 then (-x) * (-x) else x * x
  }

  /**
   * The square of `colorDistance`.  The source takes the square root, which
   * is monotone, so comparing squares picks the same colours.
   */
  function SqDistance(c: Color, d: Color): nat
  {
    Square(c.r - d.r) + Square(c.g - d.g) + Square(c.b - d.b) + Square(c.a - d.a)
  }

  lemma SquareZero(x: int)
    ensures Square(x) == 0 <==> x == 0
  {
    if x < 0 {
      MulLeftMono(1, -x, -x);
    } else if x > 0 {
      MulLeftMono(1, x, x);
    }
  }

  /** The distance is zero exactly between equal colours. */
  /** The distance does not depend on the order of its arguments. */
  lemma SqDistanceSymmetric(c: Color, d: Color)
    ensures SqDistance(c, d) == SqDistance(d, c)
  {
  }

  lemma SqDistanceZero(c: Color, d: Color)
    ensures SqDistance(c, d) == 0 <==> c == d
  {
    SquareZero(c.r - d.r);
    SquareZero(c.g - d.g);
    SquareZero(c.b - d.b);
    SquareZero(c.a - d.a);
  }

  /**
   * The inner loop of the mapping over `palette[..n]`: the index of the
   * closest colour so far, replaced only by a strictly closer one, so the
   * first of several equally close colours is kept.  `None` before any colour
   * (`minDistance = Infinity`, `closestColor = null`).
   */
  function NearestIn(c: Color, palette: seq<Color>, n: nat): (best: Option<nat>)
    requires n <= |palette|
    ensures best.None? <==> n == 0
    ensures best.Some? ==> best.value < n
  {
    if n == 0 then None
    else
      var b := NearestIn(c, palette, n - 1);
      if b.None? || SqDistance(c, palette[n - 1]) < SqDistance(c, palette[b.value]) then Some(n - 1) else b
  }

  /** Index of the palette colour a pixel is mapped to. */
  function NearestIndex(c: Color, palette: seq<Color>): (i: nat)
    requires palette != []
    ensures i < |palette|
  {
    NearestIn(c, palette, |palette|).value
  }

  /** The palette colour a pixel is mapped to. */
  function Nearest(c: Color, palette: seq<Color>): Color
    requires palette != []
  {
    palette[NearestIndex(c, palette)]
  }

  lemma {:induction false} NearestInIsFirstClosest(c: Color, palette: seq<Color>, n: nat)
    requires 0 < n <= |palette|
    ensures var i := NearestIn(c, palette, n).value;
      && (forall j :: 0 <= j < n ==> SqDistance(c, palette[i]) <= SqDistance(c, palette[j]))
      && (forall j :: 0 <= j < i ==> SqDistance(c, palette[i]) < SqDistance(c, palette[j]))
  {
    if n > 1 {
      NearestInIsFirstClosest(c, palette, n - 1);
    }
  }

  /**
   * The chosen colour is at the smallest distance from the pixel, and every
   * earlier palette entry is strictly farther.
   */
  lemma NearestIsFirstClosest(c: Color, palette: seq<Color>)
    requires palette != []
    ensures forall j :: 0 <= j < |palette| ==> SqDistance(c, Nearest(c, palette)) <= SqDistance(c, palette[j])
    ensures forall j :: 0 <= j < NearestIndex(c, palette) ==> SqDistance(c, Nearest(c, palette)) < SqDistance(c, palette[j])
  {
    NearestInIsFirstClosest(c, palette, |palette|);
  }

  /** A colour of the palette is mapped to itself. */
  lemma NearestOfPaletteColor(c: Color, palette: seq<Color>)
    requires c in palette
    ensures Nearest(c, palette) == c
  {
    var j :| 0 <= j < |palette| && palette[j] == c;
    NearestIsFirstClosest(c, palette);
    SqDistanceZero(c, c);
    SqDistanceZero(c, Nearest(c, palette));
  }

  /** Every pixel replaced by its nearest palette colour. */
  function MapToPalette(pixels: seq<Color>, palette: seq<Color>): (mapped: seq<Color>)
    requires palette != []
    ensures |mapped| == |pixels|
  {
    seq(|pixels|, i requires 0 <= i < |pixels| => Nearest(pixels[i], palette))
  }

  /** The mapped image uses palette colours only, and mapping it again changes nothing. */
  lemma MapToPaletteIdempotent(pixels: seq<Color>, palette: seq<Color>)
    requires palette != []
    ensures forall i :: 0 <= i < |pixels| ==> MapToPalette(pixels, palette)[i] in palette
    ensures MapToPalette(MapToPalette(pixels, palette), palette) == MapToPalette(pixels, palette)
  {
    var mapped := MapToPalette(pixels, palette);
    forall i | 0 <= i < |pixels|
      ensures MapToPalette(mapped, palette)[i] == mapped[i]
    {
      NearestOfPaletteColor(mapped[i], palette);
    }
  }

  /**
   * The inner loop of the mapping: `minDistance` starts at `Infinity` (`None`)
   * and `closestColor` at `null` (`None`); a colour replaces them only when
   * strictly closer.
   */
  method NearestColor(pixel: Color, palette: seq<Color>) returns (closest: Color)
    requires palette != []
    ensures closest == Nearest(pixel, palette)
  {
    var minDistance: Option<nat> := None;
    var closestColor: Option<Color> := None;
    for j := 0 to |palette|
      invariant NearestIn(pixel, palette, j).None? ==> minDistance.None? && closestColor.None?
      invariant NearestIn(pixel, palette, j).Some? ==>
        var b := NearestIn(pixel, palette, j).value;
        minDistance == Some(SqDistance(pixel, palette[b])) && closestColor == Some(palette[b])
    {
      var distance := SqDistance(pixel, palette[j]);
      if minDistance.None? || distance < minDistance.value {
        minDistance := Some(distance);
        closestColor := Some(palette[j]);
      }
    }
    closest := closestColor.value;
  }

  // ---------------------------------------------------------------------------
  // Choosing and removing the box to split

  /**
   * `boxes.reduce((a, b) => a.largestRange > b.largestRange ? a : b)` over
   * `ranges[..n]`, as an index: the earlier box is kept only when strictly
   * wider, so ties go to the later one.
   */
  function WidestBoxIn(ranges: seq<int>, n: nat): (i: nat)
    requires 0 < n <= |ranges|
    ensures i < n
  {
    if n == 1 then 0
    else
      var a := WidestBoxIn(ranges, n - 1);
      if ranges[a] > ranges[n - 1] then a else n - 1
  }

  /** The box chosen among all of them. */
  function WidestBox(ranges: seq<int>): (i: nat)
    requires ranges != []
    ensures i < |ranges|
  {
    WidestBoxIn(ranges, |ranges|)
  }

  lemma {:induction false} WidestBoxInIsLast(ranges: seq<int>, n: nat)
    requires 0 < n <= |ranges|
    ensures var i := WidestBoxIn(ranges, n);
      && (forall j :: 0 <= j < n ==> ranges[j] <= ranges[i])
      && (forall j :: i < j < n ==> ranges[j] < ranges[i])
  {
    if n > 1 {
      WidestBoxInIsLast(ranges, n - 1);
    }
  }

  /** The chosen box has the largest range, and every later box a strictly smaller one. */
  lemma WidestBoxIsLast(ranges: seq<int>)
    requires ranges != []
    ensures forall j :: 0 <= j < |ranges| ==> ranges[j] <= ranges[WidestBox(ranges)]
    ensures forall j :: WidestBox(ranges) < j < |ranges| ==> ranges[j] < ranges[WidestBox(ranges)]
  {
    WidestBoxInIsLast(ranges, |ranges|);
  }

  /** The `largestRange` of each box, in list order. */
  function Ranges(boxes: seq<ColorBox>): (ranges: seq<int>)
    reads boxes
    ensures |ranges| == |boxes|
    ensures forall i :: 0 <= i < |boxes| ==> ranges[i] == boxes[i].largestRange
  {
    if boxes == [] then [] else Ranges(boxes[..|boxes| - 1]) + [boxes[|boxes| - 1].largestRange]
  }

  /** `boxes.filter(box => box !== x)`: removal by reference, order kept. */
  function Without(boxes: seq<ColorBox>, x: ColorBox): (rest: seq<ColorBox>)
    ensures forall i :: 0 <= i < |rest| ==> rest[i] in boxes && rest[i] != x
    ensures |rest| <= |boxes|
  {
    if boxes == [] then []
    else (if boxes[0] == x then [] else [boxes[0]]) + Without(boxes[1..], x)
  }

  /** Every other box stays in the list. */
  lemma {:induction false} WithoutKeeps(boxes: seq<ColorBox>, x: ColorBox, b: ColorBox)
    requires b in boxes && b != x
    ensures b in Without(boxes, x)
  {
    if boxes[0] != b {
      WithoutKeeps(boxes[1..], x, b);
    }
  }

  /** No box occurs twice in the list. */
  predicate Distinct(boxes: seq<ColorBox>)
  {
    forall i, j :: 0 <= i < j < |boxes| ==> boxes[i] != boxes[j]
  }

  /** Removing a box that occurs once shortens the list by one and keeps it free of repeats. */
  lemma {:induction false} WithoutOne(boxes: seq<ColorBox>, x: ColorBox)
    requires Distinct(boxes) && x in boxes
    ensures |Without(boxes, x)| == |boxes| - 1 && Distinct(Without(boxes, x))
  {
    var tail := boxes[1..];
    assert Distinct(tail) by {
      forall i, j | 0 <= i < j < |tail|
        ensures tail[i] != tail[j]
      {
        assert tail[i] == boxes[i + 1] && tail[j] == boxes[j + 1];
      }
    }
    if boxes[0] == x {
      assert x !in tail by {
        forall i | 0 <= i < |tail|
          ensures tail[i] != x
        {
          assert tail[i] == boxes[i + 1];
        }
      }
      WithoutAbsent(tail, x);
    } else {
      assert x in tail;
      WithoutOne(tail, x);
      var rest := Without(tail, x);
      assert boxes[0] !in rest by {
        forall i | 0 <= i < |tail|
          ensures tail[i] != boxes[0]
        {
          assert tail[i] == boxes[i + 1];
        }
      }
      assert Without(boxes, x) == [boxes[0]] + rest;
    }
  }

  /** Removing a box that is not in the list changes nothing. */
  lemma {:induction false} WithoutAbsent(boxes: seq<ColorBox>, x: ColorBox)
    requires x !in boxes
    ensures Without(boxes, x) == boxes
  {
    if boxes != [] {
      var tail := boxes[1..];
      assert boxes[0] != x;
      assert x !in tail by {
        forall i | 0 <= i < |tail|
          ensures tail[i] != x
        {
          assert tail[i] == boxes[i + 1];
        }
      }
      WithoutAbsent(tail, x);
      assert Without(boxes, x) == [boxes[0]] + tail;
      assert boxes == [boxes[0]] + tail;
    }
  }

  /** Removing the box at `i` from a list without repeats leaves the boxes before and after it. */
  lemma {:induction false} WithoutAt(boxes: seq<ColorBox>, i: nat)
    requires Distinct(boxes) && i < |boxes|
    ensures Without(boxes, boxes[i]) == boxes[..i] + boxes[i + 1..]
    decreases i
  {
    var x, tail := boxes[i], boxes[1..];
    assert Distinct(tail) by {
      forall a, b | 0 <= a < b < |tail|
        ensures tail[a] != tail[b]
      {
        assert tail[a] == boxes[a + 1] && tail[b] == boxes[b + 1];
      }
    }
    if i == 0 {
      assert x !in tail by {
        forall j | 0 <= j < |tail|
          ensures tail[j] != x
        {
          assert tail[j] == boxes[j + 1];
        }
      }
      WithoutAbsent(tail, x);
    } else {
      assert tail[i - 1] == x;
      WithoutAt(tail, i - 1);
      assert boxes[0] != x;
      assert boxes[..i] + boxes[i + 1..] == [boxes[0]] + (tail[..i - 1] + tail[i..]);
    }
  }

  // ---------------------------------------------------------------------------
  // The box loop on the boxes' contents

  /** The pixels of each box, in list order. */
  function Contents(boxes: seq<ColorBox>): (parts: seq<seq<Color>>)
    reads boxes
    ensures |parts| == |boxes|
    ensures forall i :: 0 <= i < |boxes| ==> parts[i] == boxes[i].pixels
  {
    seq(|boxes|, i requires 0 <= i < |boxes| reads boxes => boxes[i].pixels)
  }

  /** The `largestRange` a box holding each part has. */
  function PartRanges(parts: seq<seq<Color>>): (ranges: seq<int>)
    ensures |ranges| == |parts|
    ensures forall i :: 0 <= i < |parts| ==> ranges[i] == LargestRange(parts[i])
  {
    seq(|parts|, i requires 0 <= i < |parts| => LargestRange(parts[i]))
  }

  /** Valid boxes report the ranges of their contents. */
  lemma RangesOfContents(boxes: seq<ColorBox>)
    requires forall b :: b in boxes ==> b.Valid()
    ensures Ranges(boxes) == PartRanges(Contents(boxes))
  {
    forall i | 0 <= i < |boxes|
      ensures Ranges(boxes)[i] == PartRanges(Contents(boxes))[i]
    {
      assert boxes[i] in boxes;
    }
  }

  /**
   * One pass of the box loop, on the boxes' contents: the part of the widest
   * box (the last of several equally wide ones) is taken out of the list; when
   * it holds at least two pixels, its lower and upper halves, sorted on its
   * split channel, are appended.  The flag tells whether the split happened.
   */
  function CutStep(parts: seq<seq<Color>>): (r: (seq<seq<Color>>, bool))
    requires parts != []
    ensures |r.0| == if r.1 then |parts| + 1 else |parts| - 1
  {
    var w := WidestBox(PartRanges(parts));
    var rest := parts[..w] + parts[w + 1..];
    var p := parts[w];
    if |p| < 2 then (rest, false) else (rest + SplitParts(p), true)
  }

  /** The two halves a box holding `p` splits into: `p` sorted on its split channel, cut at the middle. */
  function SplitParts(p: seq<Color>): (halves: seq<seq<Color>>)
    requires |p| >= 2
    ensures |halves| == 2
  {
    var sorted := SortOn(p, SplitChannelOf(p));
    [sorted[..|p| / 2], sorted[|p| / 2..]]
  }

  /** The contents the box loop ends with, from `parts`: the loop stops once there are `colorCount` boxes. */
  function CutParts(parts: seq<seq<Color>>, colorCount: int): seq<seq<Color>>
    requires parts != []
    decreases colorCount - |parts|, 1
  {
    if |parts| >= colorCount then parts else CutWidest(parts, colorCount)
  }

  /** One pass of the loop body, then the loop again; a failed split ends the loop. */
  function CutWidest(parts: seq<seq<Color>>, colorCount: int): seq<seq<Color>>
    requires parts != [] && |parts| < colorCount
    decreases colorCount - |parts|, 0
  {
    var r := CutStep(parts);
    if r.1 then CutParts(r.0, colorCount) else r.0
  }

  /** Below `colorCount` boxes the loop makes one step and goes on only when it split. */
  lemma CutPartsStep(parts: seq<seq<Color>>, colorCount: int)
    requires parts != [] && |parts| < colorCount
    ensures var r := CutStep(parts);
            CutParts(parts, colorCount) == if r.1 then CutParts(r.0, colorCount) else r.0
  {
    assert CutParts(parts, colorCount) == CutWidest(parts, colorCount);
  }

  /** The contents of the boxes `medianCutQuantization` builds its palette from. */
  function MedianCutParts(pixels: seq<Color>, colorCount: int): seq<seq<Color>>
  {
    CutParts([pixels], colorCount)
  }

  predicate NonEmptyParts(parts: seq<seq<Color>>)
  {
    forall i :: 0 <= i < |parts| ==> parts[i] != []
  }

  /** `boxes.map(box => box.getAverageColor())`, on the contents. */
  function Means(parts: seq<seq<Color>>): (palette: seq<Color>)
    requires NonEmptyParts(parts)
    ensures |palette| == |parts|
  {
    seq(|parts|, i requires 0 <= i < |parts| => MeanColor(parts[i]))
  }

  /** The palette `medianCutQuantization` maps the pixels to. */
  function MedianCutPalette(pixels: seq<Color>, colorCount: int): seq<Color>
    requires pixels != []
  {
    MedianCutPartition(pixels, colorCount);
    Means(MedianCutParts(pixels, colorCount))
  }

  /** All pixels of all parts, as one multiset. */
  function Total(parts: seq<seq<Color>>): multiset<Color>
  {
    if parts == [] then multiset{} else Total(parts[..|parts| - 1]) + multiset(parts[|parts| - 1])
  }

  lemma {:induction false} TotalAppend(a: seq<seq<Color>>, b: seq<seq<Color>>)
    ensures Total(a + b) == Total(a) + Total(b)
    decreases |b|
  {
    if b != [] {
      var n := |b| - 1;
      assert (a + b)[..|a + b| - 1] == a + b[..n];
      TotalAppend(a, b[..n]);
    } else {
      assert a + b == a;
    }
  }

  lemma TotalSingle(a: seq<Color>)
    ensures Total([a]) == multiset(a)
  {
    assert [a][..0] == [];
  }

  lemma TotalPair(a: seq<Color>, b: seq<Color>)
    ensures Total([a, b]) == multiset(a) + multiset(b)
  {
    assert [a, b][..1] == [a];
    TotalSingle(a);
  }

  /** Taking part `i` out of the list takes its pixels out of the total. */
  lemma {:induction false} TotalRemove(parts: seq<seq<Color>>, i: nat)
    requires i < |parts|
    ensures Total(parts) == Total(parts[..i] + parts[i + 1..]) + multiset(parts[i])
    decreases |parts|
  {
    var n := |parts| - 1;
    var init := parts[..n];
    if i == n {
      assert parts[..i] + parts[i + 1..] == init;
    } else {
      var shorter := init[..i] + init[i + 1..];
      TotalRemove(init, i);
      assert parts[..i] + parts[i + 1..] == shorter + [parts[n]];
      assert (shorter + [parts[n]])[..|shorter|] == shorter;
      MultisetSwap(Total(shorter), multiset(parts[i]), multiset(parts[n]));
    }
  }

  lemma MultisetSwap(a: multiset<Color>, b: multiset<Color>, c: multiset<Color>)
    ensures (a + b) + c == (a + c) + b
  {
  }

  lemma RemoveNonEmpty(parts: seq<seq<Color>>, w: nat)
    requires w < |parts| && NonEmptyParts(parts)
    ensures NonEmptyParts(parts[..w] + parts[w + 1..])
  {
    var rest := parts[..w] + parts[w + 1..];
    forall j | 0 <= j < |rest|
      ensures rest[j] != []
    {
      if j < w {
        assert rest[j] == parts[j];
      } else {
        assert rest[j] == parts[j + 1];
      }
    }
  }

  lemma AppendNonEmpty(a: seq<seq<Color>>, b: seq<seq<Color>>)
    requires NonEmptyParts(a) && NonEmptyParts(b)
    ensures NonEmptyParts(a + b)
  {
    forall j | 0 <= j < |a + b|
      ensures (a + b)[j] != []
    {
      if j >= |a| {
        assert (a + b)[j] == b[j - |a|];
      }
    }
  }

  /** Cutting a sequence of pixels at an inner point gives two non-empty parts holding all its pixels. */
  lemma HalvesTotal(s: seq<Color>, mid: nat)
    requires 0 < mid < |s|
    ensures NonEmptyParts([s[..mid], s[mid..]]) && Total([s[..mid], s[mid..]]) == multiset(s)
  {
    var lo, hi := s[..mid], s[mid..];
    assert s == lo + hi;
    TotalPair(lo, hi);
    assert [lo, hi][0] == lo && [lo, hi][1] == hi;
  }

  /** A split keeps every pixel; a failed split drops the single pixel of the widest box. */
  lemma CutStepTotal(parts: seq<seq<Color>>)
    requires parts != [] && NonEmptyParts(parts)
    ensures var r := CutStep(parts);
            var w := WidestBox(PartRanges(parts));
            && NonEmptyParts(r.0)
            && (r.1 <==> |parts[w]| >= 2)
            && (r.1 ==> Total(r.0) == Total(parts))
            && (!r.1 ==> |parts[w]| == 1 && Total(r.0) + multiset(parts[w]) == Total(parts))
  {
    var w := WidestBox(PartRanges(parts));
    var rest := parts[..w] + parts[w + 1..];
    var p := parts[w];
    var r := CutStep(parts);
    TotalRemove(parts, w);
    RemoveNonEmpty(parts, w);
    if |p| >= 2 {
      var halves := SplitParts(p);
      assert r == (rest + halves, true);
      HalvesTotal(SortOn(p, SplitChannelOf(p)), |p| / 2);
      TotalAppend(rest, halves);
      AppendNonEmpty(rest, halves);
    } else {
      assert r == (rest, false);
    }
  }

  /** What the loop keeps from `parts`: non-empty boxes, at most one pixel fewer, at most `colorCount` boxes. */
  lemma {:induction false} CutPartsFacts(parts: seq<seq<Color>>, colorCount: int)
    requires parts != [] && NonEmptyParts(parts)
    ensures var out := CutParts(parts, colorCount);
            && NonEmptyParts(out)
            && Total(out) <= Total(parts) && |Total(parts)| <= |Total(out)| + 1
            && |out| <= Max(|parts|, colorCount)
            && (out == [] ==> |parts| == 1 && |parts[0]| == 1)
            && (|parts| >= colorCount ==> out == parts)
    decreases colorCount - |parts|
  {
    if |parts| < colorCount {
      var r := CutStep(parts);
      CutPartsStep(parts, colorCount);
      CutStepTotal(parts);
      if r.1 {
        CutPartsFacts(r.0, colorCount);
      } else {
        assert WidestBox(PartRanges(parts)) < |parts|;
      }
    }
  }

  /**
   * The boxes the loop ends with hold the image's pixels, less at most one
   * (the single pixel of a box that could not be split); there are at most
   * `max(1, colorCount)` of them, none is empty, a `colorCount` of at most 1
   * keeps the whole image in one box, and no box is left only for a
   * single-pixel image with `colorCount >= 2`.
   */
  lemma MedianCutPartition(pixels: seq<Color>, colorCount: int)
    requires pixels != []
    ensures var out := MedianCutParts(pixels, colorCount);
            && NonEmptyParts(out)
            && Total(out) <= multiset(pixels) && |pixels| <= |Total(out)| + 1
            && |out| <= Max(1, colorCount)
            && (colorCount <= 1 ==> out == [pixels])
            && (out == [] <==> |pixels| == 1 && colorCount >= 2)
  {
    assert Total([pixels]) == multiset(pixels) by {
      assert [pixels][..0] == [];
    }
    CutPartsFacts([pixels], colorCount);
    if |pixels| == 1 && colorCount >= 2 {
      assert WidestBox(PartRanges([pixels])) == 0;
      assert CutStep([pixels]) == ([], false);
      CutPartsStep([pixels], colorCount);
    }
  }

  lemma PartInTotal(parts: seq<seq<Color>>, i: nat)
    requires i < |parts|
    ensures multiset(parts[i]) <= Total(parts)
  {
    TotalRemove(parts, i);
  }

  /** The average of each part of the pixels is the average of a non-empty part of them. */
  lemma MeansOfParts(parts: seq<seq<Color>>, pixels: seq<Color>)
    requires NonEmptyParts(parts) && Total(parts) <= multiset(pixels)
    ensures forall c :: c in Means(parts) ==> IsMeanOfPart(c, pixels)
  {
    forall i | 0 <= i < |parts|
      ensures IsMeanOfPart(Means(parts)[i], pixels)
    {
      PartInTotal(parts, i);
      assert parts[i] != [] && multiset(parts[i]) <= multiset(pixels);
    }
  }

  /** Palette entry `i` is the average of box `i`, and so the average of a non-empty part of the image. */
  lemma MedianCutPaletteMeans(pixels: seq<Color>, colorCount: int)
    requires pixels != []
    ensures var parts := MedianCutParts(pixels, colorCount);
            var palette := MedianCutPalette(pixels, colorCount);
            && NonEmptyParts(parts) && |palette| == |parts|
            && (forall i :: 0 <= i < |parts| ==> palette[i] == MeanColor(parts[i]))
            && (forall c :: c in palette ==> IsMeanOfPart(c, pixels))
  {
    MedianCutPartition(pixels, colorCount);
    MeansOfParts(MedianCutParts(pixels, colorCount), pixels);
  }

  /**
   * The palette has one colour per box left: none only for a single pixel and
   * `colorCount >= 2`, at most `max(1, colorCount)`, the image's average when
   * `colorCount <= 1`, and each the average of a non-empty part of the image.
   */
  lemma MedianCutPaletteFacts(pixels: seq<Color>, colorCount: int)
    requires pixels != []
    ensures var palette := MedianCutPalette(pixels, colorCount);
            && (palette == [] <==> |pixels| == 1 && colorCount >= 2)
            && |palette| <= Max(1, colorCount)
            && (colorCount <= 1 ==> palette == [MeanColor(pixels)])
            && (forall c :: c in palette ==> IsMeanOfPart(c, pixels))
  {
    MedianCutPartition(pixels, colorCount);
    MedianCutPaletteMeans(pixels, colorCount);
  }

  // ---------------------------------------------------------------------------
  // The palette

  /** `c` is the average colour of a non-empty part of the pixels. */
  ghost predicate IsMeanOfPart(c: Color, pixels: seq<Color>)
  {
    exists part :: part != [] && multiset(part) <= multiset(pixels) && c == MeanColor(part)
  }

  /** Every palette colour lies within the per-channel bounds of the image. */
  lemma MeanOfPartWithinBounds(c: Color, pixels: seq<Color>)
    requires IsMeanOfPart(c, pixels)
    ensures forall k :: 0 <= k < 4 ==> MinOf(pixels, k) <= Channel(c, k) <= MaxOf(pixels, k)
  {
    var part :| part != [] && multiset(part) <= multiset(pixels) && c == MeanColor(part);
    forall k | 0 <= k < 4
      ensures MinOf(pixels, k) <= Channel(c, k) <= MaxOf(pixels, k)
    {
      BoundsOf(pixels, k);
      forall i | 0 <= i < |part|
        ensures MinOf(pixels, k) <= Channel(part[i], k) <= MaxOf(pixels, k)
      {
        assert part[i] in multiset(pixels);
      }
      MeanWithin(part, k, MinOf(pixels, k), MaxOf(pixels, k));
    }
  }

  /** An image of one colour gets a palette of that colour only. */
  lemma MeanOfPartUniform(c: Color, pixels: seq<Color>, u: Color)
    requires IsMeanOfPart(c, pixels)
    requires forall i :: 0 <= i < |pixels| ==> pixels[i] == u
    ensures c == u
  {
    var part :| part != [] && multiset(part) <= multiset(pixels) && c == MeanColor(part);
    forall i | 0 <= i < |part|
      ensures part[i] == u
    {
      assert part[i] in multiset(pixels);
    }
    MeanOfUniform(part, u);
  }

  /** A box as the loop keeps it: valid and non-empty. */
  ghost predicate Filled(b: ColorBox)
    reads b
  {
    b.Valid() && b.pixels != []
  }

  /** A box the loop ends with: filled, and holding some of the image's pixels. */
  ghost predicate GoodBox(b: ColorBox, pixels: seq<Color>)
    reads b
  {
    Filled(b) && multiset(b.pixels) <= multiset(pixels)
  }

  /** The boxes left after a removal are boxes of the list other than the removed one. */
  lemma WithoutSubset(boxes: seq<ColorBox>, x: ColorBox)
    ensures forall b :: b in Without(boxes, x) ==> b in boxes && b != x
  {
  }

  lemma InAppendTwo(boxes: seq<ColorBox>, b0: ColorBox, b1: ColorBox, b: ColorBox)
    requires b in boxes + [b0, b1]
    ensures b in boxes || b == b0 || b == b1
  {
    var i :| 0 <= i < |boxes + [b0, b1]| && (boxes + [b0, b1])[i] == b;
    if i < |boxes| {
      assert boxes[i] == b;
    }
  }

  /** Appending two new boxes to a list without repeats keeps it without repeats. */
  lemma DistinctAppend(boxes: seq<ColorBox>, b0: ColorBox, b1: ColorBox)
    requires Distinct(boxes) && b0 !in boxes && b1 !in boxes && b0 != b1
    ensures Distinct(boxes + [b0, b1])
  {
    var all := boxes + [b0, b1];
    forall i, j | 0 <= i < j < |all|
      ensures all[i] != all[j]
    {
      if j < |boxes| {
        assert all[i] == boxes[i] && all[j] == boxes[j];
      } else if i < |boxes| {
        assert all[i] == boxes[i];
      }
    }
  }

  /**
   * One pass of the box loop: the widest box (the last of several equally
   * wide ones) is filtered out of the list and split; its halves are appended
   * when the split succeeds.  `split` is false when the box had fewer than two
   * pixels, in which case it is gone from the list.
   */
  method SplitWidest(boxes: seq<ColorBox>) returns (next: seq<ColorBox>, split: bool)
    requires boxes != [] && Distinct(boxes)
    requires forall b :: b in boxes ==> Filled(b)
    modifies boxes[WidestBox(Ranges(boxes))]
    ensures Distinct(next)
    ensures forall b :: b in next ==> b in boxes || fresh(b)
    ensures forall b :: b in next ==> Filled(b)
    ensures |next| == if split then |boxes| + 1 else |boxes| - 1
    ensures split <==> old(|boxes[WidestBox(Ranges(boxes))].pixels|) >= 2
    ensures boxes[old(WidestBox(Ranges(boxes)))] !in next
    ensures next[..|boxes| - 1] == Without(boxes, boxes[old(WidestBox(Ranges(boxes)))])
    ensures (Contents(next), split) == CutStep(old(Contents(boxes)))
  {
    var boxToSplit := boxes[WidestBox(Ranges(boxes))];
    CutStepOfBoxes(boxes);
    WithoutOne(boxes, boxToSplit);
    WithoutSubset(boxes, boxToSplit);
    var rest := Without(boxes, boxToSplit);
    next, split := PushSplit(rest, boxToSplit);
  }

  /**
   * The rest of the loop body: `boxToSplit.split()`, and its two halves pushed
   * onto the boxes left after the filter.  Only the box split changes.
   */
  method PushSplit(rest: seq<ColorBox>, box: ColorBox) returns (next: seq<ColorBox>, split: bool)
    requires Distinct(rest) && box !in rest && Filled(box)
    requires forall b :: b in rest ==> Filled(b)
    modifies box
    ensures Distinct(next) && box !in next
    ensures forall b :: b in next ==> b in rest || fresh(b)
    ensures forall b :: b in next ==> Filled(b)
    ensures split <==> |old(box.pixels)| >= 2
    ensures |next| == if split then |rest| + 2 else |rest|
    ensures next[..|rest|] == rest
    ensures Contents(next) == if split then old(Contents(rest)) + SplitParts(old(box.pixels)) else old(Contents(rest))
  {
    ghost var restParts := Contents(rest);
    ghost var parent := box.pixels;
    assert box.splitChannel == SplitChannelOf(parent);
    var newBoxes := box.Split();
    assert Contents(rest) == restParts;
    assert forall b :: b in rest ==> Filled(b);
    if newBoxes.Some? {
      var box1, box2 := newBoxes.value.0, newBoxes.value.1;
      assert [box1.pixels, box2.pixels] == SplitParts(parent);
      AppendHalves(rest, box1, box2);
      next, split := rest + [box1, box2], true;
    } else {
      next, split := rest, false;
      assert next[..|rest|] == rest;
    }
  }

  /** Pushing two new filled boxes onto a list of other filled boxes. */
  lemma AppendHalves(rest: seq<ColorBox>, box1: ColorBox, box2: ColorBox)
    requires Distinct(rest) && box1 !in rest && box2 !in rest && box1 != box2
    requires Filled(box1) && Filled(box2) && forall b :: b in rest ==> Filled(b)
    ensures var next := rest + [box1, box2];
            && Distinct(next)
            && (forall b :: b in next ==> b in rest || b == box1 || b == box2)
            && (forall b :: b in next ==> Filled(b))
            && next[..|rest|] == rest
            && Contents(next) == Contents(rest) + [box1.pixels, box2.pixels]
  {
    DistinctAppend(rest, box1, box2);
    forall b | b in rest + [box1, box2]
      ensures b in rest || b == box1 || b == box2
    {
      InAppendTwo(rest, box1, box2, b);
    }
    ContentsAppendTwo(rest, box1, box2);
    PrefixOfAppend(rest, [box1, box2]);
  }

  /** The step on the contents, told in terms of the boxes: the part taken out is that of `boxes[WidestBox(Ranges(boxes))]`. */
  lemma CutStepOfBoxes(boxes: seq<ColorBox>)
    requires boxes != [] && Distinct(boxes)
    requires forall b :: b in boxes ==> b.Valid()
    ensures var w := boxes[WidestBox(Ranges(boxes))];
            var rest := Contents(Without(boxes, w));
            CutStep(Contents(boxes)) == if |w.pixels| < 2 then (rest, false) else (rest + SplitParts(w.pixels), true)
  {
    var idx := WidestBox(Ranges(boxes));
    RangesOfContents(boxes);
    ContentsOfRemoval(boxes, idx);
    assert boxes[idx] in boxes;
  }

  lemma PrefixOfAppend(a: seq<ColorBox>, b: seq<ColorBox>)
    ensures (a + b)[..|a|] == a
  {
  }

  /** The contents of the list with box `i` removed are the contents with part `i` removed. */
  lemma ContentsOfRemoval(boxes: seq<ColorBox>, i: nat)
    requires Distinct(boxes) && i < |boxes|
    ensures Contents(Without(boxes, boxes[i])) == Contents(boxes)[..i] + Contents(boxes)[i + 1..]
  {
    WithoutAt(boxes, i);
    var rest, parts := boxes[..i] + boxes[i + 1..], Contents(boxes);
    forall j | 0 <= j < |rest|
      ensures Contents(rest)[j] == (parts[..i] + parts[i + 1..])[j]
    {
      if j < i {
        assert rest[j] == boxes[j];
      } else {
        assert rest[j] == boxes[j + 1];
      }
    }
  }

  lemma ContentsAppendTwo(boxes: seq<ColorBox>, b0: ColorBox, b1: ColorBox)
    ensures Contents(boxes + [b0, b1]) == Contents(boxes) + [b0.pixels, b1.pixels]
  {
    var all := boxes + [b0, b1];
    forall j | 0 <= j < |all|
      ensures Contents(all)[j] == (Contents(boxes) + [b0.pixels, b1.pixels])[j]
    {
      if j < |boxes| {
        assert all[j] == boxes[j];
      }
    }
  }

  /**
   * The box loop of `medianCutQuantization`: while there are fewer boxes than
   * `colorCount`, the widest box is filtered out of the list and split; when
   * it cannot be split the loop stops and that box stays dropped.  No boxes
   * remain only for a single pixel and `colorCount >= 2`.
   */
  method SplitBoxes(pixels: seq<Color>, colorCount: int) returns (boxes: seq<ColorBox>)
    requires pixels != []
    ensures forall b :: b in boxes ==> fresh(b) && GoodBox(b, pixels)
    ensures Contents(boxes) == MedianCutParts(pixels, colorCount)
    ensures boxes == [] <==> |pixels| == 1 && colorCount >= 2
    ensures |boxes| <= Max(1, colorCount)
    ensures colorCount <= 1 ==> |boxes| == 1 && boxes[0].pixels == pixels
  {
    var root := new ColorBox(pixels, 0);
    boxes := [root];
    assert Contents(boxes) == [pixels];
    while |boxes| < colorCount
      invariant boxes != [] && Distinct(boxes)
      invariant forall b :: b in boxes ==> fresh(b)
      invariant forall b :: b in boxes ==> Filled(b)
      invariant CutParts(Contents(boxes), colorCount) == MedianCutParts(pixels, colorCount)
      decreases colorCount - |boxes|
    {
      ghost var parts := Contents(boxes);
      assert boxes[WidestBox(Ranges(boxes))] in boxes;
      var next, split := SplitWidest(boxes);
      CutPartsStep(parts, colorCount);
      boxes := next;
      if !split {
        break;
      }
    }
    assert Contents(boxes) == MedianCutParts(pixels, colorCount);
    PartsOfMedianCut(boxes, pixels, colorCount);
  }

  /** What `MedianCutPartition` says about the contents, told about the boxes holding them. */
  lemma PartsOfMedianCut(boxes: seq<ColorBox>, pixels: seq<Color>, colorCount: int)
    requires pixels != [] && Contents(boxes) == MedianCutParts(pixels, colorCount)
    requires forall b :: b in boxes ==> Filled(b)
    ensures forall b :: b in boxes ==> GoodBox(b, pixels)
    ensures boxes == [] <==> |pixels| == 1 && colorCount >= 2
    ensures |boxes| <= Max(1, colorCount)
    ensures colorCount <= 1 ==> |boxes| == 1 && boxes[0].pixels == pixels
  {
    var parts := MedianCutParts(pixels, colorCount);
    MedianCutPartition(pixels, colorCount);
    assert |boxes| == |parts|;
    forall b | b in boxes
      ensures GoodBox(b, pixels)
    {
      var i :| 0 <= i < |boxes| && boxes[i] == b;
      PartInTotal(parts, i);
      assert b.pixels == parts[i];
    }
    if colorCount <= 1 {
      assert boxes[0].pixels == Contents(boxes)[0];
    }
  }

  /**
   * The box loop followed by `boxes.map(box => box.getAverageColor())`: one
   * palette colour per remaining box, each the average of a non-empty part of
   * the pixels.
   */
  method BuildPalette(pixels: seq<Color>, colorCount: int) returns (palette: seq<Color>)
    requires pixels != []
    ensures palette == MedianCutPalette(pixels, colorCount)
    ensures palette == [] <==> |pixels| == 1 && colorCount >= 2
    ensures |palette| <= Max(1, colorCount)
    ensures colorCount <= 1 ==> palette == [MeanColor(pixels)]
    ensures forall c :: c in palette ==> IsMeanOfPart(c, pixels)
  {
    var boxes := SplitBoxes(pixels, colorCount);
    palette := AverageColors(boxes);
    MedianCutPaletteFacts(pixels, colorCount);
  }

  /** `boxes.map(box => box.getAverageColor())`: the average colour of each box, in list order. */
  method AverageColors(boxes: seq<ColorBox>) returns (palette: seq<Color>)
    requires forall b :: b in boxes ==> Filled(b)
    ensures NonEmptyParts(Contents(boxes))
    ensures palette == Means(Contents(boxes))
  {
    palette := [];
    for i := 0 to |boxes|
      invariant |palette| == i
      invariant forall j :: 0 <= j < i ==> boxes[j].pixels != [] && palette[j] == MeanColor(boxes[j].pixels)
    {
      assert Filled(boxes[i]);
      var c := boxes[i].GetAverageColor();
      palette := palette + [c];
    }
  }

  /**
   * `medianCutQuantization` on a buffer of pixels: builds the palette and
   * replaces every pixel, in place, by its nearest palette colour.  The
   * palette is returned so that the new contents can be stated.
   */
  method MedianCutQuantization(data: array<Color>, colorCount: int) returns (palette: seq<Color>)
    requires data.Length >= 2 || (data.Length == 1 && colorCount <= 1)
    modifies data
    ensures palette == MedianCutPalette(old(data[..]), colorCount)
    ensures palette != [] && |palette| <= Max(1, colorCount)
    ensures colorCount <= 1 ==> palette == [MeanColor(old(data[..]))]
    ensures forall c :: c in palette ==> IsMeanOfPart(c, old(data[..]))
    ensures data[..] == MapToPalette(old(data[..]), palette)
  {
    var pixels := data[..];
    palette := BuildPalette(pixels, colorCount);
    for i := 0 to data.Length
      invariant forall j :: 0 <= j < i ==> data[j] == Nearest(pixels[j], palette)
      invariant forall j :: i <= j < data.Length ==> data[j] == pixels[j]
    {
      var closest := NearestColor(data[i], palette);
      data[i] := closest;
    }
  }
}
