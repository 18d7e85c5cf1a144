/**
 * `ColorBox` of median-cut quantisation (pixelizer.js and web/js/main.js
 * carry the same class): a list of pixels with its per-channel bounds, the
 * widest channel range and the channel to split on.
 */
module ColorBoxes {
  import opened Pixels

  function Min(a: int, b: int): int { if a < b then a else b }
  function Max(a: int, b: int): int { if a < b then b else a }

  // ---------------------------------------------------------------------------
  // Channel bounds, as `computeMinMax` accumulates them

  /** Channel-wise `Math.min` and `Math.max` of two colours. */
  function MinColor(c: Color, d: Color): Color
  {
    Color(Min(c.r, d.r), Min(c.g, d.g), Min(c.b, d.b), Min(c.a, d.a))
  }

  function MaxColor(c: Color, d: Color): Color
  {
    Color(Max(c.r, d.r), Max(c.g, d.g), Max(c.b, d.b), Max(c.a, d.a))
  }

  lemma ChannelOfMinMax(lo: Color, hi: Color, c: Color, k: nat)
    requires k < 4
    ensures Channel(MinColor(lo, c), k) == Min(Channel(lo, k), Channel(c, k))
    ensures Channel(MaxColor(hi, c), k) == Max(Channel(hi, k), Channel(c, k))
  {
  }

  /** The per-channel minima, folded front to back from 255 (all 255 for no pixels). */
  function Lows(pixels: seq<Color>): Color
  {
    if pixels == [] then Color(255, 255, 255, 255) else MinColor(Lows(pixels[..|pixels| - 1]), pixels[|pixels| - 1])
  }

  /** The per-channel maxima, folded front to back from 0 (all 0 for no pixels). */
  function Highs(pixels: seq<Color>): Color
  {
    if pixels == [] then Color(0, 0, 0, 0) else MaxColor(Highs(pixels[..|pixels| - 1]), pixels[|pixels| - 1])
  }

  /** Minimum of channel `k`. */
  function MinOf(pixels: seq<Color>, k: nat): Byte
    requires k < 4
  {
    Channel(Lows(pixels), k)
  }

  /** Maximum of channel `k`. */
  function MaxOf(pixels: seq<Color>, k: nat): Byte
    requires k < 4
  {
    Channel(Highs(pixels), k)
  }

  /** `maxK - minK`: negative (-255) only for an empty list. */
  function ChannelRange(pixels: seq<Color>, k: nat): int
    requires k < 4
  {
    MaxOf(pixels, k) - MinOf(pixels, k)
  }

  /** `Math.max(rangeR, rangeG, rangeB, rangeA)` for the given bounds. */
  function Widest(lo: Color, hi: Color): int
  {
    Max(Max(hi.r - lo.r, hi.g - lo.g), Max(hi.b - lo.b, hi.a - lo.a))
  }

  /** The first of R, G, B, A whose range between the bounds is the widest. */
  function WidestChannel(lo: Color, hi: Color): (k: nat)
    ensures k < 4
  {
    var largest := Widest(lo, hi);
    if hi.r - lo.r == largest then 0
    else if hi.g - lo.g == largest then 1
    else if hi.b - lo.b == largest then 2
    else 3
  }

  /** `largestRange` of a box holding `pixels`. */
  function LargestRange(pixels: seq<Color>): int
  {
    Widest(Lows(pixels), Highs(pixels))
  }

  /** The largest range bounds every channel's range and is one of them. */
  lemma LargestRangeIsMaximum(pixels: seq<Color>)
    ensures forall k :: 0 <= k < 4 ==> ChannelRange(pixels, k) <= LargestRange(pixels)
    ensures exists k :: 0 <= k < 4 && ChannelRange(pixels, k) == LargestRange(pixels)
  {
    var r := LargestRange(pixels);
    if ChannelRange(pixels, 0) == r {
      assert 0 <= 0 < 4 && ChannelRange(pixels, 0) == r;
    } else if ChannelRange(pixels, 1) == r {
      assert 0 <= 1 < 4 && ChannelRange(pixels, 1) == r;
    } else if ChannelRange(pixels, 2) == r {
      assert 0 <= 2 < 4 && ChannelRange(pixels, 2) == r;
    } else {
      assert 0 <= 3 < 4 && ChannelRange(pixels, 3) == r;
    }
  }

  /** `splitChannel` of a box holding `pixels`. */
  function SplitChannelOf(pixels: seq<Color>): (k: nat)
    ensures k < 4
  {
    WidestChannel(Lows(pixels), Highs(pixels))
  }

  /** The split channel has the largest range, and every earlier channel a strictly smaller one. */
  lemma SplitChannelIsFirstWidest(pixels: seq<Color>)
    ensures ChannelRange(pixels, SplitChannelOf(pixels)) == LargestRange(pixels)
    ensures forall j :: 0 <= j < SplitChannelOf(pixels) ==> ChannelRange(pixels, j) < LargestRange(pixels)
  {
    LargestRangeIsMaximum(pixels);
  }

  /** Every pixel lies within the bounds, and on a non-empty list both bounds are attained. */
  lemma {:induction false} BoundsOf(pixels: seq<Color>, k: nat)
    requires k < 4
    ensures forall i :: 0 <= i < |pixels| ==> MinOf(pixels, k) <= Channel(pixels[i], k) <= MaxOf(pixels, k)
    ensures pixels != [] ==> exists i :: 0 <= i < |pixels| && Channel(pixels[i], k) == MinOf(pixels, k)
    ensures pixels != [] ==> exists i :: 0 <= i < |pixels| && Channel(pixels[i], k) == MaxOf(pixels, k)
  {
    if pixels != [] {
      var n := |pixels| - 1;
      var prefix := pixels[..n];
      BoundsOf(prefix, k);
      ChannelOfMinMax(Lows(prefix), Highs(prefix), pixels[n], k);
      assert forall i :: 0 <= i < n ==> pixels[i] == prefix[i];
      if prefix == [] || Channel(pixels[n], k) <= MinOf(prefix, k) {
        assert Channel(pixels[n], k) == MinOf(pixels, k);
      } else {
        var lo :| 0 <= lo < n && Channel(prefix[lo], k) == MinOf(prefix, k);
        assert Channel(pixels[lo], k) == MinOf(pixels, k);
      }
      if prefix == [] || Channel(pixels[n], k) >= MaxOf(prefix, k) {
        assert Channel(pixels[n], k) == MaxOf(pixels, k);
      } else {
        var hi :| 0 <= hi < n && Channel(prefix[hi], k) == MaxOf(prefix, k);
        assert Channel(pixels[hi], k) == MaxOf(pixels, k);
      }
    }
  }

  /** Extending a prefix by one pixel folds that pixel into both bounds. */
  lemma BoundsStep(pixels: seq<Color>, i: nat)
    requires i < |pixels|
    ensures Lows(pixels[..i + 1]) == MinColor(Lows(pixels[..i]), pixels[i])
    ensures Highs(pixels[..i + 1]) == MaxColor(Highs(pixels[..i]), pixels[i])
  {
    assert pixels[..i + 1][..i] == pixels[..i];
  }

  /** On a non-empty box min <= max on every channel, so the largest range is >= 0. */
  lemma RangesOfNonEmpty(pixels: seq<Color>)
    requires pixels != []
    ensures forall k :: 0 <= k < 4 ==> MinOf(pixels, k) <= MaxOf(pixels, k)
    ensures LargestRange(pixels) >= 0
  {
    LargestRangeIsMaximum(pixels);
    forall k | 0 <= k < 4
      ensures MinOf(pixels, k) <= MaxOf(pixels, k)
    {
      BoundsOf(pixels, k);
    }
  }

  /** The bounds depend only on the pixels, not on their order. */
  lemma BoundsOfPermutation(p: seq<Color>, q: seq<Color>, k: nat)
    requires k < 4 && multiset(p) == multiset(q)
    ensures MinOf(p, k) == MinOf(q, k) && MaxOf(p, k) == MaxOf(q, k)
  {
    BoundsOf(p, k);
    BoundsOf(q, k);
    forall i | 0 <= i < |p|
      ensures MinOf(q, k) <= Channel(p[i], k) <= MaxOf(q, k)
    {
      assert p[i] in multiset(q);
    }
    forall i | 0 <= i < |q|
      ensures MinOf(p, k) <= Channel(q[i], k) <= MaxOf(p, k)
    {
      assert q[i] in multiset(p);
    }
    if p != [] {
      assert |q| == |multiset(q)| == |multiset(p)| == |p|;
    } else {
      assert |q| == |multiset(q)| == 0;
    }
  }

  // ---------------------------------------------------------------------------
  // Average colour

  /** Sum of channel `k` over the list, accumulated front to back. */
  function ChannelSum(pixels: seq<Color>, k: nat): nat
    requires k < 4
  {
    if pixels == [] then 0 else ChannelSum(pixels[..|pixels| - 1], k) + Channel(pixels[|pixels| - 1], k)
  }

  lemma {:induction false} ChannelSumBounds(pixels: seq<Color>, k: nat, lo: nat, hi: nat)
    requires k < 4
    requires forall i :: 0 <= i < |pixels| ==> lo <= Channel(pixels[i], k) <= hi
    ensures |pixels| * lo <= ChannelSum(pixels, k) <= |pixels| * hi
  {
    if pixels != [] {
      var n := |pixels| - 1;
      assert forall i :: 0 <= i < n ==> pixels[..n][i] == pixels[i];
      ChannelSumBounds(pixels[..n], k, lo, hi);
      MulSuccessor(n, lo);
      MulSuccessor(n, hi);
    }
  }

  /** Sorting keeps the per-channel bounds, so a box stays valid when `split` sorts it. */
  lemma BoundsOfSorted(pixels: seq<Color>, k: nat)
    requires k < 4
    ensures Lows(SortOn(pixels, k)) == Lows(pixels) && Highs(SortOn(pixels, k)) == Highs(pixels)
  {
    var sorted := SortOn(pixels, k);
    forall j | 0 <= j < 4
      ensures Channel(Lows(sorted), j) == Channel(Lows(pixels), j)
      ensures Channel(Highs(sorted), j) == Channel(Highs(pixels), j)
    {
      BoundsOfPermutation(sorted, pixels, j);
    }
    ChannelsDetermineColor(Lows(sorted), Lows(pixels));
    ChannelsDetermineColor(Highs(sorted), Highs(pixels));
  }

  /** `Math.round(sum / count)` for channel `k` of a non-empty list. */
  function ChannelMean(pixels: seq<Color>, k: nat): Byte
    requires pixels != [] && k < 4
  {
    ChannelSumBounds(pixels, k, 0, 255);
    RoundDivIsByte(ChannelSum(pixels, k), |pixels|);
    RoundDiv(ChannelSum(pixels, k), |pixels|)
  }

  /** `getAverageColor`: the per-channel rounded mean of a non-empty list. */
  function MeanColor(pixels: seq<Color>): Color
    requires pixels != []
  {
    Color(ChannelMean(pixels, 0), ChannelMean(pixels, 1), ChannelMean(pixels, 2), ChannelMean(pixels, 3))
  }

  /** Each channel of the average lies within the channel's bounds over the list. */
  lemma MeanWithin(pixels: seq<Color>, k: nat, lo: nat, hi: nat)
    requires pixels != [] && k < 4
    requires forall i :: 0 <= i < |pixels| ==> lo <= Channel(pixels[i], k) <= hi
    ensures lo <= Channel(MeanColor(pixels), k) <= hi
  {
    ChannelSumBounds(pixels, k, lo, hi);
    RoundDivBetween(ChannelSum(pixels, k), |pixels|, lo, hi);
  }

  /** In particular the average lies within [min, max] of the box. */
  lemma MeanWithinBounds(pixels: seq<Color>)
    requires pixels != []
    ensures forall k :: 0 <= k < 4 ==> MinOf(pixels, k) <= Channel(MeanColor(pixels), k) <= MaxOf(pixels, k)
  {
    forall k | 0 <= k < 4
      ensures MinOf(pixels, k) <= Channel(MeanColor(pixels), k) <= MaxOf(pixels, k)
    {
      BoundsOf(pixels, k);
      MeanWithin(pixels, k, MinOf(pixels, k), MaxOf(pixels, k));
    }
  }

  /** A box of identical pixels averages to that colour. */
  lemma MeanOfUniform(pixels: seq<Color>, c: Color)
    requires pixels != [] && forall i :: 0 <= i < |pixels| ==> pixels[i] == c
    ensures MeanColor(pixels) == c
  {
    forall k | 0 <= k < 4
      ensures Channel(MeanColor(pixels), k) == Channel(c, k)
    {
      MeanWithin(pixels, k, Channel(c, k), Channel(c, k));
    }
    ChannelsDetermineColor(MeanColor(pixels), c);
  }

  // ---------------------------------------------------------------------------
  // Sorting on one channel

  /** Non-decreasing on channel `k`. */
  ghost predicate SortedOn(pixels: seq<Color>, k: nat)
    requires k < 4
  {
    forall i, j :: 0 <= i < j < |pixels| ==> Channel(pixels[i], k) <= Channel(pixels[j], k)
  }

  /** Inserts `p` after every element whose channel `k` is not above its own. */
  function Insert(sorted: seq<Color>, p: Color, k: nat): (r: seq<Color>)
    requires k < 4
    ensures multiset(r) == multiset(sorted) + multiset{p}
  {
    if sorted == [] || Channel(p, k) < Channel(sorted[0], k) then [p] + sorted
    else
      assert sorted == [sorted[0]] + sorted[1..];
      [sorted[0]] + Insert(sorted[1..], p, k)
  }

  /** Putting a pixel no larger than any of a sorted list in front keeps it sorted. */
  lemma ConsSorted(h: Color, rest: seq<Color>, k: nat)
    requires k < 4 && SortedOn(rest, k)
    requires forall i :: 0 <= i < |rest| ==> Channel(h, k) <= Channel(rest[i], k)
    ensures SortedOn([h] + rest, k)
  {
    var s := [h] + rest;
    forall i, j | 0 <= i < j < |s|
      ensures Channel(s[i], k) <= Channel(s[j], k)
    {
      if i > 0 {
        assert s[i] == rest[i - 1] && s[j] == rest[j - 1];
      }
    }
  }

  lemma {:induction false} InsertSorted(sorted: seq<Color>, p: Color, k: nat)
    requires k < 4 && SortedOn(sorted, k)
    ensures SortedOn(Insert(sorted, p, k), k)
  {
    if sorted == [] || Channel(p, k) < Channel(sorted[0], k) {
      ConsSorted(p, sorted, k);
    } else {
      var rest := Insert(sorted[1..], p, k);
      InsertSorted(sorted[1..], p, k);
      assert sorted == [sorted[0]] + sorted[1..];
      forall i | 0 <= i < |rest|
        ensures Channel(sorted[0], k) <= Channel(rest[i], k)
      {
        assert rest[i] in multiset(sorted[1..]) + multiset{p};
      }
      ConsSorted(sorted[0], rest, k);
    }
  }

  /**
   * `pixels.sort((a, b) => a[k] - b[k])`: the stable sort on channel `k`
   * (insertion sort, which keeps equal pixels in their original order).
   */
  function SortOn(pixels: seq<Color>, k: nat): (r: seq<Color>)
    requires k < 4
    ensures multiset(r) == multiset(pixels) && |r| == |pixels|
    ensures SortedOn(r, k)
  {
    if pixels == [] then []
    else
      var n := |pixels| - 1;
      assert pixels == pixels[..n] + [pixels[n]];
      InsertSorted(SortOn(pixels[..n], k), pixels[n], k);
      Insert(SortOn(pixels[..n], k), pixels[n], k)
  }

  /** The halves of a sorted list are ordered: every left value is <= every right value. */
  lemma SortedHalves(pixels: seq<Color>, k: nat, mid: nat)
    requires k < 4 && mid <= |pixels| && SortedOn(pixels, k)
    ensures forall p, q :: p in pixels[..mid] && q in pixels[mid..] ==> Channel(p, k) <= Channel(q, k)
  {
    forall p, q | p in pixels[..mid] && q in pixels[mid..]
      ensures Channel(p, k) <= Channel(q, k)
    {
      var i :| 0 <= i < mid && pixels[..mid][i] == p;
      var j :| 0 <= j < |pixels| - mid && pixels[mid..][j] == q;
      assert pixels[i] == p && pixels[mid + j] == q;
    }
  }

  /**
   * The loop of `computeMinMax`: per-channel running minimum (from 255) and
   * maximum (from 0) over the pixels, returned as two colours.
   */
  method ChannelBounds(pixels: seq<Color>) returns (mins: Color, maxs: Color)
    ensures mins == Lows(pixels) && maxs == Highs(pixels)
  {
    var minR: Byte, minG: Byte, minB: Byte, minA: Byte := 255, 255, 255, 255;
    var maxR: Byte, maxG: Byte, maxB: Byte, maxA: Byte := 0, 0, 0, 0;
    for i := 0 to |pixels|
      invariant Color(minR, minG, minB, minA) == Lows(pixels[..i])
      invariant Color(maxR, maxG, maxB, maxA) == Highs(pixels[..i])
    {
      var pixel := pixels[i];
      BoundsStep(pixels, i);
      minR := Min(minR, pixel.r);
      minG := Min(minG, pixel.g);
      minB := Min(minB, pixel.b);
      minA := Min(minA, pixel.a);
      maxR := Max(maxR, pixel.r);
      maxG := Max(maxG, pixel.g);
      maxB := Max(maxB, pixel.b);
      maxA := Max(maxA, pixel.a);
    }
    assert pixels[..|pixels|] == pixels;
    mins, maxs := Color(minR, minG, minB, minA), Color(maxR, maxG, maxB, maxA);
  }

  /**
   * The tail of `computeMinMax`: the four ranges, the largest of them and the
   * first channel, in the order R, G, B, A, that attains it.
   */
  method WidestOf(mins: Color, maxs: Color) returns (largest: int, channel: nat)
    ensures largest == Widest(mins, maxs) && channel == WidestChannel(mins, maxs)
  {
    var rangeR, rangeG, rangeB, rangeA := maxs.r - mins.r, maxs.g - mins.g, maxs.b - mins.b, maxs.a - mins.a;
    largest := Max(Max(rangeR, rangeG), Max(rangeB, rangeA));
    if rangeR == largest {
      channel := 0;
    } else if rangeG == largest {
      channel := 1;
    } else if rangeB == largest {
      channel := 2;
    } else {
      channel := 3;
    }
  }

  // ---------------------------------------------------------------------------
  // The class

  class ColorBox {
    var pixels: seq<Color>
    var level: nat
    var minR: Byte
    var minG: Byte
    var minB: Byte
    var minA: Byte
    var maxR: Byte
    var maxG: Byte
    var maxB: Byte
    var maxA: Byte
    var largestRange: int
    var splitChannel: nat

    /** The bound fields describe `pixels`, as `computeMinMax` leaves them. */
    ghost predicate Valid()
      reads this
    {
      && Color(minR, minG, minB, minA) == Lows(pixels)
      && Color(maxR, maxG, maxB, maxA) == Highs(pixels)
      && largestRange == Widest(Color(minR, minG, minB, minA), Color(maxR, maxG, maxB, maxA))
      && splitChannel == WidestChannel(Color(minR, minG, minB, minA), Color(maxR, maxG, maxB, maxA))
    }

    constructor (pixels: seq<Color>, level: nat)
      ensures this.pixels == pixels && this.level == level && Valid()
    {
      this.pixels := pixels;
      this.level := level;
      new;
      ComputeMinMax();
    }

    /** `computeMinMax`: one pass over the pixels, then the ranges and the split channel. */
    method ComputeMinMax()
      modifies this
      ensures Valid() && unchanged(this`pixels, this`level)
    {
      var mins, maxs := ChannelBounds(pixels);
      var largest, channel := WidestOf(mins, maxs);
      minR, minG, minB, minA := mins.r, mins.g, mins.b, mins.a;
      maxR, maxG, maxB, maxA := maxs.r, maxs.g, maxs.b, maxs.a;
      largestRange, splitChannel := largest, channel;
      assert Color(minR, minG, minB, minA) == mins;
      assert Color(maxR, maxG, maxB, maxA) == maxs;
    }

    /** `getAverageColor`: channel sums over the pixels, then the rounded means. */
    method GetAverageColor() returns (c: Color)
      requires pixels != []
      ensures c == MeanColor(pixels)
    {
      var r, g, b, a := 0, 0, 0, 0;
      for i := 0 to |pixels|
        invariant r == ChannelSum(pixels[..i], 0) && g == ChannelSum(pixels[..i], 1)
        invariant b == ChannelSum(pixels[..i], 2) && a == ChannelSum(pixels[..i], 3)
      {
        assert pixels[..i + 1][..i] == pixels[..i];
        r, g, b, a := r + pixels[i].r, g + pixels[i].g, b + pixels[i].b, a + pixels[i].a;
      }
      assert pixels[..|pixels|] == pixels;
      var count := |pixels|;
      ChannelSumBounds(pixels, 0, 0, 255);
      ChannelSumBounds(pixels, 1, 0, 255);
      ChannelSumBounds(pixels, 2, 0, 255);
      ChannelSumBounds(pixels, 3, 0, 255);
      RoundDivIsByte(r, count);
      RoundDivIsByte(g, count);
      RoundDivIsByte(b, count);
      RoundDivIsByte(a, count);
      c := Color(RoundDiv(r, count), RoundDiv(g, count), RoundDiv(b, count), RoundDiv(a, count));
    }

    /**
     * `split`: `null` for fewer than two pixels; otherwise sorts the pixels on
     * the split channel in place and returns new boxes, one level deeper, for
     * the lower `floor(n / 2)` and the upper `n - floor(n / 2)` pixels.
     */
    method Split() returns (halves: Option<(ColorBox, ColorBox)>)
      requires Valid()
      modifies this
      ensures |old(pixels)| < 2 ==> halves == None && pixels == old(pixels)
      ensures |old(pixels)| >= 2 ==>
        && halves.Some? && fresh(halves.value.0) && fresh(halves.value.1)
        && halves.value.0 != halves.value.1
        && pixels == SortOn(old(pixels), old(splitChannel))
        && halves.value.0.pixels == pixels[..|pixels| / 2] && halves.value.0.level == level + 1
        && halves.value.1.pixels == pixels[|pixels| / 2..] && halves.value.1.level == level + 1
        && halves.value.0.Valid() && halves.value.1.Valid()
      ensures Valid()
      ensures unchanged(this`level, this`minR, this`minG, this`minB, this`minA)
      ensures unchanged(this`maxR, this`maxG, this`maxB, this`maxA, this`largestRange, this`splitChannel)
    {
      if |pixels| < 2 {
        return None;
      }
      var channel := splitChannel;
      BoundsOfSorted(pixels, channel);
      pixels := SortOn(pixels, channel);
      var mid := |pixels| / 2;
      var box1 := new ColorBox(pixels[..mid], level + 1);
      var box2 := new ColorBox(pixels[mid..], level + 1);
      halves := Some((box1, box2));
    }
  }

  /** The pixels of `s` whose channel `k` is `v`, in their order in `s`. */
  function WithKey(s: seq<Color>, k: nat, v: int): seq<Color>
    requires k < 4
  {
    if s == [] then [] else (if Channel(s[0], k) == v then [s[0]] else []) + WithKey(s[1..], k, v)
  }

  lemma {:induction false} WithKeyAppend(a: seq<Color>, b: seq<Color>, k: nat, v: int)
    requires k < 4
    ensures WithKey(a + b, k, v) == WithKey(a, k, v) + WithKey(b, k, v)
    decreases |a|
  {
    if a != [] {
      assert (a + b)[1..] == a[1..] + b;
      WithKeyAppend(a[1..], b, k, v);
    } else {
      assert a + b == b;
    }
  }

  lemma WithKeyCons(x: Color, s: seq<Color>, k: nat, v: int)
    requires k < 4
    ensures WithKey([x] + s, k, v) == (if Channel(x, k) == v then [x] else []) + WithKey(s, k, v)
  {
    assert ([x] + s)[1..] == s;
  }

  lemma SortedTail(s: seq<Color>, k: nat)
    requires k < 4 && SortedOn(s, k) && s != []
    ensures SortedOn(s[1..], k)
  {
    forall i, j | 0 <= i < j < |s| - 1
      ensures Channel(s[1..][i], k) <= Channel(s[1..][j], k)
    {
      assert s[1..][i] == s[i + 1] && s[1..][j] == s[j + 1];
    }
  }

  lemma AppendAssociative(a: seq<Color>, b: seq<Color>, c: seq<Color>)
    ensures a + (b + c) == (a + b) + c
  {
  }

  /** A sorted list whose first pixel is above `v` on channel `k` has no pixel with key `v`. */
  lemma {:induction false} WithKeyAbove(s: seq<Color>, k: nat, v: int)
    requires k < 4 && SortedOn(s, k) && s != [] && v < Channel(s[0], k)
    ensures WithKey(s, k, v) == []
    decreases |s|
  {
    if |s| > 1 {
      assert Channel(s[0], k) <= Channel(s[1], k);
      SortedTail(s, k);
      WithKeyAbove(s[1..], k, v);
    }
  }

  /** Inserting `p` puts it after every pixel with the same key. */
  lemma {:induction false} InsertStable(sorted: seq<Color>, p: Color, k: nat, v: int)
    requires k < 4 && SortedOn(sorted, k)
    ensures WithKey(Insert(sorted, p, k), k, v) == WithKey(sorted, k, v) + (if Channel(p, k) == v then [p] else [])
    decreases |sorted|
  {
    var mine := if Channel(p, k) == v then [p] else [];
    if sorted == [] || Channel(p, k) < Channel(sorted[0], k) {
      assert Insert(sorted, p, k) == [p] + sorted;
      WithKeyCons(p, sorted, k, v);
      if sorted != [] && Channel(p, k) == v {
        WithKeyAbove(sorted, k, v);
      }
    } else {
      var head, tail := sorted[0], sorted[1..];
      var theirs := if Channel(head, k) == v then [head] else [];
      assert Insert(sorted, p, k) == [head] + Insert(tail, p, k);
      SortedTail(sorted, k);
      InsertStable(tail, p, k, v);
      WithKeyCons(head, Insert(tail, p, k), k, v);
      assert [head] + tail == sorted;
      WithKeyCons(head, tail, k, v);
      AppendAssociative(theirs, WithKey(tail, k, v), mine);
    }
  }

  /** The sort is stable: for every key, the pixels with that key keep their order. */
  lemma {:induction false} SortOnStable(pixels: seq<Color>, k: nat, v: int)
    requires k < 4
    ensures WithKey(SortOn(pixels, k), k, v) == WithKey(pixels, k, v)
    decreases |pixels|
  {
    if pixels != [] {
      var n := |pixels| - 1;
      var init, last := pixels[..n], pixels[n];
      var sortedInit := SortOn(init, k);
      assert SortOn(pixels, k) == Insert(sortedInit, last, k);
      InsertStable(sortedInit, last, k, v);
      SortOnStable(init, k, v);
      WithKeyLast(pixels, k, v);
    }
  }

  lemma WithKeyLast(s: seq<Color>, k: nat, v: int)
    requires k < 4 && s != []
    ensures WithKey(s, k, v) == WithKey(s[..|s| - 1], k, v) + if Channel(s[|s| - 1], k) == v then [s[|s| - 1]] else []
  {
    var n := |s| - 1;
    assert s == s[..n] + [s[n]];
    WithKeyAppend(s[..n], [s[n]], k, v);
    assert [s[n]][1..] == [];
  }

  /**
   * What a split promises about its halves: sizes `floor(n / 2)` and
   * `n - floor(n / 2)`, together a permutation of the parent, and every left
   * value on the split channel at most every right value.
   */
  lemma SplitHalves(parent: seq<Color>, k: nat)
    requires k < 4 && |parent| >= 2
    ensures var sorted := SortOn(parent, k);
      var mid := |parent| / 2;
      && |sorted[..mid]| == |parent| / 2 && |sorted[mid..]| == |parent| - |parent| / 2
      && sorted[..mid] != [] && sorted[mid..] != []
      && multiset(sorted[..mid]) + multiset(sorted[mid..]) == multiset(parent)
      && forall p, q :: p in sorted[..mid] && q in sorted[mid..] ==> Channel(p, k) <= Channel(q, k)
  {
    var sorted := SortOn(parent, k);
    var mid := |parent| / 2;
    assert sorted == sorted[..mid] + sorted[mid..];
    SortedHalves(sorted, k, mid);
  }
}
