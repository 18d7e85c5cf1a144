/**
 * `calculateScaledDimensions` of web/js/main.js: an image larger than the
 * display box (800 x 600 by default) is shrunk by one common factor so that it
 * fits, and the scaled sides are floored to whole pixels.  Arithmetic is on
 * exact reals here; the source uses IEEE doubles.
 */
module Scaling {
  const DefaultMaxWidth: nat := 800
  const DefaultMaxHeight: nat := 600

  function MinReal(a: real, b: real): real
  {
    if a < b then a else b
  }

  /**
   * The common scale factor.  A zero side divides by zero in the source,
   * giving `Infinity`, which `Math.min` then ignores; the other side's ratio
   * is used.
   */
  function Scale(width: nat, height: nat, maxWidth: nat, maxHeight: nat): (s: real)
    requires maxWidth >= 1 && maxHeight >= 1
    ensures 0.0 < s <= 1.0
  {
    if width > maxWidth || height > maxHeight then
      if width == 0 then
        RatioBounds(maxHeight, height);
        (maxHeight as real) / (height as real)
      else if height == 0 then
        RatioBounds(maxWidth, width);
        (maxWidth as real) / (width as real)
      else
        RatioBounds(maxWidth, width);
        RatioBounds(maxHeight, height);
        MinReal((maxWidth as real) / (width as real), (maxHeight as real) / (height as real))
    else 1.0
  }

  /** A ratio of two positive whole numbers is positive, and below one when the numerator is smaller. */
  lemma RatioBounds(m: nat, n: nat)
    requires m >= 1 && n >= 1
    ensures 0.0 < (m as real) / (n as real)
    ensures m < n ==> (m as real) / (n as real) < 1.0
  {
    var r := (m as real) / (n as real);
    assert r * (n as real) == m as real;
    if r <= 0.0 {
      MulMonoReal(n as real, r, 0.0);
    }
    if m < n && r >= 1.0 {
      MulMonoReal(n as real, 1.0, r);
    }
  }

  /** `calculateScaledDimensions`: both sides multiplied by the scale and floored. */
  function ScaledDimensions(width: nat, height: nat, maxWidth: nat, maxHeight: nat): (d: (int, int))
    requires maxWidth >= 1 && maxHeight >= 1
  {
    var s := Scale(width, height, maxWidth, maxHeight);
    (((width as real) * s).Floor, ((height as real) * s).Floor)
  }

  lemma MulMonoReal(a: real, s: real, t: real)
    requires 0.0 <= a && s <= t
    ensures a * s <= a * t
  {
  }

  lemma ScaledSide(side: nat, max: nat, s: real)
    requires 0.0 < s <= 1.0 && (side as real) * s <= max as real
    ensures 0 <= ((side as real) * s).Floor <= side && ((side as real) * s).Floor <= max
  {
    var v := (side as real) * s;
    MulMonoReal(side as real, s, 1.0);
    MulMonoReal(side as real, 0.0, s);
    assert 0.0 <= v <= side as real && v <= max as real;
    assert v.Floor as real <= v < v.Floor as real + 1.0;
  }

  /** When the image is shrunk, both scaled sides are within the box before flooring. */
  lemma ScaleFitsBox(width: nat, height: nat, maxWidth: nat, maxHeight: nat)
    requires maxWidth >= 1 && maxHeight >= 1 && (width > maxWidth || height > maxHeight)
    ensures var s := Scale(width, height, maxWidth, maxHeight);
            (width as real) * s <= maxWidth as real && (height as real) * s <= maxHeight as real
  {
    var s := Scale(width, height, maxWidth, maxHeight);
    if width == 0 {
      assert (height as real) * s == maxHeight as real;
    } else if height == 0 {
      assert (width as real) * s == maxWidth as real;
    } else {
      var sw, sh := (maxWidth as real) / (width as real), (maxHeight as real) / (height as real);
      assert (width as real) * sw == maxWidth as real;
      assert (height as real) * sh == maxHeight as real;
      MulMonoReal(width as real, s, sw);
      MulMonoReal(height as real, s, sh);
    }
  }

  /** The scaled width fits the box and does not grow. */
  lemma ScaledWidthFits(width: nat, height: nat, maxWidth: nat, maxHeight: nat)
    requires maxWidth >= 1 && maxHeight >= 1
    ensures var d := ScaledDimensions(width, height, maxWidth, maxHeight);
            0 <= d.0 <= width && d.0 <= maxWidth
  {
    var s := Scale(width, height, maxWidth, maxHeight);
    if width > maxWidth || height > maxHeight {
      ScaleFitsBox(width, height, maxWidth, maxHeight);
    }
    ScaledSide(width, maxWidth, s);
  }

  /** The scaled height fits the box and does not grow. */
  lemma ScaledHeightFits(width: nat, height: nat, maxWidth: nat, maxHeight: nat)
    requires maxWidth >= 1 && maxHeight >= 1
    ensures var d := ScaledDimensions(width, height, maxWidth, maxHeight);
            0 <= d.1 <= height && d.1 <= maxHeight
  {
    var s := Scale(width, height, maxWidth, maxHeight);
    if width > maxWidth || height > maxHeight {
      ScaleFitsBox(width, height, maxWidth, maxHeight);
    }
    ScaledSide(height, maxHeight, s);
  }

  /** The result fits the box and neither side grows. */
  lemma ScaledFits(width: nat, height: nat, maxWidth: nat, maxHeight: nat)
    requires maxWidth >= 1 && maxHeight >= 1
    ensures var d := ScaledDimensions(width, height, maxWidth, maxHeight);
            0 <= d.0 <= width && 0 <= d.1 <= height && d.0 <= maxWidth && d.1 <= maxHeight
  {
    ScaledWidthFits(width, height, maxWidth, maxHeight);
    ScaledHeightFits(width, height, maxWidth, maxHeight);
  }

  /** The image keeps its size exactly when it already fits the box. */
  lemma ScaledUnchangedIffFits(width: nat, height: nat, maxWidth: nat, maxHeight: nat)
    requires maxWidth >= 1 && maxHeight >= 1
    ensures ScaledDimensions(width, height, maxWidth, maxHeight) == (width, height)
            <==> width <= maxWidth && height <= maxHeight
  {
    ScaledFits(width, height, maxWidth, maxHeight);
  }

  /**
   * When the image is shrunk, the side with the smaller ratio is scaled to
   * exactly its limit, so the result touches the box.
   */
  lemma ScaledTouchesBox(width: nat, height: nat, maxWidth: nat, maxHeight: nat)
    requires maxWidth >= 1 && maxHeight >= 1 && (width > maxWidth || height > maxHeight)
    ensures var d := ScaledDimensions(width, height, maxWidth, maxHeight);
            d.0 == maxWidth || d.1 == maxHeight
  {
    var s := Scale(width, height, maxWidth, maxHeight);
    if width == 0 {
      assert (height as real) * s == maxHeight as real;
    } else if height == 0 {
      assert (width as real) * s == maxWidth as real;
    } else if s == (maxWidth as real) / (width as real) {
      assert (width as real) * s == maxWidth as real;
    } else {
      assert (height as real) * s == maxHeight as real;
    }
  }
}
