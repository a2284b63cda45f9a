/** Mapping the enclosing rectangle from the detector's input resolution back
    to pixels of the original image, with the one-pixel outward pad and the
    integer conversion, and the check for a degenerate rectangle. */
module Rescale {
  import opened Boxes

  /** Python's `int()` on a float: truncation toward zero. */
  function Trunc(x: real): (n: int)
    ensures x >= 0.0 ==> n as real <= x < n as real + 1.0
    ensures x < 0.0 ==> n as real - 1.0 < x <= n as real
  {
    if x >= 0.0 then x.Floor else -((-x).Floor)
  }

  /** `original / input` with Python's true division: the multiplier that
      maps one axis of the detector input onto the original image. */
  function Ratio(original: nat, input: nat): (k: real)
    requires input > 0
    ensures k >= 0.0
  {
    original as real / input as real
  }

  /** The multiplier maps the full input extent onto the full original one. */
  lemma RatioScalesExtent(original: nat, input: nat)
    requires input > 0
    ensures input as real * Ratio(original, input) == original as real
  {
  }

  /** `int(s - 1)` for the scaled value `s = v * k`: the lower bound, moved
      one pixel outward. Whatever the sign of `s`, it lies strictly below `s`
      and less than two pixels away. */
  function PadLow(s: real): (n: int)
    ensures s - 2.0 < n as real < s
  {
    Trunc(s - 1.0)
  }

  /** `int(s + 1)`: the upper bound, moved one pixel outward, strictly above
      `s` and less than two pixels away. */
  function PadHigh(s: real): (n: int)
    ensures s < n as real < s + 2.0
  {
    Trunc(s + 1.0)
  }

  /** Just inside zero the pad is swallowed by truncation: the lower bound
      stays 0, not -1. */
  lemma PadLowBelowOne(s: real)
    requires 0.0 < s < 1.0
    ensures PadLow(s) == 0
  {
  }

  /** With the identity multiplier and an integer coordinate the pad is
      exactly one pixel each way, so rescaling is not the identity. */
  lemma PadAtIdentityScale(n: int)
    ensures PadLow(n as real * 1.0) == n - 1
    ensures PadHigh(n as real * 1.0) == n + 1
  {
    assert n as real * 1.0 - 1.0 == (n - 1) as real;
    assert n as real * 1.0 + 1.0 == (n + 1) as real;
  }

  /** The enclosing rectangle after rescaling, in integer pixels. */
  datatype PixelRect = PixelRect(minX: int, minY: int, maxX: int, maxY: int)

  /** The enclosing rectangle in original-image coordinates: x bounds times
      the width multiplier, y bounds times the height multiplier. */
  function ScaleRect(r: Rect, widthRatio: real, heightRatio: real): (s: Rect)
    ensures widthRatio == 1.0 && heightRatio == 1.0 ==> s == r
  {
    Rect(r.xMin * widthRatio, r.yMin * heightRatio, r.xMax * widthRatio, r.yMax * heightRatio)
  }

  /** Min bounds padded by -1 and max bounds by +1, then truncated. */
  function Pad(s: Rect): (p: PixelRect)
    ensures s.xMin - 2.0 < p.minX as real < s.xMin && s.yMin - 2.0 < p.minY as real < s.yMin
    ensures s.xMax < p.maxX as real < s.xMax + 2.0 && s.yMax < p.maxY as real < s.yMax + 2.0
  {
    PixelRect(PadLow(s.xMin), PadLow(s.yMin), PadHigh(s.xMax), PadHigh(s.yMax))
  }

  /** The rescaled and padded rectangle, in integer pixels: every bound moves
      strictly outward from the scaled value, by less than two pixels. */
  function RescalePadded(r: Rect, widthRatio: real, heightRatio: real): (p: PixelRect)
    ensures r.xMin * widthRatio - 2.0 < p.minX as real < r.xMin * widthRatio
    ensures r.yMin * heightRatio - 2.0 < p.minY as real < r.yMin * heightRatio
    ensures r.xMax * widthRatio < p.maxX as real < r.xMax * widthRatio + 2.0
    ensures r.yMax * heightRatio < p.maxY as real < r.yMax * heightRatio + 2.0
  {
    Pad(ScaleRect(r, widthRatio, heightRatio))
  }

  /** The validation of the rescaled rectangle: it is rejected when it is
      empty or inverted on either axis. */
  predicate IsDegenerate(p: PixelRect) {
    p.minX >= p.maxX || p.minY >= p.maxY
  }

  /** The check rejects only rectangles that were inverted before rescaling:
      an ordered rectangle and non-negative multipliers always pass. */
  lemma OrderedNeverDegenerate(r: Rect, widthRatio: real, heightRatio: real)
    requires widthRatio >= 0.0 && heightRatio >= 0.0
    requires r.xMin <= r.xMax && r.yMin <= r.yMax
    ensures !IsDegenerate(RescalePadded(r, widthRatio, heightRatio))
  {
    ScaleMonotone(r.xMin, r.xMax, widthRatio);
    ScaleMonotone(r.yMin, r.yMax, heightRatio);
    PadOrderedRect(ScaleRect(r, widthRatio, heightRatio));
  }

  /** An ordered rectangle stays ordered, strictly, once padded. */
  lemma PadOrderedRect(s: Rect)
    requires s.xMin <= s.xMax && s.yMin <= s.yMax
    ensures !IsDegenerate(Pad(s))
  {
    PadOrdered(s.xMin, s.xMax);
    PadOrdered(s.yMin, s.yMax);
  }

  /** Padding two ordered values outward leaves the low pad strictly below
      the high pad. */
  lemma PadOrdered(s: real, t: real)
    requires s <= t
    ensures PadLow(s) < PadHigh(t)
  {
  }

  /** Multiplying by a non-negative ratio keeps order. */
  lemma ScaleMonotone(u: real, v: real, k: real)
    requires u <= v && k >= 0.0
    ensures u * k <= v * k
  {
    assert (v - u) * k >= 0.0;
  }

  /** An inverted detector row makes the check fire: a box from x = 10 to
      x = 5 at unit scale becomes the pixel range 9 to 6. */
  lemma InvertedRectRejected()
    ensures RescalePadded(Rect(10.0, 0.0, 5.0, 10.0), 1.0, 1.0) == PixelRect(9, -1, 6, 11)
    ensures IsDegenerate(RescalePadded(Rect(10.0, 0.0, 5.0, 10.0), 1.0, 1.0))
  {
    PadAtIdentityScale(10);
    PadAtIdentityScale(0);
    PadAtIdentityScale(5);
  }

  /** A detection spanning the whole detector input maps onto the whole
      original image and is then padded one pixel past it on every side:
      to columns -1 and `width + 1` and rows -1 and `height + 1`. */
  lemma FullFrameBounds(width: nat, height: nat, inputW: nat, inputH: nat)
    requires inputW > 0 && inputH > 0
    ensures RescalePadded(Rect(0.0, 0.0, inputW as real, inputH as real),
      Ratio(width, inputW), Ratio(height, inputH)) == PixelRect(-1, -1, width + 1, height + 1)
  {
    RatioScalesExtent(width, inputW);
    RatioScalesExtent(height, inputH);
    var s := ScaleRect(Rect(0.0, 0.0, inputW as real, inputH as real), Ratio(width, inputW), Ratio(height, inputH));
    assert s == Rect(0.0, 0.0, width as real, height as real);
    PadAtIdentityScale(0);
    PadAtIdentityScale(width);
    PadAtIdentityScale(height);
  }
}
