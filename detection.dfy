/** The box-handling step shared by `detect_text_regions` in test.py and the
    top-level script in Tiber_OD.py: drop sentinel rows, fold the remaining
    boxes into one enclosing rectangle, rescale it to the original image with
    an outward pad, reject a degenerate rectangle and crop the image to it.
    The detector itself is outside the model: its output rows are an input. */
module Detection {
  import opened Boxes
  import opened Rescale
  import opened Images

  /** The two ways the step stops early. `NoBoxes` is the IndexError raised
      by reading `boxes[0]` when no row survives the filter;
      `InvalidBoundingBox` is the `exit()` after the validation message. */
  datatype Failure = NoBoxes | InvalidBoundingBox

  datatype Outcome<T> = Ok(value: T) | Err(failure: Failure)

  /** The state the step leaves behind: the filtered rows, the rescaled and
      padded bounds, and the crop of the image to those bounds. */
  datatype Region<P> = Region(boxes: seq<Box>, bounds: PixelRect, crop: Image<P>)

  /** The rescaled, padded enclosing rectangle of the kept rows, with the
      multipliers `original_width / W` and `original_height / H`. */
  function PaddedBounds<P>(image: Image<P>, kept: seq<Box>, inputW: nat, inputH: nat): PixelRect
    requires |kept| > 0 && inputW > 0 && inputH > 0
  {
    RescalePadded(Enclosing(kept), Ratio(image.width, inputW), Ratio(|image.rows|, inputH))
  }

  /** The shared step. `inputW` and `inputH` are the width and height of the
      detector's input tensor. */
  method GlobalRegion<P>(image: Image<P>, detected: seq<Box>, inputW: nat, inputH: nat)
    returns (res: Outcome<Region<P>>)
    requires image.WellFormed() && inputW > 0 && inputH > 0
    ensures res == Err(NoBoxes) <==> DropZeroRows(detected) == []
    ensures res == Err(InvalidBoundingBox) <==>
      DropZeroRows(detected) != [] && IsDegenerate(PaddedBounds(image, DropZeroRows(detected), inputW, inputH))
    ensures res.Ok? ==>
      var p := res.value.bounds;
      res.value.boxes == DropZeroRows(detected) &&
      p == PaddedBounds(image, res.value.boxes, inputW, inputH) &&
      p.minX < p.maxX && p.minY < p.maxY &&
      res.value.crop == Crop(image, p.minY, p.maxY, p.minX, p.maxX)
  {
    var boxes := DropZeroRows(detected);
    if |boxes| == 0 {
      return Err(NoBoxes);
    }
    var minX, maxX, minY, maxY := EncloseBoxes(boxes);
    var widthRatio := Ratio(image.width, inputW);
    var heightRatio := Ratio(|image.rows|, inputH);
    var p := RescalePadded(Rect(minX, minY, maxX, maxY), widthRatio, heightRatio);
    if IsDegenerate(p) {
      return Err(InvalidBoundingBox);
    }
    var crop := Crop(image, p.minY, p.maxY, p.minX, p.maxX);
    res := Ok(Region(boxes, p, crop));
  }

  /** Box `b`, scaled by the multipliers, lies strictly inside `p`. */
  predicate ScaledInside(p: PixelRect, b: Box, wr: real, hr: real) {
    p.minX as real < b.xMin * wr && b.xMax * wr < p.maxX as real &&
    p.minY as real < b.yMin * hr && b.yMax * hr < p.maxY as real
  }

  /** The padded bounds lie strictly outside every kept box, once the box is
      scaled to the original image by any non-negative multipliers. */
  lemma PaddedBoundsContainBoxes(kept: seq<Box>, wr: real, hr: real)
    requires |kept| > 0 && wr >= 0.0 && hr >= 0.0
    ensures forall k :: 0 <= k < |kept| ==> ScaledInside(RescalePadded(Enclosing(kept), wr, hr), kept[k], wr, hr)
  {
    var e := Enclosing(kept);
    EnclosingCovers(kept);
    forall k | 0 <= k < |kept| ensures ScaledInside(RescalePadded(e, wr, hr), kept[k], wr, hr) {
      CoveredBoxInsidePadded(e, kept[k], wr, hr);
    }
  }

  /** One covered box, scaled, lies strictly inside the padded rectangle. */
  lemma CoveredBoxInsidePadded(e: Rect, b: Box, wr: real, hr: real)
    requires Covers(e, b) && wr >= 0.0 && hr >= 0.0
    ensures ScaledInside(RescalePadded(e, wr, hr), b, wr, hr)
  {
    var p := RescalePadded(e, wr, hr);
    assert p.minX as real < e.xMin * wr && e.xMax * wr < p.maxX as real;
    assert p.minY as real < e.yMin * hr && e.yMax * hr < p.maxY as real;
    ScaleMonotone(e.xMin, b.xMin, wr);
    ScaleMonotone(b.xMax, e.xMax, wr);
    ScaleMonotone(e.yMin, b.yMin, hr);
    ScaleMonotone(b.yMax, e.yMax, hr);
  }

  /** The validation can only fire on malformed detector rows: when every
      kept row has its min corner below its max corner, the step never stops
      with InvalidBoundingBox. */
  lemma WellOrderedRowsPass<P>(image: Image<P>, kept: seq<Box>, inputW: nat, inputH: nat)
    requires |kept| > 0 && inputW > 0 && inputH > 0
    requires forall k :: 0 <= k < |kept| ==> kept[k].xMin <= kept[k].xMax && kept[k].yMin <= kept[k].yMax
    ensures !IsDegenerate(PaddedBounds(image, kept, inputW, inputH))
  {
    EnclosingCovers(kept);
    OrderedNeverDegenerate(Enclosing(kept), Ratio(image.width, inputW), Ratio(|image.rows|, inputH));
  }

  /** `detect_text_regions`: it returns the filtered rows, neither rescaled
      nor cropped; the crop only rebinds a local variable. */
  method DetectTextRegions<P>(image: Image<P>, detected: seq<Box>, inputW: nat, inputH: nat)
    returns (res: Outcome<seq<Box>>)
    requires image.WellFormed() && inputW > 0 && inputH > 0
    ensures res == Err(NoBoxes) <==> DropZeroRows(detected) == []
    ensures res == Err(InvalidBoundingBox) <==>
      DropZeroRows(detected) != [] && IsDegenerate(PaddedBounds(image, DropZeroRows(detected), inputW, inputH))
    ensures res.Ok? ==> res.value == DropZeroRows(detected)
    ensures res.Ok? ==> forall k :: 0 <= k < |res.value| ==> !IsZeroRow(res.value[k])
  {
    var region := GlobalRegion(image, detected, inputW, inputH);
    match region
    case Err(f) => res := Err(f);
    case Ok(r) => res := Ok(r.boxes);
  }

  /** The Tiber_OD.py script up to its last reassignment of the image
      variable: the crop to the padded enclosing rectangle, as it is before
      the drawing loop outlines the boxes in it. */
  method CropToText<P>(image: Image<P>, detected: seq<Box>, inputW: nat, inputH: nat)
    returns (res: Outcome<Image<P>>)
    requires image.WellFormed() && inputW > 0 && inputH > 0
    ensures res == Err(NoBoxes) <==> DropZeroRows(detected) == []
    ensures res == Err(InvalidBoundingBox) <==>
      DropZeroRows(detected) != [] && IsDegenerate(PaddedBounds(image, DropZeroRows(detected), inputW, inputH))
    ensures res.Ok? ==>
      var p := PaddedBounds(image, DropZeroRows(detected), inputW, inputH);
      res.value == Crop(image, p.minY, p.maxY, p.minX, p.maxX) &&
      (0 <= p.minX && p.maxX <= image.width && 0 <= p.minY && p.maxY <= |image.rows| ==>
        res.value.width == p.maxX - p.minX && |res.value.rows| == p.maxY - p.minY)
  {
    var region := GlobalRegion(image, detected, inputW, inputH);
    match region
    case Err(f) => res := Err(f);
    case Ok(r) =>
      var p := r.bounds;
      if 0 <= p.minX && p.maxX <= image.width && 0 <= p.minY && p.maxY <= |image.rows| {
        CropWithin(image, p.minY, p.maxY, p.minX, p.maxX);
      }
      res := Ok(r.crop);
  }

  /** A detection touching the left edge of the detector input pads to -1,
      which numpy reads as the last column, so the crop keeps at most one
      column instead of starting at column 0. */
  lemma LeftEdgeCrop<P>(image: Image<P>, kept: seq<Box>, inputW: nat, inputH: nat)
    requires |kept| > 0 && inputW > 0 && inputH > 0 && image.WellFormed() && image.width > 0
    requires Enclosing(kept).xMin == 0.0
    requires 0 <= PaddedBounds(image, kept, inputW, inputH).maxX
    ensures var p := PaddedBounds(image, kept, inputW, inputH);
      p.minX == -1 &&
      Crop(image, p.minY, p.maxY, p.minX, p.maxX).width == if p.maxX >= image.width then 1 else 0
  {
    var p := PaddedBounds(image, kept, inputW, inputH);
    assert 0.0 * Ratio(image.width, inputW) - 1.0 == -1.0;
    CropFromMinusOne(image, p.minY, p.maxY, p.maxX);
  }

  /** The same at the top edge: a detection touching the top of the detector
      input pads to row -1, and the crop keeps at most the last row. */
  lemma TopEdgeCrop<P>(image: Image<P>, kept: seq<Box>, inputW: nat, inputH: nat)
    requires |kept| > 0 && inputW > 0 && inputH > 0 && image.WellFormed() && |image.rows| > 0
    requires Enclosing(kept).yMin == 0.0
    requires 0 <= PaddedBounds(image, kept, inputW, inputH).maxY
    ensures var p := PaddedBounds(image, kept, inputW, inputH);
      p.minY == -1 &&
      |Crop(image, p.minY, p.maxY, p.minX, p.maxX).rows| == if p.maxY >= |image.rows| then 1 else 0
  {
    var p := PaddedBounds(image, kept, inputW, inputH);
    assert 0.0 * Ratio(|image.rows|, inputH) - 1.0 == -1.0;
    CropFromMinusOneRow(image, p.maxY, p.minX, p.maxX);
  }
}
