/** `run_ocr_on_boxes`: crop each box out of the image, run OCR on the crop,
    keep the stripped non-empty results in box order and join them with
    line breaks. The OCR engine is a parameter: any function from a crop to
    the text it reads (tesseract with the single-text-block layout). */
module RegionOcr {
  import opened Boxes
  import opened Rescale
  import opened Images
  import opened Text

  /** `image[int(y1):int(y2), int(x1):int(x2)]`: the box's own coordinates,
      truncated toward zero, as a numpy slice. */
  function BoxCrop<P>(image: Image<P>, b: Box): (roi: Image<P>)
    requires image.WellFormed()
  {
    Crop(image, Trunc(b.yMin), Trunc(b.yMax), Trunc(b.xMin), Trunc(b.xMax))
  }

  /** What one box contributes: nothing for an empty crop or for OCR text
      that is all spaces, otherwise the stripped text. */
  function BoxText<P>(image: Image<P>, b: Box, ocr: Image<P> -> string): (r: seq<string>)
    requires image.WellFormed()
    ensures |r| <= 1
  {
    var roi := BoxCrop(image, b);
    if roi.IsEmpty() then []
    else
      var t := Strip(ocr(roi));
      if t != [] then [t] else []
  }

  /** A box contributes at most one text: the stripped OCR text of its crop,
      when the crop is non-empty and the text is not all spaces. */
  lemma BoxTextSpec<P>(image: Image<P>, b: Box, ocr: Image<P> -> string)
    requires image.WellFormed()
    ensures var r := BoxText(image, b, ocr);
      |r| <= 1 &&
      (r != [] <==> !BoxCrop(image, b).IsEmpty() && !AllSpace(ocr(BoxCrop(image, b)))) &&
      (r != [] ==> r[0] == Strip(ocr(BoxCrop(image, b))) && r[0] != [] && Stripped(r[0]))
  {
  }

  /** The `results` list after the loop has visited `boxes`. */
  function RegionTexts<P>(image: Image<P>, boxes: seq<Box>, ocr: Image<P> -> string): (r: seq<string>)
    requires image.WellFormed()
    ensures |r| <= |boxes|
    decreases |boxes|
  {
    if boxes == [] then []
    else RegionTexts(image, boxes[..|boxes| - 1], ocr) + BoxText(image, boxes[|boxes| - 1], ocr)
  }

  /** Every collected result is non-empty and stripped. */
  lemma {:induction false} RegionTextsClean<P>(image: Image<P>, boxes: seq<Box>, ocr: Image<P> -> string)
    requires image.WellFormed()
    ensures CleanParts(RegionTexts(image, boxes, ocr))
    decreases |boxes|
  {
    if boxes != [] {
      var n := |boxes|;
      RegionTextsClean(image, boxes[..n - 1], ocr);
      BoxTextSpec(image, boxes[n - 1], ocr);
      CleanPartsConcat(RegionTexts(image, boxes[..n - 1], ocr), BoxText(image, boxes[n - 1], ocr));
    }
  }

  /** One more box appends its own contribution. */
  lemma RegionTextsStep<P>(image: Image<P>, boxes: seq<Box>, b: Box, ocr: Image<P> -> string)
    requires image.WellFormed()
    ensures RegionTexts(image, boxes + [b], ocr) == RegionTexts(image, boxes, ocr) + BoxText(image, b, ocr)
  {
    assert (boxes + [b])[..|boxes|] == boxes;
  }

  /** Results follow box order: the texts of a run of boxes are the texts of
      its first part followed by those of the rest. */
  lemma {:induction false} RegionTextsConcat<P>(image: Image<P>, a: seq<Box>, b: seq<Box>, ocr: Image<P> -> string)
    requires image.WellFormed()
    ensures RegionTexts(image, a + b, ocr) == RegionTexts(image, a, ocr) + RegionTexts(image, b, ocr)
    decreases |b|
  {
    if b == [] {
      assert a + b == a;
    } else {
      var front := b[..|b| - 1];
      assert (a + b)[..|a + b| - 1] == a + front;
      assert (a + b)[|a + b| - 1] == b[|b| - 1];
      RegionTextsConcat(image, a, front, ocr);
    }
  }

  /** Boxes whose crops are all empty contribute no text at all. */
  lemma {:induction false} RegionTextsEmptyCrops<P>(image: Image<P>, boxes: seq<Box>, ocr: Image<P> -> string)
    requires image.WellFormed()
    requires forall k :: 0 <= k < |boxes| ==> BoxCrop(image, boxes[k]).IsEmpty()
    ensures RegionTexts(image, boxes, ocr) == []
    decreases |boxes|
  {
    if boxes != [] {
      var front := boxes[..|boxes| - 1];
      forall k | 0 <= k < |front| ensures BoxCrop(image, front[k]).IsEmpty() {
        assert front[k] == boxes[k];
      }
      RegionTextsEmptyCrops(image, front, ocr);
    }
  }

  /** The dispatcher. It leaves `results` as RegionTexts of all boxes and
      returns their join, which has no blank line at either end and is empty
      exactly when no box produced text. */
  method RunOcrOnBoxes<P>(image: Image<P>, boxes: seq<Box>, ocr: Image<P> -> string) returns (text: string)
    requires image.WellFormed()
    ensures text == Join(RegionTexts(image, boxes, ocr))
    ensures Stripped(text)
    ensures text == [] <==> RegionTexts(image, boxes, ocr) == []
  {
    var results: seq<string> := [];
    for i := 0 to |boxes|
      invariant results == RegionTexts(image, boxes[..i], ocr)
    {
      var b := boxes[i];
      assert boxes[..i + 1] == boxes[..i] + [b];
      RegionTextsStep(image, boxes[..i], b, ocr);
      BoxTextSpec(image, b, ocr);
      var roi := BoxCrop(image, b);
      if roi.IsEmpty() {
        assert results + [] == results;
        continue;
      }
      var t := ocr(roi);
      if Strip(t) != [] {
        results := results + [Strip(t)];
      } else {
        assert results + [] == results;
      }
    }
    assert boxes[..|boxes|] == boxes;
    JoinedTextsClean(image, boxes, ocr);
    text := Join(results);
  }

  /** The joined text of the collected results has no space, hence no blank
      line, at either end, and is empty exactly when no box produced text. */
  lemma JoinedTextsClean<P>(image: Image<P>, boxes: seq<Box>, ocr: Image<P> -> string)
    requires image.WellFormed()
    ensures Stripped(Join(RegionTexts(image, boxes, ocr)))
    ensures Join(RegionTexts(image, boxes, ocr)) == [] <==> RegionTexts(image, boxes, ocr) == []
  {
    RegionTextsClean(image, boxes, ocr);
    JoinStripped(RegionTexts(image, boxes, ocr));
  }

  /** Splitting the boxes into two chunks, dispatching each and joining the
      two texts in chunk order gives the same text as one sequential run. */
  lemma ChunkedDispatch<P>(image: Image<P>, a: seq<Box>, b: seq<Box>, ocr: Image<P> -> string)
    requires image.WellFormed()
    ensures var ta := Join(RegionTexts(image, a, ocr));
      var tb := Join(RegionTexts(image, b, ocr));
      Join(RegionTexts(image, a + b, ocr)) ==
        if ta == [] then tb else if tb == [] then ta else ta + "\n" + tb
  {
    RegionTextsConcat(image, a, b, ocr);
    RegionTextsClean(image, a, ocr);
    RegionTextsClean(image, b, ocr);
    JoinConcat(RegionTexts(image, a, ocr), RegionTexts(image, b, ocr));
    JoinStripped(RegionTexts(image, a, ocr));
    JoinStripped(RegionTexts(image, b, ocr));
  }

  /** A first box whose OCR text is blank leaves no leading blank line: the
      result is exactly the second box's text. */
  lemma BlankFirstBox<P>(image: Image<P>, a: Box, b: Box, ocr: Image<P> -> string)
    requires image.WellFormed()
    requires AllSpace(ocr(BoxCrop(image, a)))
    requires !BoxCrop(image, b).IsEmpty() && Strip(ocr(BoxCrop(image, b))) == "hello"
    ensures Join(RegionTexts(image, [a, b], ocr)) == "hello"
  {
    assert [a, b][..1] == [a];
    assert [a][..0] == [];
  }
}
