# Text-region box handling and region OCR

This project models the small algorithmic core of a prototype that digitises
photographed documents. A pretrained text detector (OpenVINO's
horizontal-text-detection-0001) returns a table of rows
`x_min, y_min, x_max, y_max, score` in the resolution of its input tensor.
The code around the detector then:

1. drops the rows whose five columns are all zero (sentinel "no detection"
   rows);
2. folds the remaining rows, seeded from the first one, into one enclosing
   rectangle (running `min_x`, `min_y`, `max_x`, `max_y` in a `while` loop);
3. scales that rectangle to the original image with the multipliers
   `original_width / W` and `original_height / H`, pads it one pixel outward
   (`-1` on the mins, `+1` on the maxes) and truncates with `int()`;
4. rejects the rectangle when `min >= max` on either axis (the script prints
   an error and calls `exit()`), and otherwise crops the image to it with the
   numpy slice `image[min_y:max_y, min_x:max_x]`;
5. in the web variant, crops every detected box out of the image, runs OCR on
   each non-empty crop, strips the text, keeps the non-empty results in box
   order and joins them with `"\n"` (`run_ocr_on_boxes`).

Steps 1 to 4 exist twice, in `detect_text_regions` (test.py) and in the
top-level script Tiber_OD.py. The model shares one definition
(`Detection.GlobalRegion`) and gives each copy its own entry method:
`Detection.DetectTextRegions` returns the filtered rows as test.py does, and
`Detection.CropToText` returns the crop Tiber_OD.py assigns to `image` at line 172, before the drawing loop outlines the boxes in it.

Modules:

- `Boxes` (boxes.dfy): detector rows, the zero-row filter, the fold (`Grow`,
  `Enclosing`) and the loop that computes it (`EncloseBoxes`).
- `Rescale` (rescale.dfy): `int()` as truncation toward zero, the
  multipliers, the outward pad and the degenerate-rectangle test.
- `Images` (images.dfy): images as pixel rows plus a width, Python slice
  index normalisation and the two-axis crop.
- `Text` (text.dfy): `str.strip()` over Python's whitespace set and
  `"\n".join`.
- `Detection` (detection.dfy): the shared step and the two entry points.
- `RegionOcr` (region_ocr.dfy): the OCR dispatcher, with OCR as a function
  parameter.

Modelling choices:

- Coordinates and multipliers are exact reals. `int()` is `Rescale.Trunc`,
  truncation toward zero, so a lower bound of exactly 0 pads to -1
  (`int(-1.0) == -1`) while one in (0, 1) after scaling stays 0.
- The crop follows numpy slicing exactly: a negative index counts from the
  end and indices past the end are clamped. One might expect the rescaled
  rectangle to be clamped to the image before cropping; the code does not
  clamp, and the model follows the code. `Detection.LeftEdgeCrop` shows the
  consequence: a rectangle touching the left edge pads to column -1, which
  numpy reads as the last column, so the crop keeps at most one column.
- The zero filter tests all five columns, score included, as
  `np.all(boxes == 0, axis=1)` does, so a row with zero coordinates and a
  non-zero score is kept rather than treated as a sentinel.
- One might expect rescaling with unit multipliers to be the identity. With
  the pad it is not: `Rescale.PadAtIdentityScale` proves each integer bound
  moves one pixel outward.
- A failure is an `Outcome` value. `NoBoxes` stands for the IndexError that
  `boxes[0]` raises when every row was a sentinel; `InvalidBoundingBox`
  stands for the `exit()` after validation. The fold method itself requires a
  non-empty list, because the source reads the first box unconditionally.
- `run_ocr_on_boxes` is given the caller's image and the detector's
  input-resolution boxes (test.py:226-229). The model keeps that: each box is
  cropped from the image with its own coordinates truncated by `int()`,
  without rescaling. The caller's image is not quite the decoded one: the
  crop at test.py:168 is a numpy view that shares memory with it, and the
  `cv2.rectangle` loop at test.py:171-177 draws green outlines into that
  view, so inside the crop window the image carries those outlines. The
  `image` parameter of `RegionOcr.RunOcrOnBoxes` stands for the image after
  that drawing.
- The OCR engine is a function parameter from a crop to a string. It stands
  for `pytesseract.image_to_string(roi, config="--psm 6")`, and nothing is
  assumed about it.
- `Detection.CropToText` returns the crop as it is before the drawing loop at
  Tiber_OD.py:175-177; the script's final `image` is that crop with the box
  outlines drawn into it.

## Model

| member | source | states |
|---|---|---|
| Boxes.DropZeroRows | test.py:121 | no surviving row has all five columns zero, and the filter never adds rows |
| Boxes.IsZeroRow | test.py:121 | the sentinel test of the mask `np.all(boxes == 0, axis=1)`: all five columns, score included, are zero |
| Boxes.DropZeroRowsCounts | Tiber_OD.py:131 | every occurrence of an all-zero row is removed and every other row keeps its exact multiplicity, so nothing else is removed |
| Boxes.DropZeroRowsConcat | test.py:121 | the filter distributes over concatenation, so surviving rows keep their relative order |
| Boxes.DropZeroRowsKeepsClean | Tiber_OD.py:131 | a list without sentinel rows passes the filter unchanged |
| Boxes.DropZeroRowsIdempotent | test.py:121 | filtering twice is filtering once |
| Boxes.DropZeroRowsEmpty | test.py:121-132 | nothing survives exactly when every row is all zero, which is when `boxes[0]` fails |
| Boxes.Seed | test.py:128-132 | the running bounds start as the first box's four coordinates, so they cover that box |
| Boxes.Grow | test.py:136-143 | one loop step contains the old bounds and the new box, and each bound is either unchanged or the box's coordinate |
| Boxes.Enclosing | test.py:127-144 | the bounds the loop holds after visiting every box, seeded from `boxes[0]` and grown box by box; they cover the first and the last box (the full characterisation is in the lemmas below) |
| Boxes.EnclosingCovers | test.py:135-144 | at loop exit `min_x <= x_min`, `min_y <= y_min`, `max_x >= x_max` and `max_y >= y_max` for every box |
| Boxes.EnclosingAttained | test.py:135-144 | each of the four bounds equals the matching coordinate of some actual box |
| Boxes.EnclosingIsLeast | Tiber_OD.py:141-150 | any rectangle that covers every box contains the fold's result, so it is the minimal enclosing rectangle |
| Boxes.EnclosingGrowsWithPrefix | Tiber_OD.py:141-150 | bounds only move outward: the rectangle of all boxes contains that of every prefix |
| Boxes.EnclosingOrderIndependent | test.py:135-144 | two box lists with the same elements give the same rectangle |
| Boxes.EncloseBoxes | test.py:127-144 | the `while` loop seeded from `boxes[0]`, with `i` running from 1 to the box count, ends with the enclosing rectangle of all boxes (the same loop is Tiber_OD.py:135-150); requires at least one box |
| Boxes.SentinelExample | test.py:121-144 | rows `(0,0,10,10,0.9)` and `(0,0,0,0,0)` leave only the first, with enclosing rectangle `(0,0,10,10)` |
| Rescale.Trunc | test.py:154-157 | `int()` of a float truncates toward zero: the floor for non-negative values, the ceiling for negative ones |
| Rescale.Ratio | test.py:150-151 | the multiplier `original / input` is non-negative |
| Rescale.RatioScalesExtent | Tiber_OD.py:154-155 | the multiplier maps the input tensor's extent onto the original image's extent |
| Rescale.ScaleRect | test.py:150-157 | x bounds times the width multiplier and y bounds times the height multiplier; with unit multipliers the rectangle is unchanged |
| Rescale.PadLow | test.py:154 | `int(s - 1)` lies strictly below `s` and less than two pixels away, whatever the sign of `s` |
| Rescale.PadHigh | test.py:155 | `int(s + 1)` lies strictly above `s` and less than two pixels away, whatever the sign of `s` |
| Rescale.PadLowBelowOne | Tiber_OD.py:158 | a lower bound that scales into (0, 1) truncates to 0, not -1 |
| Rescale.PadAtIdentityScale | Tiber_OD.py:158-161 | with unit multipliers an integer bound moves exactly one pixel outward on each side |
| Rescale.Pad | Tiber_OD.py:158-161 | each min bound padded by -1 and each max bound by +1, then truncated, lies strictly outside its value and less than two pixels away |
| Rescale.RescalePadded | Tiber_OD.py:154-161 | x bounds use the width multiplier and y bounds the height multiplier; the padded integer rectangle strictly contains the scaled one, within two pixels |
| Rescale.IsDegenerate | test.py:162 | the validation test `min_x >= max_x or min_y >= max_y` |
| Rescale.PadOrdered | test.py:154-157 | padding two ordered values outward leaves the padded low bound strictly below the padded high bound |
| Rescale.PadOrderedRect | test.py:154-162 | an ordered rectangle, once padded, passes validation |
| Rescale.OrderedNeverDegenerate | test.py:161-162 | an ordered rectangle scaled by non-negative multipliers never fails validation |
| Rescale.InvertedRectRejected | Tiber_OD.py:165-169 | an inverted rectangle from x = 10 to x = 5 becomes pixels 9 to 6 and is rejected |
| Rescale.FullFrameBounds | Tiber_OD.py:154-161 | a detection spanning the whole detector input maps onto the whole original image and pads to columns -1 and `width + 1` and rows -1 and `height + 1` |
| Images.Clip | test.py:168 | Python's normalisation of one slice index against a length: the result lies between 0 and the length |
| Images.ClipCases | test.py:168 | an index within the sequence is kept, a negative one counts back from the end, and one beyond either end is clamped to that end |
| Images.SliceLen | test.py:186 | the length of `s[lo:hi]` after normalisation: the slice fits in the sequence from its normalised start |
| Images.Slice | test.py:168 | Python's `s[lo:hi]` has the normalised length, and element k is element `Clip(lo) + k` of `s` |
| Images.SliceWithin | test.py:186 | with in-range indices the Python slice is the plain sub-sequence |
| Images.Image.IsEmpty | test.py:187 | `roi.size == 0`: the crop has no rows or no columns |
| Images.Crop | Tiber_OD.py:172 | `image[y0:y1, x0:x1]` is a well-formed image whose height and width are the two slice lengths |
| Images.CropPixels | Tiber_OD.py:172 | pixel (i, j) of the crop is the source pixel at the two normalised start offsets plus (i, j) |
| Images.CropWithin | Tiber_OD.py:172 | a crop within the image has height `y1 - y0`, width `x1 - x0` and the pixels at those offsets |
| Images.CropEmptyIff | test.py:186-187 | `roi.size == 0` exactly when one of the normalised ranges is empty |
| Images.CropFromMinusOne | test.py:168 | a column start of -1 keeps at most the last column, and keeps it exactly when the end index reaches the right edge |
| Images.CropFromMinusOneRow | test.py:168 | a row start of -1 keeps at most the last row, and keeps it exactly when the end index reaches the bottom edge |
| Text.IsSpace | test.py:190 | the characters `str.strip()` removes: Python's `isspace` set (ASCII tab to carriage return, the four information separators, space, U+0085, U+00A0, U+1680, U+2000-U+200A, U+2028, U+2029, U+202F, U+205F, U+3000) |
| Text.LeadingSpaces | test.py:190 | the leading run that strip removes is all spaces and is followed by a non-space or by the end |
| Text.TrailingSpaces | test.py:190 | the trailing run that strip removes is all spaces and is preceded by a non-space or by the start |
| Text.Strip | test.py:190 | the stripped text has no space at either end and is empty exactly when the input is all spaces |
| Text.StripIsMiddle | test.py:190 | strip returns the stretch of the input after its leading spaces, and everything before and after that stretch is space |
| Text.StripIdempotent | test.py:190-191 | stripping a stripped string changes nothing |
| Text.StripStripped | test.py:190-191 | a string without spaces at either end is its own strip |
| Text.CleanPartsConcat | test.py:189-191 | two runs of non-empty stripped results make one such run |
| Text.Join | test.py:192 | `"\n".join(parts)`; its behaviour is stated by `JoinAppend`, `JoinConcat` and `JoinStripped` |
| Text.JoinAppend | test.py:191-192 | appending a part to the list adds it after one line break, or alone on an empty list |
| Text.JoinConcat | test.py:192 | joining two runs of parts puts exactly one line break between their joins when both are non-empty |
| Text.JoinStripped | test.py:192 | joining non-empty stripped parts gives text that is empty only for no parts and has no space, hence no line break, at either end |
| RegionOcr.BoxCrop | test.py:186 | `image[int(y1):int(y2), int(x1):int(x2)]`: the crop to the box's own coordinates truncated toward zero, not rescaled |
| RegionOcr.BoxText | test.py:186-191 | what one loop iteration appends: at most one text |
| RegionOcr.BoxTextSpec | test.py:186-191 | a box contributes at most one text, its stripped OCR text, exactly when its crop is non-empty and the OCR text is not all spaces, otherwise nothing |
| RegionOcr.RegionTexts | test.py:183-191 | the loop collects no more results than there are boxes |
| RegionOcr.RegionTextsClean | test.py:189-191 | every collected result is non-empty and stripped |
| RegionOcr.RegionTextsStep | test.py:189-191 | visiting one more box appends only that box's contribution |
| RegionOcr.RegionTextsConcat | test.py:185 | results follow box order: the results of `a + b` are those of `a` followed by those of `b` |
| RegionOcr.RegionTextsEmptyCrops | test.py:186-188 | boxes whose crops are all empty yield no results |
| RegionOcr.RunOcrOnBoxes | test.py:182-192 | the `for` loop leaves `results` as the in-order contributions of all boxes and returns their `"\n"` join, which has no blank line at either end and is empty exactly when no box produced text |
| RegionOcr.JoinedTextsClean | test.py:192 | the join of the collected results has no space, hence no blank line, at either end, and is empty exactly when no box produced text |
| RegionOcr.ChunkedDispatch | test.py:185-192 | dispatching two chunks of boxes and joining their texts in chunk order gives the text of one sequential run |
| RegionOcr.BlankFirstBox | test.py:190-192 | a blank first box and a second box reading "hello" give exactly "hello", with no leading blank line |
| Detection.PaddedBounds | test.py:146-157 | the rescaled, padded enclosing rectangle of the kept rows, with the multipliers `original_width / W` and `original_height / H`; `PaddedBoundsContainBoxes` and `WellOrderedRowsPass` state its properties |
| Detection.GlobalRegion | test.py:121-168 | fails with NoBoxes exactly when no row survives the filter, with InvalidBoundingBox exactly when the padded rectangle is degenerate, and otherwise returns the filtered rows, the non-degenerate padded rectangle and the crop to it |
| Detection.PaddedBoundsContainBoxes | Tiber_OD.py:154-161 | the padded rectangle strictly contains every kept box scaled by the multipliers |
| Detection.CoveredBoxInsidePadded | test.py:154-157 | one scaled box covered by the rectangle lies strictly inside the padded rectangle |
| Detection.WellOrderedRowsPass | test.py:161-165 | when every kept row has min corner at most max corner, validation never rejects |
| Detection.DetectTextRegions | test.py:121-179 | returns the filtered, un-rescaled rows unchanged on success, with the same two failures as the shared step; the crop does not affect the result |
| Detection.CropToText | Tiber_OD.py:131-172 | the script's `image` after the reassignment at line 172, before drawing, is the crop to the padded rectangle; within the image it has width `max_x - min_x` and height `max_y - min_y`; same two failures |
| Detection.LeftEdgeCrop | Tiber_OD.py:158-172 | a rectangle whose lower x is 0 pads to -1, and the crop keeps at most the last column, which it keeps whenever the padded right bound reaches the edge (as it does for a full-frame detection) |
| Detection.TopEdgeCrop | Tiber_OD.py:158-172 | a rectangle whose lower y is 0 pads to -1, and the crop keeps at most the last row, which it keeps whenever the padded bottom bound reaches the edge |

## Left out

- Model download, OpenVINO loading, compilation and inference, `cv2.imread`, `cv2.imdecode` and `cv2.resize` (test.py:19-118, Tiber_OD.py:10-128): network, file and foreign calls. The detector's output rows and the input tensor's width and height are parameters.
- `pytesseract.image_to_string`: OCR is an arbitrary total function parameter, not specified; an exception it raises (a missing tesseract binary, say) escapes `run_ocr_on_boxes`, since test.py:189 has no `try`, and that path is not modelled.
- The `cv2.rectangle` drawing loop and the matplotlib display (test.py:170-177, Tiber_OD.py:174-184): the loop draws 2-pixel outlines into the crop, which is a view sharing memory with the caller's image, so it changes the pixels that the Tiber_OD.py script ends with and that `run_ocr_on_boxes` later reads. The model does not draw: `CropToText` returns the crop before drawing, and `RunOcrOnBoxes` takes the image after drawing as its input. Aliasing between the crop and the image is not modelled either; the display is output only.
- `print` output, including the box count and the bounds: console only.
- `populate_docx`, main.py and the Flask routes (test.py:195-242): document writing and HTTP plumbing.
- The web page under pix2page: user interface and I/O.
- Floating point: box values are float32 and the multipliers float64. The model uses exact reals, so it does not capture rounding in `min_x * Width_multiplier - 1`, nor NaN rows, which the zero filter would keep.
- `exit()` and the IndexError are modelled as `Outcome` failures; what they do to the host process is not modelled.
- Colour channels: a pixel is one abstract value per position; the three colour channels and their order are not modelled.
