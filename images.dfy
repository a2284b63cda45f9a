/** Images as row-major pixel grids and the numpy crop `image[y0:y1, x0:x1]`
    with Python's slice rules (negative indices count from the end, indices
    past either end are clamped, an inverted range is empty). */
module Images {

  /** A decoded image: `rows` are the pixel rows (the height is their count)
      and `width` is the number of pixels per row. A pixel of type P stands
      for its three colour channels. */
  datatype Image<P> = Image(rows: seq<seq<P>>, width: nat) {

    /** Every row has `width` pixels, as in a numpy array. */
    ghost predicate WellFormed() {
      forall r :: 0 <= r < |rows| ==> |rows[r]| == width
    }

    /** `roi.size == 0`: a height x width x 3 array has no elements exactly
        when one of its first two dimensions is zero. */
    predicate IsEmpty() {
      |rows| == 0 || width == 0
    }
  }

  /** Python's normalisation of one slice index against a length `n`. */
  function Clip(n: nat, i: int): (k: nat)
    ensures k <= n
  {
    if i < 0 then (if i + n < 0 then 0 else i + n)
    else if i > n then n
    else i
  }

  /** An index within the sequence is kept, a negative one counts back from
      the end, and one beyond either end is clamped to that end. */
  lemma ClipCases(n: nat, i: int)
    ensures 0 <= i <= n ==> Clip(n, i) == i
    ensures i < 0 && i + n >= 0 ==> Clip(n, i) == i + n
    ensures i + n < 0 ==> Clip(n, i) == 0
    ensures i > n ==> Clip(n, i) == n
  {
  }

  /** The length of `s[lo:hi]` for a sequence of length `n`. */
  function SliceLen(n: nat, lo: int, hi: int): (len: nat)
    ensures Clip(n, lo) + len <= n
  {
    if Clip(n, lo) < Clip(n, hi) then Clip(n, hi) - Clip(n, lo) else 0
  }

  /** Python's `s[lo:hi]`. */
  function Slice<T>(s: seq<T>, lo: int, hi: int): (r: seq<T>)
    ensures |r| == SliceLen(|s|, lo, hi)
    ensures forall k :: 0 <= k < |r| ==> r[k] == s[Clip(|s|, lo) + k]
  {
    var a := Clip(|s|, lo);
    var b := Clip(|s|, hi);
    if a < b then s[a..b] else []
  }

  /** Inside the bounds a slice is the plain sub-sequence. */
  lemma SliceWithin<T>(s: seq<T>, lo: int, hi: int)
    requires 0 <= lo <= hi <= |s|
    ensures Slice(s, lo, hi) == s[lo..hi]
  {
  }

  /** `image[y0:y1, x0:x1]`: slice the rows, then slice each row. */
  function Crop<P>(image: Image<P>, y0: int, y1: int, x0: int, x1: int): (c: Image<P>)
    requires image.WellFormed()
    ensures c.WellFormed()
    ensures |c.rows| == SliceLen(|image.rows|, y0, y1)
    ensures c.width == SliceLen(image.width, x0, x1)
  {
    var rs := Slice(image.rows, y0, y1);
    Image(seq(|rs|, i requires 0 <= i < |rs| => Slice(rs[i], x0, x1)), SliceLen(image.width, x0, x1))
  }

  /** Pixel (i, j) of the crop is the source pixel at the normalised
      offsets of the two ranges. */
  lemma CropPixels<P>(image: Image<P>, y0: int, y1: int, x0: int, x1: int)
    requires image.WellFormed()
    ensures var c := Crop(image, y0, y1, x0, x1);
      forall i, j :: 0 <= i < |c.rows| && 0 <= j < c.width ==>
        c.rows[i][j] == image.rows[Clip(|image.rows|, y0) + i][Clip(image.width, x0) + j]
  {
  }

  /** A crop whose bounds lie within the image has exactly the requested
      height and width and holds the pixels at the requested offsets. */
  lemma CropWithin<P>(image: Image<P>, y0: int, y1: int, x0: int, x1: int)
    requires image.WellFormed()
    requires 0 <= y0 <= y1 <= |image.rows| && 0 <= x0 <= x1 <= image.width
    ensures var c := Crop(image, y0, y1, x0, x1);
      |c.rows| == y1 - y0 && c.width == x1 - x0 &&
      forall i, j :: 0 <= i < y1 - y0 && 0 <= j < x1 - x0 ==> c.rows[i][j] == image.rows[y0 + i][x0 + j]
  {
    CropPixels(image, y0, y1, x0, x1);
  }

  /** A crop is empty exactly when one of its two ranges is, after Python's
      index normalisation. */
  lemma CropEmptyIff<P>(image: Image<P>, y0: int, y1: int, x0: int, x1: int)
    requires image.WellFormed()
    ensures Crop(image, y0, y1, x0, x1).IsEmpty() <==>
      Clip(|image.rows|, y1) <= Clip(|image.rows|, y0) || Clip(image.width, x1) <= Clip(image.width, x0)
  {
  }

  /** A start index of -1 is read as the last column, not as 0: the crop
      keeps at most that one column, and keeps it whenever the end index
      reaches or passes the right edge. */
  lemma CropFromMinusOne<P>(image: Image<P>, y0: int, y1: int, x1: int)
    requires image.WellFormed() && image.width > 0
    requires 0 <= x1
    ensures Crop(image, y0, y1, -1, x1).width == if x1 >= image.width then 1 else 0
  {
  }

  /** The same for rows: a start index of -1 keeps at most the last row. */
  lemma CropFromMinusOneRow<P>(image: Image<P>, y1: int, x0: int, x1: int)
    requires image.WellFormed() && |image.rows| > 0
    requires 0 <= y1
    ensures |Crop(image, -1, y1, x0, x1).rows| == if y1 >= |image.rows| then 1 else 0
  {
  }
}
