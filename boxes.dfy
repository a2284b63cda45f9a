/** Detector rows, the all-zero row filter and the enclosing-rectangle fold.
    Coordinates are in the detector's input resolution and are modelled as
    exact reals (the detector's float32 values without rounding). */
module Boxes {

  /** One row of the detector's "boxes" output: four corner coordinates and
      a confidence score. */
  datatype Box = Box(xMin: real, yMin: real, xMax: real, yMax: real, score: real)

  /** Running bounds of the fold: the four `min_x`, `min_y`, `max_x`, `max_y`
      variables of the loop. */
  datatype Rect = Rect(xMin: real, yMin: real, xMax: real, yMax: real)

  /** A row is a "no detection" sentinel when all five of its columns are zero. */
  predicate IsZeroRow(b: Box) {
    b.xMin == 0.0 && b.yMin == 0.0 && b.xMax == 0.0 && b.yMax == 0.0 && b.score == 0.0
  }

  /** The rows that survive the boolean mask `~np.all(boxes == 0, axis=1)`. */
  function DropZeroRows(boxes: seq<Box>): (kept: seq<Box>)
    ensures |kept| <= |boxes|
    ensures forall k :: 0 <= k < |kept| ==> !IsZeroRow(kept[k])
  {
    if boxes == [] then []
    else
      (if IsZeroRow(boxes[0]) then [] else [boxes[0]]) + DropZeroRows(boxes[1..])
  }

  /** The filter removes every occurrence of a sentinel row and keeps every
      occurrence of any other row: nothing else is removed. */
  lemma {:induction false} DropZeroRowsCounts(boxes: seq<Box>, b: Box)
    ensures multiset(DropZeroRows(boxes))[b] == if IsZeroRow(b) then 0 else multiset(boxes)[b]
  {
    if boxes != [] {
      assert boxes == [boxes[0]] + boxes[1..];
      DropZeroRowsCounts(boxes[1..], b);
    }
  }

  /** The filter distributes over concatenation: rows are judged one at a
      time and the survivors keep their relative order. */
  lemma {:induction false} DropZeroRowsConcat(a: seq<Box>, b: seq<Box>)
    ensures DropZeroRows(a + b) == DropZeroRows(a) + DropZeroRows(b)
  {
    if a == [] {
      assert a + b == b;
    } else {
      var head := if IsZeroRow(a[0]) then [] else [a[0]];
      assert (a + b)[0] == a[0];
      assert (a + b)[1..] == a[1..] + b;
      DropZeroRowsConcat(a[1..], b);
      calc {
        DropZeroRows(a + b);
        head + DropZeroRows(a[1..] + b);
        head + (DropZeroRows(a[1..]) + DropZeroRows(b));
        (head + DropZeroRows(a[1..])) + DropZeroRows(b);
        DropZeroRows(a) + DropZeroRows(b);
      }
    }
  }

  /** A list without sentinel rows passes the filter unchanged, so the
      filter is idempotent. */
  lemma {:induction false} DropZeroRowsKeepsClean(boxes: seq<Box>)
    requires forall k :: 0 <= k < |boxes| ==> !IsZeroRow(boxes[k])
    ensures DropZeroRows(boxes) == boxes
  {
    if boxes != [] {
      DropZeroRowsKeepsClean(boxes[1..]);
    }
  }

  lemma DropZeroRowsIdempotent(boxes: seq<Box>)
    ensures DropZeroRows(DropZeroRows(boxes)) == DropZeroRows(boxes)
  {
    DropZeroRowsKeepsClean(DropZeroRows(boxes));
  }

  /** The filter leaves nothing when every row is a sentinel, and only then. */
  lemma {:induction false} DropZeroRowsEmpty(boxes: seq<Box>)
    ensures DropZeroRows(boxes) == [] <==> forall k :: 0 <= k < |boxes| ==> IsZeroRow(boxes[k])
  {
    if boxes != [] {
      DropZeroRowsEmpty(boxes[1..]);
      if !IsZeroRow(boxes[0]) {
        assert DropZeroRows(boxes)[0] == boxes[0];
      } else {
        forall k | 0 <= k < |boxes| && forall j :: 0 <= j < |boxes| - 1 ==> IsZeroRow(boxes[1..][j])
          ensures IsZeroRow(boxes[k])
        {
          if k > 0 {
            assert boxes[k] == boxes[1..][k - 1];
          }
        }
      }
    }
  }

  /** The first remaining box seeds the running bounds. */
  function Seed(b: Box): (r: Rect)
    ensures Covers(r, b)
  {
    Rect(b.xMin, b.yMin, b.xMax, b.yMax)
  }

  /** `r` contains the corners of `b`. */
  predicate Covers(r: Rect, b: Box) {
    r.xMin <= b.xMin && r.yMin <= b.yMin && b.xMax <= r.xMax && b.yMax <= r.yMax
  }

  /** `outer` contains `inner`. */
  predicate Contains(outer: Rect, inner: Rect) {
    outer.xMin <= inner.xMin && outer.yMin <= inner.yMin &&
    inner.xMax <= outer.xMax && inner.yMax <= outer.yMax
  }

  /** One iteration of the loop body: each bound moves only when the box
      lies beyond it. */
  function Grow(r: Rect, b: Box): (g: Rect)
    ensures Contains(g, r) && Covers(g, b)
    ensures g.xMin == r.xMin || g.xMin == b.xMin
    ensures g.yMin == r.yMin || g.yMin == b.yMin
    ensures g.xMax == r.xMax || g.xMax == b.xMax
    ensures g.yMax == r.yMax || g.yMax == b.yMax
  {
    Rect(if b.xMin < r.xMin then b.xMin else r.xMin,
         if b.yMin < r.yMin then b.yMin else r.yMin,
         if b.xMax > r.xMax then b.xMax else r.xMax,
         if b.yMax > r.yMax then b.yMax else r.yMax)
  }

  /** The bounds the loop holds after visiting every box, seeded from the
      first one: a left fold of Grow. */
  function Enclosing(boxes: seq<Box>): (e: Rect)
    requires |boxes| > 0
    ensures Covers(e, boxes[0]) && Covers(e, boxes[|boxes| - 1])
    decreases |boxes|
  {
    if |boxes| == 1 then Seed(boxes[0])
    else Grow(Enclosing(boxes[..|boxes| - 1]), boxes[|boxes| - 1])
  }

  /** Every box lies inside the enclosing rectangle. */
  lemma {:induction false} EnclosingCovers(boxes: seq<Box>)
    requires |boxes| > 0
    ensures forall k :: 0 <= k < |boxes| ==> Covers(Enclosing(boxes), boxes[k])
  {
    if |boxes| > 1 {
      var front := boxes[..|boxes| - 1];
      EnclosingCovers(front);
      forall k | 0 <= k < |boxes| - 1 ensures Covers(Enclosing(boxes), boxes[k]) {
        assert boxes[k] == front[k];
      }
    }
  }

  /** Each bound of the enclosing rectangle is the matching coordinate of
      some actual box. */
  lemma {:induction false} EnclosingAttained(boxes: seq<Box>)
    requires |boxes| > 0
    ensures exists k :: 0 <= k < |boxes| && Enclosing(boxes).xMin == boxes[k].xMin
    ensures exists k :: 0 <= k < |boxes| && Enclosing(boxes).yMin == boxes[k].yMin
    ensures exists k :: 0 <= k < |boxes| && Enclosing(boxes).xMax == boxes[k].xMax
    ensures exists k :: 0 <= k < |boxes| && Enclosing(boxes).yMax == boxes[k].yMax
  {
    var n := |boxes|;
    if n == 1 {
      assert Enclosing(boxes).xMin == boxes[0].xMin;
    } else {
      var front := boxes[..n - 1];
      EnclosingAttained(front);
      var e := Enclosing(boxes);
      var f := Enclosing(front);
      assert e == Grow(f, boxes[n - 1]);
      var a :| 0 <= a < n - 1 && f.xMin == front[a].xMin;
      var b :| 0 <= b < n - 1 && f.yMin == front[b].yMin;
      var c :| 0 <= c < n - 1 && f.xMax == front[c].xMax;
      var d :| 0 <= d < n - 1 && f.yMax == front[d].yMax;
      assert front[a] == boxes[a] && front[b] == boxes[b];
      assert front[c] == boxes[c] && front[d] == boxes[d];
      if e.xMin == f.xMin { assert e.xMin == boxes[a].xMin; } else { assert e.xMin == boxes[n - 1].xMin; }
      if e.yMin == f.yMin { assert e.yMin == boxes[b].yMin; } else { assert e.yMin == boxes[n - 1].yMin; }
      if e.xMax == f.xMax { assert e.xMax == boxes[c].xMax; } else { assert e.xMax == boxes[n - 1].xMax; }
      if e.yMax == f.yMax { assert e.yMax == boxes[d].yMax; } else { assert e.yMax == boxes[n - 1].yMax; }
    }
  }

  /** The enclosing rectangle is the least one: any rectangle that covers
      every box contains it. */
  lemma EnclosingIsLeast(boxes: seq<Box>, r: Rect)
    requires |boxes| > 0
    requires forall k :: 0 <= k < |boxes| ==> Covers(r, boxes[k])
    ensures Contains(r, Enclosing(boxes))
  {
    EnclosingAttained(boxes);
  }

  /** The fold only pushes bounds outward: adding boxes never shrinks the
      rectangle of a prefix. */
  lemma {:induction false} EnclosingGrowsWithPrefix(boxes: seq<Box>, i: nat)
    requires 0 < i <= |boxes|
    ensures Contains(Enclosing(boxes), Enclosing(boxes[..i]))
  {
    EnclosingCovers(boxes);
    forall k | 0 <= k < i ensures Covers(Enclosing(boxes), boxes[..i][k]) {
      assert boxes[..i][k] == boxes[k];
    }
    EnclosingIsLeast(boxes[..i], Enclosing(boxes));
  }

  /** The result does not depend on the order of the detections. */
  lemma EnclosingOrderIndependent(a: seq<Box>, b: seq<Box>)
    requires |a| > 0 && multiset(a) == multiset(b)
    ensures |b| > 0 && Enclosing(a) == Enclosing(b)
  {
    assert a[0] in multiset(b);
    EnclosingCovers(a);
    EnclosingCovers(b);
    forall k | 0 <= k < |b| ensures Covers(Enclosing(a), b[k]) {
      assert b[k] in multiset(a);
      var j :| 0 <= j < |a| && a[j] == b[k];
    }
    forall k | 0 <= k < |a| ensures Covers(Enclosing(b), a[k]) {
      assert a[k] in multiset(b);
      var j :| 0 <= j < |b| && b[j] == a[k];
    }
    EnclosingIsLeast(a, Enclosing(b));
    EnclosingIsLeast(b, Enclosing(a));
  }

  /** The fold loop: `i` runs from 1 to the number of boxes, each box is
      visited once, and the four bounds end as the enclosing rectangle.
      The caller must supply at least one box, because the bounds are read
      from the first one unconditionally. */
  method EncloseBoxes(boxes: seq<Box>) returns (minX: real, maxX: real, minY: real, maxY: real)
    requires |boxes| > 0
    ensures Rect(minX, minY, maxX, maxY) == Enclosing(boxes)
    ensures forall k :: 0 <= k < |boxes| ==>
      minX <= boxes[k].xMin && minY <= boxes[k].yMin && boxes[k].xMax <= maxX && boxes[k].yMax <= maxY
  {
    var i := 1;
    minX := boxes[0].xMin;
    maxX := boxes[0].xMax;
    minY := boxes[0].yMin;
    maxY := boxes[0].yMax;
    assert boxes[..1] == [boxes[0]];
    while i < |boxes|
      invariant 1 <= i <= |boxes|
      invariant Rect(minX, minY, maxX, maxY) == Enclosing(boxes[..i])
      decreases |boxes| - i
    {
      assert boxes[..i + 1][..i] == boxes[..i];
      if boxes[i].xMin < minX {
        minX := boxes[i].xMin;
      }
      if boxes[i].xMax > maxX {
        maxX := boxes[i].xMax;
      }
      if boxes[i].yMin < minY {
        minY := boxes[i].yMin;
      }
      if boxes[i].yMax > maxY {
        maxY := boxes[i].yMax;
      }
      i := i + 1;
    }
    assert boxes[..i] == boxes;
    EnclosingCovers(boxes);
  }

  /** The two-row example: a real detection followed by a sentinel row. */
  lemma SentinelExample()
    ensures var boxes := [Box(0.0, 0.0, 10.0, 10.0, 0.9), Box(0.0, 0.0, 0.0, 0.0, 0.0)];
      DropZeroRows(boxes) == [boxes[0]] &&
      Enclosing(DropZeroRows(boxes)) == Rect(0.0, 0.0, 10.0, 10.0)
  {
    var boxes := [Box(0.0, 0.0, 10.0, 10.0, 0.9), Box(0.0, 0.0, 0.0, 0.0, 0.0)];
    assert boxes[1..][1..] == [];
  }
}
