/**
 Pixel comparison: scanning two images in row-major order and emitting a
 fixed 2x2 marker at every pixel whose R+G+B Manhattan distance exceeds the
 threshold.
 */
module Detection {
  import opened Geometry
  import opened Imaging
  import opened Sequences

  /** The footprint of every difference marker. */
  const MarkerSize := 2

  /** Raised by GetPixel on the second image when it is smaller than the
      first. */
  datatype Error = PixelOutOfRange

  datatype Result<T> = Ok(value: T) | Err(error: Error)

  function Marker(x: int, y: int): Rect {
    Rect(x, y, MarkerSize, MarkerSize)
  }

  /** Every pixel the scan of `img1` visits is also a pixel of `img2`. The
      scan visits no pixel at all when `img1` has zero width or height. */
  predicate Scannable(img1: Image, img2: Image) {
    img1.width == 0 || img1.height == 0
    || (img1.width <= img2.width && img1.height <= img2.height)
  }

  /** Pixel (x, y) of `img1` differs from `img2` by more than `threshold`. */
  predicate Differs(img1: Image, img2: Image, threshold: int, x: int, y: int)
    requires Scannable(img1, img2) && InBounds(img1, x, y)
  {
    ColorDiff(GetPixel(img1, x, y), GetPixel(img2, x, y)) > threshold
  }

  /** `m` is the marker of a differing pixel of `img1`. */
  predicate IsDiffMarker(img1: Image, img2: Image, threshold: int, m: Rect)
    requires Scannable(img1, img2)
  {
    && m == Marker(m.x, m.y)
    && InBounds(img1, m.x, m.y)
    && Differs(img1, img2, threshold, m.x, m.y)
  }

  /** Strict row-major order of marker anchors: y first, then x. */
  predicate RowMajorBefore(a: Rect, b: Rect) {
    a.y < b.y || (a.y == b.y && a.x < b.x)
  }

  /** Pixel (x, y) contributes one marker or none. */
  function Emit(img1: Image, img2: Image, threshold: int, x: int, y: int): seq<Rect>
    requires Scannable(img1, img2) && InBounds(img1, x, y)
  {
    if Differs(img1, img2, threshold, x, y) then [Marker(x, y)] else []
  }

  /** The markers of row `y` for the columns 0 .. n-1, left to right. */
  function RowMarkers(img1: Image, img2: Image, threshold: int, y: int, n: nat): (ms: seq<Rect>)
    requires Scannable(img1, img2) && 0 <= y < img1.height && n <= img1.width
  {
    if n == 0 then []
    else
      RowMarkers(img1, img2, threshold, y, n - 1) + Emit(img1, img2, threshold, n - 1, y)
  }

  /** A row's markers are 2x2 markers of differing pixels among its first
      n columns. */
  lemma {:induction false} RowMarkersSound(img1: Image, img2: Image, threshold: int, y: int, n: nat)
    requires Scannable(img1, img2) && 0 <= y < img1.height && n <= img1.width
    ensures forall m :: m in RowMarkers(img1, img2, threshold, y, n) ==>
      m == Marker(m.x, y) && 0 <= m.x < n && Differs(img1, img2, threshold, m.x, y)
  {
    if n > 0 {
      RowMarkersSound(img1, img2, threshold, y, n - 1);
    }
  }

  /** Every differing pixel among a row's first n columns has its marker. */
  lemma {:induction false} RowMarkersComplete(img1: Image, img2: Image, threshold: int, y: int, n: nat)
    requires Scannable(img1, img2) && 0 <= y < img1.height && n <= img1.width
    ensures forall x :: 0 <= x < n && Differs(img1, img2, threshold, x, y) ==>
      Marker(x, y) in RowMarkers(img1, img2, threshold, y, n)
  {
    if n > 0 {
      RowMarkersComplete(img1, img2, threshold, y, n - 1);
    }
  }

  /** A row's markers run strictly left to right. */
  lemma {:induction false} RowMarkersOrdered(img1: Image, img2: Image, threshold: int, y: int, n: nat)
    requires Scannable(img1, img2) && 0 <= y < img1.height && n <= img1.width
    ensures forall i, j :: 0 <= i < j < |RowMarkers(img1, img2, threshold, y, n)| ==>
      RowMarkers(img1, img2, threshold, y, n)[i].x < RowMarkers(img1, img2, threshold, y, n)[j].x
  {
    if n > 0 {
      var prefix := RowMarkers(img1, img2, threshold, y, n - 1);
      RowMarkersOrdered(img1, img2, threshold, y, n - 1);
      RowMarkersSound(img1, img2, threshold, y, n - 1);
      assert forall i :: 0 <= i < |prefix| ==> prefix[i] in prefix;
    }
  }

  /** A row's markers are exactly the markers of its differing pixels among
      the first n columns, strictly left to right. */
  lemma RowMarkersSpec(img1: Image, img2: Image, threshold: int, y: int, n: nat)
    requires Scannable(img1, img2) && 0 <= y < img1.height && n <= img1.width
    ensures forall m :: m in RowMarkers(img1, img2, threshold, y, n) ==>
      m == Marker(m.x, y) && 0 <= m.x < n && Differs(img1, img2, threshold, m.x, y)
    ensures forall x :: 0 <= x < n && Differs(img1, img2, threshold, x, y) ==>
      Marker(x, y) in RowMarkers(img1, img2, threshold, y, n)
    ensures forall i, j :: 0 <= i < j < |RowMarkers(img1, img2, threshold, y, n)| ==>
      RowMarkers(img1, img2, threshold, y, n)[i].x < RowMarkers(img1, img2, threshold, y, n)[j].x
  {
    RowMarkersSound(img1, img2, threshold, y, n);
    RowMarkersComplete(img1, img2, threshold, y, n);
    RowMarkersOrdered(img1, img2, threshold, y, n);
  }

  /** The markers of rows 0 .. rows-1 in row-major order. */
  function Markers(img1: Image, img2: Image, threshold: int, rows: nat): (ms: seq<Rect>)
    requires Scannable(img1, img2) && rows <= img1.height
  {
    if rows == 0 then []
    else
      Markers(img1, img2, threshold, rows - 1) + RowMarkers(img1, img2, threshold, rows - 1, img1.width)
  }

  /** The first `rows` rows yield exactly the markers of their differing
      pixels, in strict row-major order. */
  lemma {:induction false} MarkersSpec(img1: Image, img2: Image, threshold: int, rows: nat)
    requires Scannable(img1, img2) && rows <= img1.height
    ensures forall m :: m in Markers(img1, img2, threshold, rows) ==>
      m == Marker(m.x, m.y) && 0 <= m.y < rows && 0 <= m.x < img1.width
      && Differs(img1, img2, threshold, m.x, m.y)
    ensures forall x, y :: 0 <= y < rows && 0 <= x < img1.width && Differs(img1, img2, threshold, x, y) ==>
      Marker(x, y) in Markers(img1, img2, threshold, rows)
    ensures forall i, j :: 0 <= i < j < |Markers(img1, img2, threshold, rows)| ==>
      RowMajorBefore(Markers(img1, img2, threshold, rows)[i], Markers(img1, img2, threshold, rows)[j])
  {
    if rows > 0 {
      var prefix := Markers(img1, img2, threshold, rows - 1);
      var row := RowMarkers(img1, img2, threshold, rows - 1, img1.width);
      MarkersSpec(img1, img2, threshold, rows - 1);
      RowMarkersSpec(img1, img2, threshold, rows - 1, img1.width);
      assert forall i :: 0 <= i < |prefix| ==> prefix[i] in prefix;
      assert forall i :: 0 <= i < |row| ==> row[i] in row;
    }
  }

  /** All markers of a full scan of `img1` against `img2`. */
  function DiffMarkers(img1: Image, img2: Image, threshold: int): seq<Rect>
    requires Scannable(img1, img2)
  {
    Markers(img1, img2, threshold, img1.height)
  }

  /** The scan as nested loops over y then x, appending a marker for every
      pixel that differs by more than `threshold`. */
  method DetectDifferenceAreas(img1: Image, img2: Image, threshold: int) returns (res: Result<seq<Rect>>)
    ensures res.Err? <==> !Scannable(img1, img2)
    ensures res.Ok? ==> Scannable(img1, img2) && res.value == DiffMarkers(img1, img2, threshold)
    ensures res.Ok? ==> forall m :: m in res.value <==> IsDiffMarker(img1, img2, threshold, m)
    ensures res.Ok? ==> forall i, j :: 0 <= i < j < |res.value| ==> RowMajorBefore(res.value[i], res.value[j])
    ensures img1 == img2 && 0 <= threshold ==> res == Ok([])
  {
    if !Scannable(img1, img2) {
      return Err(PixelOutOfRange);
    }
    var areas: seq<Rect> := [];
    var y := 0;
    while y < img1.height
      invariant 0 <= y <= img1.height
      invariant areas == Markers(img1, img2, threshold, y)
    {
      var x := 0;
      while x < img1.width
        invariant 0 <= x <= img1.width
        invariant areas == Markers(img1, img2, threshold, y) + RowMarkers(img1, img2, threshold, y, x)
      {
        var diff := ColorDiff(GetPixel(img1, x, y), GetPixel(img2, x, y));
        if diff > threshold {
          areas := areas + [Marker(x, y)];
        }
        x := x + 1;
      }
      y := y + 1;
    }
    res := Ok(areas);
    DiffMarkersExact(img1, img2, threshold);
    MarkersSpec(img1, img2, threshold, img1.height);
    if img1 == img2 && 0 <= threshold {
      SelfComparisonEmpty(img1, threshold);
    }
  }

  /** Soundness and completeness: the scan reports exactly the markers of
      the differing pixels. */
  lemma DiffMarkersExact(img1: Image, img2: Image, threshold: int)
    requires Scannable(img1, img2)
    ensures forall m :: m in DiffMarkers(img1, img2, threshold) <==> IsDiffMarker(img1, img2, threshold, m)
  {
    var ms := DiffMarkers(img1, img2, threshold);
    MarkersSpec(img1, img2, threshold, img1.height);
    forall m | IsDiffMarker(img1, img2, threshold, m)
      ensures m in ms
    {
      assert Marker(m.x, m.y) in ms;
    }
  }

  /** An image compared with itself has no differences at any threshold
      that is not negative. */
  lemma SelfComparisonEmpty(img: Image, threshold: int)
    requires 0 <= threshold
    ensures DiffMarkers(img, img, threshold) == []
  {
    SelfRowsEmpty(img, threshold, img.height);
  }

  lemma {:induction false} SelfRowsEmpty(img: Image, threshold: int, rows: nat)
    requires 0 <= threshold && rows <= img.height
    ensures Markers(img, img, threshold, rows) == []
  {
    if rows > 0 {
      SelfRowsEmpty(img, threshold, rows - 1);
      SelfRowEmpty(img, threshold, rows - 1, img.width);
    }
  }

  lemma {:induction false} SelfRowEmpty(img: Image, threshold: int, y: int, n: nat)
    requires 0 <= threshold && 0 <= y < img.height && n <= img.width
    ensures RowMarkers(img, img, threshold, y, n) == []
  {
    if n > 0 {
      SelfRowEmpty(img, threshold, y, n - 1);
      assert ColorDiff(GetPixel(img, n - 1, y), GetPixel(img, n - 1, y)) == 0;
    }
  }

  /** Raising the threshold keeps a subset of one row's markers, in order. */
  lemma {:induction false} RowMonotone(img1: Image, img2: Image, t1: int, t2: int, y: int, n: nat)
    requires Scannable(img1, img2) && 0 <= y < img1.height && n <= img1.width && t1 <= t2
    ensures IsSubsequence(RowMarkers(img1, img2, t2, y, n), RowMarkers(img1, img2, t1, y, n))
  {
    if n > 0 {
      RowMonotone(img1, img2, t1, t2, y, n - 1);
      var last1 := Emit(img1, img2, t1, n - 1, y);
      var last2 := Emit(img1, img2, t2, n - 1, y);
      if last2 == [] {
        assert IsSubsequence(last2, last1);
      } else {
        SubsequenceReflexive(last1);
      }
      SubsequenceConcat(RowMarkers(img1, img2, t2, y, n - 1), RowMarkers(img1, img2, t1, y, n - 1), last2, last1);
    }
  }

  lemma {:induction false} GridMonotone(img1: Image, img2: Image, t1: int, t2: int, rows: nat)
    requires Scannable(img1, img2) && rows <= img1.height && t1 <= t2
    ensures IsSubsequence(Markers(img1, img2, t2, rows), Markers(img1, img2, t1, rows))
  {
    if rows > 0 {
      GridMonotone(img1, img2, t1, t2, rows - 1);
      RowMonotone(img1, img2, t1, t2, rows - 1, img1.width);
      SubsequenceConcat(
        Markers(img1, img2, t2, rows - 1), Markers(img1, img2, t1, rows - 1),
        RowMarkers(img1, img2, t2, rows - 1, img1.width), RowMarkers(img1, img2, t1, rows - 1, img1.width));
    }
  }

  /** Threshold monotonicity: the markers at a larger threshold are a
      subsequence of the markers at a smaller one, so never more of them. */
  lemma ThresholdMonotone(img1: Image, img2: Image, t1: int, t2: int)
    requires Scannable(img1, img2) && t1 <= t2
    ensures IsSubsequence(DiffMarkers(img1, img2, t2), DiffMarkers(img1, img2, t1))
    ensures |DiffMarkers(img1, img2, t2)| <= |DiffMarkers(img1, img2, t1)|
  {
    GridMonotone(img1, img2, t1, t2, img1.height);
    SubsequenceLength(DiffMarkers(img1, img2, t2), DiffMarkers(img1, img2, t1));
  }

  /** No pixel is reported twice: the row-major order is strict. */
  lemma MarkersDistinct(img1: Image, img2: Image, threshold: int)
    requires Scannable(img1, img2)
    ensures forall i, j :: 0 <= i < j < |DiffMarkers(img1, img2, threshold)| ==>
      DiffMarkers(img1, img2, threshold)[i] != DiffMarkers(img1, img2, threshold)[j]
  {
    MarkersSpec(img1, img2, threshold, img1.height);
  }

  /** Markers of the pixels (0, 0) and (8, 8) are 8 apart (gaps of 6 on
      both axes), which is not below a merge distance of 5;
      Comparator.DiagonalMarkersStaySeparate shows the grouping that follows. */
  lemma DiagonalMarkersApart()
    ensures Distance(Marker(0, 0), Marker(8, 8)) == 8
    ensures !(Distance(Marker(0, 0), Marker(8, 8)) < 5)
  {
    assert XGap(Marker(0, 0), Marker(8, 8)) == 6 && YGap(Marker(0, 0), Marker(8, 8)) == 6;
    ISqrtUnique(72, 8);
  }
}
