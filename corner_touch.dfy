/** The cut line at the ends of its sweep. At progress 0 the line only touches
    the top-right corner and at progress 1 only the bottom-left corner. Two
    edges then yield the same corner, de-duplication keeps it once, and every
    shape treats the line as missing: no mask, no divider, and the handle
    jumps to the middle of the view. The same happens just inside the sweep,
    where two distinct crossings near the corner share a de-duplication key.
    The first half of this module shows that
    behaviour; the second half counts a touched corner as a pair of coincident
    crossings, which is how the sweep is meant to end. */
module CornerTouch {
  import opened Plane
  import opened DiagonalGeometry
  import DiagonalMask
  import DiagonalDivider
  import DiagonalHandle

  // ---------------------------------------------------------------------------
  // As written

  /** At progress 0 the right and top edges both yield the top-right corner. */
  lemma ZeroProgressCandidates(width: real, height: real)
    requires width > 0.0 && height > 0.0
    ensures var rect := LocalRect(width, height);
      Candidates(rect, Slope(rect), Intercept(0.0, rect)) == [Point(width, 0.0), Point(width, 0.0)]
  {
    var rect := LocalRect(width, height);
    var m, c := Slope(rect), Intercept(0.0, rect);
    assert c == -height;
    assert m * width + c == 0.0;
    QuotientOfProduct(m, width);
    assert -c / m == width;
    assert (height - c) / m == 2.0 * width by {
      assert height - c == m * (2.0 * width);
      QuotientOfProduct(m, 2.0 * width);
    }
  }

  /** At progress 1 the left and bottom edges both yield the bottom-left corner. */
  lemma FullProgressCandidates(width: real, height: real)
    requires width > 0.0 && height > 0.0
    ensures var rect := LocalRect(width, height);
      Candidates(rect, Slope(rect), Intercept(1.0, rect)) == [Point(0.0, height), Point(0.0, height)]
  {
    var rect := LocalRect(width, height);
    var m, c := Slope(rect), Intercept(1.0, rect);
    assert c == height;
    assert m * width + c == 2.0 * height;
    QuotientOfProduct(m, width);
    assert -c / m == -width;
    assert (height - c) / m == 0.0;
  }

  lemma QuotientOfProduct(m: real, x: real)
    requires m != 0.0
    ensures (m * x) / m == x
  {
  }

  /** A point met twice is kept once. */
  lemma DedupTwice(p: Point)
    ensures Dedup([p, p]) == [p]
  {
    var s := [p, p];
    assert s[..1] == [p];
    DedupSingle(p);
    assert Key(p) in KeysOf(Dedup(s[..1]));
  }

  /** Two points with the same key are kept as the first one. */
  lemma DedupSameKey(a: Point, b: Point)
    requires Key(a) == Key(b)
    ensures Dedup([a, b]) == [a]
  {
    var s := [a, b];
    assert s[..1] == [a];
    DedupSingle(a);
    assert Key(b) in KeysOf(Dedup(s[..1]));
  }

  /** Just inside the sweep the pair is lost as well: in a 100 x 50 frame at
      progress 1e-7 (intercept -50 + 0.00001) the right crossing
      (100, 0.00001) and the top crossing (99.99998, 0) are distinct points
      with the same key (100000, 0). */
  lemma NearCornerCandidates()
    ensures Candidates(LocalRect(100.0, 50.0), 0.5, -49.99999)
         == [Point(100.0, 0.00001), Point(99.99998, 0.0)]
    ensures Key(Point(100.0, 0.00001)) == Key(Point(99.99998, 0.0)) == (100000, 0)
  {
    var rect := Rect(0.0, 0.0, 100.0, 50.0);
    assert LocalRect(100.0, 50.0) == rect;
    assert LeftCrossing(rect, 0.5, -49.99999) == [];
    assert RightCrossing(rect, 0.5, -49.99999) == [Point(100.0, 0.00001)];
    assert TopCrossing(rect, 0.5, -49.99999) == [Point(99.99998, 0.0)];
    assert BottomCrossing(rect, 0.5, -49.99999) == [] by {
      assert (rect.height - -49.99999) / 0.5 == 199.99998;
    }
  }

  lemma NearCornerLine()
    ensures Slope(LocalRect(100.0, 50.0)) == 0.5
    ensures Intercept(0.0000001, LocalRect(100.0, 50.0)) == -49.99999
  {
    var rect := Rect(0.0, 0.0, 100.0, 50.0);
    assert LocalRect(100.0, 50.0) == rect;
    assert Slope(rect) == 50.0 / 100.0;
    assert Clamp01(0.0000001) == 0.0000001;
  }

  lemma NearCornerLosesPair()
    ensures |CrossingsAt(LocalRect(100.0, 50.0), 0.0000001)| == 1
  {
    NearCornerLine();
    NearCornerCandidates();
    DedupSameKey(Point(100.0, 0.00001), Point(99.99998, 0.0));
  }

  /** At both ends of the sweep only one crossing is left. */
  lemma EndsOfSweepSingleCrossing(width: real, height: real)
    requires width > 0.0 && height > 0.0
    ensures CrossingsAt(LocalRect(width, height), 0.0) == [Point(width, 0.0)]
    ensures CrossingsAt(LocalRect(width, height), 1.0) == [Point(0.0, height)]
  {
    ZeroProgressCandidates(width, height);
    FullProgressCandidates(width, height);
    DedupTwice(Point(width, 0.0));
    DedupTwice(Point(0.0, height));
  }

  /** So at both ends the divider is not drawn (and, by the contract of
      `MaskPath`, neither is the mask) and the handle sits in the middle of the
      view, although at progress 0 every corner is on or below the line, so
      that the mask should cover the whole view. */
  lemma EndsOfSweepLosePair(width: real, height: real)
    requires width > 0.0 && height > 0.0
    ensures var rect := LocalRect(width, height);
      && DiagonalDivider.DividerPath(rect, 0.0) == EMPTY_PATH
      && DiagonalDivider.DividerPath(rect, 1.0) == EMPTY_PATH
      && DiagonalHandle.HandleCenter(width, height, 0.0) == Point(width / 2.0, height / 2.0)
      && DiagonalHandle.HandleCenter(width, height, 1.0) == Point(width / 2.0, height / 2.0)
      && forall q :: q in rect.Corners() ==>
           DiagonalMask.BelowOrOn(q, Slope(rect), Intercept(0.0, rect))
  {
    EndsOfSweepSingleCrossing(width, height);
    ZeroProgressAllCornersBelow(width, height);
  }

  lemma ZeroProgressAllCornersBelow(width: real, height: real)
    requires width > 0.0 && height > 0.0
    ensures var rect := LocalRect(width, height);
      forall q :: q in rect.Corners() ==> DiagonalMask.BelowOrOn(q, Slope(rect), Intercept(0.0, rect))
  {
    var rect := LocalRect(width, height);
    var m := Slope(rect);
    assert Intercept(0.0, rect) == -height;
    assert m * width == height && m * 0.0 == 0.0;
  }

  // ---------------------------------------------------------------------------
  // Corrected: a touched corner counts as two coincident crossings

  /** The crossings, with a single one doubled. */
  function PairedCrossings(rect: Rect, m: real, c: real): (r: seq<Point>)
    ensures |Crossings(rect, m, c)| > 0 ==> |r| == 2
    ensures forall p :: p in r ==> p in Crossings(rect, m, c)
    ensures |Crossings(rect, m, c)| != 1 ==> r == Crossings(rect, m, c)
  {
    var u := Crossings(rect, m, c);
    if |u| == 1 then [u[0], u[0]] else u
  }

  /** For every progress the line meets the frame: the left edge when the
      intercept is not negative, the right edge otherwise. */
  lemma CandidatesNotEmpty(width: real, height: real, progress: real)
    requires width > 0.0 && height >= 0.0
    ensures var rect := LocalRect(width, height);
      |Candidates(rect, Slope(rect), Intercept(progress, rect))| > 0
  {
    var rect := LocalRect(width, height);
    var m, c := Slope(rect), Intercept(progress, rect);
    if c >= 0.0 {
      assert LeftCrossing(rect, m, c) != [];
    } else {
      assert m * width + c == height + c;
      assert RightCrossing(rect, m, c) != [];
    }
  }

  lemma {:induction false} CrossingsNotEmpty(cands: seq<Point>)
    requires |cands| > 0
    ensures |Reduce(cands)| > 0
  {
    assert Key(cands[0]) in KeysOf(cands);
    assert KeysOf(Dedup(cands)) != {};
  }

  /** The corrected crossings always form a pair, both on the frame's
      boundary and on the cut line. */
  lemma PairedCrossingsAlwaysPair(width: real, height: real, progress: real)
    requires width > 0.0 && height >= 0.0
    ensures var rect := LocalRect(width, height);
      var m, c := Slope(rect), Intercept(progress, rect);
      var r := PairedCrossings(rect, m, c);
      && |r| == 2
      && forall p :: p in r ==> rect.OnBoundary(p) && p.y == LineY(p.x, m, c)
  {
    var rect := LocalRect(width, height);
    var m, c := Slope(rect), Intercept(progress, rect);
    CandidatesNotEmpty(width, height, progress);
    CrossingsNotEmpty(Candidates(rect, m, c));
    CrossingsOnLine(rect, m, c);
  }

  /** The handle centred on the corrected pair: on the cut line for every
      progress, and inside the frame. */
  function CorrectedHandleCenter(width: real, height: real, progress: real): (center: Point)
    requires width > 0.0 && height >= 0.0
    ensures LocalRect(width, height).Contains(center)
    ensures center.y
      == LineY(center.x, Slope(LocalRect(width, height)), Intercept(progress, LocalRect(width, height)))
  {
    var rect := LocalRect(width, height);
    var m, c := Slope(rect), Intercept(progress, rect);
    PairedCrossingsAlwaysPair(width, height, progress);
    var pts := PairedCrossings(rect, m, c);
    assert pts[0] in pts && pts[1] in pts;
    BoundaryInside(rect, pts[0]);
    BoundaryInside(rect, pts[1]);
    DiagonalHandle.MidpointOnLine(pts[0], pts[1], m, c);
    DiagonalHandle.Midpoint(pts[0], pts[1])
  }

  /** With the corrected pair the mask at progress 0 holds all four corners,
      so it covers the whole frame, where the code draws no mask at all. */
  lemma CorrectedMaskCoversFrame(width: real, height: real)
    requires width > 0.0 && height > 0.0
    ensures var rect := LocalRect(width, height);
      var m, c := Slope(rect), Intercept(0.0, rect);
      var poly := DiagonalMask.MaskVertices(rect, m, c, PairedCrossings(rect, m, c));
      && |PairedCrossings(rect, m, c)| == 2
      && forall q :: q in rect.Corners() ==> q in poly
  {
    PairedCrossingsAlwaysPair(width, height, 0.0);
    ZeroProgressAllCornersBelow(width, height);
  }

  /** At the ends of the sweep the corrected handle follows the line into the
      corner it touches instead of jumping to the middle. */
  lemma CorrectedHandleAtEnds(width: real, height: real)
    requires width > 0.0 && height > 0.0
    ensures CorrectedHandleCenter(width, height, 0.0) == Point(width, 0.0)
    ensures CorrectedHandleCenter(width, height, 1.0) == Point(0.0, height)
  {
    EndsOfSweepSingleCrossing(width, height);
  }
}
