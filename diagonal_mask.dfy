/** `SlidingDiagonalMask`: the closed polygon that clips the left-hand content
    to the part of the rectangle on or below the cut line. Its vertices are the
    two crossings and the corners on or below the line, visited in order of
    their angle around the vertices' mean. The angle is `atan2`, which is not
    modelled: the shape takes it as a parameter `angle(dy, dx)`. */
module DiagonalMask {
  import opened Plane
  import opened DiagonalGeometry
  import Sorting

  /** `isBelowOrOn`: in the view's coordinates y grows downwards, so "below"
      is a larger y; half a point of slack keeps corners that sit on the line. */
  predicate BelowOrOn(p: Point, m: real, c: real): (r: bool)
    ensures p.y >= LineY(p.x, m, c) ==> r
    ensures p.y < LineY(p.x, m, c) - 0.5 ==> !r
  {
    p.y >= LineY(p.x, m, c) - 0.5
  }

  /** The corners that pass `BelowOrOn`, in the order they are inspected. */
  function BelowCorners(corners: seq<Point>, m: real, c: real): (r: seq<Point>)
    ensures |r| <= |corners|
    ensures forall q :: q in r <==> q in corners && BelowOrOn(q, m, c)
  {
    if corners == [] then []
    else
      var init, last := corners[..|corners| - 1], corners[|corners| - 1];
      assert forall q :: q in corners <==> q in init || q == last by {
        assert corners == init + [last];
      }
      BelowCorners(init, m, c) + (if BelowOrOn(last, m, c) then [last] else [])
  }

  lemma BelowCornersSnoc(corners: seq<Point>, q: Point, m: real, c: real)
    ensures BelowCorners(corners + [q], m, c)
      == BelowCorners(corners, m, c) + (if BelowOrOn(q, m, c) then [q] else [])
  {
    assert (corners + [q])[..|corners|] == corners;
  }

  /** The vertices of the mask before they are ordered: the two crossings
      followed by the corners on or below the line. */
  function MaskVertices(rect: Rect, m: real, c: real, pts: seq<Point>): (poly: seq<Point>)
    ensures |pts| <= |poly| <= |pts| + 4
    ensures poly[..|pts|] == pts
    ensures forall q :: q in poly <==> q in pts || (q in rect.Corners() && BelowOrOn(q, m, c))
  {
    pts + BelowCorners(rect.Corners(), m, c)
  }

  /** `poly.map { $0.x }.reduce(0, +)`: a left fold. */
  function SumX(s: seq<Point>): real {
    if s == [] then 0.0 else SumX(s[..|s| - 1]) + s[|s| - 1].x
  }

  /** `poly.map { $0.y }.reduce(0, +)`. */
  function SumY(s: seq<Point>): real {
    if s == [] then 0.0 else SumY(s[..|s| - 1]) + s[|s| - 1].y
  }

  /** The arithmetic mean of the vertices: `n` copies of it add up to the
      vertices' sum, and the mean of copies of one point is that point. */
  function Centroid(s: seq<Point>): (centre: Point)
    requires |s| > 0
    ensures |s| as real * centre.x == SumX(s) && |s| as real * centre.y == SumY(s)
    ensures (forall q :: q in s ==> q == s[0]) ==> centre == s[0]
  {
    SumsOfCopies(s, s[0]);
    Point(SumX(s) / |s| as real, SumY(s) / |s| as real)
  }

  lemma SumsOfCopies(s: seq<Point>, p: Point)
    ensures (forall q :: q in s ==> q == p) ==>
      SumX(s) == |s| as real * p.x && SumY(s) == |s| as real * p.y
  {
    if forall q :: q in s ==> q == p {
      SumXBetween(s, p.x, p.x);
      SumYBetween(s, p.y, p.y);
    }
  }

  /** The sort key of `p`: `atan2` of its offset from `centre`, `dy` first.
      The centre itself has the key of the zero offset. */
  function AngleAround(angle: (real, real) -> real, centre: Point, p: Point): (a: real)
    ensures p == centre ==> a == angle(0.0, 0.0)
  {
    angle(p.y - centre.y, p.x - centre.x)
  }

  /** Moving the centre and the point by the same offset keeps the key, so the
      order depends only on the shape of the polygon, not on its position. */
  lemma AngleAroundShift(angle: (real, real) -> real, centre: Point, p: Point, dx: real, dy: real)
    ensures AngleAround(angle, Point(centre.x + dx, centre.y + dy), Point(p.x + dx, p.y + dy))
         == AngleAround(angle, centre, p)
  {
    assert (p.y + dy) - (centre.y + dy) == p.y - centre.y;
    assert (p.x + dx) - (centre.x + dx) == p.x - centre.x;
  }

  /** `path(in:)`: no path unless the cut line crosses the rectangle in exactly
      two points; otherwise a closed path through a permutation of the mask's
      vertices, in order of their angle around the vertices' mean. */
  method MaskPath(rect: Rect, progress: real, angle: (real, real) -> real) returns (path: Path)
    requires rect.width > 0.0
    ensures var m, c := Slope(rect), Intercept(progress, rect);
      var pts := Crossings(rect, m, c);
      && (|pts| != 2 ==> path == EMPTY_PATH)
      && (|pts| == 2 ==>
            var poly := MaskVertices(rect, m, c, pts);
            && path.closed
            && multiset(path.vertices) == multiset(poly)
            && forall i, j :: 0 <= i < j < |path.vertices| ==>
                 AngleAround(angle, Centroid(poly), path.vertices[i])
                   <= AngleAround(angle, Centroid(poly), path.vertices[j]))
  {
    path := EMPTY_PATH;
    var m := Slope(rect);
    var c := Intercept(progress, rect);
    var pts := Intersections(rect, m, c);
    if |pts| != 2 {
      return;
    }
    var poly := CollectVertices(rect, m, c, pts[0], pts[1]);
    assert pts == [pts[0], pts[1]];
    poly := OrderByAngle(poly, angle);
    path := ClosedPath(poly);
  }

  /** The collection of `poly` in `SlidingDiagonalMask.path`: start from the
      two crossings and append each corner that passes `isBelowOrOn`. */
  method CollectVertices(rect: Rect, m: real, c: real, p1: Point, p2: Point) returns (poly: seq<Point>)
    ensures poly == MaskVertices(rect, m, c, [p1, p2])
  {
    poly := AppendBelow([p1, p2], rect.Corners(), m, c);
  }

  /** The `for corner in corners where isBelowOrOn(corner)` loop: appends
      to `start` each corner that passes, in order. */
  method AppendBelow(start: seq<Point>, corners: seq<Point>, m: real, c: real) returns (poly: seq<Point>)
    ensures poly == start + BelowCorners(corners, m, c)
  {
    poly := start;
    for i := 0 to |corners|
      invariant poly == start + BelowCorners(corners[..i], m, c)
    {
      BelowCornersSnoc(corners[..i], corners[i], m, c);
      assert corners[..i + 1] == corners[..i] + [corners[i]];
      if BelowOrOn(corners[i], m, c) {
        poly := poly + [corners[i]];
      }
    }
    assert corners[..|corners|] == corners;
  }

  /** The centroid `cx`, `cy` and `poly.sort` in `SlidingDiagonalMask.path`:
      the mean of the vertices, then a sort by the angle of each vertex
      around it. */
  method OrderByAngle(poly: seq<Point>, angle: (real, real) -> real) returns (sorted: seq<Point>)
    requires |poly| > 0
    ensures multiset(sorted) == multiset(poly)
    ensures forall i, j :: 0 <= i < j < |sorted| ==>
      AngleAround(angle, Centroid(poly), sorted[i]) <= AngleAround(angle, Centroid(poly), sorted[j])
  {
    var cx := SumX(poly) / |poly| as real;
    var cy := SumY(poly) / |poly| as real;
    var less := (a: Point, b: Point) => angle(a.y - cy, a.x - cx) < angle(b.y - cy, b.x - cx);
    assert Sorting.StrictWeakOrder(less);
    sorted := Sorting.SortBy(poly, less);
    assert Centroid(poly) == Point(cx, cy);
    forall i, j | 0 <= i < j < |sorted|
      ensures AngleAround(angle, Centroid(poly), sorted[i]) <= AngleAround(angle, Centroid(poly), sorted[j])
    {
      assert !less(sorted[j], sorted[i]);
    }
  }

  /** `move`, `addLine` and `closeSubpath` in `SlidingDiagonalMask.path`:
      move to the first vertex, add a line to each of the others, close the
      subpath. */
  method ClosedPath(poly: seq<Point>) returns (path: Path)
    ensures |poly| > 0 ==> path == Path(poly, true)
    ensures |poly| == 0 ==> path == EMPTY_PATH
  {
    path := EMPTY_PATH;
    if |poly| > 0 {
      var vertices := [poly[0]];
      for i := 1 to |poly|
        invariant vertices == poly[..i]
      {
        vertices := vertices + [poly[i]];
      }
      assert poly[..|poly|] == poly;
      path := Path(vertices, true);
    }
  }

  // ---------------------------------------------------------------------------
  // Properties of the mask's vertices

  /** With a crossing pair, the mask has between 2 and 6 vertices: the pair
      itself and exactly those corners that are on or below the line. */
  lemma MaskVertexShape(rect: Rect, m: real, c: real, pts: seq<Point>)
    requires |pts| == 2
    ensures var poly := MaskVertices(rect, m, c, pts);
      && 2 <= |poly| <= 6
      && poly[..2] == pts
      && (forall q :: q in poly[2..] <==> q in rect.Corners() && BelowOrOn(q, m, c))
  {
    var poly := MaskVertices(rect, m, c, pts);
    assert poly[2..] == BelowCorners(rect.Corners(), m, c);
  }

  /** In the local frame a drawn mask is a true polygon: the clamped intercept
      never exceeds the height, so the bottom-left corner always passes
      `isBelowOrOn`, and with the crossing pair there are 3 to 6 vertices. */
  lemma MaskHasThreeVertices(width: real, height: real, progress: real)
    requires width > 0.0 && height >= 0.0
    ensures var rect := LocalRect(width, height);
      var m, c := Slope(rect), Intercept(progress, rect);
      var pts := Crossings(rect, m, c);
      |pts| == 2 ==> 3 <= |MaskVertices(rect, m, c, pts)| <= 6
  {
    var rect := LocalRect(width, height);
    var m, c := Slope(rect), Intercept(progress, rect);
    var pts := Crossings(rect, m, c);
    var corner := Point(0.0, height);
    assert corner in rect.Corners();
    assert BelowOrOn(corner, m, c);
    if |pts| == 2 {
      MaskVertexShape(rect, m, c, pts);
      assert corner in MaskVertices(rect, m, c, pts)[2..];
    }
  }

  /** In the local frame every vertex of the mask is on or below the cut line,
      so the polygon lies in the half-plane that the mask reveals. */
  lemma MaskVerticesBelowOrOn(rect: Rect, progress: real)
    requires rect.width > 0.0
    requires rect.originX == 0.0 && rect.originY == 0.0
    ensures var m, c := Slope(rect), Intercept(progress, rect);
      forall q :: q in MaskVertices(rect, m, c, Crossings(rect, m, c)) ==> BelowOrOn(q, m, c)
  {
    var m, c := Slope(rect), Intercept(progress, rect);
    CrossingsOnLine(rect, m, c);
  }

  lemma SumBounds(s: seq<Point>, rect: Rect)
    requires forall q :: q in s ==> rect.Contains(q)
    ensures |s| as real * rect.MinX() <= SumX(s) <= |s| as real * rect.MaxX()
    ensures |s| as real * rect.MinY() <= SumY(s) <= |s| as real * rect.MaxY()
  {
    SumXBetween(s, rect.MinX(), rect.MaxX());
    SumYBetween(s, rect.MinY(), rect.MaxY());
  }

  lemma {:induction false} SumXBetween(s: seq<Point>, lo: real, hi: real)
    requires forall q :: q in s ==> lo <= q.x <= hi
    ensures |s| as real * lo <= SumX(s) <= |s| as real * hi
  {
    if s != [] {
      var init, last := s[..|s| - 1], s[|s| - 1];
      assert forall q :: q in init ==> q in s;
      SumXBetween(init, lo, hi);
      assert last in s;
      var n, k := |s| as real, |init| as real;
      assert SumX(s) == SumX(init) + last.x;
      assert n * lo == k * lo + lo && n * hi == k * hi + hi;
    }
  }

  lemma {:induction false} SumYBetween(s: seq<Point>, lo: real, hi: real)
    requires forall q :: q in s ==> lo <= q.y <= hi
    ensures |s| as real * lo <= SumY(s) <= |s| as real * hi
  {
    if s != [] {
      var init, last := s[..|s| - 1], s[|s| - 1];
      assert forall q :: q in init ==> q in s;
      SumYBetween(init, lo, hi);
      assert last in s;
      var n, k := |s| as real, |init| as real;
      assert SumY(s) == SumY(init) + last.y;
      assert n * lo == k * lo + lo && n * hi == k * hi + hi;
    }
  }

  /** The mean of points inside the rectangle is inside it as well, so the
      angles are taken around a point of the rectangle. */
  lemma CentroidInside(s: seq<Point>, rect: Rect)
    requires |s| > 0
    requires forall q :: q in s ==> rect.Contains(q)
    ensures rect.Contains(Centroid(s))
  {
    SumBounds(s, rect);
    var n := |s| as real;
    DivideBetween(SumX(s), n, rect.MinX(), rect.MaxX());
    DivideBetween(SumY(s), n, rect.MinY(), rect.MaxY());
  }

  lemma DivideBetween(sum: real, n: real, lo: real, hi: real)
    requires n > 0.0
    requires n * lo <= sum <= n * hi
    ensures lo <= sum / n <= hi
  {
    assert sum == n * (sum / n);
  }

  /** For a valid rectangle all of the mask's vertices, and their mean, lie
      inside the rectangle. */
  lemma MaskInsideRect(rect: Rect, m: real, c: real, pts: seq<Point>)
    requires rect.Valid()
    requires forall p :: p in pts ==> rect.OnBoundary(p)
    ensures var poly := MaskVertices(rect, m, c, pts);
      && (forall q :: q in poly ==> rect.Contains(q))
      && (|poly| > 0 ==> rect.Contains(Centroid(poly)))
  {
    var poly := MaskVertices(rect, m, c, pts);
    forall q | q in poly
      ensures rect.Contains(q)
    {
      if q in pts {
        BoundaryInside(rect, q);
      }
    }
    if |poly| > 0 {
      CentroidInside(poly, rect);
    }
  }
}
