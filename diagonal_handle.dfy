/** `SlidingDiagonalHandle`: where the drag handle is centred. The handle
    draws in its own local frame, `CGRect(origin: .zero, size: geo.size)`. */
module DiagonalHandle {
  import opened Plane
  import opened DiagonalGeometry
  import DiagonalDivider

  /** The point halfway between `a` and `b`: between them in each coordinate,
      and the point itself when both ends coincide. */
  function Midpoint(a: Point, b: Point): (mid: Point)
    ensures Min(a.x, b.x) <= mid.x <= Max(a.x, b.x)
    ensures Min(a.y, b.y) <= mid.y <= Max(a.y, b.y)
    ensures a == b ==> mid == a
  {
    Point((a.x + b.x) / 2.0, (a.y + b.y) / 2.0)
  }

  /** The handle's centre: the midpoint of the two crossings when there are
      exactly two, and the middle of the frame otherwise. Either way it lies
      inside the frame. */
  function HandleCenter(width: real, height: real, progress: real): (center: Point)
    requires width > 0.0 && height >= 0.0
    ensures LocalRect(width, height).Contains(center)
  {
    var rect := LocalRect(width, height);
    var pts := CrossingsAt(rect, progress);
    if |pts| == 2 then
      BoundaryInside(rect, pts[0]);
      BoundaryInside(rect, pts[1]);
      Midpoint(pts[0], pts[1])
    else
      Point(rect.MidX(), rect.MidY())
  }

  /** With a crossing pair the handle sits on the cut line, halfway along the
      divider. */
  lemma HandleOnDivider(width: real, height: real, progress: real)
    requires width > 0.0 && height >= 0.0
    ensures var rect := LocalRect(width, height);
      var divider := DiagonalDivider.DividerPath(rect, progress);
      var center := HandleCenter(width, height, progress);
      divider.vertices != [] ==>
        && center == Midpoint(divider.vertices[0], divider.vertices[1])
        && center.y == LineY(center.x, Slope(rect), Intercept(progress, rect))
  {
    var rect := LocalRect(width, height);
    var m, c := Slope(rect), Intercept(progress, rect);
    CrossingsOnLine(rect, m, c);
    var pts := Crossings(rect, m, c);
    if |pts| == 2 {
      assert pts[0] in pts && pts[1] in pts;
      MidpointOnLine(pts[0], pts[1], m, c);
    }
  }

  lemma MidpointOnLine(a: Point, b: Point, m: real, c: real)
    requires a.y == LineY(a.x, m, c) && b.y == LineY(b.x, m, c)
    ensures Midpoint(a, b).y == LineY(Midpoint(a, b).x, m, c)
  {
    assert m * ((a.x + b.x) / 2.0) == (m * a.x + m * b.x) / 2.0;
  }

  /** Without a crossing pair the handle is at the middle of the frame, the
      same point whatever the progress. */
  lemma HandleFallback(width: real, height: real, p1: real, p2: real)
    requires width > 0.0 && height >= 0.0
    requires |CrossingsAt(LocalRect(width, height), p1)| != 2
    requires |CrossingsAt(LocalRect(width, height), p2)| != 2
    ensures HandleCenter(width, height, p1) == HandleCenter(width, height, p2)
                                           == Point(width / 2.0, height / 2.0)
  {
  }
}
