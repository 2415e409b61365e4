/** Value types of the graphics layer that the diagonal wipe computes with.
    `CGFloat` is modelled as `real`, `CGPoint` as `Point`, `CGRect` as `Rect`
    (origin and size), and a SwiftUI `Path` as its ordered vertices together
    with a flag saying whether the subpath was closed. */
module Plane {

  datatype Point = Point(x: real, y: real)

  /** An axis-aligned rectangle given by its origin and its size. */
  datatype Rect = Rect(originX: real, originY: real, width: real, height: real) {

    function MinX(): real { originX }
    function MaxX(): real { originX + width }
    function MinY(): real { originY }
    function MaxY(): real { originY + height }
    function MidX(): real { originX + width / 2.0 }
    function MidY(): real { originY + height / 2.0 }

    /** What a layout pass hands to the shapes: a positive width and a
        height that is not negative. */
    predicate Valid() { width > 0.0 && height >= 0.0 }

    predicate Contains(p: Point) {
      MinX() <= p.x <= MaxX() && MinY() <= p.y <= MaxY()
    }

    /** `p` lies on one of the four edges, within that edge's extent. */
    predicate OnBoundary(p: Point) {
      || ((p.x == MinX() || p.x == MaxX()) && MinY() <= p.y <= MaxY())
      || ((p.y == MinY() || p.y == MaxY()) && MinX() <= p.x <= MaxX())
    }

    /** The four corners, in the order in which the mask inspects them. */
    function Corners(): (r: seq<Point>)
      ensures |r| == 4
      ensures Point(MinX(), MinY()) in r && Point(MaxX(), MinY()) in r
      ensures Point(MinX(), MaxY()) in r && Point(MaxX(), MaxY()) in r
      ensures forall q :: q in r ==>
        (q.x == MinX() || q.x == MaxX()) && (q.y == MinY() || q.y == MaxY())
      ensures Valid() ==> forall q :: q in r ==> OnBoundary(q) && Contains(q)
    {
      [Point(MaxX(), MaxY()), Point(MinX(), MaxY()),
       Point(MaxX(), MinY()), Point(MinX(), MinY())]
    }
  }

  /** `CGRect(origin: .zero, size: ...)`: the local frame a shape is drawn in. */
  function LocalRect(width: real, height: real): (r: Rect)
    ensures r.MinX() == 0.0 && r.MinY() == 0.0
    ensures r.MaxX() == width && r.MaxY() == height
    ensures width > 0.0 && height >= 0.0 ==> r.Valid()
  {
    Rect(0.0, 0.0, width, height)
  }

  /** A path as the sequence of points it visits; `closed` records `closeSubpath`. */
  datatype Path = Path(vertices: seq<Point>, closed: bool)

  const EMPTY_PATH := Path([], false)

  function Min(a: real, b: real): real { if a <= b then a else b }
  function Max(a: real, b: real): real { if a >= b then a else b }

  /** `max(lo, min(hi, v))`, the clamp the view uses for progress and drag positions. */
  function Clamp(lo: real, hi: real, v: real): (r: real)
    requires lo <= hi
    ensures lo <= r <= hi
    ensures lo <= v <= hi ==> r == v
    ensures v < lo ==> r == lo
    ensures hi < v ==> r == hi
  {
    Max(lo, Min(hi, v))
  }

  function Clamp01(v: real): (r: real)
    ensures 0.0 <= r <= 1.0
  {
    Clamp(0.0, 1.0, v)
  }

  /** Clamping twice changes nothing, and clamping keeps the order of its inputs. */
  lemma ClampProperties(lo: real, hi: real, v: real, w: real)
    requires lo <= hi
    ensures Clamp(lo, hi, Clamp(lo, hi, v)) == Clamp(lo, hi, v)
    ensures v <= w ==> Clamp(lo, hi, v) <= Clamp(lo, hi, w)
  {
  }

  /** A point on the boundary of a valid rectangle lies inside it. */
  lemma BoundaryInside(rect: Rect, p: Point)
    requires rect.Valid() && rect.OnBoundary(p)
    ensures rect.Contains(p)
  {
  }
}
