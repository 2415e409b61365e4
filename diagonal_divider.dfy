/** `SlidingDiagonalDivider`: the stroke drawn along the cut line, from one
    crossing to the other. */
module DiagonalDivider {
  import opened Plane
  import opened DiagonalGeometry
  import DiagonalMask

  /** `path(in:)`: an open two-point path between the crossings when there are
      exactly two of them, and no path otherwise. */
  function DividerPath(rect: Rect, progress: real): (path: Path)
    requires rect.width > 0.0
    ensures !path.closed
    ensures |path.vertices| == 0 || |path.vertices| == 2
    ensures path.vertices != [] <==> |CrossingsAt(rect, progress)| == 2
    ensures path.vertices != [] ==> path.vertices == CrossingsAt(rect, progress)
    ensures forall p :: p in path.vertices ==> rect.OnBoundary(p)
    ensures |path.vertices| == 2 ==> Key(path.vertices[0]) != Key(path.vertices[1])
  {
    var pts := CrossingsAt(rect, progress);
    if |pts| == 2 then Path([pts[0], pts[1]], false) else EMPTY_PATH
  }

  /** In the local frame both ends of the divider lie on the cut line. */
  lemma DividerOnCutLine(rect: Rect, progress: real)
    requires rect.width > 0.0
    requires rect.originX == 0.0 && rect.originY == 0.0
    ensures forall p :: p in DividerPath(rect, progress).vertices ==>
      p.y == LineY(p.x, Slope(rect), Intercept(progress, rect))
  {
    CrossingsOnLine(rect, Slope(rect), Intercept(progress, rect));
  }

  /** The divider is drawn exactly when the mask is, and its two ends are the
      first two vertices the mask collects, so the stroke runs along the
      mask's cut edge. */
  lemma DividerIsMaskEdge(rect: Rect, progress: real)
    requires rect.width > 0.0
    ensures var m, c := Slope(rect), Intercept(progress, rect);
      var divider := DividerPath(rect, progress);
      divider.vertices != [] ==>
        DiagonalMask.MaskVertices(rect, m, c, Crossings(rect, m, c))[..2] == divider.vertices
  {
    var m, c := Slope(rect), Intercept(progress, rect);
    var pts := Crossings(rect, m, c);
    if |pts| == 2 {
      DiagonalMask.MaskVertexShape(rect, m, c, pts);
    }
  }
}
