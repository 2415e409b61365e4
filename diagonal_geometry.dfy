/** `SlidingDiagonalGeometry`: the cut line `y = m·x + c` of the wipe and the
    points where it crosses the edges of the rectangle it is drawn in.
    The slope follows the rectangle's aspect ratio; progress only moves the
    line up and down. */
module DiagonalGeometry {
  import opened Plane
  import Sorting

  /** The slope of the cut line: the rectangle's height over its width, so the
      line is parallel to the diagonal from the top-left to the bottom-right corner. */
  function Slope(rect: Rect): (m: real)
    requires rect.width > 0.0
    ensures m * rect.width == rect.height
    ensures rect.height >= 0.0 ==> m >= 0.0
    ensures m == 0.0 <==> rect.height == 0.0
  {
    rect.height / rect.width
  }

  /** The intercept of the cut line. Progress is clamped to [0, 1] first, so the
      intercept never leaves [-height, height]. */
  function Intercept(progress: real, rect: Rect): (c: real)
    ensures rect.height >= 0.0 ==> -rect.height <= c <= rect.height
  {
    var p := Clamp01(progress);
    assert rect.height >= 0.0 ==> -rect.height <= (p - 0.5) * 2.0 * rect.height <= rect.height by {
      if rect.height >= 0.0 {
        assert (p - 0.5) * 2.0 * rect.height == (2.0 * p - 1.0) * rect.height;
        assert 0.0 <= p * rect.height <= rect.height;
      }
    }
    (p - 0.5) * 2.0 * rect.height
  }

  /** `y(at:m:c:)`: the height of the cut line at `x`. */
  function LineY(x: real, m: real, c: real): (y: real)
    ensures x == 0.0 ==> y == c
  {
    m * x + c
  }

  /** An out-of-range progress gives the same line as its clamped value, and the
      line sits at -height, 0 and +height at progress 0, 0.5 and 1. */
  lemma InterceptClamps(progress: real, rect: Rect)
    ensures Intercept(progress, rect) == Intercept(Clamp01(progress), rect)
    ensures Intercept(0.0, rect) == -rect.height
    ensures Intercept(0.5, rect) == 0.0
    ensures Intercept(1.0, rect) == rect.height
    ensures progress <= 0.0 ==> Intercept(progress, rect) == -rect.height
    ensures progress >= 1.0 ==> Intercept(progress, rect) == rect.height
  {
  }

  /** More progress never moves the line up (in the flipped coordinates of the
      view: never towards smaller y at x = 0). */
  lemma InterceptMonotone(p1: real, p2: real, rect: Rect)
    requires p1 <= p2
    requires rect.height >= 0.0
    ensures Intercept(p1, rect) <= Intercept(p2, rect)
  {
    var q1, q2 := Clamp01(p1), Clamp01(p2);
    ClampProperties(0.0, 1.0, p1, p2);
    assert (q2 - q1) * rect.height >= 0.0;
    assert Intercept(p2, rect) - Intercept(p1, rect) == 2.0 * (q2 - q1) * rect.height;
  }

  /** As progress goes from 0 to 1 the line sweeps the rectangle corner to corner:
      at 0 it passes through the top-right corner, at 0.5 it is the diagonal
      from the top-left to the bottom-right corner, at 1 it passes through the
      bottom-left corner (coordinates relative to the origin). */
  lemma LineSweepsCorners(rect: Rect)
    requires rect.width > 0.0
    ensures LineY(rect.width, Slope(rect), Intercept(0.0, rect)) == 0.0
    ensures LineY(0.0, Slope(rect), Intercept(0.5, rect)) == 0.0
    ensures LineY(rect.width, Slope(rect), Intercept(0.5, rect)) == rect.height
    ensures LineY(0.0, Slope(rect), Intercept(1.0, rect)) == rect.height
  {
    InterceptClamps(0.0, rect);
  }

  // ---------------------------------------------------------------------------
  // Edge crossings

  /** The left edge is crossed at height `c`, when that is within the edge. */
  function LeftCrossing(rect: Rect, m: real, c: real): (r: seq<Point>)
    ensures forall p :: p in r ==> p.x == rect.MinX() && rect.OnBoundary(p)
    ensures rect.originX == 0.0 ==> forall p :: p in r ==> p.y == LineY(p.x, m, c)
  {
    var yL := c;
    if yL >= rect.MinY() && yL <= rect.MaxY() then [Point(rect.MinX(), yL)] else []
  }

  /** The right edge is crossed at height `m * width + c`. */
  function RightCrossing(rect: Rect, m: real, c: real): (r: seq<Point>)
    ensures forall p :: p in r ==> p.x == rect.MaxX() && rect.OnBoundary(p)
    ensures rect.originX == 0.0 ==> forall p :: p in r ==> p.y == LineY(p.x, m, c)
  {
    var yR := m * rect.width + c;
    if yR >= rect.MinY() && yR <= rect.MaxY() then [Point(rect.MaxX(), yR)] else []
  }

  /** The top edge is crossed at `-c / m`; a flat line (m == 0) gives no candidate. */
  function TopCrossing(rect: Rect, m: real, c: real): (r: seq<Point>)
    ensures forall p :: p in r ==> p.y == rect.MinY() && rect.OnBoundary(p)
    ensures m == 0.0 ==> r == []
    ensures rect.originY == 0.0 ==> forall p :: p in r ==> p.y == LineY(p.x, m, c)
  {
    if m != 0.0 then
      var xT := -c / m;
      DivideBack(-c, m);
      if xT >= rect.MinX() && xT <= rect.MaxX() then [Point(xT, rect.MinY())] else []
    else []
  }

  /** The bottom edge is crossed at `(height - c) / m`; none when m == 0. */
  function BottomCrossing(rect: Rect, m: real, c: real): (r: seq<Point>)
    ensures forall p :: p in r ==> p.y == rect.MaxY() && rect.OnBoundary(p)
    ensures m == 0.0 ==> r == []
    ensures rect.originY == 0.0 ==> forall p :: p in r ==> p.y == LineY(p.x, m, c)
  {
    if m != 0.0 then
      var xB := (rect.height - c) / m;
      DivideBack(rect.height - c, m);
      if xB >= rect.MinX() && xB <= rect.MaxX() then [Point(xB, rect.MaxY())] else []
    else []
  }

  /** The candidate crossings, edge by edge in the order left, right, top,
      bottom; each is kept only when it falls within its edge. */
  function Candidates(rect: Rect, m: real, c: real): (r: seq<Point>)
    ensures |r| <= 4
    ensures forall p :: p in r ==> rect.OnBoundary(p)
    ensures m == 0.0 ==> forall p :: p in r ==> p.x == rect.MinX() || p.x == rect.MaxX()
    ensures rect.originX == 0.0 && rect.originY == 0.0 ==>
      forall p :: p in r ==> p.y == LineY(p.x, m, c)
  {
    LeftCrossing(rect, m, c) + RightCrossing(rect, m, c) + TopCrossing(rect, m, c) + BottomCrossing(rect, m, c)
  }

  /** Swift's `round`: to the nearest integer, halves away from zero. */
  function Round(v: real): (n: int)
    ensures v >= 0.0 ==> v - 0.5 < n as real <= v + 0.5
    ensures v < 0.0 ==> v - 0.5 <= n as real < v + 0.5
  {
    if v >= 0.0 then (v + 0.5).Floor else -((-v + 0.5).Floor)
  }

  /** The de-duplication key: both coordinates scaled by 1000 and rounded. */
  function Key(p: Point): (k: (int, int))
    ensures p.x * 1000.0 - 0.5 <= k.0 as real <= p.x * 1000.0 + 0.5
    ensures p.y * 1000.0 - 0.5 <= k.1 as real <= p.y * 1000.0 + 0.5
  {
    (Round(p.x * 1000.0), Round(p.y * 1000.0))
  }

  /** Points that share a key are at most a thousandth apart in each coordinate. */
  lemma SameKeyIsNear(p: Point, q: Point)
    requires Key(p) == Key(q)
    ensures -0.001 <= p.x - q.x <= 0.001
    ensures -0.001 <= p.y - q.y <= 0.001
  {
  }

  function KeysOf(s: seq<Point>): set<(int, int)> {
    set p | p in s :: Key(p)
  }

  lemma KeysOfAppend(s: seq<Point>, p: Point)
    ensures KeysOf(s + [p]) == KeysOf(s) + {Key(p)}
  {
    assert forall q :: q in s + [p] <==> q in s || q == p;
  }

  /** Keeps the first point of each key, in the order of `s`. */
  function Dedup(s: seq<Point>): (u: seq<Point>)
    ensures |u| <= |s|
    ensures forall p :: p in u ==> p in s
    ensures KeysOf(u) == KeysOf(s)
    ensures forall i, j :: 0 <= i < j < |u| ==> Key(u[i]) != Key(u[j])
  {
    if s == [] then []
    else
      var init, p := s[..|s| - 1], s[|s| - 1];
      var d := Dedup(init);
      assert KeysOf(s) == KeysOf(init) + {Key(p)} by {
        assert s == init + [p];
      }
      if Key(p) in KeysOf(d) then d else d + [p]
  }

  /** The point kept for a key is the first point of `s` with that key. */
  lemma {:induction false} DedupKeepsFirst(s: seq<Point>, i: nat)
    requires i < |s|
    requires Key(s[i]) !in KeysOf(s[..i])
    ensures s[i] in Dedup(s)
  {
    var init, p := s[..|s| - 1], s[|s| - 1];
    if i < |s| - 1 {
      assert init[..i] == s[..i];
      DedupKeepsFirst(init, i);
    } else {
      assert init == s[..i];
    }
  }

  /** Conversely, every point kept is the first point of `s` with its key. */
  lemma {:induction false} DedupOnlyFirst(s: seq<Point>, p: Point)
    requires p in Dedup(s)
    ensures exists i :: 0 <= i < |s| && s[i] == p && Key(p) !in KeysOf(s[..i])
  {
    var init, last := s[..|s| - 1], s[|s| - 1];
    if p in Dedup(init) {
      DedupOnlyFirst(init, p);
      var i :| 0 <= i < |init| && init[i] == p && Key(p) !in KeysOf(init[..i]);
      assert s[..i] == init[..i];
    } else {
      assert s[|s| - 1] == p && Key(p) !in KeysOf(init);
    }
  }

  /** The ordering the crossings are sorted by: by x, and by y where x is equal. */
  predicate LexLess(a: Point, b: Point): (r: bool)
    ensures r ==> a != b && a.x <= b.x
    ensures a.x < b.x ==> r
  {
    if a.x == b.x then a.y < b.y else a.x < b.x
  }

  lemma LexLessIsStrictWeakOrder()
    ensures Sorting.StrictWeakOrder(LexLess)
  {
  }

  function LexMin(s: seq<Point>): (r: Point)
    requires |s| > 0
    ensures r in s
    ensures forall q :: q in s ==> !LexLess(q, r)
  {
    if |s| == 1 then s[0]
    else
      var t := LexMin(s[1..]);
      assert forall q :: q in s ==> q == s[0] || q in s[1..];
      if LexLess(t, s[0]) then t else s[0]
  }

  function LexMax(s: seq<Point>): (r: Point)
    requires |s| > 0
    ensures r in s
    ensures forall q :: q in s ==> !LexLess(r, q)
  {
    if |s| == 1 then s[0]
    else
      var t := LexMax(s[1..]);
      assert forall q :: q in s ==> q == s[0] || q in s[1..];
      if LexLess(s[0], t) then t else s[0]
  }

  /** The de-duplicated candidates, or, when more than two survive, only the
      lexicographically first and last of them. Every point kept is one of
      the candidates. */
  function Reduce(cands: seq<Point>): (r: seq<Point>)
    ensures |r| <= 2
    ensures forall p :: p in r ==> p in cands
    ensures |r| == 2 ==> Key(r[0]) != Key(r[1])
  {
    var u := Dedup(cands);
    if |u| > 2 then
      var lo, hi := LexMin(u), LexMax(u);
      assert Key(lo) != Key(hi) by {
        var i :| 0 <= i < |u| && u[i] == lo;
        var j :| 0 <= j < |u| && u[j] == hi;
        if i == j {
          assert false;
        }
      }
      [lo, hi]
    else u
  }

  /** What `intersections` returns: at most two points of the boundary, with
      different keys; a flat line only meets the left and right edges. */
  function Crossings(rect: Rect, m: real, c: real): (r: seq<Point>)
    ensures |r| <= 2
    ensures forall p :: p in r ==> rect.OnBoundary(p)
    ensures |r| == 2 ==> Key(r[0]) != Key(r[1])
    ensures m == 0.0 ==> forall p :: p in r ==> p.x == rect.MinX() || p.x == rect.MaxX()
  {
    Reduce(Candidates(rect, m, c))
  }

  /** The crossings for the line a shape draws at `progress` inside `rect`. */
  function CrossingsAt(rect: Rect, progress: real): (r: seq<Point>)
    requires rect.width > 0.0
    ensures |r| <= 2
    ensures forall p :: p in r ==> rect.OnBoundary(p)
    ensures 0.0 <= progress <= 1.0 ==>
      r == Crossings(rect, rect.height / rect.width, (2.0 * progress - 1.0) * rect.height)
  {
    assert 0.0 <= progress <= 1.0 ==>
      Intercept(progress, rect) == (2.0 * progress - 1.0) * rect.height;
    Crossings(rect, Slope(rect), Intercept(progress, rect))
  }

  /** `intersections(in:m:c:)`: collects the candidates edge by edge, then
      drops repeated keys and keeps the extremes. */
  method Intersections(rect: Rect, m: real, c: real) returns (unique: seq<Point>)
    ensures unique == Crossings(rect, m, c)
  {
    var points := CollectCandidates(rect, m, c);
    unique := ReducePoints(points);
  }

  /** The first half of `intersections`: appends each edge's crossing that
      falls within its edge to `points`. */
  method CollectCandidates(rect: Rect, m: real, c: real) returns (points: seq<Point>)
    ensures points == Candidates(rect, m, c)
  {
    points := [];
    var yL := c;
    if yL >= rect.MinY() && yL <= rect.MaxY() {
      points := points + [Point(rect.MinX(), yL)];
    }
    assert points == LeftCrossing(rect, m, c);
    var yR := m * rect.width + c;
    if yR >= rect.MinY() && yR <= rect.MaxY() {
      points := points + [Point(rect.MaxX(), yR)];
    }
    assert points == LeftCrossing(rect, m, c) + RightCrossing(rect, m, c);
    if m != 0.0 {
      var xT := -c / m;
      if xT >= rect.MinX() && xT <= rect.MaxX() {
        points := points + [Point(xT, rect.MinY())];
      }
    }
    assert points == LeftCrossing(rect, m, c) + RightCrossing(rect, m, c) + TopCrossing(rect, m, c);
    if m != 0.0 {
      var xB := (rect.height - c) / m;
      if xB >= rect.MinX() && xB <= rect.MaxX() {
        points := points + [Point(xB, rect.MaxY())];
      }
    }
  }

  /** The second half of `intersections`: a loop that keeps a point only when
      its key is not yet in `seen`, then, when more than two are left, a sort
      by `LexLess` of which only the first and last element are kept. */
  method ReducePoints(points: seq<Point>) returns (unique: seq<Point>)
    ensures unique == Reduce(points)
  {
    var seen: set<(int, int)> := {};
    unique := [];
    for i := 0 to |points|
      invariant unique == Dedup(points[..i])
      invariant seen == KeysOf(unique)
    {
      var p := points[i];
      var k := Key(p);
      assert points[..i + 1][..i] == points[..i];
      KeysOfAppend(unique, p);
      if k !in seen {
        seen := seen + {k};
        unique := unique + [p];
      }
    }
    assert points[..|points|] == points;

    if |unique| > 2 {
      LexLessIsStrictWeakOrder();
      var sorted := Sorting.SortBy(unique, LexLess);
      SortedEnds(unique, sorted);
      unique := [sorted[0], sorted[|sorted| - 1]];
    }
  }

  /** Sorting a set of points by `LexLess` puts its lexicographic minimum first
      and its maximum last. */
  lemma SortedEnds(u: seq<Point>, t: seq<Point>)
    requires |u| > 0
    requires multiset(t) == multiset(u)
    requires Sorting.Sorted(t, LexLess)
    ensures |t| == |u|
    ensures t[0] == LexMin(u) && t[|t| - 1] == LexMax(u)
  {
    assert |t| == |multiset(t)| == |u|;
    var first, last := t[0], t[|t| - 1];
    assert first in multiset(u) && last in multiset(u);
    assert first in u && last in u;
    var lo, hi := LexMin(u), LexMax(u);
    assert lo in multiset(t) && hi in multiset(t);
    var i :| 0 <= i < |t| && t[i] == lo;
    var j :| 0 <= j < |t| && t[j] == hi;
    assert !LexLess(lo, first) by { if i > 0 { assert !LexLess(t[i], t[0]); } }
    assert !LexLess(first, lo);
    assert !LexLess(last, hi) by { if j < |t| - 1 { assert !LexLess(t[|t| - 1], t[j]); } }
    assert !LexLess(hi, last);
  }

  // ---------------------------------------------------------------------------
  // Properties of the crossings

  /** In the local frame every caller draws in (origin (0, 0)), every crossing
      lies on the cut line. */
  lemma CrossingsOnLine(rect: Rect, m: real, c: real)
    requires rect.originX == 0.0 && rect.originY == 0.0
    ensures forall p :: p in Crossings(rect, m, c) ==> p.y == LineY(p.x, m, c)
  {
    var cands := Candidates(rect, m, c);
    assert forall p :: p in Reduce(cands) ==> p in cands;
  }

  /** Conversely, the four edge tests miss no point: in the local frame of a
      rectangle with positive height, every boundary point on the cut line is
      a candidate. (With zero height the line may lie along an edge and meet
      infinitely many boundary points.) */
  lemma BoundaryPointIsCandidate(width: real, height: real, c: real, p: Point)
    requires width > 0.0 && height > 0.0
    requires LocalRect(width, height).OnBoundary(p)
    requires p.y == LineY(p.x, Slope(LocalRect(width, height)), c)
    ensures p in Candidates(LocalRect(width, height), Slope(LocalRect(width, height)), c)
  {
    var rect := LocalRect(width, height);
    var m := Slope(rect);
    if p.x == 0.0 {
      assert p == Point(rect.MinX(), c);
      assert p in LeftCrossing(rect, m, c);
    } else if p.x == width {
      assert p == Point(rect.MaxX(), m * rect.width + c);
      assert p in RightCrossing(rect, m, c);
    } else if p.y == 0.0 {
      TopEdgePoint(rect, m, c, p);
    } else {
      BottomEdgePoint(rect, m, c, p);
    }
  }

  lemma TopEdgePoint(rect: Rect, m: real, c: real, p: Point)
    requires rect.originY == 0.0 && m != 0.0
    requires p.y == rect.MinY() && rect.MinX() <= p.x <= rect.MaxX()
    requires p.y == LineY(p.x, m, c)
    ensures p in Candidates(rect, m, c)
  {
    assert -c == m * p.x;
    assert -c / m == p.x;
    assert p in TopCrossing(rect, m, c);
  }

  lemma BottomEdgePoint(rect: Rect, m: real, c: real, p: Point)
    requires rect.originY == 0.0 && m != 0.0
    requires p.y == rect.MaxY() && rect.MinX() <= p.x <= rect.MaxX()
    requires p.y == LineY(p.x, m, c)
    ensures p in Candidates(rect, m, c)
  {
    assert rect.height - c == m * p.x;
    assert (rect.height - c) / m == p.x;
    assert p in BottomCrossing(rect, m, c);
  }

  /** So every point where the cut line meets the frame has its key among
      the de-duplicated candidates. */
  lemma BoundaryPointKeyKept(width: real, height: real, c: real, p: Point)
    requires width > 0.0 && height > 0.0
    requires LocalRect(width, height).OnBoundary(p)
    requires p.y == LineY(p.x, Slope(LocalRect(width, height)), c)
    ensures Key(p) in KeysOf(Dedup(Candidates(LocalRect(width, height), Slope(LocalRect(width, height)), c)))
  {
    BoundaryPointIsCandidate(width, height, c, p);
  }

  /** Hence whenever the cut line meets the frame at two points with different
      keys, `intersections` returns a pair: the pair is lost only when every
      point where the line meets the frame has the same key. */
  lemma TwoCrossingsFound(width: real, height: real, c: real, p: Point, q: Point)
    requires width > 0.0 && height > 0.0
    requires LocalRect(width, height).OnBoundary(p) && LocalRect(width, height).OnBoundary(q)
    requires p.y == LineY(p.x, Slope(LocalRect(width, height)), c)
    requires q.y == LineY(q.x, Slope(LocalRect(width, height)), c)
    requires Key(p) != Key(q)
    ensures |Crossings(LocalRect(width, height), Slope(LocalRect(width, height)), c)| == 2
  {
    var rect := LocalRect(width, height);
    var cands := Candidates(rect, Slope(rect), c);
    BoundaryPointKeyKept(width, height, c, p);
    BoundaryPointKeyKept(width, height, c, q);
    TwoKeysTwoPoints(Dedup(cands), Key(p), Key(q));
    ReduceKeepsPair(cands);
  }

  lemma TwoKeysTwoPoints(s: seq<Point>, a: (int, int), b: (int, int))
    requires a in KeysOf(s) && b in KeysOf(s) && a != b
    ensures |s| >= 2
  {
    var i :| 0 <= i < |s| && Key(s[i]) == a;
    var j :| 0 <= j < |s| && Key(s[j]) == b;
    assert i != j;
  }

  /** Two or more distinct keys always reduce to a pair. */
  lemma ReduceKeepsPair(cands: seq<Point>)
    requires |Dedup(cands)| >= 2
    ensures |Reduce(cands)| == 2
  {
  }

  lemma DivideBack(a: real, m: real)
    requires m != 0.0
    ensures m * (a / m) == a
  {
  }

  /** At most two crossings survive, and when the de-duplicated candidates
      number more than two, the result is exactly their lexicographic minimum
      and maximum; otherwise it is the de-duplicated candidates themselves. */
  lemma CrossingsAreExtremes(rect: Rect, m: real, c: real)
    ensures var u := Dedup(Candidates(rect, m, c));
      var r := Crossings(rect, m, c);
      && (|u| <= 2 ==> r == u)
      && (|u| > 2 ==>
            && |r| == 2 && r[0] in u && r[1] in u
            && (forall q :: q in u ==> !LexLess(q, r[0]) && !LexLess(r[1], q)))
  {
  }

  /** One more candidate is kept exactly when its key is new. */
  lemma DedupSnoc(s: seq<Point>, p: Point)
    ensures Dedup(s + [p]) == if Key(p) in KeysOf(Dedup(s)) then Dedup(s) else Dedup(s) + [p]
  {
    assert (s + [p])[..|s|] == s;
  }

  /** A 100 x 50 rectangle at progress 0.5 is cut along its diagonal from
      (0, 0) to (100, 50). */
  lemma DiagonalAtHalfProgress()
    ensures CrossingsAt(LocalRect(100.0, 50.0), 0.5) == [Point(0.0, 0.0), Point(100.0, 50.0)]
  {
    var a, b := Point(0.0, 0.0), Point(100.0, 50.0);
    HalfProgressLine();
    HalfProgressCandidates();
    ReduceRepeatedPair(a, b);
  }

  lemma ReduceRepeatedPair(a: Point, b: Point)
    requires Key(a) != Key(b)
    ensures Reduce([a, b, a, b]) == [a, b]
  {
    DedupRepeatedPair(a, b);
  }

  /** Two points with different keys, each met twice, are kept once each. */
  lemma DedupRepeatedPair(a: Point, b: Point)
    requires Key(a) != Key(b)
    ensures Dedup([a, b, a, b]) == [a, b]
  {
    DedupPairThenFirst(a, b);
    KeysOfAppend([a], b);
    DedupSnoc([a, b, a], b);
    assert [a, b, a] + [b] == [a, b, a, b];
  }

  lemma DedupPairThenFirst(a: Point, b: Point)
    requires Key(a) != Key(b)
    ensures Dedup([a, b, a]) == [a, b]
  {
    DedupDistinctPair(a, b);
    DedupSnoc([a, b], a);
    assert [a, b] + [a] == [a, b, a];
  }

  lemma DedupSingle(p: Point)
    ensures Dedup([p]) == [p]
    ensures KeysOf([p]) == {Key(p)}
  {
    DedupSnoc([], p);
    assert [] + [p] == [p];
    KeysOfAppend([], p);
  }

  lemma DedupDistinctPair(a: Point, b: Point)
    requires Key(a) != Key(b)
    ensures Dedup([a, b]) == [a, b]
    ensures Key(a) in KeysOf([a, b]) && Key(b) in KeysOf([a, b])
  {
    DedupSingle(a);
    DedupSnoc([a], b);
    assert [a] + [b] == [a, b];
    KeysOfAppend([a], b);
  }

  lemma HalfProgressLine()
    ensures Slope(LocalRect(100.0, 50.0)) == 0.5
    ensures Intercept(0.5, LocalRect(100.0, 50.0)) == 0.0
  {
    var rect := Rect(0.0, 0.0, 100.0, 50.0);
    assert LocalRect(100.0, 50.0) == rect;
    assert Slope(rect) == 50.0 / 100.0;
    InterceptClamps(0.5, rect);
  }

  lemma HalfProgressCandidates()
    ensures Candidates(LocalRect(100.0, 50.0), 0.5, 0.0)
         == [Point(0.0, 0.0), Point(100.0, 50.0), Point(0.0, 0.0), Point(100.0, 50.0)]
    ensures Key(Point(0.0, 0.0)) != Key(Point(100.0, 50.0))
  {
    var rect := Rect(0.0, 0.0, 100.0, 50.0);
    assert LocalRect(100.0, 50.0) == rect;
    var a, b := Point(0.0, 0.0), Point(100.0, 50.0);
    assert LeftCrossing(rect, 0.5, 0.0) == [a];
    assert RightCrossing(rect, 0.5, 0.0) == [b];
    assert TopCrossing(rect, 0.5, 0.0) == [a];
    assert BottomCrossing(rect, 0.5, 0.0) == [b] by {
      assert (rect.height - 0.0) / 0.5 == 100.0;
    }
    assert Key(b).0 >= 99999;
  }
}
