# Diagonal wipe geometry of `SliderComparisonView`

`SliderComparisonView` puts two views on top of each other. A draggable
diagonal line separates them. The left-hand view shows on or below the line
and the right-hand view above it. This project models, in Dafny, the geometry
behind that wipe and the progress value that drives it:

- **Cut line** (`DiagonalGeometry`): the line `y = m·x + c`. The slope `m` is
  the rectangle's height over its width. The intercept `c` is
  `(p - 0.5)·2·height`, where `p` is the progress clamped to [0, 1].
- **Edge crossings** (`DiagonalGeometry`): `intersections` as a method that
  works the way the source does. It appends each edge's candidate, keeps a
  candidate only if its rounded key has not been seen, and sorts when more
  than two remain, keeping the first and last. The method is proved equal to
  the specification function `Crossings`. The properties are proved about
  `Crossings`: on the boundary, at most two points, distinct keys, the
  extremes, first occurrences, and points on the line.
- **Mask polygon** (`DiagonalMask`): `SlidingDiagonalMask.path` as a method.
  When there are not exactly two crossings there is no path. Otherwise the
  path is closed and visits a permutation of the crossings plus the corners
  on or below the line (with a slack of 0.5). The vertices are ordered by
  their angle around the vertices' mean.
- **Divider** (`DiagonalDivider`): the open segment between the two
  crossings, or nothing.
- **Handle** (`DiagonalHandle`): the midpoint of the two crossings, or the
  middle of the frame.
- **Progress** (`ComparisonView`): the drag mapping `1 - clamp(x)/width`, and
  the view's `progress` state as a class. The state starts at 0.5, is
  overwritten by drags, and is set through the clamped `initialProgress`.
- **Sweep ends** (`CornerTouch`): what happens at progress 0 and 1, and a
  corrected pairing of the crossings (see Findings).

`CGFloat` is `real` and `CGPoint`/`CGRect` are datatypes (`Plane`). A SwiftUI
`Path` is its ordered vertices plus a flag saying whether it was closed.
`atan2` is a parameter `angle(dy, dx)` of the mask. Both Swift sorts are
library calls. They are modelled by one insertion sort (`Sorting`) whose
contract is what the library promises: a permutation in which no element
comes before an element placed ahead of it.

## Model

| member | source | states |
|---|---|---|
| Plane.Clamp | SliderComparisonViewDemo/SliderComparisonView.swift:69 | `max(lo, min(hi, v))` lies in [lo, hi]: it is `v` when `v` is in range, `lo` below the range and `hi` above it |
| Plane.Clamp01 | SliderComparisonViewDemo/SliderComparisonView.swift:272 | The clamp to [0, 1] always gives a value in [0, 1] |
| Plane.ClampProperties | SliderComparisonViewDemo/SliderComparisonView.swift:69 | Clamping is idempotent and keeps the order of its inputs |
| Plane.Rect.Corners | SliderComparisonViewDemo/SliderComparisonView.swift:141-144 | The four corners, bottom-right, bottom-left, top-right, top-left: all four are in the list, each has an x of minX or maxX and a y of minY or maxY, and in a valid rectangle each is on the boundary and inside |
| Plane.LocalRect | SliderComparisonViewDemo/SliderComparisonView.swift:200 | `CGRect(origin: .zero, size:)`: minX and minY are 0, maxX is the width and maxY the height; a positive width and non-negative height make it valid |
| DiagonalGeometry.Slope | SliderComparisonViewDemo/SliderComparisonView.swift:64-66 | The slope times the width is the height, so the line is parallel to the diagonal; it is never negative, and it is zero exactly when the height is zero; it does not depend on progress |
| DiagonalGeometry.Intercept | SliderComparisonViewDemo/SliderComparisonView.swift:68-71 | For a non-negative height the intercept lies in [-height, height] |
| DiagonalGeometry.InterceptClamps | SliderComparisonViewDemo/SliderComparisonView.swift:68-71 | `intercept(p) == intercept(clamp(p))`; it is -height at progress 0, 0 at 0.5 and +height at 1, and stays at -height below 0 and at +height above 1 |
| DiagonalGeometry.InterceptMonotone | SliderComparisonViewDemo/SliderComparisonView.swift:68-71 | The intercept never decreases as progress grows |
| DiagonalGeometry.LineY | SliderComparisonViewDemo/SliderComparisonView.swift:73 | `y(at:m:c:)`: the line is at height `c` at x = 0 |
| DiagonalGeometry.LineSweepsCorners | SliderComparisonViewDemo/SliderComparisonView.swift:64-73 | The line passes through the top-right corner at progress 0, runs along the corner-to-corner diagonal at 0.5, and passes through the bottom-left corner at 1 |
| DiagonalGeometry.LeftCrossing | SliderComparisonViewDemo/SliderComparisonView.swift:78-81 | The left-edge candidate lies on the left edge within its extent, and on the line when the origin's x is 0 |
| DiagonalGeometry.RightCrossing | SliderComparisonViewDemo/SliderComparisonView.swift:83-86 | The right-edge candidate lies on the right edge within its extent, and on the line when the origin's x is 0 |
| DiagonalGeometry.TopCrossing | SliderComparisonViewDemo/SliderComparisonView.swift:88-93 | The top-edge candidate lies on the top edge within its extent, and on the line when the origin's y is 0; there is none when `m == 0`, so nothing is divided by zero |
| DiagonalGeometry.BottomCrossing | SliderComparisonViewDemo/SliderComparisonView.swift:95-100 | The same for the bottom edge: on the bottom edge, and none when `m == 0` |
| DiagonalGeometry.Candidates | SliderComparisonViewDemo/SliderComparisonView.swift:76-100 | At most four candidates. All are on the boundary, and on the line in the local frame. A flat line yields only left- and right-edge points |
| DiagonalGeometry.BoundaryPointIsCandidate | SliderComparisonViewDemo/SliderComparisonView.swift:75-100 | Conversely, in the local frame of a rectangle with positive height, every boundary point on the cut line is a candidate: the four edge tests miss no crossing |
| DiagonalGeometry.BoundaryPointKeyKept | SliderComparisonViewDemo/SliderComparisonView.swift:75-111 | So the key of every point where the line meets the frame survives de-duplication |
| DiagonalGeometry.TwoCrossingsFound | SliderComparisonViewDemo/SliderComparisonView.swift:75-119 | When the line meets the frame at two points with different keys, `intersections` returns a pair: the pair is lost only when every meeting point has the same key |
| DiagonalGeometry.Round | SliderComparisonViewDemo/SliderComparisonView.swift:102 | Swift's `round`: the nearest integer, with a half rounded away from zero (up for a non-negative argument, down for a negative one) |
| DiagonalGeometry.Key | SliderComparisonViewDemo/SliderComparisonView.swift:102 | The key holds each coordinate times 1000, rounded to within 0.5 |
| DiagonalGeometry.SameKeyIsNear | SliderComparisonViewDemo/SliderComparisonView.swift:102 | Two points with the same key are at most 0.001 apart in each coordinate |
| DiagonalGeometry.Dedup | SliderComparisonViewDemo/SliderComparisonView.swift:103-111 | The kept points are a subset of the input, have the same set of keys as the input, and no two share a key |
| DiagonalGeometry.DedupKeepsFirst | SliderComparisonViewDemo/SliderComparisonView.swift:105-110 | The first point with a given key is kept |
| DiagonalGeometry.DedupOnlyFirst | SliderComparisonViewDemo/SliderComparisonView.swift:105-110 | Every kept point is the first point of the input with its key |
| DiagonalGeometry.DedupSnoc | SliderComparisonViewDemo/SliderComparisonView.swift:105-110 | One more candidate is appended exactly when its key has not been seen |
| DiagonalGeometry.LexLess | SliderComparisonViewDemo/SliderComparisonView.swift:113-116 | The comparator of the crossings: a point comes before another only if it is a different point with an x no larger; a smaller x always comes first |
| DiagonalGeometry.LexLessIsStrictWeakOrder | SliderComparisonViewDemo/SliderComparisonView.swift:113-116 | The comparator (x, then y where x is equal) is a valid sort comparator |
| DiagonalGeometry.LexMin | SliderComparisonViewDemo/SliderComparisonView.swift:117 | Returns an element of the sequence that no element comes before |
| DiagonalGeometry.LexMax | SliderComparisonViewDemo/SliderComparisonView.swift:117 | Returns an element of the sequence that comes before no element |
| DiagonalGeometry.Reduce | SliderComparisonViewDemo/SliderComparisonView.swift:112-119 | At most two points are kept. All are candidates, and two kept points have different keys |
| DiagonalGeometry.Crossings | SliderComparisonViewDemo/SliderComparisonView.swift:75-120 | `intersections` returns at most two points. They lie on the boundary and have different keys. For a flat line they lie on the left or right edge |
| DiagonalGeometry.CrossingsAt | SliderComparisonViewDemo/SliderComparisonView.swift:128-131 | What each shape computes before drawing: at most two points on the boundary; for a progress in [0, 1] they are the crossings of the line with slope height/width and intercept (2·progress − 1)·height |
| DiagonalGeometry.CrossingsAreExtremes | SliderComparisonViewDemo/SliderComparisonView.swift:112-119 | With at most two de-duplicated candidates, the result is exactly those. With more, the result is a pair from them that is the lexicographic minimum and maximum |
| DiagonalGeometry.CrossingsOnLine | SliderComparisonViewDemo/SliderComparisonView.swift:78-100 | In the local frame every returned point lies on the cut line |
| DiagonalGeometry.Intersections | SliderComparisonViewDemo/SliderComparisonView.swift:75-120 | The step-by-step `intersections` returns exactly `Crossings` |
| DiagonalGeometry.CollectCandidates | SliderComparisonViewDemo/SliderComparisonView.swift:76-100 | The appends to `points` produce exactly the left, right, top and bottom candidates in that order |
| DiagonalGeometry.ReducePoints | SliderComparisonViewDemo/SliderComparisonView.swift:103-119 | The `seen`-set loop followed by the sort and the first/last pick computes `Reduce` |
| DiagonalGeometry.SortedEnds | SliderComparisonViewDemo/SliderComparisonView.swift:113-117 | After the sort, `unique.first` is the lexicographic minimum and `unique.last` the maximum |
| DiagonalGeometry.DiagonalAtHalfProgress | SliderComparisonViewDemo/SliderComparisonView.swift:75-119 | A 100 x 50 frame at progress 0.5 is cut from (0, 0) to (100, 50) |
| Sorting.InsertSorted | SliderComparisonViewDemo/SliderComparisonView.swift:113-116 | Inserting into a sorted sequence gives a sorted permutation of the sequence plus the element |
| Sorting.SortBy | SliderComparisonViewDemo/SliderComparisonView.swift:150-154 | The in-place sort gives a permutation of its input, sorted by the comparator |
| DiagonalMask.BelowCorners | SliderComparisonViewDemo/SliderComparisonView.swift:138-147 | A corner is appended exactly when it passes `isBelowOrOn` |
| DiagonalMask.BelowOrOn | SliderComparisonViewDemo/SliderComparisonView.swift:138 | `isBelowOrOn`: a point on or below the line passes, and a point more than 0.5 above it fails |
| DiagonalMask.MaskVertices | SliderComparisonViewDemo/SliderComparisonView.swift:140-147 | `poly` before the sort: it starts with the crossings, adds at most four points, and holds exactly the crossings and the corners that pass `isBelowOrOn` |
| DiagonalMask.Centroid | SliderComparisonViewDemo/SliderComparisonView.swift:148-149 | `cx`, `cy`: `n` times the mean is the sum of the vertices (`SumX`, `SumY`, the folds of `reduce(0, +)`), and the mean of copies of one point is that point |
| DiagonalMask.AngleAround | SliderComparisonViewDemo/SliderComparisonView.swift:151-152 | The sort key `atan2(y − cy, x − cx)`; the centre itself gets the key of the zero offset |
| DiagonalMask.AngleAroundShift | SliderComparisonViewDemo/SliderComparisonView.swift:151-152 | Moving the centre and the vertex by the same offset keeps the key, so the order depends only on the offsets from the mean |
| DiagonalMask.MaskPath | SliderComparisonViewDemo/SliderComparisonView.swift:126-161 | No path unless there are exactly two crossings. Otherwise a closed path through a permutation of the crossings plus the corners on or below the line, sorted by angle around their mean |
| DiagonalMask.CollectVertices | SliderComparisonViewDemo/SliderComparisonView.swift:140-147 | The filtered loop yields the two crossings followed by the corners that pass `isBelowOrOn`, in the order inspected |
| DiagonalMask.AppendBelow | SliderComparisonViewDemo/SliderComparisonView.swift:145-147 | The filtered `for corner in corners` loop appends exactly the corners that pass `isBelowOrOn`, in order |
| DiagonalMask.OrderByAngle | SliderComparisonViewDemo/SliderComparisonView.swift:148-154 | The result is a permutation of the polygon, sorted by the angle of each vertex around the arithmetic mean |
| DiagonalMask.ClosedPath | SliderComparisonViewDemo/SliderComparisonView.swift:156-160 | Moving to the first vertex and adding a line to each of the others visits the polygon in order and closes it; an empty polygon gives no path |
| DiagonalMask.MaskVertexShape | SliderComparisonViewDemo/SliderComparisonView.swift:138-147 | For any pair, the collected vertices are the two crossings followed by exactly the corners on or below the line, at most 6 in all |
| DiagonalMask.MaskHasThreeVertices | SliderComparisonViewDemo/SliderComparisonView.swift:138-147 | In the local frame a drawn mask has 3 to 6 vertices: the clamped intercept never exceeds the height, so the bottom-left corner always passes `isBelowOrOn` |
| DiagonalMask.MaskVerticesBelowOrOn | SliderComparisonViewDemo/SliderComparisonView.swift:138-147 | In the local frame every vertex of the mask passes `isBelowOrOn` |
| DiagonalMask.CentroidInside | SliderComparisonViewDemo/SliderComparisonView.swift:148-149 | The mean of points inside the rectangle is inside the rectangle |
| DiagonalMask.MaskInsideRect | SliderComparisonViewDemo/SliderComparisonView.swift:140-149 | For boundary crossings, every mask vertex and their mean are inside the rectangle |
| DiagonalDivider.DividerPath | SliderComparisonViewDemo/SliderComparisonView.swift:173-182 | An open path. It is non-empty exactly when there are two crossings, and then it is the segment `pts[0]` to `pts[1]` on the boundary |
| DiagonalDivider.DividerOnCutLine | SliderComparisonViewDemo/SliderComparisonView.swift:177-180 | In the local frame both ends of the divider lie on the cut line |
| DiagonalDivider.DividerIsMaskEdge | SliderComparisonViewDemo/SliderComparisonView.swift:177-180 | When the divider is drawn, its ends are the first two vertices the mask collects |
| DiagonalHandle.HandleCenter | SliderComparisonViewDemo/SliderComparisonView.swift:199-210 | The handle centre always lies inside the frame |
| DiagonalHandle.Midpoint | SliderComparisonViewDemo/SliderComparisonView.swift:206 | The handle centre of a pair lies between the two points in each coordinate, and is the point itself when both coincide |
| DiagonalHandle.HandleOnDivider | SliderComparisonViewDemo/SliderComparisonView.swift:204-206 | With two crossings the centre is the divider's midpoint and lies on the cut line |
| DiagonalHandle.HandleFallback | SliderComparisonViewDemo/SliderComparisonView.swift:207-209 | Without two crossings the centre is `(midX, midY)` whatever the progress |
| ComparisonView.DragProgress | SliderComparisonViewDemo/SliderComparisonView.swift:53-56 | The progress is in [0, 1]. It is 1 at or left of the left edge and 0 at or right of the right edge. In between, `progress·width == width - x` |
| ComparisonView.DragMonotone | SliderComparisonViewDemo/SliderComparisonView.swift:54-55 | Dragging further right never increases progress |
| ComparisonView.DragInverse | SliderComparisonViewDemo/SliderComparisonView.swift:54-55 | Every progress in [0, 1] is reached by dragging to `(1 - progress)·width` |
| ComparisonView.DragExamples | SliderComparisonViewDemo/SliderComparisonView.swift:54-55 | Width 200: a drag to 50 gives 0.75 and a drag to 250 gives 0 |
| ComparisonView.SliderComparison.constructor | SliderComparisonViewDemo/SliderComparisonView.swift:15 | The progress starts at 0.5 |
| ComparisonView.SliderComparison.InitialProgress | SliderComparisonViewDemo/SliderComparisonView.swift:270-274 | A fresh copy whose progress is the argument clamped to [0, 1] |
| ComparisonView.SliderComparison.DragChanged | SliderComparisonViewDemo/SliderComparisonView.swift:53-56 | The drag closure overwrites `progress` with the drag mapping, which keeps it in [0, 1] |
| ComparisonView.SliderComparison.CurrentIntercept | SliderComparisonViewDemo/SliderComparisonView.swift:68-71 | While the state is in [0, 1], the line the shapes draw for it has intercept (2·progress − 1)·height: the clamp never changes it |
| CornerTouch.ZeroProgressCandidates | SliderComparisonViewDemo/SliderComparisonView.swift:75-100 | At progress 0 the right and top edges both yield the top-right corner, and no other edge yields a point |
| CornerTouch.FullProgressCandidates | SliderComparisonViewDemo/SliderComparisonView.swift:75-100 | At progress 1 the left and bottom edges both yield the bottom-left corner, and no other edge yields a point |
| CornerTouch.DedupTwice | SliderComparisonViewDemo/SliderComparisonView.swift:103-111 | A point met twice is kept once |
| CornerTouch.DedupSameKey | SliderComparisonViewDemo/SliderComparisonView.swift:103-111 | Of two points with the same key only the first is kept |
| CornerTouch.EndsOfSweepSingleCrossing | SliderComparisonViewDemo/SliderComparisonView.swift:102-119 | At progress 0 and 1 `intersections` returns a single point |
| CornerTouch.EndsOfSweepLosePair | SliderComparisonViewDemo/SliderComparisonView.swift:173-210 | At progress 0 and 1 the divider guard yields no path and the handle guard puts the handle in the middle, although every corner is on or below the line at progress 0; by `MaskPath`'s contract and `EndsOfSweepSingleCrossing` the mask guard yields no path either |
| CornerTouch.ZeroProgressAllCornersBelow | SliderComparisonViewDemo/SliderComparisonView.swift:138-147 | At progress 0 all four corners pass `isBelowOrOn` |
| CornerTouch.NearCornerCandidates | SliderComparisonViewDemo/SliderComparisonView.swift:75-102 | In a 100 x 50 frame with intercept -49.99999 the candidates are (100, 0.00001) and (99.99998, 0): distinct points with the same key (100000, 0) |
| CornerTouch.NearCornerLine | SliderComparisonViewDemo/SliderComparisonView.swift:64-71 | Progress 1e-7 in a 100 x 50 frame gives slope 0.5 and intercept -49.99999 |
| CornerTouch.NearCornerLosesPair | SliderComparisonViewDemo/SliderComparisonView.swift:75-119 | So just inside the sweep, at progress 1e-7, `intersections` also returns a single point |
| CornerTouch.CandidatesNotEmpty | SliderComparisonViewDemo/SliderComparisonView.swift:78-86 | For every progress, the left or the right edge yields a candidate |
| CornerTouch.CrossingsNotEmpty | SliderComparisonViewDemo/SliderComparisonView.swift:103-119 | A non-empty candidate list never reduces to nothing |
| CornerTouch.PairedCrossings | SliderComparisonViewDemo/SliderComparisonView.swift:112-119 | The corrected crossings: two points whenever there is any, all taken from the crossings; a real pair (or none) is left unchanged, so only the single-crossing case differs from the code as written |
| CornerTouch.PairedCrossingsAlwaysPair | SliderComparisonViewDemo/SliderComparisonView.swift:112-119 | For every progress the corrected crossings are a pair on the boundary and on the cut line |
| CornerTouch.CorrectedHandleCenter | SliderComparisonViewDemo/SliderComparisonView.swift:204-210 | The corrected handle lies inside the frame and on the cut line for every progress |
| CornerTouch.CorrectedHandleAtEnds | SliderComparisonViewDemo/SliderComparisonView.swift:204-210 | At progress 0 and 1 the corrected handle sits in the corner the line touches |
| CornerTouch.CorrectedMaskCoversFrame | SliderComparisonViewDemo/SliderComparisonView.swift:138-147 | With the corrected pair the mask at progress 0 holds all four corners, so it covers the whole frame |

## Left out

- SwiftUI composition is not modelled because it is rendering, not logic. This covers `GeometryReader`, `ZStack`, `.mask`, `.stroke`, `.frame`, `.contentShape`, the circle and image styling, and `.position`.
- The `animatableData` accessors are not modelled; they are hooks into the animation system.
- The fluent colour, width and image modifiers are not modelled because they only copy the view and set a field. `initialProgress` is modelled.
- `#Preview` and `ContentView.swift` are not modelled; they only compose the view with image assets.
- IEEE floating point is not modelled: `CGFloat` is `real`, so rounding errors in `m·width + c`, `-c/m` and `(height - c)/m` are absent.
- The dedup key is the pair of rounded scaled coordinates, not its string form. As a result `-0.0` and `0.0`, which format differently, share a key here. This has a visible effect in the code's path: whenever `c` is +0.0 (the default progress 0.5, for one), the top candidate `-c/m` is (-0.0, 0). Its key string "-0.0/0.0" differs from the left candidate's "0.0/0.0", so the code keeps three points and takes the sort branch, while the model keeps two. The two results are numerically equal.
- `atan2` is a parameter of the mask; only the order it induces is modelled.
- Sorting.SortBy: both sorts are the Swift library's; they are modelled by an insertion sort with the library's contract (permutation, sorted). Stability and the exact order of equal elements are not modelled.
- The zero-width rectangle is excluded by `requires width > 0`, because the source divides by the width.
- DiagonalGeometry.Dedup: the contract and lemmas say which points are kept, but not that they stay in input order. The order follows from the definition and from `ReducePoints`'s loop invariant.
- The candidate formulas use `c` and `rect.width` as written. They give points on the line only in a frame whose origin is (0, 0), which is the frame every caller passes. So the lemmas about points on the line require a zero origin, while the boundary facts hold for any origin.
- A line that only touches a corner could be read as two coincident crossings, but the code returns one point (see Findings). The model follows the code.

## Findings

| source | as written | input that shows it | evidently intended | confidence | as-written member | corrected member |
|---|---|---|---|---|---|---|
| SliderComparisonViewDemo/SliderComparisonView.swift:102-119 | When the line only touches a corner, two edges yield the same point and de-duplication leaves one. The mask and divider then draw nothing and the handle jumps to the middle of the view | Any frame with width, height > 0, e.g. 100 x 50, at progress 0 (the corner (100, 0)) or at progress 1 (the corner (0, 50)); also just inside the sweep, e.g. 100 x 50 at progress 1e-7, where the right and top crossings differ but share a key. By `TwoCrossingsFound` the pair is lost only when every point where the line meets the frame has the same key | A touched corner counts as two coincident crossings, so the sweep ends with the whole frame on one side and the handle in that corner | not executed | CornerTouch.EndsOfSweepLosePair | CornerTouch.PairedCrossingsAlwaysPair |
