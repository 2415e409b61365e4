/** `SliderComparisonView`: owns the progress of the wipe. It starts at 0.5,
    can be replaced by a clamped initial value, and is overwritten on every
    drag update from the horizontal position of the drag. */
module ComparisonView {
  import opened Plane
  import DiagonalGeometry

  /** The drag handler: the x position is clamped to [0, width] and mapped
      to progress `1 - x / width`, so the left edge gives 1 and the right
      edge gives 0. */
  function DragProgress(x: real, width: real): (progress: real)
    requires width > 0.0
    ensures 0.0 <= progress <= 1.0
    ensures x <= 0.0 ==> progress == 1.0
    ensures x >= width ==> progress == 0.0
    ensures 0.0 <= x <= width ==> progress * width == width - x
  {
    var clamped := Clamp(0.0, width, x);
    DivideWithin(clamped, width);
    1.0 - clamped / width
  }

  lemma DivideWithin(a: real, w: real)
    requires w > 0.0 && 0.0 <= a <= w
    ensures 0.0 <= a / w <= 1.0
    ensures (1.0 - a / w) * w == w - a
  {
    assert a == (a / w) * w;
  }

  /** Dragging further right never increases the progress. */
  lemma DragMonotone(x1: real, x2: real, width: real)
    requires width > 0.0
    requires x1 <= x2
    ensures DragProgress(x2, width) <= DragProgress(x1, width)
  {
    var a1, a2 := Clamp(0.0, width, x1), Clamp(0.0, width, x2);
    ClampProperties(0.0, width, x1, x2);
    assert a2 / width - a1 / width == (a2 - a1) / width;
    assert (a2 - a1) / width >= 0.0;
  }

  /** A drag to the position that a progress value maps back to restores that
      progress: the drag mapping is onto [0, 1]. */
  lemma DragInverse(progress: real, width: real)
    requires width > 0.0
    requires 0.0 <= progress <= 1.0
    ensures DragProgress((1.0 - progress) * width, width) == progress
  {
    var q := 1.0 - progress;
    ScaleWithin(q, width);
    assert Clamp(0.0, width, q * width) == q * width;
  }

  lemma ScaleWithin(q: real, w: real)
    requires w > 0.0 && 0.0 <= q <= 1.0
    ensures 0.0 <= q * w <= w
    ensures (q * w) / w == q
  {
    assert w - q * w == (1.0 - q) * w;
  }

  /** Width 200: a drag to 50 gives 0.75 and a drag to 250 (past the right
      edge) gives 0. */
  lemma DragExamples()
    ensures DragProgress(50.0, 200.0) == 0.75
    ensures DragProgress(250.0, 200.0) == 0.0
  {
  }

  /** The view's state: only `progress` is modelled; the appearance settings
      never take part in the geometry. */
  class SliderComparison {
    var progress: real

    ghost predicate Valid()
      reads this
    {
      0.0 <= progress <= 1.0
    }

    /** `@State private var progress: CGFloat = 0.5`. */
    constructor ()
      ensures Valid()
      ensures progress == 0.5
    {
      progress := 0.5;
    }

    /** The intercept of the cut line the shapes draw for the current state.
        The state never leaves [0, 1], so the clamp in `intercept` leaves it
        unchanged and the line moves linearly with it. */
    function CurrentIntercept(rect: Rect): (c: real)
      reads this
      requires Valid()
      ensures c == (2.0 * progress - 1.0) * rect.height
    {
      assert Clamp01(progress) == progress;
      DiagonalGeometry.Intercept(progress, rect)
    }

    /** `initialProgress(_:)`: a copy of the view whose progress is the
        argument clamped to [0, 1]; the receiver is left as it was. */
    method InitialProgress(value: real) returns (copy: SliderComparison)
      ensures fresh(copy)
      ensures copy.Valid()
      ensures copy.progress == Clamp01(value)
      ensures 0.0 <= value <= 1.0 ==> copy.progress == value
      ensures value < 0.0 ==> copy.progress == 0.0
      ensures value > 1.0 ==> copy.progress == 1.0
    {
      copy := new SliderComparison();
      copy.progress := Clamp01(value);
    }

    /** The `onChanged` closure of the drag gesture: overwrites `progress` from
        the drag's x position and the width of the view. */
    method DragChanged(x: real, width: real)
      requires width > 0.0
      modifies this
      ensures Valid()
      ensures progress == DragProgress(x, width)
    {
      var clamped := Max(0.0, Min(width, x));
      progress := 1.0 - clamped / width;
    }
  }
}
