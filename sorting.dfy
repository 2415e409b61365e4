/** The two in-place sorts of the view (`unique.sort { ... }` on the edge
    crossings and `poly.sort { ... }` on the mask's vertices) call the Swift
    standard library with a strict "comes before" comparator. The library's
    algorithm is not visible; it is modelled by an insertion sort whose contract
    is what the library promises: the result is a permutation of the input in
    which no element comes before an element placed ahead of it. */
module Sorting {
  import opened Plane

  /** The comparator is asymmetric and its complement is transitive, which is
      what the Swift library asks of an `areInIncreasingOrder` closure. */
  ghost predicate StrictWeakOrder(less: (Point, Point) -> bool) {
    && (forall a, b :: less(a, b) ==> !less(b, a))
    && (forall a, b, c :: !less(b, a) && !less(c, b) ==> !less(c, a))
  }

  ghost predicate Sorted(s: seq<Point>, less: (Point, Point) -> bool) {
    forall i, j :: 0 <= i < j < |s| ==> !less(s[j], s[i])
  }

  /** Puts `x` in front of the first element of the sorted `s` that it comes before. */
  method InsertSorted(s: seq<Point>, x: Point, less: (Point, Point) -> bool) returns (r: seq<Point>)
    requires StrictWeakOrder(less)
    requires Sorted(s, less)
    ensures multiset(r) == multiset(s) + multiset{x}
    ensures Sorted(r, less)
  {
    var i := 0;
    while i < |s| && !less(x, s[i])
      invariant 0 <= i <= |s|
      invariant forall k :: 0 <= k < i ==> !less(x, s[k])
    {
      i := i + 1;
    }
    r := s[..i] + [x] + s[i..];
    assert s == s[..i] + s[i..];
    InsertionKeepsSorted(s, i, x, less);
  }

  /** Placing `x` after the elements it does not come before and ahead of the
      first one it does keeps a sorted sequence sorted. */
  lemma InsertionKeepsSorted(s: seq<Point>, i: int, x: Point, less: (Point, Point) -> bool)
    requires StrictWeakOrder(less)
    requires Sorted(s, less)
    requires 0 <= i <= |s|
    requires forall k :: 0 <= k < i ==> !less(x, s[k])
    requires i < |s| ==> less(x, s[i])
    ensures Sorted(s[..i] + [x] + s[i..], less)
  {
    var r := s[..i] + [x] + s[i..];
    forall k, l | 0 <= k < l < |r|
      ensures !less(r[l], r[k])
    {
      if l < i {
        assert r[k] == s[k] && r[l] == s[l];
      } else if l == i {
        assert r[l] == x && r[k] == s[k];
      } else if k == i {
        assert r[k] == x && r[l] == s[l - 1];
        assert !less(s[i], x);
        assert !less(s[l - 1], s[i]) by { if l - 1 > i { assert i < l - 1; } }
      } else if k < i {
        assert r[k] == s[k] && r[l] == s[l - 1];
      } else {
        assert r[k] == s[k - 1] && r[l] == s[l - 1];
      }
    }
  }

  method SortBy(s: seq<Point>, less: (Point, Point) -> bool) returns (r: seq<Point>)
    requires StrictWeakOrder(less)
    ensures multiset(r) == multiset(s)
    ensures Sorted(r, less)
  {
    r := [];
    for i := 0 to |s|
      invariant multiset(r) == multiset(s[..i])
      invariant Sorted(r, less)
    {
      r := InsertSorted(r, s[i], less);
      assert s[..i + 1] == s[..i] + [s[i]];
    }
    assert s[..|s|] == s;
  }
}
