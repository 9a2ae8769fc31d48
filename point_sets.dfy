/**
 * The linked-list point set of libCGeo and the operations that build, walk
 * and copy it.
 */
module PointSets {
  import opened Types
  import opened Predicates

  /**
   * A point set. `points` is the list from head to tail, in order; the
   * set's point count num_points is |points|.
   */
  class PointSet {
    var points: seq<Point>

    /** init_point_set: a new, empty set. */
    constructor ()
      ensures points == []
    {
      points := [];
    }
  }

  /**
   * add_point_to_set: append a point at the tail. A NULL set or a NULL point
   * is refused and nothing changes.
   */
  method AddPointToSet(s: PointSet?, p: Option<Point>) returns (e: Error)
    modifies s
    ensures s == null || p.None? ==> e == InvalidInput
    ensures s != null && p.None? ==> s.points == old(s.points)
    ensures s != null && p.Some? ==> e == Success
    ensures s != null && p.Some? ==> |s.points| == |old(s.points)| + 1
    ensures s != null && p.Some? ==> s.points[..|old(s.points)|] == old(s.points)
    ensures s != null && p.Some? ==> s.points[|old(s.points)|] == p.value
  {
    if s == null || p.None? {
      return InvalidInput;
    }
    s.points := s.points + [p.value];
    return Success;
  }

  /**
   * get_point_at_index: walk `index` nodes from the head. An index at or past
   * the count gives NULL; a negative index walks no node and gives the head
   * (the set must then not be empty, or the C reads through NULL).
   */
  method GetPointAtIndex(s: PointSet, index: int) returns (r: Option<Point>)
    requires index >= 0 || |s.points| > 0
    ensures index >= |s.points| ==> r == None
    ensures 0 <= index < |s.points| ==> r == Some(s.points[index])
    ensures index < 0 ==> r == Some(s.points[0])
  {
    if |s.points| <= index {
      return None;
    }
    var node := 0;
    var i := 0;
    while i < index
      invariant 0 <= i && node == i
      invariant index >= 0 ==> i <= index
      invariant index < 0 ==> i == 0
    {
      node := node + 1;
      i := i + 1;
    }
    return Some(s.points[node]);
  }

  /**
   * copy_point_set: append a copy of every point of `src`, in order, to
   * `dst`. Copying a set into itself would chase its own growing tail, so the
   * two sets must differ.
   */
  method CopyPointSet(src: PointSet?, dst: PointSet?) returns (e: Error)
    requires src == null || src != dst
    modifies dst
    ensures src == null || dst == null ==> e == InvalidInput
    ensures (src == null || dst == null) && dst != null ==> dst.points == old(dst.points)
    ensures src != null && dst != null ==> e == Success && dst.points == old(dst.points) + src.points
  {
    if src == null || dst == null {
      return InvalidInput;
    }
    var i := 0;
    while i < |src.points|
      invariant 0 <= i <= |src.points|
      invariant dst.points == old(dst.points) + src.points[..i]
    {
      var _ := AddPointToSet(dst, Some(src.points[i]));
      assert src.points[..i + 1] == src.points[..i] + [src.points[i]];
      i := i + 1;
    }
    assert src.points[..i] == src.points;
    return Success;
  }

  /**
   * find_lowest_point_in_set: the position of the pivot, or NULL for a NULL
   * or empty set. The C returns the point itself; since points are values
   * here, the pivot is identified by its position.
   */
  method FindLowestPointInSet(s: PointSet?) returns (r: Option<nat>)
    ensures s == null || |s.points| == 0 ==> r == None
    ensures s != null && |s.points| > 0 ==> r.Some? && IsLowest(s.points, r.value)
    ensures s != null && |s.points| > 0 ==> r == Some(LowestIndex(s.points))
  {
    if s == null || |s.points| == 0 {
      return None;
    }
    var pts := s.points;
    var best := 0;
    var node := 0;
    while node < |pts|
      invariant 0 <= node <= |pts|
      invariant best == LowestIndex(pts[..if node == 0 then 1 else node])
    {
      var cur := pts[node];
      if cur.y < pts[best].y {
        best := node;
      } else if cur.y == pts[best].y && cur.x < pts[best].x {
        best := node;
      }
      if node > 0 {
        assert pts[..node + 1][..node] == pts[..node];
        assert pts[..node + 1][node] == pts[node];
      }
      node := node + 1;
    }
    assert pts[..node] == pts;
    LowestIndexIsLowest(pts);
    return Some(best);
  }
}
