/**
 * The stable linked-list merge sort of libCGeo, ordering points by their
 * sort value.
 */
module Sorting {
  import opened Types
  import opened PointSets

  /** Non-decreasing by sort value. */
  predicate SortedByKey(s: seq<Point>)
  {
    forall i, j :: 0 <= i < j < |s| ==> s[i].key <= s[j].key
  }

  /** The points of s whose sort value is k, in their order in s. */
  function WithKey(s: seq<Point>, k: real): seq<Point>
    decreases |s|
  {
    if s == [] then []
    else (if s[0].key == k then [s[0]] else []) + WithKey(s[1..], k)
  }

  lemma {:induction false} WithKeyConcat(a: seq<Point>, b: seq<Point>, k: real)
    ensures WithKey(a + b, k) == WithKey(a, k) + WithKey(b, k)
    decreases |a|
  {
    if a == [] {
      assert a + b == b;
    } else {
      var head := if a[0].key == k then [a[0]] else [];
      assert (a + b)[0] == a[0] && (a + b)[1..] == a[1..] + b;
      assert WithKey(a + b, k) == head + WithKey(a[1..] + b, k);
      WithKeyConcat(a[1..], b, k);
      assert WithKey(a, k) == head + WithKey(a[1..], k);
    }
  }

  lemma {:induction false} WithKeyAbove(s: seq<Point>, k: real)
    requires forall i :: 0 <= i < |s| ==> s[i].key > k
    ensures WithKey(s, k) == []
    decreases |s|
  {
    if s != [] {
      WithKeyAbove(s[1..], k);
    }
  }

  /**
   * split_lists: walk one cursor a node at a time and another two nodes at a
   * time; when the fast one runs off the end, the slow one is at the last
   * node of the left half, where the list is cut. The list must not be empty.
   */
  method SplitLists(list: seq<Point>) returns (left: seq<Point>, right: seq<Point>)
    requires |list| >= 1
    ensures left + right == list
    ensures |left| == (|list| + 1) / 2 && |right| == |list| / 2
  {
    var n := |list|;
    var oneStep := 0;
    var twoStep := 1;
    while twoStep < n
      invariant (twoStep == 2 * oneStep + 1 && twoStep <= n) || (twoStep == 2 * oneStep + 2 && twoStep == n)
      decreases n - twoStep
    {
      twoStep := twoStep + 1;
      if twoStep < n {
        oneStep := oneStep + 1;
        twoStep := twoStep + 1;
      }
    }
    left := list[..oneStep + 1];
    right := list[oneStep + 1..];
  }

  /** Putting a point no larger than the head in front of a sorted list keeps it sorted. */
  lemma SortedCons(x: Point, t: seq<Point>)
    ensures SortedByKey(t) && (|t| > 0 ==> x.key <= t[0].key) ==> SortedByKey([x] + t)
  {
    if SortedByKey(t) && (|t| > 0 ==> x.key <= t[0].key) {
      forall i, j | 0 <= i < j < |[x] + t| ensures ([x] + t)[i].key <= ([x] + t)[j].key {
        if i > 0 {
          assert ([x] + t)[i] == t[i - 1];
        }
      }
    }
  }

  /**
   * merge_halves: merge two lists, taking from the left one while its head's
   * sort value is not larger than the right one's (so ties keep left first).
   */
  function MergeHalves(l: seq<Point>, r: seq<Point>): (m: seq<Point>)
    ensures |m| == |l| + |r|
    ensures multiset(m) == multiset(l) + multiset(r)
    ensures |m| > 0 ==> (|l| > 0 && m[0] == l[0]) || (|r| > 0 && m[0] == r[0])
    decreases |l| + |r|
  {
    if l == [] && r == [] then []
    else if l == [] then r
    else if r == [] then l
    else if l[0].key <= r[0].key then
      var t := MergeHalves(l[1..], r);
      assert multiset(l) == multiset([l[0]]) + multiset(l[1..]) by {
        assert l == [l[0]] + l[1..];
      }
      [l[0]] + t
    else
      var t := MergeHalves(l, r[1..]);
      assert multiset(r) == multiset([r[0]]) + multiset(r[1..]) by {
        assert r == [r[0]] + r[1..];
      }
      [r[0]] + t
  }

  /** Merging two sorted lists gives a sorted list. */
  lemma {:induction false} MergeHalvesSorted(l: seq<Point>, r: seq<Point>)
    requires SortedByKey(l) && SortedByKey(r)
    ensures SortedByKey(MergeHalves(l, r))
    decreases |l| + |r|
  {
    if l != [] && r != [] {
      if l[0].key <= r[0].key {
        MergeHalvesSorted(l[1..], r);
        SortedCons(l[0], MergeHalves(l[1..], r));
      } else {
        MergeHalvesSorted(l, r[1..]);
        SortedCons(r[0], MergeHalves(l, r[1..]));
      }
    }
  }

  /**
   * Merging keeps, for every sort value, the left list's points with that
   * value ahead of the right list's.
   */
  lemma {:induction false} MergeKeepsTies(l: seq<Point>, r: seq<Point>, k: real)
    requires SortedByKey(l) && SortedByKey(r)
    ensures WithKey(MergeHalves(l, r), k) == WithKey(l, k) + WithKey(r, k)
    decreases |l| + |r|
  {
    if l == [] {
      assert WithKey(l, k) + WithKey(r, k) == WithKey(r, k);
    } else if r == [] {
      assert WithKey(l, k) + WithKey(r, k) == WithKey(l, k);
    } else if l[0].key <= r[0].key {
      var t := MergeHalves(l[1..], r);
      var h := if l[0].key == k then [l[0]] else [];
      assert MergeHalves(l, r) == [l[0]] + t;
      MergeKeepsTies(l[1..], r, k);
      WithKeyCons(l[0], t, k);
      ConcatAssoc(h, WithKey(l[1..], k), WithKey(r, k));
    } else {
      var t := MergeHalves(l, r[1..]);
      var h := if r[0].key == k then [r[0]] else [];
      assert MergeHalves(l, r) == [r[0]] + t;
      MergeKeepsTies(l, r[1..], k);
      WithKeyCons(r[0], t, k);
      if r[0].key == k {
        WithKeyAbove(l, k);
        assert WithKey(l, k) + WithKey(r, k) == WithKey(r, k);
        assert WithKey(l, k) + WithKey(r[1..], k) == WithKey(r[1..], k);
      } else {
        assert WithKey(r, k) == WithKey(r[1..], k);
        assert h + (WithKey(l, k) + WithKey(r[1..], k)) == WithKey(l, k) + WithKey(r[1..], k);
      }
    }
  }

  lemma ConcatAssoc(a: seq<Point>, b: seq<Point>, c: seq<Point>)
    ensures a + (b + c) == (a + b) + c
  {
  }

  lemma WithKeyCons(x: Point, t: seq<Point>, k: real)
    ensures WithKey([x] + t, k) == (if x.key == k then [x] else []) + WithKey(t, k)
  {
    assert ([x] + t)[1..] == t;
  }

  /** Merging sorted lists keeps, for every sort value, the ties of the two sources one after the other. */
  lemma MergeIsStable(front: seq<Point>, back: seq<Point>, sf: seq<Point>, sb: seq<Point>)
    requires SortedByKey(sf) && SortedByKey(sb)
    requires forall k :: WithKey(sf, k) == WithKey(front, k)
    requires forall k :: WithKey(sb, k) == WithKey(back, k)
    ensures forall k :: WithKey(MergeHalves(sf, sb), k) == WithKey(front + back, k)
  {
    forall k ensures WithKey(MergeHalves(sf, sb), k) == WithKey(front + back, k) {
      MergeKeepsTies(sf, sb, k);
      WithKeyConcat(front, back, k);
    }
  }

  /**
   * sort_points as a function: split at ceil(n/2), sort both halves, merge.
   * The result is a sorted permutation, and the sort is stable: for every
   * sort value, the points with that value keep their order.
   */
  function MergeSort(list: seq<Point>): (r: seq<Point>)
    ensures |r| == |list|
    ensures multiset(r) == multiset(list)
    ensures SortedByKey(r)
    ensures forall k :: WithKey(r, k) == WithKey(list, k)
    decreases |list|
  {
    if |list| <= 1 then list
    else
      var m := (|list| + 1) / 2;
      var sf, sb := MergeSort(list[..m]), MergeSort(list[m..]);
      assert list == list[..m] + list[m..];
      MergeHalvesSorted(sf, sb);
      MergeIsStable(list[..m], list[m..], sf, sb);
      MergeHalves(sf, sb)
  }

  /**
   * sort_points: sort a list by sort value and hand back its new head. An
   * empty list is refused; the recursive calls' status is ignored, as in the
   * C.
   */
  method SortPoints(list: seq<Point>) returns (e: Error, sorted: seq<Point>)
    ensures list == [] ==> e == InvalidInput && sorted == []
    ensures list != [] ==> e == Success && sorted == MergeSort(list)
    ensures multiset(sorted) == multiset(list) && SortedByKey(sorted)
    decreases |list|
  {
    if |list| == 0 {
      return InvalidInput, list;
    }
    if |list| == 1 {
      return Success, list;
    }
    var left, right := SplitLists(list);
    assert left == list[..(|list| + 1) / 2] && right == list[(|list| + 1) / 2..];
    var _, l := SortPoints(left);
    var _, r := SortPoints(right);
    return Success, MergeHalves(l, r);
  }

  /**
   * sort_point_set: with no output set, sort the set in place; otherwise
   * append a copy of the set to the output set and sort the output set,
   * leaving the input set as it was. A NULL or empty set is refused. The
   * output set must not be the input set: the copy would never end.
   */
  method SortPointSet(s: PointSet?, out: PointSet?) returns (e: Error)
    requires s == null || s != out
    modifies s, out
    ensures s == null ==> e == InvalidInput
    ensures s != null && old(s.points) == [] ==> e == InvalidInput && s.points == old(s.points)
    ensures (s == null || old(s.points) == []) && out != null ==> out.points == old(out.points)
    ensures s != null && old(s.points) != [] && out == null ==>
              e == Success && s.points == MergeSort(old(s.points))
    ensures s != null && old(s.points) != [] && out != null ==>
              && e == Success && s.points == old(s.points)
              && out.points == MergeSort(old(out.points) + old(s.points))
  {
    if s == null || s.points == [] {
      return InvalidInput;
    }
    if out == null {
      var sorted;
      e, sorted := SortPoints(s.points);
      s.points := sorted;
    } else {
      e := CopyPointSet(s, out);
      if e == Success {
        var sorted;
        e, sorted := SortPoints(out.points);
        out.points := sorted;
      }
    }
  }
}
