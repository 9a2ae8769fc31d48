/**
 * The Graham-scan convex hull of libCGeo: the angle pass around the pivot,
 * the stack scan over the angularly sorted points, the collinear-degeneracy
 * reducer and the entry points.
 */
module ConvexHull {
  import opened Types
  import opened Predicates
  import opened PointSets
  import opened Sorting

  // ---------------------------------------------------------------------
  // The angle pass (compute_point_angles)
  // ---------------------------------------------------------------------

  /**
   * The points after a complete angle pass around the pivot at index piv:
   * the pivot's sort value is -1, every other point's is its angle from the
   * pivot; the tags say which. Nothing else about a point changes.
   */
  function Angled(pts: seq<Point>, piv: nat, arc: (int, int) -> real): (r: seq<Point>)
    requires piv < |pts|
    ensures |r| == |pts|
    ensures forall j :: 0 <= j < |pts| ==> SamePlace(r[j], pts[j])
  {
    seq(|pts|, j requires 0 <= j < |pts| =>
      if j == piv then pts[j].(key := -1.0, desc := PivotTag)
      else pts[j].(key := AngleBetween(pts[piv], pts[j], arc), desc := AngleTag))
  }

  /** Every point other than the pivot gets a valid (non-negative) angle. */
  predicate AnglesDefined(pts: seq<Point>, piv: nat, arc: (int, int) -> real)
    requires piv < |pts|
  {
    forall j :: 0 <= j < |pts| && j != piv ==> AngleBetween(pts[piv], pts[j], arc) >= 0.0
  }

  /** Some point other than the pivot sits in the pivot's place. */
  predicate HasPivotTwin(pts: seq<Point>, piv: nat)
    requires piv < |pts|
  {
    exists j :: 0 <= j < |pts| && j != piv && SamePlace(pts[j], pts[piv])
  }

  /**
   * The state the angle pass leaves when it stops at the first point f whose
   * angle is invalid: the pivot and the points before f are done, the rest
   * are untouched.
   */
  ghost predicate StoppedAt(pts: seq<Point>, piv: nat, arc: (int, int) -> real, f: int, now: seq<Point>)
    requires piv < |pts|
  {
    && 0 <= f < |pts| && f != piv
    && AngleBetween(pts[piv], pts[f], arc) < 0.0
    && (forall j :: 0 <= j < f && j != piv ==> AngleBetween(pts[piv], pts[j], arc) >= 0.0)
    && |now| == |pts|
    && (forall j :: 0 <= j < |pts| ==>
          now[j] == if j == piv || j < f then Angled(pts, piv, arc)[j] else pts[j])
  }

  /**
   * compute_point_angles, with the cursor advanced after every node (the C
   * loop never advances it). A NULL set is invalid input and an empty set
   * has too few points. The pass stops with invalid input at the first point
   * whose angle is undefined.
   */
  method ComputePointAngles(s: PointSet?, arc: (int, int) -> real) returns (e: Error)
    modifies s
    ensures s == null ==> e == InvalidInput
    ensures s != null && old(s.points) == [] ==> e == PointsTooFew && s.points == old(s.points)
    ensures s != null && old(s.points) != [] ==>
              var pts := old(s.points);
              var piv := LowestIndex(pts);
              && (e == Success || e == InvalidInput)
              && (e == Success <==> AnglesDefined(pts, piv, arc))
              && (e == Success ==> s.points == Angled(pts, piv, arc))
              && (e == InvalidInput ==> exists f :: StoppedAt(pts, piv, arc, f, s.points))
  {
    if s == null {
      return InvalidInput;
    }
    if |s.points| == 0 {
      return PointsTooFew;
    }
    var lowest := FindLowestPointInSet(s);
    var piv := lowest.value;
    ghost var pts := s.points;
    ghost var done := Angled(pts, piv, arc);
    var pivot := s.points[piv];
    s.points := s.points[piv := pivot.(key := -1.0, desc := PivotTag)];
    var node := 0;
    while node < |s.points|
      invariant 0 <= node <= |pts| && |s.points| == |pts|
      invariant forall j :: 0 <= j < |pts| ==>
                  s.points[j] == if j == piv || j < node then done[j] else pts[j]
      invariant forall j :: 0 <= j < node && j != piv ==> AngleBetween(pts[piv], pts[j], arc) >= 0.0
    {
      if node != piv {
        var angle := AngleBetween(pivot, s.points[node], arc);
        if angle < 0.0 {
          assert StoppedAt(pts, piv, arc, node, s.points);
          return InvalidInput;
        }
        s.points := s.points[node := s.points[node].(key := angle, desc := AngleTag)];
      }
      node := node + 1;
    }
    assert s.points == done;
    return Success;
  }

  /** The C loop of compute_point_angles: still running at a node, or returned. */
  datatype AngleLoop = Running(points: seq<Point>, node: nat) | Returned(status: Error)

  /**
   * One pass of the loop of compute_point_angles as written: with the cursor
   * past the end the loop stops with success; otherwise the angle of the
   * current node is checked and stored, but the cursor is not moved. The
   * pass goes on running exactly when the cursor is on the pivot or on a
   * node with a valid angle; it keeps every point's place.
   */
  function AngleLoopBodyAsWritten(st: AngleLoop, piv: nat, pivot: Point, arc: (int, int) -> real): (r: AngleLoop)
    ensures r.Running? ==> st.Running? && r.node == st.node && |r.points| == |st.points|
    ensures r.Running? ==> forall j :: 0 <= j < |st.points| ==> SamePlace(r.points[j], st.points[j])
    ensures st.Running? ==>
              (r.Running? <==>
                 st.node < |st.points| && (st.node == piv || AngleBetween(pivot, st.points[st.node], arc) >= 0.0))
    ensures st.Running? && r.Returned? ==> (r.status == Success <==> st.node >= |st.points|)
    ensures r.Returned? ==> r == st || r.status == InvalidInput || r.status == Success
  {
    match st
    case Returned(_) => st
    case Running(pts, node) =>
      if node >= |pts| then Returned(Success)
      else if node == piv then st
      else
        var angle := AngleBetween(pivot, pts[node], arc);
        if angle < 0.0 then Returned(InvalidInput)
        else Running(pts[node := pts[node].(key := angle, desc := AngleTag)], node)
  }

  /**
   * k passes of the loop body as written. However many passes run, a loop
   * still running has its cursor where it started and every point in its
   * place; one that returned did so with invalid input, or with success
   * only when its cursor started past the end.
   */
  function AngleLoopAsWritten(st: AngleLoop, piv: nat, pivot: Point, arc: (int, int) -> real, k: nat): (r: AngleLoop)
    ensures r.Running? ==> st.Running? && r.node == st.node && |r.points| == |st.points|
    ensures r.Running? ==> forall j :: 0 <= j < |st.points| ==> SamePlace(r.points[j], st.points[j])
    ensures r.Returned? ==>
              || r == st
              || r.status == InvalidInput
              || (r.status == Success && st.Running? && st.node >= |st.points|)
    decreases k
  {
    if k == 0 then st else AngleLoopAsWritten(AngleLoopBodyAsWritten(st, piv, pivot, arc), piv, pivot, arc, k - 1)
  }

  /**
   * As written, once the cursor stands on a node that is the pivot or has a
   * valid angle, no number of passes moves it or returns: the loop condition
   * (current node not NULL) holds forever.
   */
  lemma {:induction false} AngleLoopAsWrittenNeverEnds(pts: seq<Point>, node: nat, piv: nat, pivot: Point,
                                                     arc: (int, int) -> real, k: nat)
    requires node < |pts|
    requires node == piv || AngleBetween(pivot, pts[node], arc) >= 0.0
    ensures AngleLoopAsWritten(Running(pts, node), piv, pivot, arc, k).Running?
    ensures AngleLoopAsWritten(Running(pts, node), piv, pivot, arc, k).node == node
    decreases k
  {
    if k > 0 {
      var next := AngleLoopBodyAsWritten(Running(pts, node), piv, pivot, arc);
      assert next.Running? && next.node == node && |next.points| == |pts|;
      assert node != piv ==> next.points[node].x == pts[node].x && next.points[node].y == pts[node].y;
      AngleLoopAsWrittenNeverEnds(next.points, node, piv, pivot, arc, k - 1);
    }
  }

  /**
   * With the real angle, the pass succeeds exactly when no other point sits
   * in the pivot's place.
   */
  lemma AnglesDefinedIffNoTwin(pts: seq<Point>, arc: (int, int) -> real)
    requires |pts| > 0 && IsAngleMeasure(arc)
    ensures AnglesDefined(pts, LowestIndex(pts), arc) <==> !HasPivotTwin(pts, LowestIndex(pts))
  {
    var piv := LowestIndex(pts);
    LowestIndexIsLowest(pts);
    forall j | 0 <= j < |pts| && j != piv
      ensures AngleBetween(pts[piv], pts[j], arc) >= 0.0 <==> !SamePlace(pts[j], pts[piv])
    {
      AbovePivot(pts, piv, j);
    }
  }

  // ---------------------------------------------------------------------
  // The sorted sequence
  // ---------------------------------------------------------------------

  /**
   * The points in the order the scan sees them: angle pass, then stable
   * sort. They are the angled points, rearranged in order of sort value.
   */
  function SortedByAngle(pts: seq<Point>, arc: (int, int) -> real): (r: seq<Point>)
    requires |pts| > 0
    ensures |r| == |pts| && SortedByKey(r)
    ensures multiset(r) == multiset(Angled(pts, LowestIndex(pts), arc))
  {
    MergeSort(Angled(pts, LowestIndex(pts), arc))
  }

  /** A point that occurs once in s occurs at one position only. */
  lemma OccursOnce(s: seq<Point>, x: Point, i: int, k: int)
    requires multiset(s)[x] == 1
    requires 0 <= i < |s| && 0 <= k < |s| && s[i] == x && s[k] == x
    ensures i == k
  {
    if i < k {
      OccursTwice(s, x, i, k);
    } else if k < i {
      OccursTwice(s, x, k, i);
    }
  }

  lemma OccursTwice(s: seq<Point>, x: Point, lo: int, hi: int)
    requires 0 <= lo < hi < |s| && s[lo] == x && s[hi] == x
    ensures multiset(s)[x] >= 2
  {
    assert s == s[..hi] + [s[hi]] + s[hi + 1..];
    assert s[..hi][lo] == x;
  }

  /** A point that differs from every other entry of a occurs in a once. */
  lemma OnlyOccurrence(a: seq<Point>, u: nat)
    requires u < |a|
    requires forall j :: 0 <= j < |a| && j != u ==> a[j] != a[u]
    ensures multiset(a)[a[u]] == 1
  {
    assert a == a[..u] + [a[u]] + a[u + 1..];
    assert a[u] !in a[..u];
    assert a[u] !in a[u + 1..];
  }

  /** The pivot is the only point with a negative sort value, so it occurs once. */
  lemma NegativeOccursOnce(a: seq<Point>, piv: nat)
    requires piv < |a| && a[piv].key < 0.0
    requires forall j :: 0 <= j < |a| && j != piv ==> a[j].key >= 0.0
    ensures multiset(a)[a[piv]] == 1
  {
    OnlyOccurrence(a, piv);
  }

  /**
   * In a sorted rearrangement of a, the one point with a negative sort value
   * comes first, and every later point is one of the others.
   */
  lemma NegativeSortsFirst(a: seq<Point>, srt: seq<Point>, piv: nat)
    requires piv < |a| && a[piv].key < 0.0
    requires forall j :: 0 <= j < |a| && j != piv ==> a[j].key >= 0.0
    requires multiset(srt) == multiset(a) && SortedByKey(srt)
    ensures |srt| > 0 && srt[0] == a[piv]
    ensures forall i :: 1 <= i < |srt| ==> exists u :: 0 <= u < |a| && u != piv && srt[i] == a[u]
  {
    NegativeOccursOnce(a, piv);
    assert a[piv] in multiset(srt);
    var t :| 0 <= t < |srt| && srt[t] == a[piv];
    assert srt[0].key <= srt[t].key;
    assert srt[0] in multiset(a);
    var u0 :| 0 <= u0 < |a| && a[u0] == srt[0];
    assert u0 == piv;
    forall i | 1 <= i < |srt| ensures exists u :: 0 <= u < |a| && u != piv && srt[i] == a[u] {
      assert srt[i] in multiset(a);
      var u :| 0 <= u < |a| && a[u] == srt[i];
      if u == piv {
        OccursOnce(srt, a[piv], 0, i);
      }
    }
  }

  /**
   * After a successful angle pass and the sort, the pivot comes first and
   * every later point stems from a non-pivot point with a valid angle.
   */
  lemma PivotSortsFirst(pts: seq<Point>, arc: (int, int) -> real)
    requires |pts| > 0 && AnglesDefined(pts, LowestIndex(pts), arc)
    ensures var piv := LowestIndex(pts);
            var a := Angled(pts, piv, arc);
            var srt := MergeSort(a);
            && srt[0] == a[piv]
            && forall i :: 1 <= i < |srt| ==> exists u :: 0 <= u < |a| && u != piv && srt[i] == a[u]
  {
    var piv := LowestIndex(pts);
    var a := Angled(pts, piv, arc);
    assert forall j :: 0 <= j < |a| && j != piv ==> a[j].key >= 0.0;
    NegativeSortsFirst(a, MergeSort(a), piv);
  }

  /**
   * Every later point is never clockwise of an earlier one as seen from the
   * first: the order the stack scan needs so that it never pops its bottom
   * two entries.
   */
  predicate AngularFromFirst(sorted: seq<Point>)
  {
    forall i, j {:trigger TurnType(sorted[0], sorted[i], sorted[j])} ::
      1 <= i < j < |sorted| ==> TurnType(sorted[0], sorted[i], sorted[j]) != Right
  }

  /**
   * Two points with valid angles from the pivot, the first no larger than
   * the second, do not make a right turn with the pivot.
   */
  lemma AngleOrderIsTurnOrder(p: Point, q: Point, r: Point, arc: (int, int) -> real)
    requires IsAngleMeasure(arc)
    requires AngleBetween(p, q, arc) >= 0.0 && AngleBetween(p, r, arc) >= 0.0
    requires AngleBetween(p, q, arc) <= AngleBetween(p, r, arc)
    ensures TurnType(p, q, r) != Right
  {
    assert UpperDirection(q.x - p.x, q.y - p.y);
    assert UpperDirection(r.x - p.x, r.y - p.y);
    assert Orientation(p, q, r) >= 0;
    TurnMatchesOrientation(p, q, r);
  }

  /** The turn test reads only the coordinates. */
  lemma TurnIgnoresKeys(a: Point, b: Point, c: Point, a': Point, b': Point, c': Point)
    requires SamePlace(a, a') && SamePlace(b, b') && SamePlace(c, c')
    ensures TurnType(a, b, c) == TurnType(a', b', c')
  {
  }

  /** Two angled points in sort order do not make a right turn with the angled pivot. */
  lemma AngledPairTurn(pts: seq<Point>, piv: nat, arc: (int, int) -> real, u: nat, v: nat)
    requires IsAngleMeasure(arc) && piv < |pts| && AnglesDefined(pts, piv, arc)
    requires u < |pts| && v < |pts| && u != piv && v != piv
    requires Angled(pts, piv, arc)[u].key <= Angled(pts, piv, arc)[v].key
    ensures TurnType(Angled(pts, piv, arc)[piv], Angled(pts, piv, arc)[u], Angled(pts, piv, arc)[v]) != Right
  {
    var a := Angled(pts, piv, arc);
    AngleOrderIsTurnOrder(pts[piv], pts[u], pts[v], arc);
    TurnIgnoresKeys(a[piv], a[u], a[v], pts[piv], pts[u], pts[v]);
  }

  /** With the real angle, the sorted sequence is in angular order around the pivot, which comes first. */
  lemma SortedByAngleIsAngular(pts: seq<Point>, arc: (int, int) -> real)
    requires |pts| > 0 && IsAngleMeasure(arc) && AnglesDefined(pts, LowestIndex(pts), arc)
    ensures SamePlace(SortedByAngle(pts, arc)[0], pts[LowestIndex(pts)])
    ensures AngularFromFirst(SortedByAngle(pts, arc))
  {
    var piv := LowestIndex(pts);
    var a := Angled(pts, piv, arc);
    var srt := MergeSort(a);
    PivotSortsFirst(pts, arc);
    forall i, j | 1 <= i < j < |srt| ensures TurnType(srt[0], srt[i], srt[j]) != Right {
      var u :| 0 <= u < |a| && u != piv && srt[i] == a[u];
      var v :| 0 <= v < |a| && v != piv && srt[j] == a[v];
      assert srt[i].key <= srt[j].key;
      AngledPairTurn(pts, piv, arc, u, v);
    }
  }

  // ---------------------------------------------------------------------
  // The stack scan (the body of compute_graham_scan)
  // ---------------------------------------------------------------------

  /** Strictly increasing positions. */
  ghost predicate Increasing(picks: seq<nat>)
  {
    forall t, u :: 0 <= t < u < |picks| ==> picks[t] < picks[u]
  }

  /** picks gives, in increasing order, the positions in `sorted` of the points of `hull`. */
  ghost predicate PicksOf(hull: seq<Point>, sorted: seq<Point>, picks: seq<nat>)
  {
    && |picks| == |hull|
    && (forall k :: 0 <= k < |picks| ==> picks[k] < |sorted| && hull[k] == sorted[picks[k]])
    && Increasing(picks)
  }

  ghost predicate IsSubsequence(hull: seq<Point>, sorted: seq<Point>)
  {
    exists picks :: PicksOf(hull, sorted, picks)
  }

  /**
   * What the stack scan leaves: between 3 and n points, a subsequence of the
   * sorted points that starts with the first (the pivot) and ends with the
   * last, in which no three consecutive points make a right turn.
   */
  ghost predicate IsGrahamChain(sorted: seq<Point>, hull: seq<Point>)
  {
    && 3 <= |hull| <= |sorted|
    && hull[0] == sorted[0]
    && hull[|hull| - 1] == sorted[|sorted| - 1]
    && IsSubsequence(hull, sorted)
    && NoRightTurns(hull)
  }

  /** The turn made by the three consecutive entries of st from position k. */
  function TurnAt(st: seq<Point>, k: nat): Turn
    requires k + 2 < |st|
  {
    TurnType(st[k], st[k + 1], st[k + 2])
  }

  /** No three consecutive entries of st make a right turn. */
  ghost predicate NoRightTurns(st: seq<Point>)
  {
    forall k :: 0 <= k < |st| - 2 ==> TurnAt(st, k) != Right
  }

  /**
   * The stack contents st before the point at index `next` is handled: the
   * sorted points at the increasing positions picks, the first two of them
   * the first two sorted points, with no right turn.
   */
  ghost predicate StackState(st: seq<Point>, sorted: seq<Point>, picks: seq<nat>, next: nat)
  {
    && |st| >= 2
    && PicksOf(st, sorted, picks)
    && picks[0] == 0 && picks[1] == 1
    && (forall k :: 0 <= k < |picks| ==> picks[k] < next)
    && NoRightTurns(st)
  }

  /** Popping the top entry keeps the stack state. */
  lemma StackPop(st: seq<Point>, sorted: seq<Point>, picks: seq<nat>, next: nat)
    requires StackState(st, sorted, picks, next) && |st| >= 3
    ensures StackState(st[..|st| - 1], sorted, picks[..|picks| - 1], next)
  {
    var st2 := st[..|st| - 1];
    assert forall k :: 0 <= k < |st2| - 2 ==> TurnAt(st2, k) == TurnAt(st, k);
  }

  /** Pushing the next point keeps the stack state when it makes no right turn with the top two. */
  lemma StackPush(st: seq<Point>, sorted: seq<Point>, picks: seq<nat>, next: nat)
    requires StackState(st, sorted, picks, next) && next < |sorted|
    requires TurnType(st[|st| - 2], st[|st| - 1], sorted[next]) != Right
    ensures StackState(st + [sorted[next]], sorted, picks + [next], next + 1)
  {
    var st2, picks2 := st + [sorted[next]], picks + [next];
    assert forall k :: 0 <= k < |st| - 2 ==> TurnAt(st2, k) == TurnAt(st, k);
    assert TurnAt(st2, |st| - 2) != Right;
    assert PicksOf(st2, sorted, picks2);
  }

  /**
   * In angular order the bottom two entries and any later point make no
   * right turn, so the pop loop only pops when there are at least three
   * entries.
   */
  lemma PopLeavesBottom(st: seq<Point>, sorted: seq<Point>, picks: seq<nat>, next: nat)
    requires StackState(st, sorted, picks, next) && next < |sorted|
    requires AngularFromFirst(sorted)
    requires TurnType(st[|st| - 2], st[|st| - 1], sorted[next]) == Right
    ensures |st| >= 3
  {
    assert 1 <= picks[1] < next;
  }

  /** The first three sorted points make a valid stack. */
  lemma StackSeed(sorted: seq<Point>)
    requires |sorted| >= 3 && AngularFromFirst(sorted)
    ensures StackState([sorted[0], sorted[1], sorted[2]], sorted, [0, 1, 2], 3)
  {
    assert TurnType(sorted[0], sorted[1], sorted[2]) != Right;
  }

  /** The stack left after the last point is pushed is a Graham chain. */
  lemma StackIsChain(st: seq<Point>, sorted: seq<Point>, picks: seq<nat>)
    requires StackState(st, sorted, picks, |sorted|) && |st| >= 3 && picks[|st| - 1] == |sorted| - 1
    ensures IsGrahamChain(sorted, st)
  {
    assert |st| <= |sorted| by {
      PicksAscend(picks);
    }
  }

  /**
   * No two points after the first lie on one ray from it: seen from the
   * first point, every later point is strictly counter-clockwise of every
   * earlier one.
   */
  predicate StrictlyAngular(sorted: seq<Point>)
  {
    forall i, j {:trigger TurnType(sorted[0], sorted[i], sorted[j])} ::
      1 <= i < j < |sorted| ==> TurnType(sorted[0], sorted[i], sorted[j]) == Left
  }

  /**
   * The turn from edge k of the closed polygon hull, which runs from hull[k]
   * to the next corner (back to hull[0] after the last), to the point x.
   */
  function EdgeTurn(hull: seq<Point>, k: nat, x: Point): Turn
    requires k < |hull|
  {
    TurnType(hull[k], hull[if k + 1 < |hull| then k + 1 else 0], x)
  }

  /**
   * The closed polygon hull encloses pts: every point of pts lies on or to
   * the left of every edge, so hull, run counter-clockwise, has them all
   * inside or on its boundary.
   */
  ghost predicate Encloses(hull: seq<Point>, pts: seq<Point>)
  {
    forall m, k :: 0 <= m < |pts| && 0 <= k < |hull| ==> EdgeTurn(hull, k, pts[m]) != Right
  }

  /** The sorted points before position `upto` lie on or left of every edge of the open chain st. */
  ghost predicate ChainEncloses(st: seq<Point>, sorted: seq<Point>, upto: nat)
  {
    && upto <= |sorted|
    && forall m, k :: 0 <= m < upto && 0 <= k < |st| - 1 ==> EdgeTurn(st, k, sorted[m]) != Right
  }

  /**
   * During the pop loop for sorted[next]: the sorted points after the top
   * entry's position, all of them already popped, lie on or left of the
   * edge from the top entry to sorted[next].
   */
  ghost predicate PoppedLeft(st: seq<Point>, sorted: seq<Point>, picks: seq<nat>, next: nat)
  {
    && |st| > 0 && |picks| > 0 && next < |sorted|
    && forall m :: picks[|picks| - 1] < m < next ==> TurnType(st[|st| - 1], sorted[next], sorted[m]) != Right
  }

  /** The seed triple encloses itself. */
  lemma SeedEncloses(sorted: seq<Point>)
    requires |sorted| >= 3 && AngularFromFirst(sorted)
    ensures ChainEncloses([sorted[0], sorted[1], sorted[2]], sorted, 3)
  {
    var st := [sorted[0], sorted[1], sorted[2]];
    assert TurnType(sorted[0], sorted[1], sorted[2]) != Right;
    TurnRotation(sorted[0], sorted[1], sorted[2]);
    forall m, k | 0 <= m < 3 && 0 <= k < 2 ensures EdgeTurn(st, k, sorted[m]) != Right {
      if m == k || m == k + 1 {
        CoincidentIsInline(st[k], st[k + 1], sorted[m]);
      }
    }
  }

  /**
   * Popping the top entry b of the stack, because its predecessor a, b and
   * q = sorted[next] turn right: the chain still encloses what it did, and
   * every point after a's position lies on or left of the shortcut a -> q.
   */
  lemma PopEncloses(st: seq<Point>, sorted: seq<Point>, picks: seq<nat>, next: nat)
    requires StackState(st, sorted, picks, next) && |st| >= 3 && next < |sorted|
    requires StrictlyAngular(sorted) && ChainEncloses(st, sorted, next)
    requires TurnType(st[|st| - 2], st[|st| - 1], sorted[next]) == Right
    ensures ChainEncloses(st[..|st| - 1], sorted, next)
    ensures PoppedLeft(st[..|st| - 1], sorted, picks[..|picks| - 1], next)
  {
    var top := |st| - 1;
    var st2 := st[..top];
    forall m, k | 0 <= m < next && 0 <= k < |st2| - 1 ensures EdgeTurn(st2, k, sorted[m]) != Right {
      assert EdgeTurn(st2, k, sorted[m]) == EdgeTurn(st, k, sorted[m]);
    }
    var p, a, b, q := sorted[0], st[top - 1], st[top], sorted[next];
    assert 1 <= picks[top - 1] < picks[top] < next;
    assert TurnType(p, a, b) == Left && TurnType(p, a, q) == Left;
    forall m | picks[top - 1] < m < next ensures TurnType(a, q, sorted[m]) != Right {
      assert EdgeTurn(st, top - 1, sorted[m]) != Right;
      assert TurnType(p, a, sorted[m]) == Left;
      LeftOfShortcut(p, a, b, q, sorted[m]);
    }
  }

  /**
   * When the top two entries and q = sorted[next] turn left or not at all,
   * q lies on or left of every edge of the stack: going down the convex
   * chain, each edge inherits it from the one above.
   */
  lemma {:induction false} PushedLeftOfChain(st: seq<Point>, sorted: seq<Point>, picks: seq<nat>, next: nat, k: nat)
    requires StackState(st, sorted, picks, next) && next < |sorted| && StrictlyAngular(sorted)
    requires TurnType(st[|st| - 2], st[|st| - 1], sorted[next]) != Right
    requires k < |st| - 1
    ensures TurnType(st[k], st[k + 1], sorted[next]) != Right
    decreases |st| - k
  {
    if k < |st| - 2 {
      PushedLeftOfChain(st, sorted, picks, next, k + 1);
      var p, a, b, c, q := sorted[0], st[k], st[k + 1], st[k + 2], sorted[next];
      assert TurnAt(st, k) != Right;
      assert 1 <= picks[k + 1] < picks[k + 2] < next;
      assert TurnType(p, b, c) == Left && TurnType(p, b, q) == Left;
      if k == 0 {
        CoincidentIsInline(p, a, b);
      } else {
        assert 1 <= picks[k] < picks[k + 1];
        assert TurnType(p, a, b) == Left;
      }
      LeftOfEarlierEdge(p, a, b, c, q);
    }
  }

  /**
   * The new edge from the top entry c to q = sorted[next] has every sorted
   * point up to q on or left of it.
   */
  lemma NewEdgeEncloses(st: seq<Point>, sorted: seq<Point>, picks: seq<nat>, next: nat, m: nat)
    requires StackState(st, sorted, picks, next) && next < |sorted| && StrictlyAngular(sorted)
    requires ChainEncloses(st, sorted, next) && PoppedLeft(st, sorted, picks, next)
    requires TurnType(st[|st| - 2], st[|st| - 1], sorted[next]) != Right
    requires m <= next
    ensures TurnType(st[|st| - 1], sorted[next], sorted[m]) != Right
  {
    var top := |st| - 1;
    var p, c, q, x := sorted[0], st[top], sorted[next], sorted[m];
    assert 1 <= picks[top] < next;
    if m == next {
      CoincidentIsInline(c, q, x);
    } else if m > picks[top] {
    } else if m == picks[top] {
      CoincidentIsInline(c, q, x);
    } else if top == 1 {
      assert m == 0;
      assert TurnType(p, c, q) == Left;
      TurnRotation(p, c, q);
    } else {
      var a := st[top - 1];
      assert 1 <= picks[top - 1] < picks[top];
      assert TurnType(p, a, c) == Left && TurnType(p, c, q) == Left;
      assert EdgeTurn(st, top - 1, x) != Right;
      if m == 0 {
        CoincidentIsInline(p, x, c);
      } else {
        assert TurnType(p, x, c) == Left;
      }
      LeftOfNewEdge(p, a, c, q, x);
    }
  }

  /** Pushing q = sorted[next] after the pop loop keeps every sorted point up to q enclosed by the chain. */
  lemma PushEncloses(st: seq<Point>, sorted: seq<Point>, picks: seq<nat>, next: nat)
    requires StackState(st, sorted, picks, next) && next < |sorted| && StrictlyAngular(sorted)
    requires ChainEncloses(st, sorted, next) && PoppedLeft(st, sorted, picks, next)
    requires TurnType(st[|st| - 2], st[|st| - 1], sorted[next]) != Right
    ensures ChainEncloses(st + [sorted[next]], sorted, next + 1)
  {
    var top := |st| - 1;
    var st2 := st + [sorted[next]];
    forall m, k | 0 <= m < next + 1 && 0 <= k < |st2| - 1 ensures EdgeTurn(st2, k, sorted[m]) != Right {
      if k == top {
        NewEdgeEncloses(st, sorted, picks, next, m);
      } else if m == next {
        PushedLeftOfChain(st, sorted, picks, next, k);
      } else {
        assert EdgeTurn(st2, k, sorted[m]) == EdgeTurn(st, k, sorted[m]);
      }
    }
  }

  /**
   * The final stack, ending with the last sorted point, encloses all sorted
   * points: its closing edge back to the pivot has them on its left by the
   * angular order.
   */
  lemma StackEncloses(st: seq<Point>, sorted: seq<Point>, picks: seq<nat>)
    requires StackState(st, sorted, picks, |sorted|) && picks[|st| - 1] == |sorted| - 1
    requires AngularFromFirst(sorted) && ChainEncloses(st, sorted, |sorted|)
    ensures Encloses(st, sorted)
  {
    var n, top := |sorted|, |st| - 1;
    forall m, k | 0 <= m < n && 0 <= k < |st| ensures EdgeTurn(st, k, sorted[m]) != Right {
      if k == top {
        var p, x, last := sorted[0], sorted[m], sorted[n - 1];
        assert EdgeTurn(st, k, x) == TurnType(last, p, x);
        TurnRotation(x, last, p);
        TurnRotation(p, x, last);
        if m == 0 || m == n - 1 {
          CoincidentIsInline(p, x, last);
        } else {
          assert TurnType(p, x, last) != Right;
        }
      }
    }
  }

  /**
   * The pop loop as a function: drop the top entry while the entry below it,
   * the top entry and q turn right (never below two entries: the C would
   * read below the bottom of the stack there).
   */
  function PopRight(st: seq<Point>, q: Point): seq<Point>
    decreases |st|
  {
    if |st| >= 2 && TurnType(st[|st| - 2], st[|st| - 1], q) == Right then PopRight(st[..|st| - 1], q) else st
  }

  /** The stack once the sorted points from position next on have been handled, starting from st. */
  function ScanFrom(st: seq<Point>, sorted: seq<Point>, next: nat): seq<Point>
    decreases |sorted| - next
  {
    if next >= |sorted| then st else ScanFrom(PopRight(st, sorted[next]) + [sorted[next]], sorted, next + 1)
  }

  /** The stack the scan leaves on the sorted points, seeded with the first three. */
  function GrahamStack(sorted: seq<Point>): seq<Point>
    requires |sorted| >= 3
  {
    ScanFrom(sorted[..3], sorted, 3)
  }

  /**
   * The state of the pop loop for sorted[next]: a valid stack that, in
   * strict angular order, encloses the points handled so far and has the
   * points it popped on or left of the edge from its top to sorted[next].
   */
  ghost predicate PopState(st: seq<Point>, sorted: seq<Point>, picks: seq<nat>, next: nat)
  {
    && next < |sorted| && StackState(st, sorted, picks, next)
    && (StrictlyAngular(sorted) ==> ChainEncloses(st, sorted, next) && PoppedLeft(st, sorted, picks, next))
  }

  /** One pop: the stack had at least three entries, and the pop state and the pop loop's result are kept. */
  lemma PopStep(st: seq<Point>, sorted: seq<Point>, picks: seq<nat>, next: nat)
    requires PopState(st, sorted, picks, next) && AngularFromFirst(sorted)
    requires TurnType(st[|st| - 2], st[|st| - 1], sorted[next]) == Right
    ensures |st| >= 3 && PopState(st[..|st| - 1], sorted, picks[..|picks| - 1], next)
    ensures PopRight(st[..|st| - 1], sorted[next]) == PopRight(st, sorted[next])
  {
    PopLeavesBottom(st, sorted, picks, next);
    StackPop(st, sorted, picks, next);
    if StrictlyAngular(sorted) {
      PopEncloses(st, sorted, picks, next);
    }
  }

  /**
   * The pop loop of compute_graham_scan for the point p = sorted[next]:
   * lower the top of the stack array while the two top entries and p turn
   * right. The stack left is the function PopRight of the one given.
   */
  method PopWhileRight(stack: array<Point>, top: nat, p: Point, ghost sorted: seq<Point>,
                       ghost picks: seq<nat>, ghost next: nat)
    returns (top': nat, ghost picks': seq<nat>)
    requires top < stack.Length && AngularFromFirst(sorted)
    requires PopState(stack[..top + 1], sorted, picks, next) && p == sorted[next]
    ensures 1 <= top' <= top && stack[..top' + 1] == PopRight(stack[..top + 1], p)
    ensures TurnType(stack[top' - 1], stack[top'], p) != Right
    ensures PopState(stack[..top' + 1], sorted, picks', next)
  {
    top', picks' := top, picks;
    ghost var st := stack[..top + 1];
    ghost var left := PopRight(st, p);
    while TurnType(stack[top' - 1], stack[top'], p) == Right
      invariant 1 <= top' <= top
      invariant stack[..top' + 1] == st
      invariant PopState(st, sorted, picks', next)
      invariant PopRight(st, p) == left
      decreases top'
    {
      PopStep(st, sorted, picks', next);
      st, picks' := st[..|st| - 1], picks'[..|picks'| - 1];
      top' := top' - 1;
    }
  }

  /** One step of ScanFrom: pop for the next point, then push it. */
  lemma ScanFromStep(st: seq<Point>, sorted: seq<Point>, next: nat)
    requires next < |sorted|
    ensures ScanFrom(st, sorted, next) == ScanFrom(PopRight(st, sorted[next]) + [sorted[next]], sorted, next + 1)
  {
  }

  /** The scan state before a point is the pop state for it: nothing has been popped yet. */
  lemma ScanStateIsPopState(st: seq<Point>, sorted: seq<Point>, picks: seq<nat>, next: nat)
    requires ScanState(st, sorted, picks, next) && next < |sorted|
    ensures PopState(st, sorted, picks, next)
  {
  }

  /**
   * Pushing the next point after the pop loop, which left st' from st,
   * moves the scan state on to the following point.
   */
  lemma PushStep(st: seq<Point>, st': seq<Point>, sorted: seq<Point>, picks: seq<nat>, next: nat)
    requires 3 <= next < |sorted| && ScanFrom(st, sorted, next) == GrahamStack(sorted)
    requires st' == PopRight(st, sorted[next]) && PopState(st', sorted, picks, next)
    requires TurnType(st'[|st'| - 2], st'[|st'| - 1], sorted[next]) != Right
    ensures |st'| <= next
    ensures ScanState(st' + [sorted[next]], sorted, picks + [next], next + 1)
  {
    ScanFromStep(st, sorted, next);
    StackPush(st', sorted, picks, next);
    PicksAscend(picks);
    if StrictlyAngular(sorted) {
      PushEncloses(st', sorted, picks, next);
    }
  }

  /**
   * The state of the scan before sorted[next] is handled: a valid stack
   * whose top is the point before, from which the rest of the scan leads to
   * GrahamStack(sorted), and which in strict angular order encloses the
   * points handled so far.
   */
  ghost predicate ScanState(st: seq<Point>, sorted: seq<Point>, picks: seq<nat>, next: nat)
  {
    && 3 <= next <= |sorted|
    && StackState(st, sorted, picks, next) && picks[|picks| - 1] == next - 1
    && ScanFrom(st, sorted, next) == GrahamStack(sorted)
    && (StrictlyAngular(sorted) ==> ChainEncloses(st, sorted, next))
  }

  /**
   * One round of the scan: the pop loop for p = sorted[next], then the push
   * of p on the array.
   */
  method ScanPoint(stack: array<Point>, top: nat, sorted: seq<Point>, ghost picks: seq<nat>, next: nat)
    returns (top': nat, ghost picks': seq<nat>)
    requires top < stack.Length == |sorted| && next < |sorted| && AngularFromFirst(sorted)
    requires ScanState(stack[..top + 1], sorted, picks, next)
    modifies stack
    ensures top' < next + 1 && ScanState(stack[..top' + 1], sorted, picks', next + 1)
    ensures stack[..top' + 1] == PopRight(old(stack[..top + 1]), sorted[next]) + [sorted[next]]
  {
    var p := sorted[next];
    ghost var st := stack[..top + 1];
    ScanStateIsPopState(st, sorted, picks, next);
    top', picks' := PopWhileRight(stack, top, p, sorted, picks, next);
    ghost var st' := stack[..top' + 1];
    PushStep(st, st', sorted, picks', next);
    top' := top' + 1;
    stack[top'] := p;
    assert stack[..top' + 1] == st' + [p];
    picks' := picks' + [next];
  }

  /**
   * The stack scan of compute_graham_scan on the sorted points: seed an
   * array of n entries with the first three points, then for every further
   * point pop while the top two entries and the point turn right, and push
   * the point. The angular order keeps the pop loop from going below the
   * second entry, and each point is pushed once, so the stack never
   * overflows. When no two points share a ray from the pivot, the result
   * is a convex polygon that encloses every sorted point.
   */
  method ScanStack(sorted: seq<Point>) returns (hull: seq<Point>)
    requires |sorted| >= 3
    requires AngularFromFirst(sorted)
    ensures hull == GrahamStack(sorted)
    ensures IsGrahamChain(sorted, hull)
    ensures StrictlyAngular(sorted) ==> Encloses(hull, sorted)
  {
    var n := |sorted|;
    var stack := new Point[n];
    stack[0] := sorted[0];
    stack[1] := sorted[1];
    stack[2] := sorted[2];
    var next := 3;
    var top: nat := 2;
    ghost var picks: seq<nat> := [0, 1, 2];
    assert stack[..top + 1] == sorted[..3];
    SeedState(sorted);
    while next < n
      invariant 3 <= next <= n && top < next
      invariant ScanState(stack[..top + 1], sorted, picks, next)
    {
      top, picks := ScanPoint(stack, top, sorted, picks, next);
      next := next + 1;
    }
    hull := stack[..top + 1];
    FinalState(hull, sorted, picks);
  }

  /** The seed triple is a valid start of the scan. */
  lemma SeedState(sorted: seq<Point>)
    requires |sorted| >= 3 && AngularFromFirst(sorted)
    ensures ScanState(sorted[..3], sorted, [0, 1, 2], 3)
  {
    StackSeed(sorted);
    SeedEncloses(sorted);
    assert sorted[..3] == [sorted[0], sorted[1], sorted[2]];
  }

  /** The state after the last point: the stack is the scan's result, a Graham chain, and in strict angular order it encloses every point. */
  lemma FinalState(st: seq<Point>, sorted: seq<Point>, picks: seq<nat>)
    requires ScanState(st, sorted, picks, |sorted|) && AngularFromFirst(sorted)
    ensures st == GrahamStack(sorted)
    ensures IsGrahamChain(sorted, st)
    ensures StrictlyAngular(sorted) ==> Encloses(st, sorted)
  {
    StackIsChain(st, sorted, picks);
    if StrictlyAngular(sorted) {
      StackEncloses(st, sorted, picks);
    }
  }

  // ---------------------------------------------------------------------
  // From the input set to the hull
  // ---------------------------------------------------------------------

  /** No two points other than the pivot lie on one ray from it (nor in one place). */
  predicate NoSharedRay(pts: seq<Point>, piv: nat)
    requires piv < |pts|
  {
    forall u, v {:trigger TurnType(pts[piv], pts[u], pts[v])} ::
      0 <= u < |pts| && 0 <= v < |pts| && u != v && u != piv && v != piv ==>
        TurnType(pts[piv], pts[u], pts[v]) != Inline
  }

  /** Without shared rays, every angled point other than the pivot occurs in the angled sequence once. */
  lemma AngledOccursOnce(pts: seq<Point>, arc: (int, int) -> real, u: nat)
    requires |pts| > 0 && AnglesDefined(pts, LowestIndex(pts), arc)
    requires NoSharedRay(pts, LowestIndex(pts))
    requires u < |pts| && u != LowestIndex(pts)
    ensures multiset(Angled(pts, LowestIndex(pts), arc))[Angled(pts, LowestIndex(pts), arc)[u]] == 1
  {
    var piv := LowestIndex(pts);
    var a := Angled(pts, piv, arc);
    forall j | 0 <= j < |a| && j != u ensures a[j] != a[u] {
      if j != piv && SamePlace(pts[u], pts[j]) {
        CoincidentIsInline(pts[piv], pts[u], pts[j]);
      }
    }
    OnlyOccurrence(a, u);
  }

  /**
   * With the real angle and no two points on one ray from the pivot, every
   * later sorted point is strictly counter-clockwise of every earlier one
   * as seen from the pivot.
   */
  lemma NoSharedRayIsStrict(pts: seq<Point>, arc: (int, int) -> real)
    requires |pts| > 0 && IsAngleMeasure(arc) && AnglesDefined(pts, LowestIndex(pts), arc)
    requires NoSharedRay(pts, LowestIndex(pts))
    ensures StrictlyAngular(SortedByAngle(pts, arc))
  {
    var srt := SortedByAngle(pts, arc);
    forall i, j | 1 <= i < j < |srt| ensures TurnType(srt[0], srt[i], srt[j]) == Left {
      StrictPair(pts, arc, i, j);
    }
  }

  /** Each later sorted point stems from an angled point other than the pivot. */
  lemma SortedOrigin(pts: seq<Point>, arc: (int, int) -> real, i: nat) returns (u: nat)
    requires |pts| > 0 && AnglesDefined(pts, LowestIndex(pts), arc) && 1 <= i < |pts|
    ensures u < |pts| && u != LowestIndex(pts)
    ensures SortedByAngle(pts, arc)[i] == Angled(pts, LowestIndex(pts), arc)[u]
  {
    var piv := LowestIndex(pts);
    var a := Angled(pts, piv, arc);
    var srt := MergeSort(a);
    PivotSortsFirst(pts, arc);
    u :| 0 <= u < |a| && u != piv && srt[i] == a[u];
  }

  /** One pair of later sorted points, taken from two rays, makes a left turn with the first. */
  lemma StrictPair(pts: seq<Point>, arc: (int, int) -> real, i: nat, j: nat)
    requires |pts| > 0 && IsAngleMeasure(arc) && AnglesDefined(pts, LowestIndex(pts), arc)
    requires NoSharedRay(pts, LowestIndex(pts)) && 1 <= i < j < |pts|
    ensures TurnType(SortedByAngle(pts, arc)[0], SortedByAngle(pts, arc)[i], SortedByAngle(pts, arc)[j]) == Left
  {
    var piv := LowestIndex(pts);
    var a := Angled(pts, piv, arc);
    var srt := SortedByAngle(pts, arc);
    var u := SortedOrigin(pts, arc, i);
    var v := SortedOrigin(pts, arc, j);
    SortedByAngleIsAngular(pts, arc);
    assert TurnType(srt[0], srt[i], srt[j]) != Right;
    if u == v {
      AngledOccursOnce(pts, arc, u);
      OccursOnce(srt, a[u], i, j);
    }
    assert TurnType(pts[piv], pts[u], pts[v]) != Inline;
    TurnIgnoresKeys(srt[0], srt[i], srt[j], pts[piv], pts[u], pts[v]);
  }

  /** Every input point has a sorted point in its place. */
  lemma SortedCovers(pts: seq<Point>, arc: (int, int) -> real, m: nat) returns (t: nat)
    requires |pts| > 0 && m < |pts|
    ensures t < |SortedByAngle(pts, arc)| && SamePlace(SortedByAngle(pts, arc)[t], pts[m])
  {
    var a := Angled(pts, LowestIndex(pts), arc);
    var srt := MergeSort(a);
    assert a[m] in multiset(a);
    assert a[m] in multiset(srt);
    t :| 0 <= t < |srt| && srt[t] == a[m];
  }

  /** Which side of an edge a point lies on depends only on its place. */
  lemma EdgeTurnIgnoresKeys(hull: seq<Point>, k: nat, x: Point, y: Point)
    requires k < |hull| && SamePlace(x, y)
    ensures EdgeTurn(hull, k, x) == EdgeTurn(hull, k, y)
  {
    var l := if k + 1 < |hull| then k + 1 else 0;
    TurnIgnoresKeys(hull[k], hull[l], x, hull[k], hull[l], y);
  }

  /** A polygon that encloses the sorted points encloses the input points, which sit in the same places. */
  lemma EnclosesInput(pts: seq<Point>, arc: (int, int) -> real, hull: seq<Point>)
    requires |pts| > 0 && Encloses(hull, SortedByAngle(pts, arc))
    ensures Encloses(hull, pts)
  {
    var srt := SortedByAngle(pts, arc);
    forall m, k | 0 <= m < |pts| && 0 <= k < |hull| ensures EdgeTurn(hull, k, pts[m]) != Right {
      var t := SortedCovers(pts, arc, m);
      EdgeTurnIgnoresKeys(hull, k, srt[t], pts[m]);
    }
  }

  /**
   * The input-level containment promise: when no two points share a ray
   * from the pivot, the stack the scan leaves encloses every input point.
   */
  lemma HullEnclosesInput(pts: seq<Point>, arc: (int, int) -> real, hull: seq<Point>)
    requires |pts| > 0 && IsAngleMeasure(arc) && AnglesDefined(pts, LowestIndex(pts), arc)
    requires StrictlyAngular(SortedByAngle(pts, arc)) ==> Encloses(hull, SortedByAngle(pts, arc))
    ensures NoSharedRay(pts, LowestIndex(pts)) ==> Encloses(hull, pts)
  {
    if NoSharedRay(pts, LowestIndex(pts)) {
      NoSharedRayIsStrict(pts, arc);
      EnclosesInput(pts, arc, hull);
    }
  }

  /**
   * Five points in angular order around the pivot (0, 0) of which the last
   * three share the ray up the y axis, sorted nearest-last as a stable sort
   * leaves them when the input lists them so.
   */
  function TiedRay(): seq<Point>
  {
    [Point(0, 0, -1.0, PivotTag), Point(2, 1, 0.5, AngleTag), Point(0, 2, 1.5, AngleTag),
     Point(0, 1, 1.5, AngleTag), Point(0, 3, 1.5, AngleTag)]
  }

  /** The five points of TiedRay. */
  lemma TiedRayPoints()
    ensures |TiedRay()| == 5
    ensures TiedRay()[0] == Point(0, 0, -1.0, PivotTag) && TiedRay()[1] == Point(2, 1, 0.5, AngleTag)
    ensures TiedRay()[2] == Point(0, 2, 1.5, AngleTag) && TiedRay()[3] == Point(0, 1, 1.5, AngleTag)
    ensures TiedRay()[4] == Point(0, 3, 1.5, AngleTag)
  {
  }

  /** TiedRay is in angular order around its first point, and its third and fourth points share a ray from it. */
  lemma TiedRayIsAngular()
    ensures AngularFromFirst(TiedRay())
    ensures TurnType(TiedRay()[0], TiedRay()[2], TiedRay()[3]) == Inline
  {
    var s := TiedRay();
    TiedRayPoints();
    forall i, j | 1 <= i < j < |s| ensures TurnType(s[0], s[i], s[j]) != Right {
      assert (i, j) in {(1, 2), (1, 3), (1, 4), (2, 3), (2, 4), (3, 4)};
    }
  }

  /** The scan from the first k sorted points pops nothing when the sorted points make no right turn. */
  lemma {:induction false} ScanFromKeepsChain(sorted: seq<Point>, k: nat)
    requires 2 <= k <= |sorted| && NoRightTurns(sorted)
    ensures ScanFrom(sorted[..k], sorted, k) == sorted
    decreases |sorted| - k
  {
    if k < |sorted| {
      assert TurnAt(sorted, k - 2) != Right;
      assert PopRight(sorted[..k], sorted[k]) == sorted[..k];
      assert sorted[..k] + [sorted[k]] == sorted[..k + 1];
      ScanFromKeepsChain(sorted, k + 1);
    } else {
      assert sorted[..k] == sorted;
    }
  }

  /** A sorted sequence that makes no right turn is what the scan leaves. */
  lemma ScanKeepsChain(sorted: seq<Point>)
    requires |sorted| >= 3 && NoRightTurns(sorted)
    ensures GrahamStack(sorted) == sorted
  {
    ScanFromKeepsChain(sorted, 3);
  }

  /** TiedRay makes no right turn, so the scan pops nothing on it. */
  lemma TiedRayKept()
    ensures GrahamStack(TiedRay()) == TiedRay()
  {
    TiedRayTurns();
    ScanKeepsChain(TiedRay());
  }

  /** The turns along TiedRay: left at (2, 1) and at (0, 2), inline at (0, 1). */
  lemma TiedRayTurns()
    ensures NoRightTurns(TiedRay())
  {
    var s := TiedRay();
    TiedRayPoints();
    forall k | 0 <= k < |s| - 2 ensures TurnAt(s, k) != Right {
      assert k == 0 || k == 1 || k == 2;
    }
  }

  /** The polygon TiedRay leaves (0, 3) right of its edge from (2, 1) to (0, 2). */
  lemma TiedRayOutside()
    ensures !Encloses(TiedRay(), TiedRay())
  {
    TiedRayRightTurn();
    OutsideEdge(TiedRay(), TiedRay(), 4, 1);
  }

  /** (2, 1), (0, 2), (0, 3) make a right turn. */
  lemma TiedRayRightTurn()
    ensures TurnType(TiedRay()[1], TiedRay()[2], TiedRay()[4]) == Right
  {
    TiedRayPoints();
    assert TurnType(Point(2, 1, 0.5, AngleTag), Point(0, 2, 1.5, AngleTag), Point(0, 3, 1.5, AngleTag)) == Right;
  }

  /** A point right of one edge of a polygon is not enclosed by it. */
  lemma OutsideEdge(hull: seq<Point>, pts: seq<Point>, m: nat, k: nat)
    requires m < |pts| && k < |hull| && EdgeTurn(hull, k, pts[m]) == Right
    ensures !Encloses(hull, pts)
  {
  }

  /**
   * On points that share a ray the scan is not a hull: TiedRay is in
   * angular order but not strictly so, the scan keeps all five of its
   * points, and one of them lies outside the polygon they make.
   */
  lemma TiedRayScan()
    ensures AngularFromFirst(TiedRay())
    ensures TurnType(TiedRay()[0], TiedRay()[2], TiedRay()[3]) == Inline
    ensures GrahamStack(TiedRay()) == TiedRay()
    ensures !Encloses(GrahamStack(TiedRay()), TiedRay())
  {
    TiedRayIsAngular();
    TiedRayKept();
    TiedRayOutside();
  }

  // ---------------------------------------------------------------------
  // The collinear-degeneracy reducer (remove_colinear_degeneracies)
  // ---------------------------------------------------------------------

  /**
   * remove_colinear_degeneracies as written. The window A, B, C starts on
   * the first three nodes and C advances one node per round, so the loop
   * runs n - 2 rounds; A moves only past a non-inline window. Only the head
   * is added before the loop, the non-inline branch never adds B, and when C
   * runs off the end B (then the last node) is added if A, B and the head do
   * not lie on a line. A NULL set is invalid input; fewer than 3 points are
   * too few. The two sets must differ.
   */
  method RemoveColinearDegeneracies(input: PointSet?, output: PointSet?)
    returns (e: Error, ghost picks: seq<nat>, ghost anchors: seq<nat>, ghost anchor: nat, ghost rounds: nat)
    requires input == null || input != output
    modifies output
    ensures input == null || output == null ==> e == InvalidInput
    ensures input != null && output != null && |input.points| < 3 ==> e == PointsTooFew
    ensures (input == null || output == null || |input.points| < 3) && output != null ==>
              output.points == old(output.points)
    ensures input != null && output != null && |input.points| >= 3 ==>
              var pts, n := input.points, |input.points|;
              && e == Success
              && rounds == n - 2
              && IsWindowReduction(pts, picks, anchors) && |anchors| == n
              && anchor == anchors[n - 1] && anchor < n - 1
              && output.points == old(output.points) + [pts[0]] + (if n - 1 in picks then [pts[n - 1]] else [])
              && output.points == old(output.points) + [pts[0]] +
                   (if TurnType(pts[anchor], pts[n - 1], pts[0]) != Inline then [pts[n - 1]] else [])
  {
    e, picks, anchors, anchor, rounds := Success, [], [], 0, 0;
    if input == null || output == null {
      e := InvalidInput;
    } else if |input.points| < 3 {
      e := PointsTooFew;
    } else {
      var pts := input.points;
      var n := |pts|;
      var a, b, c := 0, 1, 2;
      var _ := AddPointToSet(output, Some(pts[a]));
      picks := [0];
      anchors := seq(n, _ => 0);
      while c < n
        invariant 0 <= a < b && b == c - 1 && c <= n
        invariant rounds == c - 2
        invariant c < n ==> ReducedUpTo(pts, picks, anchors, b) && picks[|picks| - 1] == a
        invariant c < n ==> output.points == old(output.points) + [pts[0]]
        invariant c == n ==> IsWindowReduction(pts, picks, anchors) && |anchors| == n && anchors[n - 1] == a
        invariant c == n ==> (n - 1 in picks <==> TurnType(pts[a], pts[n - 1], pts[0]) != Inline)
        invariant c == n ==>
                    output.points == old(output.points) + [pts[0]] +
                      (if TurnType(pts[a], pts[n - 1], pts[0]) != Inline then [pts[n - 1]] else [])
      {
        assert Succ(b, n) == c;
        if TurnType(pts[a], pts[b], pts[c]) != Inline {
          KeepStep(pts, picks, anchors, a, b);
          picks, anchors := picks + [b], anchors[b := a];
          a := b;
          b := c;
          c := c + 1;
        } else {
          DropStep(pts, picks, anchors, a, b);
          anchors := anchors[b := a];
          b := c;
          c := c + 1;
        }
        if c == n {
          picks, anchors := CloseOnHead(output, pts, picks, anchors, a, b);
        }
        rounds := rounds + 1;
      }
      anchor := a;
    }
  }

  /**
   * The wrap-around test remove_colinear_degeneracies makes in the round where C runs
   * off the end: B, the last point, is added when A, B and the head do not
   * lie on a line. This decides the last window of the reduction.
   */
  method CloseOnHead(output: PointSet, pts: seq<Point>, ghost picks: seq<nat>, ghost anchors: seq<nat>,
                     a: nat, b: nat)
    returns (ghost picks': seq<nat>, ghost anchors': seq<nat>)
    requires ReducedUpTo(pts, picks, anchors, b) && picks[|picks| - 1] == a && a < b == |pts| - 1
    modifies output
    ensures IsWindowReduction(pts, picks', anchors') && |anchors'| == |pts| && anchors'[b] == a
    ensures b in picks' <==> TurnType(pts[a], pts[b], pts[0]) != Inline
    ensures output.points == old(output.points) + (if TurnType(pts[a], pts[b], pts[0]) != Inline then [pts[b]] else [])
  {
    assert Succ(b, |pts|) == 0;
    if TurnType(pts[a], pts[b], pts[0]) != Inline {
      KeepStep(pts, picks, anchors, a, b);
      picks', anchors' := picks + [b], anchors[b := a];
      var _ := AddPointToSet(output, Some(pts[b]));
    } else {
      DropStep(pts, picks, anchors, a, b);
      picks', anchors' := picks, anchors[b := a];
    }
    assert WindowDecided(pts, picks', anchors', b);
  }

  /** The node after node j on the closed boundary of n nodes. */
  function Succ(j: nat, n: nat): nat
  {
    if j + 1 < n then j + 1 else 0
  }

  /** The points of pts at the positions picks. */
  function Select(pts: seq<Point>, picks: seq<nat>): seq<Point>
    requires forall t :: 0 <= t < |picks| ==> picks[t] < |pts|
  {
    seq(|picks|, t requires 0 <= t < |picks| => pts[picks[t]])
  }

  /**
   * The window reduction has decided position j: anchors[j], the last kept
   * position before j, is kept, nothing between it and j is, and j is kept
   * exactly when its window (anchors[j], j, the node after j on the closed
   * boundary) is not inline.
   */
  ghost predicate WindowDecided(pts: seq<Point>, picks: seq<nat>, anchors: seq<nat>, j: nat)
    requires 1 <= j < |pts| && |anchors| == |pts|
  {
    && anchors[j] < j
    && anchors[j] in picks
    && (forall t :: 0 <= t < |picks| ==> !(anchors[j] < picks[t] < j))
    && (j in picks <==> TurnType(pts[anchors[j]], pts[j], pts[Succ(j, |pts|)]) != Inline)
  }

  /**
   * The window reduction of pts has decided the positions below m: picks
   * holds the kept ones in increasing order, starting with the head.
   */
  ghost predicate ReducedUpTo(pts: seq<Point>, picks: seq<nat>, anchors: seq<nat>, m: nat)
  {
    && 1 <= m <= |pts|
    && |picks| >= 1 && picks[0] == 0
    && (forall t :: 0 <= t < |picks| ==> picks[t] < m)
    && Increasing(picks)
    && |anchors| == |pts|
    && (forall j :: 1 <= j < m ==> WindowDecided(pts, picks, anchors, j))
  }

  /**
   * picks is what the window reduction keeps of pts: the head and then, in
   * order, exactly the points whose window is not inline.
   */
  ghost predicate IsWindowReduction(pts: seq<Point>, picks: seq<nat>, anchors: seq<nat>)
  {
    ReducedUpTo(pts, picks, anchors, |pts|)
  }

  /** Keeping position b, whose window is not inline, decides it. */
  lemma KeepStep(pts: seq<Point>, picks: seq<nat>, anchors: seq<nat>, a: nat, b: nat)
    requires ReducedUpTo(pts, picks, anchors, b) && picks[|picks| - 1] == a && a < b < |pts|
    requires TurnType(pts[a], pts[b], pts[Succ(b, |pts|)]) != Inline
    ensures ReducedUpTo(pts, picks + [b], anchors[b := a], b + 1)
  {
    PicksAscend(picks);
    var picks', anchors' := picks + [b], anchors[b := a];
    forall j | 1 <= j < b + 1 ensures WindowDecided(pts, picks', anchors', j) {
      if j < b {
        assert WindowDecided(pts, picks, anchors, j);
        assert j in picks' <==> j in picks;
      } else {
        assert picks'[|picks|] == b;
        assert forall t :: 0 <= t < |picks| ==> picks[t] <= a;
      }
    }
  }

  /** Dropping position b, whose window is inline, decides it. */
  lemma DropStep(pts: seq<Point>, picks: seq<nat>, anchors: seq<nat>, a: nat, b: nat)
    requires ReducedUpTo(pts, picks, anchors, b) && picks[|picks| - 1] == a && a < b < |pts|
    requires TurnType(pts[a], pts[b], pts[Succ(b, |pts|)]) == Inline
    ensures ReducedUpTo(pts, picks, anchors[b := a], b + 1)
  {
    PicksAscend(picks);
    var anchors' := anchors[b := a];
    forall j | 1 <= j < b + 1 ensures WindowDecided(pts, picks, anchors', j) {
      if j < b {
        assert WindowDecided(pts, picks, anchors, j);
      } else {
        assert forall t :: 0 <= t < |picks| ==> picks[t] <= a;
      }
    }
  }

  /** The turn of the window through the last position before j, j, and the node after j on the closed boundary. */
  function WindowTurn(pts: seq<Point>, j: nat): Turn
    requires 1 <= j < |pts|
  {
    TurnType(pts[j - 1], pts[j], pts[Succ(j, |pts|)])
  }

  /** No window of consecutive boundary points, the one through the last point and the head included, is inline. */
  predicate NoInlineWindows(pts: seq<Point>)
  {
    forall j :: 1 <= j < |pts| ==> WindowTurn(pts, j) != Inline
  }

  /** The window reduction of a boundary without inline windows keeps every point. */
  lemma KeepsStrictlyConvex(pts: seq<Point>, picks: seq<nat>, anchors: seq<nat>)
    requires IsWindowReduction(pts, picks, anchors) && NoInlineWindows(pts)
    ensures Select(pts, picks) == pts
  {
    var n := |pts|;
    KeptPrefix(pts, picks, anchors, n);
    PicksAscend(picks);
    assert picks[0] + (|picks| - 1) <= picks[|picks| - 1] || |picks| == 1;
    assert |picks| == n;
  }

  /** Strictly increasing positions are at least as far apart as their indices. */
  lemma PicksAscend(picks: seq<nat>)
    requires Increasing(picks)
    ensures forall t, u :: 0 <= t < u < |picks| ==> picks[t] + (u - t) <= picks[u]
  {
    forall t, u | 0 <= t < u < |picks| ensures picks[t] + (u - t) <= picks[u] {
      PicksGap(picks, t, u);
    }
  }

  lemma {:induction false} PicksGap(picks: seq<nat>, t: int, u: int)
    requires Increasing(picks)
    requires 0 <= t < u < |picks|
    ensures picks[t] + (u - t) <= picks[u]
    decreases u - t
  {
    if t + 1 < u {
      PicksGap(picks, t, u - 1);
    }
  }

  /** Without inline windows, the reduction keeps each of the first m positions, in place. */
  lemma {:induction false} KeptPrefix(pts: seq<Point>, picks: seq<nat>, anchors: seq<nat>, m: nat)
    requires IsWindowReduction(pts, picks, anchors) && NoInlineWindows(pts)
    requires 1 <= m <= |pts|
    ensures m <= |picks| && forall j :: 0 <= j < m ==> picks[j] == j
    decreases m
  {
    if m > 1 {
      KeptPrefix(pts, picks, anchors, m - 1);
      PicksAscend(picks);
      var j := m - 1;
      assert WindowDecided(pts, picks, anchors, j);
      assert picks[j - 1] == j - 1;
      assert anchors[j] == j - 1;
      assert WindowTurn(pts, j) != Inline;
      assert j in picks;
      var u :| 0 <= u < |picks| && picks[u] == j;
      assert u >= j;
      assert picks[j] <= picks[u];
    }
  }

  /**
   * remove_colinear_degeneracies with the evident intent carried out: the
   * non-inline branch adds B to the output before the window moves on. The
   * check of the last window against the head, which the C makes in the
   * round where C runs off the end, is made right after the loop. The
   * result is the window reduction of the input boundary.
   */
  method ReduceColinearDegeneracies(input: PointSet?, output: PointSet?)
    returns (e: Error, ghost picks: seq<nat>, ghost anchors: seq<nat>)
    requires input == null || input != output
    modifies output
    ensures input == null || output == null ==> e == InvalidInput
    ensures input != null && output != null && |input.points| < 3 ==> e == PointsTooFew
    ensures (input == null || output == null || |input.points| < 3) && output != null ==>
              output.points == old(output.points)
    ensures input != null && output != null && |input.points| >= 3 ==>
              && e == Success
              && IsWindowReduction(input.points, picks, anchors)
              && output.points == old(output.points) + Select(input.points, picks)
  {
    e, picks, anchors := Success, [], [];
    if input == null || output == null {
      e := InvalidInput;
    } else if |input.points| < 3 {
      e := PointsTooFew;
    } else {
      var pts := input.points;
      var n := |pts|;
      var a, b, c := 0, 1, 2;
      var _ := AddPointToSet(output, Some(pts[a]));
      picks := [0];
      anchors := seq(n, _ => 0);
      while c < n
        invariant 0 <= a < b && b == c - 1 && c <= n
        invariant ReducedUpTo(pts, picks, anchors, b) && picks[|picks| - 1] == a
        invariant output.points == old(output.points) + Select(pts, picks)
      {
        assert Succ(b, n) == c;
        if TurnType(pts[a], pts[b], pts[c]) != Inline {
          picks, anchors := KeepPoint(output, pts, picks, anchors, a, b, old(output.points));
          a := b;
          b := c;
          c := c + 1;
        } else {
          DropStep(pts, picks, anchors, a, b);
          anchors := anchors[b := a];
          b := c;
          c := c + 1;
        }
      }
      // C has run off the end: the last window closes on the head.
      assert Succ(b, n) == 0;
      if TurnType(pts[a], pts[b], pts[0]) != Inline {
        picks, anchors := KeepPoint(output, pts, picks, anchors, a, b, old(output.points));
      } else {
        DropStep(pts, picks, anchors, a, b);
        anchors := anchors[b := a];
      }
    }
  }

  /**
   * The non-inline branch of the corrected reducer: add B, the point at
   * position b, to the output and record it as kept.
   */
  method KeepPoint(output: PointSet, pts: seq<Point>, ghost picks: seq<nat>, ghost anchors: seq<nat>,
                   a: nat, b: nat, ghost prefix: seq<Point>)
    returns (ghost picks': seq<nat>, ghost anchors': seq<nat>)
    requires ReducedUpTo(pts, picks, anchors, b) && picks[|picks| - 1] == a && a < b < |pts|
    requires TurnType(pts[a], pts[b], pts[Succ(b, |pts|)]) != Inline
    requires output.points == prefix + Select(pts, picks)
    modifies output
    ensures picks' == picks + [b] && ReducedUpTo(pts, picks', anchors', b + 1)
    ensures output.points == prefix + Select(pts, picks')
  {
    KeepStep(pts, picks, anchors, a, b);
    picks', anchors' := picks + [b], anchors[b := a];
    var _ := AddPointToSet(output, Some(pts[b]));
    assert Select(pts, picks') == Select(pts, picks) + [pts[b]];
  }

  /** The corners of the unit square, counter-clockwise from the origin. */
  function UnitSquare(): seq<Point>
  {
    [Point(0, 0, 0.0, ""), Point(1, 0, 0.0, ""), Point(1, 1, 0.0, ""), Point(0, 1, 0.0, "")]
  }

  /** Every window of the unit square turns left. */
  lemma UnitSquareIsStrictlyConvex()
    ensures NoInlineWindows(UnitSquare())
  {
    UnitSquareTurns();
  }

  /** The turns at the second, third and fourth corners of the unit square. */
  lemma UnitSquareTurns()
    ensures |UnitSquare()| == 4
    ensures WindowTurn(UnitSquare(), 1) == Left
    ensures WindowTurn(UnitSquare(), 2) == Left
    ensures WindowTurn(UnitSquare(), 3) == Left
  {
    assert UnitSquare()[0] == Point(0, 0, 0.0, "") && UnitSquare()[1] == Point(1, 0, 0.0, "");
    assert UnitSquare()[2] == Point(1, 1, 0.0, "") && UnitSquare()[3] == Point(0, 1, 0.0, "");
    assert TurnType(Point(0, 0, 0.0, ""), Point(1, 0, 0.0, ""), Point(1, 1, 0.0, "")) == Left;
    assert TurnType(Point(1, 0, 0.0, ""), Point(1, 1, 0.0, ""), Point(0, 1, 0.0, "")) == Left;
    assert TurnType(Point(1, 1, 0.0, ""), Point(0, 1, 0.0, ""), Point(0, 0, 0.0, "")) == Left;
  }

  /**
   * The reducer as written on the unit square, which has no collinear
   * points: it keeps at most two of the four corners.
   */
  method SquareAsWritten() returns (kept: seq<Point>)
    ensures |kept| <= 2
  {
    var input := new PointSet();
    input.points := UnitSquare();
    var output := new PointSet();
    var e, picks, anchors, anchor, rounds := RemoveColinearDegeneracies(input, output);
    kept := output.points;
  }

  /** The corrected reducer on the unit square keeps all four corners, in order. */
  method SquareCorrected() returns (kept: seq<Point>)
    ensures kept == UnitSquare()
  {
    var sq := UnitSquare();
    var input := new PointSet();
    input.points := sq;
    var output := new PointSet();
    var e;
    ghost var picks, anchors;
    e, picks, anchors := ReduceColinearDegeneracies(input, output);
    UnitSquareIsStrictlyConvex();
    KeepsStrictlyConvex(sq, picks, anchors);
    kept := output.points;
  }

  // ---------------------------------------------------------------------
  // The entry points
  // ---------------------------------------------------------------------

  /** The loop of compute_graham_scan that adds the stack entries, bottom first, to the output set. */
  method AppendPoints(out: PointSet, hull: seq<Point>)
    modifies out
    ensures out.points == old(out.points) + hull
  {
    var i := 0;
    while i < |hull|
      invariant 0 <= i <= |hull|
      invariant out.points == old(out.points) + hull[..i]
    {
      var _ := AddPointToSet(out, Some(hull[i]));
      assert hull[..i + 1] == hull[..i] + [hull[i]];
      i := i + 1;
    }
    assert hull[..i] == hull;
  }

  /**
   * What compute_graham_scan does to the input set `s` and the output set
   * `out`, and which status it returns.
   */
  twostate predicate GrahamScanEffect(s: PointSet?, out: PointSet?, arc: (int, int) -> real, e: Error)
    reads s, out
  {
    if s == null || out == null then
      && e == InvalidInput
      && (s != null ==> s.points == old(s.points))
      && (out != null ==> out.points == old(out.points))
    else if |old(s.points)| < 3 then
      e == PointsTooFew && s.points == old(s.points) && out.points == old(out.points)
    else
      var pts := old(s.points);
      var piv := LowestIndex(pts);
      var base := if out == s then Angled(pts, piv, arc) else old(out.points);
      && (e == Success || e == InvalidInput)
      && (e == Success <==> !HasPivotTwin(pts, piv))
      && (e == InvalidInput ==>
            && |s.points| == |pts|
            && (forall j :: 0 <= j < |pts| ==> SamePlace(s.points[j], pts[j]))
            && (out != s ==> out.points == old(out.points)))
      && (e == Success ==>
            var sorted := SortedByAngle(pts, arc);
            var hull := GrahamStack(sorted);
            && (out != s ==> s.points == Angled(pts, piv, arc))
            && out.points == base + hull
            && IsGrahamChain(sorted, hull)
            && (NoSharedRay(pts, piv) ==> Encloses(hull, pts)))
  }

  /**
   * compute_graham_scan: validate, run the angle pass on the input set, sort
   * a copy of it, run the stack scan and append the stack to the output set.
   * With degeneracy handling the reducer runs on the output set into a
   * scratch set, which is then dropped, so the output set keeps the stack.
   */
  method ComputeGrahamScan(s: PointSet?, out: PointSet?, computeType: ComputeType, arc: (int, int) -> real)
    returns (e: Error)
    requires IsAngleMeasure(arc)
    modifies s, out
    ensures GrahamScanEffect(s, out, arc, e)
  {
    if s == null || out == null {
      return InvalidInput;
    }
    if |s.points| < 3 {
      return PointsTooFew;
    }
    ghost var pts := s.points;
    ghost var piv := LowestIndex(pts);
    ghost var base := if out == s then Angled(pts, piv, arc) else out.points;
    AnglesDefinedIffNoTwin(pts, arc);
    e := ComputePointAngles(s, arc);
    if e != Success {
      ghost var f :| StoppedAt(pts, piv, arc, f, s.points);
      assert forall j :: 0 <= j < |pts| ==> SamePlace(s.points[j], pts[j]);
      return e;
    }
    ghost var hull;
    e, hull := ScanAngled(s, out, computeType, pts, arc, base);
  }

  /**
   * The part of compute_graham_scan after a successful angle pass: sort a
   * copy of the input set into a scratch set, run the stack scan on it,
   * append the stack to the output set and, with degeneracy handling, run
   * the reducer. `hull` names the appended stack.
   */
  method ScanAngled(s: PointSet, out: PointSet, computeType: ComputeType, ghost pts: seq<Point>,
                    arc: (int, int) -> real, ghost base: seq<Point>)
    returns (e: Error, ghost hull: seq<Point>)
    requires |pts| >= 3 && IsAngleMeasure(arc) && AnglesDefined(pts, LowestIndex(pts), arc)
    requires s.points == Angled(pts, LowestIndex(pts), arc) && out.points == base
    modifies s, out
    ensures e == Success
    ensures out != s ==> s.points == old(s.points)
    ensures hull == GrahamStack(SortedByAngle(pts, arc))
    ensures out.points == base + hull && IsGrahamChain(SortedByAngle(pts, arc), hull)
    ensures NoSharedRay(pts, LowestIndex(pts)) ==> Encloses(hull, pts)
  {
    var stack := SortAndScan(s, pts, arc);
    AppendPoints(out, stack);
    e := Success;
    if computeType == WithDegeneracy {
      e := ReduceIntoScratch(out);
    }
    hull := stack;
  }

  /**
   * Sort a copy of the angled input set into a new scratch set and run the
   * stack scan on it; the input set is left as it is.
   */
  method SortAndScan(s: PointSet, ghost pts: seq<Point>, arc: (int, int) -> real) returns (stack: seq<Point>)
    requires |pts| >= 3 && IsAngleMeasure(arc) && AnglesDefined(pts, LowestIndex(pts), arc)
    requires s.points == Angled(pts, LowestIndex(pts), arc)
    modifies s
    ensures s.points == old(s.points)
    ensures stack == GrahamStack(SortedByAngle(pts, arc))
    ensures IsGrahamChain(SortedByAngle(pts, arc), stack)
    ensures NoSharedRay(pts, LowestIndex(pts)) ==> Encloses(stack, pts)
  {
    var scratch := new PointSet();
    ghost var angled := s.points;
    var e := SortPointSet(s, scratch);
    assert [] + angled == angled;
    var sorted := scratch.points;
    SortedByAngleIsAngular(pts, arc);
    stack := ScanStack(sorted);
    HullEnclosesInput(pts, arc, stack);
  }

  /**
   * The degeneracy step of compute_graham_scan: reduce the output set into a
   * new scratch set, which is freed when the reduction succeeds. Nothing the
   * caller can see changes; only the status is passed on.
   */
  method ReduceIntoScratch(out: PointSet) returns (e: Error)
    requires |out.points| >= 3
    ensures e == Success
  {
    var reduced := new PointSet();
    ghost var picks, anchors, anchor, rounds;
    e, picks, anchors, anchor, rounds := RemoveColinearDegeneracies(out, reduced);
  }

  /**
   * compute_convex_hull: the Graham scan is the only method; any other
   * method value is unimplemented and touches nothing.
   */
  method ComputeConvexHull(s: PointSet?, out: PointSet?, hullMethod: int, computeType: ComputeType,
                           arc: (int, int) -> real)
    returns (e: Error)
    requires IsAngleMeasure(arc)
    modifies s, out
    ensures hullMethod != GrahamScanMethod ==> e == Unimplemented
    ensures hullMethod != GrahamScanMethod && s != null ==> s.points == old(s.points)
    ensures hullMethod != GrahamScanMethod && out != null ==> out.points == old(out.points)
    ensures hullMethod == GrahamScanMethod ==> GrahamScanEffect(s, out, arc, e)
  {
    if hullMethod == GrahamScanMethod {
      e := ComputeGrahamScan(s, out, computeType, arc);
    } else {
      return Unimplemented;
    }
  }
}
