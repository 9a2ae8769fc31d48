/**
 * The geometric predicates of libCGeo: the orientation (turn) test, the
 * guard of the angle computation and the choice of the lowest point.
 */
module Predicates {
  import opened Types

  // ---------------------------------------------------------------------
  // Orientation
  // ---------------------------------------------------------------------

  /** The value find_turn_type computes from the three points. */
  function CrossValue(a: Point, b: Point, c: Point): int
  {
    (b.y - a.y) * (c.x - b.x) - (b.x - a.x) * (c.y - b.y)
  }

  /** find_turn_type: the kind of turn made at b going a -> b -> c. */
  function TurnType(a: Point, b: Point, c: Point): Turn
  {
    var v := CrossValue(a, b, c);
    if v == 0 then Inline else if v > 0 then Right else Left
  }

  /** The determinant of the displacements (ux, uy) and (vx, vy). */
  function Det(ux: int, uy: int, vx: int, vy: int): int
  {
    ux * vy - uy * vx
  }

  /**
   * The textbook orientation of a, b, c: the determinant of b - a and c - a,
   * positive when the three points run counter-clockwise.
   */
  function Orientation(a: Point, b: Point, c: Point): int
  {
    Det(b.x - a.x, b.y - a.y, c.x - a.x, c.y - a.y)
  }

  /** The turn test agrees with the textbook orientation: a left turn is counter-clockwise. */
  lemma TurnMatchesOrientation(a: Point, b: Point, c: Point)
    ensures TurnType(a, b, c) == Left <==> Orientation(a, b, c) > 0
    ensures TurnType(a, b, c) == Right <==> Orientation(a, b, c) < 0
    ensures TurnType(a, b, c) == Inline <==> Orientation(a, b, c) == 0
  {
    var ux, uy := b.x - a.x, b.y - a.y;
    var wx, wy := c.x - b.x, c.y - b.y;
    assert CrossValue(a, b, c) == uy * wx - ux * wy;
    assert Orientation(a, b, c) == ux * (uy + wy) - uy * (ux + wx);
    assert ux * (uy + wy) - uy * (ux + wx) == ux * wy - uy * wx;
  }

  /** Mirror image of a turn. */
  function Mirror(t: Turn): Turn
  {
    match t
    case Left => Right
    case Right => Left
    case Inline => Inline
  }

  /** Walking the same three points backwards turns the other way. */
  lemma TurnReversal(a: Point, b: Point, c: Point)
    ensures TurnType(c, b, a) == Mirror(TurnType(a, b, c))
  {
    assert CrossValue(c, b, a) == -CrossValue(a, b, c) by {
      var ux, uy := b.x - a.x, b.y - a.y;
      var wx, wy := c.x - b.x, c.y - b.y;
      assert CrossValue(c, b, a) == (-wy) * (-ux) - (-wx) * (-uy);
    }
  }

  /** Starting the walk at the next point does not change the turn. */
  lemma TurnRotation(a: Point, b: Point, c: Point)
    ensures TurnType(b, c, a) == TurnType(a, b, c)
  {
    TurnMatchesOrientation(a, b, c);
    TurnMatchesOrientation(b, c, a);
    var ux, uy := b.x - a.x, b.y - a.y;
    var vx, vy := c.x - a.x, c.y - a.y;
    assert Orientation(b, c, a) == (vx - ux) * (-uy) - (vy - uy) * (-ux);
    assert (vx - ux) * (-uy) - (vy - uy) * (-ux) == ux * vy - uy * vx;
  }

  /** A triple with two points in the same place makes no turn. */
  lemma CoincidentIsInline(a: Point, b: Point, c: Point)
    requires SamePlace(a, b) || SamePlace(b, c) || SamePlace(a, c)
    ensures TurnType(a, b, c) == Inline
  {
    if SamePlace(a, c) {
      assert CrossValue(a, b, c) == (b.y - a.y) * (a.x - b.x) - (b.x - a.x) * (a.y - b.y);
    }
  }

  // ---------------------------------------------------------------------
  // Three facts about orientations behind the stack scan
  // ---------------------------------------------------------------------

  /**
   * The Grassmann-Pluecker relation between the determinants of four
   * displacements a, b, c, d: [ab][cd] = [ac][bd] - [ad][bc].
   */
  lemma DetRelation(a1: int, a2: int, b1: int, b2: int, c1: int, c2: int, d1: int, d2: int)
    ensures Det(a1, a2, b1, b2) * Det(c1, c2, d1, d2)
         == Det(a1, a2, c1, c2) * Det(b1, b2, d1, d2) - Det(a1, a2, d1, d2) * Det(b1, b2, c1, c2)
  {
  }

  /** A value that times a positive one gives a sum of products of non-negatives is not negative. */
  lemma SignFromRelation(g: int, k: int, p1: int, q1: int, p2: int, q2: int)
    requires k > 0 && p1 >= 0 && q1 >= 0 && p2 >= 0 && q2 >= 0
    requires g * k == p1 * q1 + p2 * q2
    ensures g >= 0
  {
    MulNonNegative(p1, q1);
    MulNonNegative(p2, q2);
  }

  /** The orientation as a determinant of the two edges, and of the two displacements into c. */
  lemma OrientationForms(a: Point, b: Point, c: Point)
    ensures Orientation(a, b, c) == Det(b.x - a.x, b.y - a.y, c.x - b.x, c.y - b.y)
    ensures Orientation(a, b, c) == Det(c.x - a.x, c.y - a.y, c.x - b.x, c.y - b.y)
  {
  }

  lemma EarlierCore(d1x: int, d1y: int, d2x: int, d2y: int, vx: int, vy: int, rx: int, ry: int)
    requires Det(d1x, d1y, d2x, d2y) >= 0 && Det(d2x, d2y, vx, vy) >= 0
    requires Det(rx, ry, d1x, d1y) >= 0 && Det(rx, ry, vx, vy) >= 0 && Det(rx, ry, d2x, d2y) > 0
    ensures Det(d1x, d1y, vx, vy) >= 0
  {
    DetRelation(d1x, d1y, vx, vy, rx, ry, d2x, d2y);
    assert Det(d1x, d1y, rx, ry) == -Det(rx, ry, d1x, d1y);
    assert Det(vx, vy, d2x, d2y) == -Det(d2x, d2y, vx, vy);
    assert Det(vx, vy, rx, ry) == -Det(rx, ry, vx, vy);
    SignFromRelation(Det(d1x, d1y, vx, vy), Det(rx, ry, d2x, d2y),
                     Det(rx, ry, d1x, d1y), Det(d2x, d2y, vx, vy),
                     Det(d1x, d1y, d2x, d2y), Det(rx, ry, vx, vy));
  }

  /**
   * Seen from p, let a come no later than b, b strictly before c, and q no
   * earlier than b. If the chain a, b, c does not turn right at b and q is
   * on or left of the edge b -> c, then q is on or left of the edge a -> b.
   */
  lemma LeftOfEarlierEdge(p: Point, a: Point, b: Point, c: Point, q: Point)
    requires TurnType(a, b, c) != Right && TurnType(b, c, q) != Right
    requires TurnType(p, a, b) != Right && TurnType(p, b, q) != Right && TurnType(p, b, c) == Left
    ensures TurnType(a, b, q) != Right
  {
    TurnMatchesOrientation(a, b, c);
    TurnMatchesOrientation(b, c, q);
    TurnMatchesOrientation(p, a, b);
    TurnMatchesOrientation(p, b, q);
    TurnMatchesOrientation(p, b, c);
    TurnMatchesOrientation(a, b, q);
    OrientationForms(a, b, c);
    OrientationForms(p, a, b);
    OrientationForms(p, b, q);
    OrientationForms(p, b, c);
    OrientationForms(a, b, q);
    EarlierCore(b.x - a.x, b.y - a.y, c.x - b.x, c.y - b.y, q.x - b.x, q.y - b.y, b.x - p.x, b.y - p.y);
  }

  lemma NewEdgeCore(ux: int, uy: int, vx: int, vy: int, wx: int, wy: int, rx: int, ry: int)
    requires Det(ux, uy, wx, wy) >= 0 && Det(ux, uy, vx, vy) >= 0
    requires Det(rx, ry, -wx, -wy) >= 0 && Det(rx, ry, vx, vy) > 0 && Det(rx, ry, ux, uy) > 0
    ensures Det(vx, vy, wx, wy) >= 0
  {
    DetRelation(ux, uy, vx, vy, wx, wy, rx, ry);
    assert Det(rx, ry, -wx, -wy) == Det(wx, wy, rx, ry);
    assert Det(vx, vy, rx, ry) == -Det(rx, ry, vx, vy);
    assert Det(ux, uy, rx, ry) == -Det(rx, ry, ux, uy);
    SignFromRelation(Det(vx, vy, wx, wy), Det(rx, ry, ux, uy),
                     Det(ux, uy, wx, wy), Det(rx, ry, vx, vy),
                     Det(ux, uy, vx, vy), Det(wx, wy, rx, ry));
  }

  /**
   * Seen from p, let a come strictly before c, c strictly before q, and x no
   * later than c. If x and q are on or left of the edge a -> c, then x is on
   * or left of the edge c -> q.
   */
  lemma LeftOfNewEdge(p: Point, a: Point, c: Point, q: Point, x: Point)
    requires TurnType(a, c, x) != Right && TurnType(a, c, q) != Right
    requires TurnType(p, x, c) != Right && TurnType(p, c, q) == Left && TurnType(p, a, c) == Left
    ensures TurnType(c, q, x) != Right
  {
    TurnMatchesOrientation(a, c, x);
    TurnMatchesOrientation(a, c, q);
    TurnMatchesOrientation(p, x, c);
    TurnMatchesOrientation(p, c, q);
    TurnMatchesOrientation(p, a, c);
    TurnMatchesOrientation(c, q, x);
    OrientationForms(a, c, x);
    OrientationForms(a, c, q);
    OrientationForms(p, x, c);
    OrientationForms(p, c, q);
    OrientationForms(p, a, c);
    NewEdgeCore(c.x - a.x, c.y - a.y, q.x - c.x, q.y - c.y, x.x - c.x, x.y - c.y, c.x - p.x, c.y - p.y);
  }

  lemma ShortcutCore(ux: int, uy: int, vx: int, vy: int, wx: int, wy: int, rx: int, ry: int)
    requires Det(ux, uy, wx, wy) >= 0 && Det(ux, uy, vx, vy) < 0
    requires Det(rx, ry, wx, wy) >= 0 && Det(rx, ry, vx, vy) >= 0 && Det(rx, ry, ux, uy) > 0
    ensures Det(vx, vy, wx, wy) >= 0
  {
    DetRelation(ux, uy, vx, vy, wx, wy, rx, ry);
    assert Det(wx, wy, rx, ry) == -Det(rx, ry, wx, wy);
    assert Det(vx, vy, rx, ry) == -Det(rx, ry, vx, vy);
    assert Det(ux, uy, rx, ry) == -Det(rx, ry, ux, uy);
    SignFromRelation(Det(vx, vy, wx, wy), Det(rx, ry, ux, uy),
                     Det(ux, uy, wx, wy), Det(rx, ry, vx, vy),
                     -Det(ux, uy, vx, vy), Det(rx, ry, wx, wy));
  }

  /**
   * Seen from p, let a come strictly before b, and x and q no earlier than
   * a. If x is on or left of the edge a -> b and the chain a, b, q turns
   * right at b, then x is on or left of the shortcut a -> q.
   */
  lemma LeftOfShortcut(p: Point, a: Point, b: Point, q: Point, x: Point)
    requires TurnType(a, b, x) != Right && TurnType(a, b, q) == Right
    requires TurnType(p, a, x) != Right && TurnType(p, a, q) != Right && TurnType(p, a, b) == Left
    ensures TurnType(a, q, x) != Right
  {
    TurnMatchesOrientation(a, b, x);
    TurnMatchesOrientation(a, b, q);
    TurnMatchesOrientation(p, a, x);
    TurnMatchesOrientation(p, a, q);
    TurnMatchesOrientation(p, a, b);
    TurnMatchesOrientation(a, q, x);
    OrientationForms(p, a, x);
    OrientationForms(p, a, q);
    OrientationForms(p, a, b);
    ShortcutCore(b.x - a.x, b.y - a.y, q.x - a.x, q.y - a.y, x.x - a.x, x.y - a.y, a.x - p.x, a.y - p.y);
  }

  // ---------------------------------------------------------------------
  // The guard of angle_between
  // ---------------------------------------------------------------------

  /**
   * The displacement (dx, dy) points into the half-open upper half-plane:
   * strictly upwards, or level and strictly to the right. These are the
   * directions whose angle with the positive x-axis lies in [0, pi).
   */
  predicate UpperDirection(dx: int, dy: int)
  {
    dy > 0 || (dy == 0 && dx > 0)
  }

  /**
   * angle_between(start, end). The value acos((end.x - start.x) / distance)
   * is left abstract: `arc` gives it as a function of the displacement. The
   * guard returns -1 when the end point is lower than the start, level with
   * it and to its left, or in the same place.
   */
  function AngleBetween(start: Point, end: Point, arc: (int, int) -> real): (r: real)
    ensures start.y > end.y ==> r == -1.0
    ensures start.y == end.y && start.x > end.x ==> r == -1.0
    ensures SamePlace(start, end) ==> r == -1.0
    ensures r == if UpperDirection(end.x - start.x, end.y - start.y)
                 then arc(end.x - start.x, end.y - start.y) else -1.0
  {
    if start.y > end.y then -1.0
    else if start.y == end.y && start.x > end.x then -1.0
    else if SamePlace(start, end) then -1.0
    else arc(end.x - start.x, end.y - start.y)
  }

  /**
   * What the real acos-based angle satisfies on the upper half-plane: it is
   * never negative, and a direction with a smaller or equal angle is never
   * clockwise of one with a larger angle.
   */
  ghost predicate IsAngleMeasure(arc: (int, int) -> real)
  {
    && (forall dx, dy :: UpperDirection(dx, dy) ==> arc(dx, dy) >= 0.0)
    && (forall ux, uy, vx, vy ::
          UpperDirection(ux, uy) && UpperDirection(vx, vy) && arc(ux, uy) <= arc(vx, vy)
          ==> Det(ux, uy, vx, vy) >= 0)
  }

  function Abs(n: int): nat
  {
    if n < 0 then -n else n
  }

  /**
   * An exact pseudo-angle of the upper half-plane: 1 - dx / (|dx| + dy) grows
   * from 0 (pointing right) to 2 (pointing left) as the true angle does.
   */
  function PseudoAngle(dx: int, dy: int): real
  {
    if UpperDirection(dx, dy) then 1.0 - (dx as real) / ((Abs(dx) + dy) as real) else -1.0
  }

  /** Multiplying out the comparison of two pseudo-angles. */
  lemma PseudoAngleCompare(ux: int, uy: int, vx: int, vy: int)
    requires UpperDirection(ux, uy) && UpperDirection(vx, vy)
    requires PseudoAngle(ux, uy) <= PseudoAngle(vx, vy)
    ensures vx * (Abs(ux) + uy) <= ux * (Abs(vx) + vy)
  {
    var du, dv := (Abs(ux) + uy) as real, (Abs(vx) + vy) as real;
    var qu, qv := (ux as real) / du, (vx as real) / dv;
    assert qv <= qu;
    assert qu * du == ux as real;
    assert qv * dv == vx as real;
    assert qv * (du * dv) <= qu * (du * dv);
    assert (vx as real) * du == qv * (du * dv);
    assert (ux as real) * dv == qu * (du * dv);
  }

  /** The sign analysis behind the pseudo-angle order: a cross-multiplied comparison gives a non-negative determinant. */
  lemma CrossMultipliedOrder(ux: int, uy: int, vx: int, vy: int)
    requires uy >= 0 && vy >= 0 && Abs(ux) + uy > 0 && Abs(vx) + vy > 0
    requires vx * (Abs(ux) + uy) <= ux * (Abs(vx) + vy)
    ensures Det(ux, uy, vx, vy) >= 0
  {
    if ux >= 0 && vx >= 0 {
      assert vx * (ux + uy) == vx * ux + vx * uy;
      assert ux * (vx + vy) == ux * vx + ux * vy;
    } else if ux < 0 && vx < 0 {
      assert vx * (-ux + uy) == -(vx * ux) + vx * uy;
      assert ux * (-vx + vy) == -(ux * vx) + ux * vy;
    } else if ux >= 0 {
      MulNonNegative(ux, vy);
      MulNonNegative(uy, -vx);
    } else {
      MulNonNegative(vx, Abs(ux) + uy);
      MulNonNegative(-ux, Abs(vx) + vy);
    }
  }

  lemma MulNonNegative(a: int, b: int)
    requires a >= 0 && b >= 0
    ensures a * b >= 0
  {
  }

  /** The pseudo-angle of an upper direction is not negative. */
  lemma PseudoAngleNonNegative(dx: int, dy: int)
    requires UpperDirection(dx, dy)
    ensures PseudoAngle(dx, dy) >= 0.0
  {
    var d := (Abs(dx) + dy) as real;
    var q := (dx as real) / d;
    assert q * d == dx as real;
    assert dx as real <= d;
    assert (q - 1.0) * d <= 0.0;
    assert q <= 1.0;
    assert PseudoAngle(dx, dy) == 1.0 - q;
  }

  /** The pseudo-angle satisfies the angle-measure hypothesis, so the hypothesis can be met. */
  lemma PseudoAngleIsAngleMeasure()
    ensures IsAngleMeasure(PseudoAngle)
  {
    forall dx, dy | UpperDirection(dx, dy) ensures PseudoAngle(dx, dy) >= 0.0 {
      PseudoAngleNonNegative(dx, dy);
    }
    forall ux, uy, vx, vy |
      UpperDirection(ux, uy) && UpperDirection(vx, vy) && PseudoAngle(ux, uy) <= PseudoAngle(vx, vy)
      ensures Det(ux, uy, vx, vy) >= 0
    {
      PseudoAngleCompare(ux, uy, vx, vy);
      CrossMultipliedOrder(ux, uy, vx, vy);
    }
  }

  // ---------------------------------------------------------------------
  // The lowest point
  // ---------------------------------------------------------------------

  /** p comes strictly before q in the pivot order: lower, or level and further left. */
  predicate LowerThan(p: Point, q: Point)
  {
    p.y < q.y || (p.y == q.y && p.x < q.x)
  }

  /**
   * Index i holds the pivot of pts: no point is lower than it (minimum y,
   * then minimum x), and it is strictly lower than every earlier point, so
   * it is the first of the points in its place.
   */
  predicate IsLowest(pts: seq<Point>, i: int)
  {
    && 0 <= i < |pts|
    && (forall j :: 0 <= j < |pts| ==> !LowerThan(pts[j], pts[i]))
    && (forall j :: 0 <= j < i ==> LowerThan(pts[i], pts[j]))
  }

  /** The pivot index as the scan from head to tail computes it. */
  function LowestIndex(pts: seq<Point>): (i: nat)
    requires |pts| > 0
    ensures i < |pts|
    decreases |pts|
  {
    if |pts| == 1 then 0
    else
      var b := LowestIndex(pts[..|pts| - 1]);
      if LowerThan(pts[|pts| - 1], pts[b]) then |pts| - 1 else b
  }

  /** The scan finds the pivot. */
  lemma {:induction false} LowestIndexIsLowest(pts: seq<Point>)
    requires |pts| > 0
    ensures IsLowest(pts, LowestIndex(pts))
  {
    if |pts| > 1 {
      var front := pts[..|pts| - 1];
      LowestIndexIsLowest(front);
      var b := LowestIndex(front);
      assert forall j :: 0 <= j < |front| ==> front[j] == pts[j];
    }
  }

  /** There is only one pivot. */
  lemma LowestIsUnique(pts: seq<Point>, i: int, j: int)
    requires IsLowest(pts, i) && IsLowest(pts, j)
    ensures i == j
  {
    assert !LowerThan(pts[j], pts[i]) && !LowerThan(pts[i], pts[j]);
  }

  /** Every point other than those in the pivot's place lies above the pivot or level and to its right. */
  lemma AbovePivot(pts: seq<Point>, piv: int, j: int)
    requires IsLowest(pts, piv) && 0 <= j < |pts|
    ensures SamePlace(pts[piv], pts[j])
            || UpperDirection(pts[j].x - pts[piv].x, pts[j].y - pts[piv].y)
  {
    assert !LowerThan(pts[j], pts[piv]);
  }
}
