/**
 * The value types of libCGeo: points, turn kinds, error codes and the
 * selector enums of the convex hull entry points.
 */
module Types {

  /** The conventional replacement for a pointer that may be NULL. */
  datatype Option<+T> = None | Some(value: T)

  /**
   * A point of the plane. Coordinates are integers so that the cross product
   * of the orientation test is exact. `key` is the point's sort value (the
   * angle from the pivot while a hull is computed) and `desc` the tag saying
   * what the sort value measures.
   */
  datatype Point = Point(x: int, y: int, key: real, desc: string)

  /** Two points occupy the same place (the comparison used by the angle guard). */
  predicate SamePlace(a: Point, b: Point)
  {
    a.x == b.x && a.y == b.y
  }

  /** The kinds of turn three consecutive points can make. */
  datatype Turn = Left | Right | Inline

  /** The error codes of the library. */
  datatype Error = Success | InvalidType | PointsTooFew | InvalidInput | NoFile | Unimplemented
  {
    /** The numeric value the C enumeration gives each code. */
    function Code(): (c: int)
      ensures (c == 0) == Success?
      ensures c <= 0 && c >= -5
    {
      match this
      case Success => 0
      case InvalidType => -1
      case PointsTooFew => -2
      case InvalidInput => -3
      case NoFile => -4
      case Unimplemented => -5
    }
  }

  /** Whether the Graham scan should run the collinear-degeneracy reducer. */
  datatype ComputeType = NoDegeneracy | WithDegeneracy

  /**
   * The hull algorithm selector is a C enumeration, so any integer can be
   * passed; the only enumerator is the Graham scan, with value 0.
   */
  const GrahamScanMethod: int := 0

  /** The sort-value tags written by the angle pass. */
  const PivotTag: string := "lowest_point"
  const AngleTag: string := "angle with lowest point"
}
