/** Points, the distance between two points and the distance between a
    point and a set of points. */
module Geometry {
  import opened Wrappers
  import opened Builtins

  /** A point with x and y coordinates. */
  datatype Point = Point(x: real, y: real)

  /** `point_2_point` with its square root left off: (xa - xb)^2 + (ya - yb)^2.
      The square root is increasing, so comparing or minimising these values
      gives the same answers as comparing or minimising the distances. */
  function SquaredDistance(a: Point, b: Point): (d: real)
    ensures d >= 0.0
  {
    SquareNonNegative(a.x - b.x);
    SquareNonNegative(a.y - b.y);
    (a.x - b.x) * (a.x - b.x) + (a.y - b.y) * (a.y - b.y)
  }

  lemma SquareNonNegative(v: real)
    ensures v * v >= 0.0
  {
    if v < 0.0 {
      var w := -v;
      assert w * w > 0.0 * w;
      assert v * v == w * w;
    }
  }

  lemma DistanceSymmetric(a: Point, b: Point)
    ensures SquaredDistance(a, b) == SquaredDistance(b, a)
  {
    assert (a.x - b.x) * (a.x - b.x) == (b.x - a.x) * (b.x - a.x);
    assert (a.y - b.y) * (a.y - b.y) == (b.y - a.y) * (b.y - a.y);
  }

  /** point_2_set(point, points): lists the distances from `point` to every
      element of `points`, then takes their minimum; `min` of the empty list
      raises ValueError. */
  method Point2Set(point: Point, points: seq<Point>) returns (r: Result<real>)
    ensures r.Err? <==> |points| == 0
    ensures r.Err? ==> r.error == ValueError
    ensures r.Ok? ==> exists k :: 0 <= k < |points| && r.value == SquaredDistance(point, points[k])
    ensures r.Ok? ==> forall k :: 0 <= k < |points| ==> r.value <= SquaredDistance(point, points[k])
  {
    var distances: seq<real> := [];
    for i := 0 to |points|
      invariant |distances| == i
      invariant forall k :: 0 <= k < i ==> distances[k] == SquaredDistance(point, points[k])
    {
      distances := distances + [SquaredDistance(point, points[i])];
    }
    if |distances| == 0 {
      return Err(ValueError);
    }
    var m := Min(distances);
    r := Ok(m);
  }
}
