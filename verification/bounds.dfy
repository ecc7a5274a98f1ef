/**
  `SplineUtility.GetBounds`: the axis-aligned box around the transformed knot
  positions. A Unity `Bounds` is kept as its two corners; `Encapsulate` widens
  each axis independently to take in one more point.
 */
module Bounds {
  import opened Numerics
  import opened Vectors
  import opened ControlPoints

  datatype Box = Box(min: Vec3, max: Vec3)

  datatype Axis = X | Y | Z

  function Coord(p: Vec3, a: Axis): real {
    match a
    case X => p.x
    case Y => p.y
    case Z => p.z
  }

  /** The point lies inside the box, faces included, on every axis. */
  predicate Inside(b: Box, p: Vec3) {
    forall a: Axis :: Coord(b.min, a) <= Coord(p, a) <= Coord(b.max, a)
  }

  /** `new Bounds(center, Vector3.zero)`: the box holding exactly one point. */
  function PointBox(p: Vec3): (b: Box)
    ensures Inside(b, p)
    ensures forall a: Axis :: Coord(b.min, a) == Coord(p, a) == Coord(b.max, a)
  {
    Box(p, p)
  }

  /** `Bounds.Encapsulate(point)`: the corners move out to the point on each axis where it lies outside. */
  function Encapsulate(b: Box, p: Vec3): (r: Box)
    ensures Inside(r, p)
    ensures forall a: Axis :: Coord(r.min, a) == Min(Coord(b.min, a), Coord(p, a))
    ensures forall a: Axis :: Coord(r.max, a) == Max(Coord(b.max, a), Coord(p, a))
  {
    Box(Vec3(Min(b.min.x, p.x), Min(b.min.y, p.y), Min(b.min.z, p.z)),
        Vec3(Max(b.max.x, p.x), Max(b.max.y, p.y), Max(b.max.z, p.z)))
  }

  /** Knot `i`'s position under the transform the bounds are taken in. */
  function Point(knots: seq<ControlPoint>, transform: Vec3 -> Vec3, i: int): Vec3
    requires 0 <= i < |knots|
  {
    transform(knots[i].position)
  }

  /** Some knot among the first `n` lies on the lower face of axis `a`. */
  predicate MinAttained(b: Box, knots: seq<ControlPoint>, transform: Vec3 -> Vec3, n: int, a: Axis)
    requires n <= |knots|
  {
    exists j :: 0 <= j < n && Coord(Point(knots, transform, j), a) == Coord(b.min, a)
  }

  /** Some knot among the first `n` lies on the upper face of axis `a`. */
  predicate MaxAttained(b: Box, knots: seq<ControlPoint>, transform: Vec3 -> Vec3, n: int, a: Axis)
    requires n <= |knots|
  {
    exists j :: 0 <= j < n && Coord(Point(knots, transform, j), a) == Coord(b.max, a)
  }

  /** The box holds the first `n` knots and each of its six faces touches one of them. */
  predicate Tight(b: Box, knots: seq<ControlPoint>, transform: Vec3 -> Vec3, n: int)
    requires n <= |knots|
  {
    && (forall j :: 0 <= j < n ==> Inside(b, Point(knots, transform, j)))
    && (forall a: Axis :: MinAttained(b, knots, transform, n, a) && MaxAttained(b, knots, transform, n, a))
  }

  /** Widening a tight box by the next knot keeps it tight over one more knot. */
  lemma EncapsulateKeepsTight(b: Box, knots: seq<ControlPoint>, transform: Vec3 -> Vec3, n: int)
    requires 0 <= n < |knots| && Tight(b, knots, transform, n)
    ensures Tight(Encapsulate(b, Point(knots, transform, n)), knots, transform, n + 1)
  {
    var p := Point(knots, transform, n);
    var r := Encapsulate(b, p);
    var m := n + 1;
    forall a: Axis
      ensures MinAttained(r, knots, transform, m, a) && MaxAttained(r, knots, transform, m, a)
    {
      assert MinAttained(b, knots, transform, n, a);
      var j :| 0 <= j < n && Coord(Point(knots, transform, j), a) == Coord(b.min, a);
      if Coord(r.min, a) == Coord(p, a) {
        assert Coord(Point(knots, transform, n), a) == Coord(r.min, a);
      } else {
        assert Coord(Point(knots, transform, j), a) == Coord(r.min, a);
      }
      assert MaxAttained(b, knots, transform, n, a);
      var k :| 0 <= k < n && Coord(Point(knots, transform, k), a) == Coord(b.max, a);
      if Coord(r.max, a) == Coord(p, a) {
        assert Coord(Point(knots, transform, n), a) == Coord(r.max, a);
      } else {
        assert Coord(Point(knots, transform, k), a) == Coord(r.max, a);
      }
    }
  }

  /**
    `GetBounds(spline, transform)`: `default` (both corners at the origin) for
    a spline without knots; otherwise the box grown from the first knot by
    encapsulating every knot in order.
   */
  method GetBounds(knots: seq<ControlPoint>, transform: Vec3 -> Vec3) returns (b: Box)
    ensures |knots| == 0 ==> b == Box(Zero, Zero)
    ensures |knots| > 0 ==> Tight(b, knots, transform, |knots|)
  {
    if |knots| < 1 {
      return Box(Zero, Zero);
    }
    var point := Point(knots, transform, 0);
    b := PointBox(point);
    assert Tight(b, knots, transform, 0 + 1) by {
      forall a: Axis
        ensures MinAttained(b, knots, transform, 1, a) && MaxAttained(b, knots, transform, 1, a)
      {
        assert Coord(Point(knots, transform, 0), a) == Coord(b.min, a) == Coord(b.max, a);
      }
    }
    b := Encapsulate(b, point);
    var i := 1;
    while i < |knots|
      invariant 1 <= i <= |knots|
      invariant Tight(b, knots, transform, i)
    {
      EncapsulateKeepsTight(b, knots, transform, i);
      b := Encapsulate(b, Point(knots, transform, i));
      i := i + 1;
    }
  }

  /** A tight box is the smallest one: every box holding all the knots holds it. */
  lemma TightBoxIsSmallest(b: Box, c: Box, knots: seq<ControlPoint>, transform: Vec3 -> Vec3)
    requires Tight(b, knots, transform, |knots|)
    requires forall j :: 0 <= j < |knots| ==> Inside(c, Point(knots, transform, j))
    ensures forall a: Axis :: Coord(c.min, a) <= Coord(b.min, a) && Coord(b.max, a) <= Coord(c.max, a)
  {
    forall a: Axis
      ensures Coord(c.min, a) <= Coord(b.min, a) && Coord(b.max, a) <= Coord(c.max, a)
    {
      assert MinAttained(b, knots, transform, |knots|, a);
      var j :| 0 <= j < |knots| && Coord(Point(knots, transform, j), a) == Coord(b.min, a);
      assert Inside(c, Point(knots, transform, j));
      assert MaxAttained(b, knots, transform, |knots|, a);
      var k :| 0 <= k < |knots| && Coord(Point(knots, transform, k), a) == Coord(b.max, a);
      assert Inside(c, Point(knots, transform, k));
    }
  }

  /** Two tight boxes around the same knots are the same box: `GetBounds` is determined by the knot set. */
  lemma TightBoxIsUnique(b: Box, c: Box, knots: seq<ControlPoint>, transform: Vec3 -> Vec3)
    requires Tight(b, knots, transform, |knots|) && Tight(c, knots, transform, |knots|)
    ensures b == c
  {
    TightBoxIsSmallest(b, c, knots, transform);
    TightBoxIsSmallest(c, b, knots, transform);
    assert Coord(b.min, X) == Coord(c.min, X) && Coord(b.min, Y) == Coord(c.min, Y) && Coord(b.min, Z) == Coord(c.min, Z);
    assert Coord(b.max, X) == Coord(c.max, X) && Coord(b.max, Y) == Coord(c.max, Y) && Coord(b.max, Z) == Coord(c.max, Z);
  }
}
