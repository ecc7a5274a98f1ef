/** Three-component vectors with `real` coordinates standing in for `float3`. */
module Vectors {

  datatype Vec3 = Vec3(x: real, y: real, z: real)

  const Zero: Vec3 := Vec3(0.0, 0.0, 0.0)

  function Add(a: Vec3, b: Vec3): Vec3 {
    Vec3(a.x + b.x, a.y + b.y, a.z + b.z)
  }

  function Sub(a: Vec3, b: Vec3): Vec3 {
    Vec3(a.x - b.x, a.y - b.y, a.z - b.z)
  }

  function Dot(a: Vec3, b: Vec3): real {
    a.x * b.x + a.y * b.y + a.z * b.z
  }

  /** `math.distancesq`: the squared Euclidean distance. */
  function DistanceSq(a: Vec3, b: Vec3): (r: real)
    ensures r >= 0.0
    ensures a == b ==> r == 0.0
  {
    var d := Sub(a, b);
    assert d.x * d.x >= 0.0 && d.y * d.y >= 0.0 && d.z * d.z >= 0.0;
    Dot(d, d)
  }
}

/**
  A B-spline control point: a position and nothing else. Reflection about a
  pivot builds the virtual points an open spline needs at its ends.
 */
module ControlPoints {
  import opened Vectors

  datatype ControlPoint = ControlPoint(position: Vec3)

  /** `Transform(matrix)`: the matrix is left abstract as a map on positions. */
  function Transform(p: ControlPoint, f: Vec3 -> Vec3): (r: ControlPoint)
    ensures r.position == f(p.position)
  {
    ControlPoint(f(p.position))
  }

  /** `GetMirrorAround`: the reflection of `p` through `pivot`. */
  function MirrorAround(p: ControlPoint, pivot: ControlPoint): (r: ControlPoint)
    ensures r.position == Add(pivot.position, Sub(pivot.position, p.position))
    // the pivot is the midpoint of the point and its mirror
    ensures Add(p.position, r.position) == Add(pivot.position, pivot.position)
  {
    var delta := Sub(pivot.position, p.position);
    ControlPoint(Add(pivot.position, delta))
  }

  /** `operator +(ControlPoint, float3)` */
  function Plus(p: ControlPoint, v: Vec3): (r: ControlPoint)
    ensures Sub(r.position, p.position) == v
  {
    ControlPoint(Add(p.position, v))
  }

  /** `operator -(ControlPoint, float3)` */
  function Minus(p: ControlPoint, v: Vec3): (r: ControlPoint)
    ensures Sub(p.position, r.position) == v
  {
    ControlPoint(Sub(p.position, v))
  }

  /** `Equals(ControlPoint)`: component-wise comparison of the positions. */
  predicate Equals(a: ControlPoint, b: ControlPoint)
    ensures Equals(a, b) <==> a == b
  {
    a.position.x == b.position.x && a.position.y == b.position.y && a.position.z == b.position.z
  }

  lemma MirrorIsInvolution(p: ControlPoint, pivot: ControlPoint)
    ensures MirrorAround(MirrorAround(p, pivot), pivot) == p
  {
  }

  lemma MirrorAroundSelf(p: ControlPoint)
    ensures MirrorAround(p, p) == p
  {
  }

  /** Adding then subtracting the same vector, in either order, gives back the point. */
  lemma PlusMinusRoundTrip(p: ControlPoint, v: Vec3)
    ensures Minus(Plus(p, v), v) == p
    ensures Plus(Minus(p, v), v) == p
  {
  }

  /** Reflection commutes with translation: mirroring translated points gives the translated mirror. */
  lemma MirrorCommutesWithTranslation(p: ControlPoint, pivot: ControlPoint, v: Vec3)
    ensures MirrorAround(Plus(p, v), Plus(pivot, v)) == Plus(MirrorAround(p, pivot), v)
  {
  }
}
