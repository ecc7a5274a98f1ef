/**
  One cubic B-spline section described by four control positions. `P1` and
  `P2` are the knots the section runs between; `P0` and `P3` are the
  neighbouring influence points.
 */
module Curves {
  import opened Vectors
  import opened ControlPoints

  datatype BSplineCurve = BSplineCurve(P0: Vec3, P1: Vec3, P2: Vec3, P3: Vec3)

  /** The constructor taking four control points keeps their positions, in order. */
  function FromControlPoints(c0: ControlPoint, c1: ControlPoint, c2: ControlPoint, c3: ControlPoint): (r: BSplineCurve)
    ensures r.P0 == c0.position && r.P1 == c1.position
    ensures r.P2 == c2.position && r.P3 == c3.position
  {
    BSplineCurve(c0.position, c1.position, c2.position, c3.position)
  }

  /** `Transform(matrix)`, with the matrix abstracted as a map applied to each point on its own. */
  function Transform(c: BSplineCurve, f: Vec3 -> Vec3): (r: BSplineCurve)
    ensures r.P0 == f(c.P0) && r.P1 == f(c.P1) && r.P2 == f(c.P2) && r.P3 == f(c.P3)
  {
    BSplineCurve(f(c.P0), f(c.P1), f(c.P2), f(c.P3))
  }

  /** `GetInvertedCurve`: the same section traversed in the opposite direction. */
  function Inverted(c: BSplineCurve): (r: BSplineCurve)
    ensures r.P0 == c.P3 && r.P1 == c.P2 && r.P2 == c.P1 && r.P3 == c.P0
  {
    BSplineCurve(c.P3, c.P2, c.P1, c.P0)
  }

  /** `Equals(BSplineCurve)`: all four points equal. */
  predicate Equals(a: BSplineCurve, b: BSplineCurve)
    ensures Equals(a, b) <==> a.P0 == b.P0 && a.P1 == b.P1 && a.P2 == b.P2 && a.P3 == b.P3
    ensures Equals(a, b) <==> a == b
  {
    a.P0 == b.P0 && a.P1 == b.P1 && a.P2 == b.P2 && a.P3 == b.P3
  }

  /** `operator ==` */
  predicate OpEquals(a: BSplineCurve, b: BSplineCurve)
    ensures OpEquals(a, b) <==> a == b
  {
    Equals(a, b)
  }

  /** `operator !=` */
  predicate OpNotEquals(a: BSplineCurve, b: BSplineCurve)
    ensures OpNotEquals(a, b) <==> a != b
  {
    !Equals(a, b)
  }

  lemma InvertTwiceIsIdentity(c: BSplineCurve)
    ensures Inverted(Inverted(c)) == c
    ensures Equals(Inverted(Inverted(c)), c)
  {
  }

  /** Inverting a curve changes it unless it is a palindrome of points. */
  lemma InvertedEqualsIffPalindrome(c: BSplineCurve)
    ensures Equals(Inverted(c), c) <==> c.P0 == c.P3 && c.P1 == c.P2
  {
  }

  lemma TransformCommutesWithInversion(c: BSplineCurve, f: Vec3 -> Vec3)
    ensures Inverted(Transform(c, f)) == Transform(Inverted(c), f)
  {
  }

  lemma OperatorsAgreeWithEquals(a: BSplineCurve, b: BSplineCurve)
    ensures OpEquals(a, b) == Equals(a, b)
    ensures OpNotEquals(a, b) == !OpEquals(a, b)
  {
  }
}

/**
  `Equals(object)` on both value types: an object is equal only when it boxes
  a value of the same type that is equal.
 */
module BoxedEquality {
  import ControlPoints
  import Curves

  /** What `Equals(object)` may receive. */
  datatype Object = BoxedControlPoint(point: ControlPoints.ControlPoint) | BoxedCurve(curve: Curves.BSplineCurve) | OtherObject

  predicate ControlPointEqualsObject(p: ControlPoints.ControlPoint, obj: Object)
    ensures ControlPointEqualsObject(p, obj) <==> obj == BoxedControlPoint(p)
  {
    obj.BoxedControlPoint? && ControlPoints.Equals(p, obj.point)
  }

  predicate CurveEqualsObject(c: Curves.BSplineCurve, obj: Object)
    ensures CurveEqualsObject(c, obj) <==> obj == BoxedCurve(c)
  {
    obj.BoxedCurve? && Curves.Equals(c, obj.curve)
  }
}
