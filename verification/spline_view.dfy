/**
  The read contract every spline exposes (`ISpline`): knot count, closed
  flag, curves, curve lengths, total length and distance-to-ratio lookup.
  Values here are always freshly computed through the curve-maths
  collaborator; the cached `Spline` is shown to agree with them.
 */
module SplineRead {
  import opened Numerics
  import opened ControlPoints
  import opened Curves
  import opened DistanceLuts
  import SplineIndex
  import CurveAssembly

  datatype SplineView = SplineView(knots: seq<ControlPoint>, closed: bool, ev: CurveEvaluator)

  function Count(v: SplineView): nat {
    |v.knots|
  }

  /** `GetCurveCount`. */
  function CurveCount(v: SplineView): (r: nat)
    ensures r <= |v.knots|
    ensures |v.knots| >= 2 ==> r >= 1
  {
    SplineIndex.CurveCount(|v.knots|, v.closed)
  }

  /** `PreviousIndex(spline, index)`. */
  function PreviousIndex(v: SplineView, index: int): int
    requires v.closed ==> |v.knots| != 0
  {
    SplineIndex.PreviousIndex(index, |v.knots|, v.closed)
  }

  /** `NextIndex(spline, index)`. */
  function NextIndex(v: SplineView, index: int): int
    requires v.closed ==> |v.knots| != 0
  {
    SplineIndex.NextIndex(index, |v.knots|, v.closed)
  }

  /** `GetCurve(index)`. */
  function Curve(v: SplineView, index: int): BSplineCurve
    requires 0 <= index < |v.knots|
  {
    CurveAssembly.CurveForControlPoint(index, v.knots, v.closed)
  }

  /** `GetCurveLength(index)`: the length the lookup table of curve `index` records. */
  function CurveLength(v: SplineView, index: int): (r: real)
    requires 0 <= index < |v.knots|
    ensures r >= 0.0
  {
    CurveLen(v.ev, Curve(v, index))
  }

  /** `GetCurveInterpolation(curveIndex, curveDistance)`: a ratio in [0, 1]. */
  function CurveInterpolation(v: SplineView, curveIndex: int, curveDistance: real): (r: real)
    requires 0 <= curveIndex < |v.knots|
    ensures 0.0 <= r <= 1.0
  {
    v.ev.lookup(v.ev.buildLut(Curve(v, curveIndex)), curveDistance)
  }

  /** The sum of the lengths of curves `0 .. k-1`, the running total every length walk accumulates. */
  function LengthBefore(v: SplineView, k: int): (r: real)
    requires 0 <= k <= CurveCount(v)
    ensures r >= 0.0
  {
    if k == 0 then 0.0 else LengthBefore(v, k - 1) + CurveLength(v, k - 1)
  }

  /** `GetLength`: the sum of all curve lengths, one curve per knot when closed and one fewer when open. */
  function Length(v: SplineView): (r: real)
    ensures r >= 0.0
  {
    LengthBefore(v, CurveCount(v))
  }

  /** The running total never decreases as more curves are counted. */
  lemma {:induction false} LengthBeforeMonotone(v: SplineView, j: int, k: int)
    requires 0 <= j <= k <= CurveCount(v)
    ensures LengthBefore(v, j) <= LengthBefore(v, k)
    decreases k - j
  {
    if j < k {
      LengthBeforeMonotone(v, j, k - 1);
    }
  }

  /** With every curve of positive length the running total is strictly increasing. */
  lemma {:induction false} LengthBeforeStrictlyIncreasing(v: SplineView, j: int, k: int)
    requires 0 <= j < k <= CurveCount(v)
    requires forall i :: 0 <= i < CurveCount(v) ==> CurveLength(v, i) > 0.0
    ensures LengthBefore(v, j) < LengthBefore(v, k)
    decreases k - j
  {
    if j < k - 1 {
      LengthBeforeStrictlyIncreasing(v, j, k - 1);
    }
  }

  /** Each curve's length is bounded by the total, and curves before it add up to at most the total minus it. */
  lemma CurveWithinLength(v: SplineView, k: int)
    requires 0 <= k < CurveCount(v)
    ensures LengthBefore(v, k) + CurveLength(v, k) <= Length(v)
  {
    LengthBeforeStep(v, k);
    LengthBeforeMonotone(v, k + 1, CurveCount(v));
  }

  /** One more curve adds its length to the running total. */
  lemma LengthBeforeStep(v: SplineView, k: int)
    requires 0 <= k < CurveCount(v)
    ensures LengthBefore(v, k + 1) == LengthBefore(v, k) + CurveLength(v, k)
  {
  }

  /** An open spline of one or no knots, or an empty one, has no curves and so no length. */
  lemma NoCurvesNoLength(v: SplineView)
    requires |v.knots| == 0 || (|v.knots| == 1 && !v.closed)
    ensures CurveCount(v) == 0 && Length(v) == 0.0
  {
  }

  /**
    A closed single knot has one degenerate curve whose four points coincide;
    its length is whatever the collaborator measures for a point, zero for any
    sensible one.
   */
  lemma SingleKnotLength(v: SplineView)
    requires |v.knots| == 1
    requires CurveLen(v.ev, BSplineCurve(v.knots[0].position, v.knots[0].position, v.knots[0].position, v.knots[0].position)) == 0.0
    ensures Length(v) == 0.0
  {
    if v.closed {
      var p := v.knots[0].position;
      CurveAssembly.SingleKnotCurve(v.knots, v.closed, 0);
      assert Curve(v, 0) == BSplineCurve(p, p, p, p);
      assert Length(v) == LengthBefore(v, 1) == CurveLength(v, 0);
    }
  }
}
