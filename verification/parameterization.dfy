/**
  Conversions between the three ways of naming a place on a spline: a
  normalized ratio of the total length, a distance along it, and a knot
  index whose fractional part is the ratio within that knot's curve.
 */
module Parameterization {
  import opened Numerics
  import opened SplineRead
  import DistanceLuts
  import Curves
  import CurveAssembly

  /** An integer plus a fraction in `[0, 1)` has that integer as floor and that fraction as fractional part. */
  lemma FloorOfIndexPlusFraction(k: int, f: real)
    requires 0.0 <= f < 1.0
    ensures (k as real + f).Floor == k && Frac(k as real + f) == f
  {
  }

  /** A curve index and the ratio within that curve. */
  datatype CurvePosition = CurvePosition(index: int, curveT: real)

  /** The outcome of walking the curves: the curve reached, how far into it, and its length; or no curve reached. */
  datatype Located = Hit(index: int, offset: real, curveLength: real) | FellThrough

  /**
    The loop of `SplineToCurveT`: starting at curve `i` with `start` the
    length already passed, find the first curve whose end reaches `tLength`.
   */
  function Locate(v: SplineView, tLength: real, i: int, start: real): (r: Located)
    requires |v.knots| >= 2 && 0 <= i <= CurveCount(v) && start == LengthBefore(v, i)
    ensures r.Hit? ==> i <= r.index < CurveCount(v) && r.curveLength == CurveLength(v, r.index)
    ensures r.Hit? ==>
      && r.offset == tLength - LengthBefore(v, r.index)
      && tLength <= LengthBefore(v, r.index) + r.curveLength
      && (r.index == i || LengthBefore(v, r.index) < tLength)
    ensures (i == 0 || start < tLength) && r.FellThrough? ==> Length(v) < tLength
    decreases CurveCount(v) - i
  {
    var n := |v.knots|;
    var c := if v.closed then n else n - 1;
    if i >= c then FellThrough
    else
      var index := i % n;
      assert index == i by { CurveAssembly.ModOfSmall(i, n); }
      var curveLength := CurveLength(v, index);
      if tLength <= start + curveLength then Hit(index, tLength - start, curveLength)
      else
        assert start + curveLength == LengthBefore(v, i + 1);
        Locate(v, tLength, i + 1, start + curveLength)
  }

  /** The distance-proportional ratio within a curve; a curve of length zero gives ratio 0. */
  function LinearCurveT(offset: real, curveLength: real): (r: real)
    requires 0.0 <= offset <= curveLength
    ensures 0.0 <= r <= 1.0
    ensures r * curveLength == offset
  {
    if curveLength == 0.0 then 0.0 else offset / curveLength
  }

  /** A ratio of the total length as a distance along the spline. */
  function DistanceOfShare(v: SplineView, t: real): (r: real)
    ensures 0.0 <= t <= 1.0 ==> 0.0 <= r <= Length(v)
  {
    var length := Length(v);
    assert 0.0 <= t <= 1.0 ==> 0.0 <= t * length <= length by {
      if 0.0 <= t <= 1.0 {
        ScaleByUnit(t, length);
      }
    }
    t * length
  }

  /** A distance along the spline as a ratio of the total length; a spline without length gives 0. */
  function ShareOfDistance(v: SplineView, t: real): (r: real)
    ensures Length(v) == 0.0 ==> r == 0.0
    ensures 0.0 <= t <= Length(v) && Length(v) > 0.0 ==> 0.0 <= r <= 1.0 && r * Length(v) == t
  {
    var length := Length(v);
    if length > 0.0 then
      assert 0.0 <= t <= length ==> 0.0 <= t / length <= 1.0 && (t / length) * length == t by {
        if 0.0 <= t <= length { RatioBounds(t, length); }
      }
      t / length
    else 0.0
  }

  /** The place on the spline `Locate` is asked for: the clamped ratio times the total length. */
  function TargetLength(v: SplineView, splineT: real): (r: real)
    ensures 0.0 <= r <= Length(v)
  {
    var t := Clamp(splineT, 0.0, 1.0);
    var length := Length(v);
    ScaleByUnit(t, length);
    t * length
  }

  /**
    `SplineToCurveT(splineT, out curveT, useLUT)`. With one knot or none the
    answer is curve 0 at ratio 0; otherwise the curve holding the clamped
    ratio, and the ratio within it from the lookup table or proportional to
    distance.
   */
  function SplineToCurveT(v: SplineView, splineT: real, useLut: bool): (r: CurvePosition)
    ensures |v.knots| <= 1 ==> r == CurvePosition(0, 0.0)
    ensures |v.knots| >= 2 ==> 0 <= r.index < CurveCount(v)
    ensures 0.0 <= r.curveT <= 1.0
  {
    var n := |v.knots|;
    if n <= 1 then CurvePosition(0, 0.0)
    else
      var tLength := TargetLength(v, splineT);
      match Locate(v, tLength, 0, 0.0)
      case Hit(index, offset, curveLength) =>
        assert 0.0 <= offset by {
          if index > 0 { assert LengthBefore(v, index) < tLength; }
        }
        CurvePosition(index, if useLut then CurveInterpolation(v, index, offset) else LinearCurveT(offset, curveLength))
      case FellThrough =>
        assert false;
        CurvePosition(if v.closed then n - 1 else n - 2, 1.0)
  }

  /** The linear `SplineToCurveT` lands exactly on the length its ratio asks for. */
  lemma LinearSplineToCurveTHitsTarget(v: SplineView, splineT: real)
    requires |v.knots| >= 2
    ensures var p := SplineToCurveT(v, splineT, false);
      DistanceAt(v, p.index, p.curveT) == TargetLength(v, splineT)
  {
    var tLength := TargetLength(v, splineT);
    match Locate(v, tLength, 0, 0.0)
    case Hit(index, offset, curveLength) =>
      assert 0.0 <= offset by {
        if index > 0 { assert LengthBefore(v, index) < tLength; }
      }
      LinearWalkOnHit(v, splineT, index, offset);
      DistanceAtOfLinear(v, index, offset);
    case FellThrough =>
      assert false;
  }

  /** The place at the linear ratio of an offset into curve `index` is that offset past the curves before it. */
  lemma DistanceAtOfLinear(v: SplineView, index: int, offset: real)
    requires 0 <= index < CurveCount(v) && 0.0 <= offset <= CurveLength(v, index)
    ensures DistanceAt(v, index, LinearCurveT(offset, CurveLength(v, index))) == LengthBefore(v, index) + offset
  {
    LinearCurveTScalesBack(offset, CurveLength(v, index));
    DistanceAtOfRatio(v, index, offset, LinearCurveT(offset, CurveLength(v, index)));
  }

  /** A ratio of curve `index` that covers `offset` of it names that offset past the curves before it. */
  lemma DistanceAtOfRatio(v: SplineView, index: int, offset: real, r: real)
    requires 0 <= index < CurveCount(v) && 0.0 <= r <= 1.0 && CurveLength(v, index) * r == offset
    ensures DistanceAt(v, index, r) == LengthBefore(v, index) + offset
  {
    DistanceAtSplits(v, index, r);
  }

  /** The linear ratio times the curve length, in either order, is the offset. */
  lemma LinearCurveTScalesBack(offset: real, curveLength: real)
    requires 0.0 <= offset <= curveLength
    ensures curveLength * LinearCurveT(offset, curveLength) == offset
  {
    var r := LinearCurveT(offset, curveLength);
    assert r * curveLength == offset;
  }

  /** The linear ratio exactly as the source computes it, an unguarded division. */
  function SplineToCurveTLinearAsWritten(v: SplineView, splineT: real): (r: (int, FloatValue))
    ensures |v.knots| <= 1 ==> r == (0, Finite(0.0))
    ensures |v.knots| >= 2 && r.1.Finite? ==>
      r == (SplineToCurveT(v, splineT, false).index, Finite(SplineToCurveT(v, splineT, false).curveT))
  {
    var n := |v.knots|;
    if n <= 1 then (0, Finite(0.0))
    else
      match Locate(v, TargetLength(v, splineT), 0, 0.0)
      case Hit(index, offset, curveLength) => (index, FloatDivide(offset, curveLength))
      case FellThrough => (if v.closed then n - 1 else n - 2, Finite(1.0))
  }

  /** The length along the spline at ratio `f` of curve `k`: the curves before it plus that share of its own. */
  function DistanceAt(v: SplineView, k: int, f: real): (r: real)
    requires 0 <= k < CurveCount(v) && 0.0 <= f <= 1.0
    ensures LengthBefore(v, k) <= r <= LengthBefore(v, k + 1)
  {
    var before := LengthBefore(v, k);
    var len := CurveLength(v, k);
    AlongWithin(before, len, f);
    assert LengthBefore(v, k + 1) == before + len;
    Along(before, len, f)
  }

  /** No place on a curve lies beyond the total length. */
  lemma DistanceAtWithinLength(v: SplineView, k: int, f: real)
    requires 0 <= k < CurveCount(v) && 0.0 <= f <= 1.0
    ensures DistanceAt(v, k, f) <= Length(v)
  {
    LengthBeforeMonotone(v, k + 1, CurveCount(v));
  }

  /**
    `CurveToSplineT(curve)`: 0 for one knot or none and for a negative
    index, 1 at or past the last curve's end, and otherwise the distance
    the index names as a fraction of the total; a spline of length zero
    gives 0.
   */
  function CurveToSplineT(v: SplineView, curve: real): (r: real)
    ensures 0.0 <= r <= 1.0
    ensures |v.knots| <= 1 || curve < 0.0 ==> r == 0.0
    ensures |v.knots| >= 2 && curve >= CurveCount(v) as real ==> r == 1.0
  {
    var n := |v.knots|;
    if n <= 1 || curve < 0.0 then 0.0
    else if curve >= (if v.closed then n else n - 1) as real then 1.0
    else
      FloorBelow(curve, CurveCount(v));
      DistanceAtWithinLength(v, curve.Floor, Frac(curve));
      ShareOfDistance(v, DistanceAt(v, curve.Floor, Frac(curve)))
  }

  /** Inside the curves, `CurveToSplineT` times the total length is the distance the index names. */
  lemma CurveToSplineTScalesToDistance(v: SplineView, curve: real)
    requires |v.knots| >= 2 && 0.0 <= curve < CurveCount(v) as real && Length(v) > 0.0
    ensures CurveToSplineT(v, curve) * Length(v) == DistanceAt(v, curve.Floor, Frac(curve))
  {
    FloorBelow(curve, CurveCount(v));
    DistanceAtWithinLength(v, curve.Floor, Frac(curve));
    assert CurveToSplineT(v, curve) == ShareOfDistance(v, DistanceAt(v, curve.Floor, Frac(curve)));
  }

  /** `CurveToSplineT` exactly as the source computes it, an unguarded division by the total length. */
  function CurveToSplineTAsWritten(v: SplineView, curve: real): (r: FloatValue)
    ensures r.Finite? ==> r.value == CurveToSplineT(v, curve)
    ensures Length(v) > 0.0 ==> r.Finite?
  {
    var n := |v.knots|;
    if n <= 1 || curve < 0.0 then Finite(0.0)
    else if curve >= (if v.closed then n else n - 1) as real then Finite(1.0)
    else FloatDivide(DistanceAt(v, curve.Floor, Frac(curve)), Length(v))
  }

  /** Knots that all sit at one point give the single curve of an open two-knot spline no length, if the collaborator measures a point as zero. */
  lemma CoincidentKnotsHaveZeroLength(v: SplineView)
    requires |v.knots| == 2 && !v.closed && v.knots[0] == v.knots[1]
    requires var p := v.knots[0].position; DistanceLuts.CurveLen(v.ev, Curves.BSplineCurve(p, p, p, p)) == 0.0
    ensures Length(v) == 0.0
  {
    assert Length(v) == LengthBefore(v, 1) == CurveLength(v, 0);
  }

  /** As written, the linear ratio at the very start of a spline whose first curve has no length is NaN. */
  lemma LinearCurveTAsWrittenIsNaN(v: SplineView, splineT: real)
    requires |v.knots| >= 2 && CurveLength(v, 0) == 0.0 && splineT <= 0.0
    ensures SplineToCurveTLinearAsWritten(v, splineT).1 == NaN
  {
    assert TargetLength(v, splineT) == 0.0;
  }

  /** As written, every in-range index on a spline of length zero converts to NaN. */
  lemma CurveToSplineTAsWrittenIsNaN(v: SplineView, curve: real)
    requires |v.knots| >= 2 && Length(v) == 0.0 && 0.0 <= curve < CurveCount(v) as real
    ensures CurveToSplineTAsWritten(v, curve) == NaN
  {
    FloorBelow(curve, CurveCount(v));
    DistanceAtWithinLength(v, curve.Floor, Frac(curve));
  }

  /** A knot-index value strictly inside curve `k` converts to the ratio of the length it names. */
  lemma BackFromInsideCurve(v: SplineView, k: int, f: real)
    requires |v.knots| >= 2 && 0 <= k < CurveCount(v) && 0.0 <= f < 1.0 && Length(v) > 0.0
    ensures CurveToSplineT(v, k as real + f) == DistanceAt(v, k, f) / Length(v)
  {
    FloorOfIndexPlusFraction(k, f);
  }

  /** The end of one curve is the start of the next. */
  lemma CurveEndMeetsNextStart(v: SplineView, k: int)
    requires 0 <= k && k + 1 < CurveCount(v)
    ensures DistanceAt(v, k, 1.0) == DistanceAt(v, k + 1, 0.0) == LengthBefore(v, k + 1)
  {
  }

  /** The knot-index value at the end of curve `k`, when another curve follows, converts to the ratio of that end. */
  lemma BackFromCurveEnd(v: SplineView, k: int)
    requires |v.knots| >= 2 && 0 <= k && k + 1 < CurveCount(v) && Length(v) > 0.0
    ensures CurveToSplineT(v, k as real + 1.0) == DistanceAt(v, k, 1.0) / Length(v)
  {
    FloorOfIndexPlusFraction(k + 1, 0.0);
    assert k as real + 1.0 == (k + 1) as real + 0.0;
    CurveEndMeetsNextStart(v, k);
  }

  lemma TargetIsClampedShare(v: SplineView, splineT: real)
    ensures TargetLength(v, splineT) == Clamp(splineT, 0.0, 1.0) * Length(v)
  {
  }

  /** The linear `SplineToCurveT` followed by `CurveToSplineT` gives back the clamped ratio. */
  lemma SplineToCurveTThenBack(v: SplineView, splineT: real)
    requires |v.knots| >= 2 && Length(v) > 0.0
    ensures var p := SplineToCurveT(v, splineT, false);
      CurveToSplineT(v, p.index as real + p.curveT) == Clamp(splineT, 0.0, 1.0)
  {
    LinearSplineToCurveTHitsTarget(v, splineT);
    var p := SplineToCurveT(v, splineT, false);
    BackFromWalk(v, splineT, p.index, p.curveT);
  }

  /** The place the walk for a ratio lands on converts back to the clamped ratio. */
  lemma BackFromWalk(v: SplineView, splineT: real, k: int, f: real)
    requires |v.knots| >= 2 && Length(v) > 0.0
    requires 0 <= k < CurveCount(v) && 0.0 <= f <= 1.0
    requires DistanceAt(v, k, f) == TargetLength(v, splineT)
    ensures CurveToSplineT(v, k as real + f) == Clamp(splineT, 0.0, 1.0)
  {
    TargetIsClampedShare(v, splineT);
    BackToShare(v, k, f, Clamp(splineT, 0.0, 1.0));
  }

  /** The knot-index value of a place at a share of the total length converts back to that share. */
  lemma BackToShare(v: SplineView, k: int, f: real, share: real)
    requires |v.knots| >= 2 && Length(v) > 0.0
    requires 0 <= k < CurveCount(v) && 0.0 <= f <= 1.0
    requires DistanceAt(v, k, f) == share * Length(v)
    ensures CurveToSplineT(v, k as real + f) == share
  {
    var L := Length(v);
    DivideBack(DistanceAt(v, k, f), share, L);
    if f < 1.0 {
      BackFromInsideCurve(v, k, f);
    } else if k + 1 < CurveCount(v) {
      BackFromCurveEnd(v, k);
    } else {
      assert DistanceAt(v, k, 1.0) == L;
      DivideBack(L, 1.0, L);
    }
  }

  /** A length the walk lands in determines the curve: the first one whose end reaches it. */
  lemma {:induction false} LocateFindsContainingCurve(v: SplineView, tLength: real, k: int)
    requires |v.knots| >= 2 && 0 <= k < CurveCount(v)
    requires forall i :: 0 <= i < CurveCount(v) ==> CurveLength(v, i) > 0.0
    requires LengthBefore(v, k) <= tLength <= LengthBefore(v, k + 1)
    requires k == 0 || LengthBefore(v, k) < tLength
    ensures Locate(v, tLength, 0, 0.0) == Hit(k, tLength - LengthBefore(v, k), CurveLength(v, k))
  {
    match Locate(v, tLength, 0, 0.0)
    case FellThrough =>
      LengthBeforeMonotone(v, k + 1, CurveCount(v));
    case Hit(j, _, _) =>
      if j < k {
        LengthBeforeMonotone(v, j + 1, k);
      } else if j > k {
        LengthBeforeMonotone(v, k + 1, j);
      }
  }

  /** Converting a knot-index value to a ratio lands the linear walk on the length that value names. */
  lemma CurveToSplineTTargetsItsDistance(v: SplineView, curve: real)
    requires |v.knots| >= 2 && 0.0 <= curve < CurveCount(v) as real && Length(v) > 0.0
    ensures TargetLength(v, CurveToSplineT(v, curve)) == DistanceAt(v, curve.Floor, Frac(curve))
  {
    CurveToSplineTScalesToDistance(v, curve);
    ShareTargetsDistance(v, CurveToSplineT(v, curve), DistanceAt(v, curve.Floor, Frac(curve)));
  }

  /** The walk's target for a share in `[0, 1]` is that share of the total length. */
  lemma ShareTargetsDistance(v: SplineView, share: real, d: real)
    requires 0.0 <= share <= 1.0 && share * Length(v) == d
    ensures TargetLength(v, share) == d
  {
    TargetOfShare(v, share);
  }

  /**
    The linear walk for a share of the total length stops on the curve and
    fraction whose distance is that share, when every curve has length and
    the place is not the start of a curve other than the first.
   */
  lemma LinearWalkFinds(v: SplineView, k: int, f: real, share: real)
    requires |v.knots| >= 2 && Length(v) > 0.0
    requires forall i :: 0 <= i < CurveCount(v) ==> CurveLength(v, i) > 0.0
    requires 0 <= k < CurveCount(v) && 0.0 <= f <= 1.0 && (f > 0.0 || k == 0)
    requires 0.0 <= share <= 1.0 && DistanceAt(v, k, f) == share * Length(v)
    ensures SplineToCurveT(v, share, false) == CurvePosition(k, f)
  {
    var len := CurveLength(v, k);
    var offset := DistanceAt(v, k, f) - LengthBefore(v, k);
    WalkReachesCurve(v, k, f, share);
    LinearWalkSettles(v, k, f, share, offset);
  }

  /** Stopping on curve `k` at the fraction `f` of its length, the linear walk reports `f`. */
  lemma LinearWalkSettles(v: SplineView, k: int, f: real, share: real, offset: real)
    requires |v.knots| >= 2 && 0 <= k < CurveCount(v) && 0.0 <= f <= 1.0 && CurveLength(v, k) > 0.0
    requires offset == CurveLength(v, k) * f && 0.0 <= offset <= CurveLength(v, k)
    requires Locate(v, TargetLength(v, share), 0, 0.0) == Hit(k, offset, CurveLength(v, k))
    ensures SplineToCurveT(v, share, false) == CurvePosition(k, f)
  {
    LinearWalkOnHit(v, share, k, offset);
    CurveRatioOf(v, k, f, offset);
  }

  /** The linear ratio of the fraction `f` of curve `k`'s length is `f`. */
  lemma CurveRatioOf(v: SplineView, k: int, f: real, offset: real)
    requires 0 <= k < CurveCount(v) && 0.0 <= f <= 1.0 && CurveLength(v, k) > 0.0
    requires offset == CurveLength(v, k) * f && 0.0 <= offset <= CurveLength(v, k)
    ensures LinearCurveT(offset, CurveLength(v, k)) == f
  {
    LinearRatioOf(offset, CurveLength(v, k), f);
  }

  /** The linear ratio of an offset that is the fraction `f` of a curve with length is `f`. */
  lemma LinearRatioOf(offset: real, len: real, f: real)
    requires 0.0 < len && 0.0 <= f <= 1.0 && offset == len * f
    ensures 0.0 <= offset <= len && LinearCurveT(offset, len) == f
  {
    ScaleByUnit(f, len);
    DivideBack(offset, f, len);
  }

  /** The walk for that share stops on curve `k`, `f` of the way along it. */
  lemma WalkReachesCurve(v: SplineView, k: int, f: real, share: real)
    requires |v.knots| >= 2 && Length(v) > 0.0
    requires forall i :: 0 <= i < CurveCount(v) ==> CurveLength(v, i) > 0.0
    requires 0 <= k < CurveCount(v) && 0.0 <= f <= 1.0 && (f > 0.0 || k == 0)
    requires 0.0 <= share <= 1.0 && DistanceAt(v, k, f) == share * Length(v)
    ensures var offset := DistanceAt(v, k, f) - LengthBefore(v, k);
      && offset == CurveLength(v, k) * f
      && 0.0 <= offset <= CurveLength(v, k)
      && Locate(v, TargetLength(v, share), 0, 0.0) == Hit(k, offset, CurveLength(v, k))
  {
    var d := DistanceAt(v, k, f);
    DistanceAtSplits(v, k, f);
    OffsetWithinCurve(v, k, f);
    TargetOfShare(v, share);
    if f > 0.0 {
      DistanceAtPastStart(v, k, f);
    }
    LocateFindsContainingCurve(v, d, k);
  }

  /** The part of `DistanceAt` inside curve `k` is the fraction `f` of its length, and lies within it. */
  lemma DistanceAtSplits(v: SplineView, k: int, f: real)
    requires 0 <= k < CurveCount(v) && 0.0 <= f <= 1.0
    ensures DistanceAt(v, k, f) == LengthBefore(v, k) + CurveLength(v, k) * f
  {
  }

  /** The part of `DistanceAt` inside curve `k` lies within that curve. */
  lemma OffsetWithinCurve(v: SplineView, k: int, f: real)
    requires 0 <= k < CurveCount(v) && 0.0 <= f <= 1.0
    ensures 0.0 <= DistanceAt(v, k, f) - LengthBefore(v, k) <= CurveLength(v, k)
  {
    LengthBeforeStep(v, k);
  }

  /** Past the start of a curve with length, the distance is beyond the curves before it. */
  lemma DistanceAtPastStart(v: SplineView, k: int, f: real)
    requires 0 <= k < CurveCount(v) && 0.0 < f <= 1.0 && CurveLength(v, k) > 0.0
    ensures LengthBefore(v, k) < DistanceAt(v, k, f)
  {
    DistanceAtSplits(v, k, f);
    AddPositivePortion(LengthBefore(v, k), CurveLength(v, k), f, DistanceAt(v, k, f));
  }


  /** Within `[0, 1]` the walk's target is the share of the total length. */
  lemma TargetOfShare(v: SplineView, share: real)
    requires 0.0 <= share <= 1.0
    ensures TargetLength(v, share) == share * Length(v)
  {
    TargetIsClampedShare(v, share);
  }

  /** Where the walk stops on curve `k` at `offset` into it, the linear ratio is that offset's share of the curve. */
  lemma LinearWalkOnHit(v: SplineView, splineT: real, k: int, offset: real)
    requires |v.knots| >= 2 && 0 <= k < CurveCount(v) && 0.0 <= offset <= CurveLength(v, k)
    requires Locate(v, TargetLength(v, splineT), 0, 0.0) == Hit(k, offset, CurveLength(v, k))
    ensures SplineToCurveT(v, splineT, false) == CurvePosition(k, LinearCurveT(offset, CurveLength(v, k)))
  {
  }

  /** Inside a curve, or at the very start, the linear walk comes back to the same index and fraction. */
  lemma LinearWalkInsideCurve(v: SplineView, curve: real)
    requires |v.knots| >= 2 && 0.0 <= curve < CurveCount(v) as real
    requires forall i :: 0 <= i < CurveCount(v) ==> CurveLength(v, i) > 0.0
    requires Frac(curve) > 0.0 || curve.Floor == 0
    ensures SplineToCurveT(v, CurveToSplineT(v, curve), false) == CurvePosition(curve.Floor, Frac(curve))
  {
    var k := curve.Floor;
    var f := Frac(curve);
    var share := CurveToSplineT(v, curve);
    FloorBelow(curve, CurveCount(v));
    assert Length(v) > 0.0 by {
      LengthBeforeStrictlyIncreasing(v, 0, CurveCount(v));
    }
    CurveToSplineTScalesToDistance(v, curve);
    LinearWalkFinds(v, k, f, share);
  }

  /** On a knot other than the first, the linear walk stops at the end of the curve before it. */
  lemma LinearWalkOnKnot(v: SplineView, curve: real)
    requires |v.knots| >= 2 && 0.0 <= curve < CurveCount(v) as real
    requires forall i :: 0 <= i < CurveCount(v) ==> CurveLength(v, i) > 0.0
    requires Frac(curve) == 0.0 && curve.Floor > 0
    ensures SplineToCurveT(v, CurveToSplineT(v, curve), false) == CurvePosition(curve.Floor - 1, 1.0)
  {
    var k := curve.Floor;
    var share := CurveToSplineT(v, curve);
    FloorBelow(curve, CurveCount(v));
    assert Length(v) > 0.0 by {
      LengthBeforeStrictlyIncreasing(v, 0, CurveCount(v));
    }
    CurveToSplineTScalesToDistance(v, curve);
    CurveEndMeetsNextStart(v, k - 1);
    LinearWalkFinds(v, k - 1, 1.0, share);
  }

  /** `CurveToSplineT` followed by the linear `SplineToCurveT` gives back the index, when every curve has length. */
  lemma CurveToSplineTThenBack(v: SplineView, curve: real)
    requires |v.knots| >= 2 && 0.0 <= curve < CurveCount(v) as real
    requires forall i :: 0 <= i < CurveCount(v) ==> CurveLength(v, i) > 0.0
    ensures var p := SplineToCurveT(v, CurveToSplineT(v, curve), false);
      p.index as real + p.curveT == curve
  {
    if Frac(curve) > 0.0 || curve.Floor == 0 {
      LinearWalkInsideCurve(v, curve);
    } else {
      LinearWalkOnKnot(v, curve);
    }
  }

  /**
    `WrapInterpolation(t, closed)`: an open spline clamps; a closed one
    clamps whole numbers and keeps only the fractional part of the rest.
   */
  function WrapInterpolation(t: real, closed: bool): (r: real)
    ensures 0.0 <= r <= 1.0
    ensures 0.0 <= t <= 1.0 ==> r == t
    ensures !closed || IsIntegral(t) ==> r == Clamp(t, 0.0, 1.0)
    ensures closed && !IsIntegral(t) ==> IsIntegral(t - r) && 0.0 < r < 1.0
  {
    if !closed then Clamp(t, 0.0, 1.0)
    else if IsIntegral(t) then Clamp(t, 0.0, 1.0)
    else t - t.Floor as real
  }

  lemma WrapIsIdempotent(t: real, closed: bool)
    ensures WrapInterpolation(WrapInterpolation(t, closed), closed) == WrapInterpolation(t, closed)
  {
  }

  /** On a closed spline, shifting a non-integral ratio by a whole lap lands on the same place. */
  lemma WrapIsPeriodic(t: real, laps: int)
    requires !IsIntegral(t)
    ensures WrapInterpolation(t + laps as real, true) == WrapInterpolation(t, true)
  {
    var s := t + laps as real;
    assert s.Floor == t.Floor + laps by {
      assert t.Floor as real + laps as real <= s < (t.Floor + laps + 1) as real;
    }
    assert !IsIntegral(s);
  }

  /** How a place on the spline is expressed. `ControlPoint` is the knot index with fractional curve ratio. */
  datatype PathIndexUnit = Distance | Normalized | ControlPoint

  /** `ConvertNormalizedIndexUnit(t, targetPathUnit)`; the knot-index form uses the distance-proportional ratio. */
  function ConvertNormalizedIndexUnit(v: SplineView, t: real, target: PathIndexUnit): (r: real)
    ensures target == Distance && 0.0 <= t <= 1.0 ==> 0.0 <= r <= Length(v)
    ensures target == ControlPoint && |v.knots| <= 1 ==> r == 0.0
    ensures target == ControlPoint && |v.knots| >= 2 ==> 0.0 <= r <= CurveCount(v) as real
    ensures target == Normalized ==> r == t
  {
    match target
    case ControlPoint =>
      var p := SplineToCurveT(v, t, false);
      p.index as real + p.curveT
    case Distance => DistanceOfShare(v, t)
    case Normalized => t
  }

  /** `GetNormalizedInterpolation(t, originalPathUnit)`: any form to a wrapped ratio; a distance on a spline without length gives 0. */
  function GetNormalizedInterpolation(v: SplineView, t: real, original: PathIndexUnit): (r: real)
    ensures 0.0 <= r <= 1.0
    ensures original == Normalized ==> r == WrapInterpolation(t, v.closed)
    ensures original == Distance && Length(v) == 0.0 ==> r == 0.0
  {
    match original
    case ControlPoint => WrapInterpolation(CurveToSplineT(v, t), v.closed)
    case Distance => WrapInterpolation(ShareOfDistance(v, t), v.closed)
    case Normalized => WrapInterpolation(t, v.closed)
  }

  /** `ConvertIndexUnit(t, targetPathUnit)`: `t` is taken as a ratio; only a ratio target is wrapped. */
  function ConvertIndexUnit(v: SplineView, t: real, target: PathIndexUnit): (r: real)
    ensures target == Normalized ==> 0.0 <= r <= 1.0
    ensures 0.0 <= t <= 1.0 ==> r == ConvertIndexUnitBetween(v, t, Normalized, target)
  {
    if target == Normalized then WrapInterpolation(t, v.closed)
    else ConvertNormalizedIndexUnit(v, t, target)
  }

  /** `ConvertIndexUnit(t, fromPathUnit, targetPathUnit)`: normalize, then express in the target form. */
  function ConvertIndexUnitBetween(v: SplineView, t: real, from: PathIndexUnit, target: PathIndexUnit): (r: real)
    ensures from == target && target != Normalized ==> r == t
    ensures target == Normalized ==> 0.0 <= r <= 1.0
    ensures from == target == Normalized ==> r == WrapInterpolation(t, v.closed)
  {
    if from == target then
      if target == Normalized then WrapInterpolation(t, v.closed) else t
    else ConvertNormalizedIndexUnit(v, GetNormalizedInterpolation(v, t, from), target)
  }

  /** A ratio scaled to a distance and divided back by the length is the ratio again. */
  lemma ShareOfDistanceOfShare(v: SplineView, w: real)
    requires 0.0 <= w <= 1.0 && Length(v) > 0.0
    ensures ShareOfDistance(v, DistanceOfShare(v, w)) == w
  {
    var L := Length(v);
    ScaleByUnit(w, L);
    DivideBack(DistanceOfShare(v, w), w, L);
  }

  /** A distance divided by the length and scaled back is the distance again. */
  lemma DistanceOfShareOfDistance(v: SplineView, d: real)
    requires 0.0 <= d <= Length(v) && Length(v) > 0.0
    ensures DistanceOfShare(v, ShareOfDistance(v, d)) == d
  {
  }

  /** The distance a distance normalizes to, times the length, is the distance: the ratio scales back. */
  lemma DistanceRatioScalesBack(v: SplineView, d: real)
    requires 0.0 <= d <= Length(v) && Length(v) > 0.0
    ensures GetNormalizedInterpolation(v, d, Distance) * Length(v) == d
  {
    assert GetNormalizedInterpolation(v, d, Distance) == ShareOfDistance(v, d);
  }

  /** Ratio to distance and back gives the wrapped ratio on a spline with length. */
  lemma NormalizedDistanceRoundTrip(v: SplineView, t: real)
    requires Length(v) > 0.0
    ensures ConvertIndexUnitBetween(v, ConvertIndexUnitBetween(v, t, Normalized, Distance), Distance, Normalized)
      == WrapInterpolation(t, v.closed)
  {
    var w := WrapInterpolation(t, v.closed);
    var d := DistanceOfShare(v, w);
    assert ConvertIndexUnitBetween(v, t, Normalized, Distance) == d;
    ShareOfDistanceOfShare(v, w);
    assert ConvertIndexUnitBetween(v, d, Distance, Normalized) == WrapInterpolation(w, v.closed);
    WrapIsIdempotent(t, v.closed);
  }

  /** Distance to ratio and back gives the distance, for any distance along a spline with length. */
  lemma DistanceNormalizedRoundTrip(v: SplineView, d: real)
    requires 0.0 <= d <= Length(v) && Length(v) > 0.0
    ensures ConvertIndexUnitBetween(v, ConvertIndexUnitBetween(v, d, Distance, Normalized), Normalized, Distance) == d
  {
    var r := ShareOfDistance(v, d);
    assert ConvertIndexUnitBetween(v, d, Distance, Normalized) == r;
    assert ConvertIndexUnitBetween(v, r, Normalized, Distance) == DistanceOfShare(v, r);
    DistanceOfShareOfDistance(v, d);
  }

  /** On a spline without length every distance names its start. */
  lemma ZeroLengthDistanceIsStart(v: SplineView, d: real, target: PathIndexUnit)
    requires Length(v) == 0.0 && target != Distance
    ensures ConvertIndexUnitBetween(v, d, Distance, target) == 0.0
  {
    if target == ControlPoint && |v.knots| >= 2 {
      assert Locate(v, 0.0, 0, 0.0).index == 0 by {
        CurveWithinLength(v, 0);
      }
    }
  }

  /** Ratio to knot index and back gives the wrapped ratio on a spline of two knots or more with length. */
  lemma NormalizedControlPointRoundTrip(v: SplineView, t: real)
    requires |v.knots| >= 2 && Length(v) > 0.0
    ensures ConvertIndexUnitBetween(v, ConvertIndexUnitBetween(v, t, Normalized, ControlPoint), ControlPoint, Normalized)
      == WrapInterpolation(t, v.closed)
  {
    var w := WrapInterpolation(t, v.closed);
    var p := SplineToCurveT(v, w, false);
    var c := ConvertIndexUnitBetween(v, t, Normalized, ControlPoint);
    assert c == p.index as real + p.curveT;
    assert CurveToSplineT(v, c) == w by {
      SplineToCurveTThenBack(v, w);
    }
    assert WrapInterpolation(w, v.closed) == w by {
      WrapIsIdempotent(t, v.closed);
    }
    assert ConvertIndexUnitBetween(v, c, ControlPoint, Normalized) == WrapInterpolation(w, v.closed);
  }

  /** Knot index to ratio and back gives the index, when every curve has length. */
  lemma ControlPointNormalizedRoundTrip(v: SplineView, c: real)
    requires |v.knots| >= 2 && 0.0 <= c < CurveCount(v) as real
    requires forall i :: 0 <= i < CurveCount(v) ==> CurveLength(v, i) > 0.0
    ensures ConvertIndexUnitBetween(v, ConvertIndexUnitBetween(v, c, ControlPoint, Normalized), Normalized, ControlPoint) == c
  {
    CurveToSplineTThenBack(v, c);
  }
}
