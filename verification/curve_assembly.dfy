/**
  Curve assembly (`Spline.GetCurveControlPointsForIndex`): the four control
  points of the section that starts at a knot, under three regimes — a single
  knot, a closed spline whose indices wrap, and an open spline whose missing
  neighbours at either end are synthesised by reflection.
 */
module CurveAssembly {
  import opened Vectors
  import opened ControlPoints
  import opened Curves
  import opened SplineIndex

  type Quad = (ControlPoint, ControlPoint, ControlPoint, ControlPoint)

  /**
    `GetCurveControlPointsForIndex(index, points, closed)`. A single knot is
    returned four times whatever the index; with more knots an index outside
    the list throws in the source.
   */
  function CurveControlPointsForIndex(index: int, points: seq<ControlPoint>, closed: bool): (q: Quad)
    requires |points| == 1 || 0 <= index < |points|
    ensures 0 <= index < |points| ==> q.1 == points[index]
    ensures |points| == 1 ==> q == (points[0], points[0], points[0], points[0])
  {
    var n := |points|;
    if n == 1 then
      var first := points[0];
      (first, first, first, first)
    else if closed then
      var p0Index := (index - 1 + n) % n;
      var p1Index := index;
      var p2Index := (index + 1) % n;
      var p3Index := (index + 2) % n;
      (points[p0Index], points[p1Index], points[p2Index], points[p3Index])
    else
      var p0Index := index - 1;
      var p2Index := index + 1;
      var p3Index := index + 2;
      var p1 := points[index];
      var p0 := if p0Index < 0 then MirrorAround(points[1], points[0]) else points[p0Index];
      if p2Index >= n then
        var last := points[n - 1];
        var beforeLast := points[n - 2];
        var p2 := MirrorAround(beforeLast, last);
        var p3 := MirrorAround(last, p2);
        (p0, p1, p2, p3)
      else
        var p2 := points[p2Index];
        var p3 := if p3Index >= n then MirrorAround(points[n - 2], points[n - 1]) else points[p3Index];
        (p0, p1, p2, p3)
  }

  /** `GetCurveForControlPoint(index, points, closed)` / `Spline.GetCurve`. */
  function CurveForControlPoint(index: int, points: seq<ControlPoint>, closed: bool): (c: BSplineCurve)
    requires |points| == 1 || 0 <= index < |points|
    ensures 0 <= index < |points| ==> c.P1 == points[index].position
    ensures |points| == 1 ==> c == BSplineCurve(points[0].position, points[0].position, points[0].position, points[0].position)
  {
    var q := CurveControlPointsForIndex(index, points, closed);
    FromControlPoints(q.0, q.1, q.2, q.3)
  }

  /**
    Reference definition: the knot sequence extended past its ends. A closed
    spline repeats itself; an open spline of at least two knots gains one
    virtual point before the first knot and two after the last, each the
    reflection of its inner neighbour.
   */
  function Extended(points: seq<ControlPoint>, closed: bool, j: int): ControlPoint
    requires |points| >= 1
    requires |points| >= 2 && !closed ==> -1 <= j <= |points| + 1
  {
    var n := |points|;
    if n == 1 then points[0]
    else if closed then points[j % n]
    else if j == -1 then MirrorAround(points[1], points[0])
    else if j < n then points[j]
    else if j == n then MirrorAround(points[n - 2], points[n - 1])
    else MirrorAround(points[n - 1], Extended(points, closed, n))
  }

  /** Every assembled curve is the window of four consecutive points of the extended sequence. */
  lemma CurveIsWindowOfExtended(index: int, points: seq<ControlPoint>, closed: bool)
    requires 0 <= index < |points|
    ensures CurveControlPointsForIndex(index, points, closed) ==
      (Extended(points, closed, index - 1), Extended(points, closed, index),
       Extended(points, closed, index + 1), Extended(points, closed, index + 2))
  {
    if |points| >= 2 {
      if closed {
        ClosedWindow(index, points);
      } else {
        OpenWindow(index, points);
      }
    }
  }

  lemma ClosedWindow(index: int, points: seq<ControlPoint>)
    requires 2 <= |points| && 0 <= index < |points|
    ensures CurveControlPointsForIndex(index, points, true) ==
      (Extended(points, true, index - 1), Extended(points, true, index),
       Extended(points, true, index + 1), Extended(points, true, index + 2))
  {
    var n := |points|;
    ModOfSmall(index, n);
    ModOfSmall(index - 1 + n, n);
    if index == 0 {
      ModOfMinusOne(n);
    } else {
      ModOfSmall(index - 1, n);
    }
  }

  lemma ModOfSmall(a: int, n: int)
    requires 0 < n && 0 <= a < 2 * n
    ensures a % n == if a < n then a else a - n
  {
    if a >= n {
      assert (a - n) % n == a - n;
      assert a % n == (a - n) % n;
    }
  }

  lemma ModOfMinusOne(n: int)
    requires 0 < n
    ensures (-1) % n == n - 1
  {
  }

  lemma OpenWindow(index: int, points: seq<ControlPoint>)
    requires 2 <= |points| && 0 <= index < |points|
    ensures CurveControlPointsForIndex(index, points, false) ==
      (Extended(points, false, index - 1), Extended(points, false, index),
       Extended(points, false, index + 1), Extended(points, false, index + 2))
  {
  }

  /** A single knot gives a degenerate curve whose four points are that knot, for any index. */
  lemma SingleKnotCurve(points: seq<ControlPoint>, closed: bool, index: int)
    requires |points| == 1
    ensures var c := CurveForControlPoint(index, points, closed);
      c.P0 == c.P1 == c.P2 == c.P3 == points[0].position
  {
  }

  /** Closed wrap-around: the last curve ends on knot 0 and is pulled towards knot 1. */
  lemma ClosedLastCurveWraps(points: seq<ControlPoint>)
    requires |points| >= 2
    ensures var q := CurveControlPointsForIndex(|points| - 1, points, true);
      q.0 == points[|points| - 2] && q.2 == points[0] && q.3 == points[1]
  {
    var n := |points|;
    ModOfSmall(n - 1 - 1 + n, n);
    ModOfSmall(n - 1 + 1, n);
    ModOfSmall(n - 1 + 2, n);
  }

  /** Closed curves read the four cyclically consecutive knots. */
  lemma ClosedCurveIndices(index: int, points: seq<ControlPoint>)
    requires 2 <= |points| && 0 <= index < |points|
    ensures var n := |points|;
      CurveControlPointsForIndex(index, points, true) ==
        (points[(index - 1 + n) % n], points[index], points[(index + 1) % n], points[(index + 2) % n])
  {
  }

  /** Open boundary rules: which points are real knots and which are reflections. */
  lemma OpenBoundaryRules(index: int, points: seq<ControlPoint>)
    requires 2 <= |points| && 0 <= index < |points|
    ensures var n := |points|; var q := CurveControlPointsForIndex(index, points, false);
      && (index == 0 ==> q.0 == MirrorAround(points[1], points[0]))
      && (index > 0 ==> q.0 == points[index - 1])
      && (index + 1 < n ==> q.2 == points[index + 1])
      && (index + 2 < n ==> q.3 == points[index + 2])
      && (index == n - 2 ==> q.3 == MirrorAround(points[n - 2], points[n - 1]))
      && (index == n - 1 ==> q.2 == MirrorAround(points[n - 2], points[n - 1]) && q.3 == MirrorAround(points[n - 1], q.2))
  {
  }

  /**
    The reflected points at an open end continue the end step of the knot
    sequence in a straight line at equal spacing.
   */
  lemma OpenVirtualPointsExtendEndSteps(points: seq<ControlPoint>)
    requires |points| >= 2
    ensures var n := |points|;
      && Sub(points[0].position, Extended(points, false, -1).position) == Sub(points[1].position, points[0].position)
      && Sub(Extended(points, false, n).position, points[n - 1].position) == Sub(points[n - 1].position, points[n - 2].position)
      && Sub(Extended(points, false, n + 1).position, Extended(points, false, n).position) == Sub(points[n - 1].position, points[n - 2].position)
  {
  }

  /**
    `ISpline.GetCurve`: every curve of a spline with at least two knots runs
    from the knot at its index to the next knot.
   */
  lemma CurveJoinsKnotAndNext(index: int, points: seq<ControlPoint>, closed: bool)
    requires |points| >= 2 && 0 <= index < CurveCount(|points|, closed)
    ensures var c := CurveForControlPoint(index, points, closed);
      c.P1 == points[index].position && c.P2 == points[NextIndex(index, |points|, closed)].position
  {
  }
}
