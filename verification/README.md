# B-spline runtime: a Dafny model

This project models the runtime core of a Unity package for cubic B-splines.
The package's C# sources live under `Runtime/`.

- **Value types.** A `ControlPoint` is a position. It can be reflected through a pivot and translated. A `BSplineCurve` is the four-point cubic section between two knots. It can be inverted, transformed and compared.
- **Curve assembly.** A knot index is turned into the four control points of the section that starts there. There are three regimes:
  - a single knot;
  - a closed spline, whose indices wrap;
  - an open spline, whose missing neighbours are synthesised by reflection.
- **The `Spline` aggregate.** It holds an ordered knot list and a closed flag. Per knot, it keeps one cache slot with a distance-to-interpolation lookup table. It also caches the total length, and raises change events. Every mutator is modelled as a pure function from the state before to the state after. A read that fills a cache returns the value together with the new state (`Splines.Read`).
- **Parameterisation.** Stateless conversions over the read contract (`ISpline`). They convert between a normalized ratio, a distance along the spline, and a knot index whose fraction is the ratio within a curve. Also covered:
  - index wrapping;
  - curve counting;
  - the bounding box;
  - the skeleton of the nearest-point search.

Some things are kept abstract:

- The curve mathematics (`CurveUtility`, which builds and inverts the lookup tables and evaluates positions) is not part of this model. It is a parameter: `DistanceLuts.CurveEvaluator`, a record of functions.
- Reals stand in for single-precision floats.
- A `float4x4` matrix is an arbitrary map on positions.

The read contract is `SplineRead.SplineView`. It recomputes every value from the knots. The cached aggregate is tied to it by `Splines.Coherent`: a valid cache slot holds exactly the table the collaborator builds for its curve, and a non-negative cached length is the fresh total. Every mutator that notifies leaves the spline `Dirty`, so the next read is fresh. `SetKnotNoNotify` does not, and `Splines.SilentSetLeavesLengthStale` shows the stale length it can leave behind.

Files:

- `numerics.dfy`: clamps, floor and fraction, C#'s truncating `%` and `(int)` cast, and an IEEE-754 view of division.
- `control_point.dfy`: `Vec3` and `ControlPoint`.
- `bspline_curve.dfy`: `BSplineCurve`, and `Equals(object)` for both value types.
- `distance_lut.dfy`: lookup-table slots, the `Invalid` marker, and the collaborator.
- `spline_index.dfy`: `PreviousIndex`, `NextIndex` and `GetCurveCount`.
- `curve_assembly.dfy`: `GetCurveControlPointsForIndex`.
- `spline_view.dfy`: the `ISpline` read contract.
- `spline.dfy`: the `Spline` aggregate.
- `parameterization.dfy`: `SplineToCurveT`, `CurveToSplineT`, `WrapInterpolation` and the index-unit conversions.
- `bounds.dfy`: `GetBounds`.
- `nearest_point.dfy`: the clamps and the scan of `GetNearestPoint`.

Where the code and the documentation disagree, the model follows the code:

- `SetDirtyNoNotify` invalidates every cache slot, not just the slots of the curves next to the knot that changed (`Runtime/Spline.cs:243-249`).
- `Copy` copies the knots, the closed flag and the cache slots, but not the embedded spline data that the copy constructor copies.
- The capacity constructor `Spline(knotCapacity, closed)` is `Splines.FromKnots([], closed)`. The capacity is only an allocation hint.

## Model

| member | source | states |
|---|---|---|
| ControlPoints.MirrorAround | Runtime/ControlPoint.cs:43-48 | The mirror of `p` through `pivot` is `pivot + (pivot - p)`; the pivot is the midpoint of the point and its mirror |
| ControlPoints.MirrorIsInvolution | Runtime/ControlPoint.cs:43-48 | Mirroring the mirror around the same pivot gives the original point back |
| ControlPoints.MirrorAroundSelf | Runtime/ControlPoint.cs:43-48 | A point mirrored around itself is itself |
| ControlPoints.Plus | Runtime/ControlPoint.cs:56-59 | `p + v` moves the point by exactly `v` |
| ControlPoints.Minus | Runtime/ControlPoint.cs:67-70 | `p - v` moves the point back by exactly `v` |
| ControlPoints.PlusMinusRoundTrip | Runtime/ControlPoint.cs:56-70 | `(p + v) - v == p` and `(p - v) + v == p` |
| ControlPoints.MirrorCommutesWithTranslation | Runtime/ControlPoint.cs:43-70 | Translating a point and its pivot by `v` translates the mirror by `v` |
| ControlPoints.Transform | Runtime/ControlPoint.cs:33-36 | The transformed point's position is the map applied to the position |
| ControlPoints.Equals | Runtime/ControlPoint.cs:83-86 | Two control points are equal exactly when their positions are |
| BoxedEquality.ControlPointEqualsObject | Runtime/ControlPoint.cs:96-99 | `Equals(object)` holds exactly when the object boxes an equal control point, and is false for any other object |
| Curves.FromControlPoints | Runtime/BSplineCurve.cs:39-50 | The four control points' positions become `P0..P3` in order |
| Curves.Transform | Runtime/BSplineCurve.cs:57-64 | Each of the four points is mapped on its own |
| Curves.Inverted | Runtime/BSplineCurve.cs:70-73 | The inverted curve is `(P3, P2, P1, P0)` |
| Curves.InvertTwiceIsIdentity | Runtime/BSplineCurve.cs:70-73 | Inverting twice gives a curve equal to the original |
| Curves.InvertedEqualsIffPalindrome | Runtime/BSplineCurve.cs:70-83 | A curve equals its inversion exactly when `P0 == P3` and `P1 == P2` |
| Curves.TransformCommutesWithInversion | Runtime/BSplineCurve.cs:57-73 | Transforming then inverting equals inverting then transforming |
| Curves.Equals | Runtime/BSplineCurve.cs:80-83 | Two curves are equal exactly when all four points are |
| Curves.OpEquals | Runtime/BSplineCurve.cs:122-125 | `==` holds exactly for equal curves |
| Curves.OpNotEquals | Runtime/BSplineCurve.cs:133-136 | `!=` holds exactly for different curves |
| Curves.OperatorsAgreeWithEquals | Runtime/BSplineCurve.cs:122-136 | `==` agrees with `Equals` and `!=` is its negation |
| BoxedEquality.CurveEqualsObject | Runtime/BSplineCurve.cs:93-96 | `Equals(object)` holds exactly when the object boxes an equal curve |
| DistanceLuts.NewSlot | Runtime/Spline.cs:23-38 | A fresh slot has `Invalid` in entry 0 and zeros elsewhere, so it is not valid |
| DistanceLuts.Invalidate | Runtime/Spline.cs:35-38 | Invalidation writes `Invalid` (distance -1, ratio -1) into entry 0, leaves the other 29 entries alone, and makes the slot invalid |
| DistanceLuts.InvalidateNewSlot | Runtime/Spline.cs:23-38 | Invalidating a slot that was never filled leaves it exactly as it was |
| DistanceLuts.ComputedLutLengthNonNegative | Runtime/Spline.cs:611-618 | The length read off a computed table, its last distance, is at least its first, which is non-negative |
| DistanceLuts.CurveLen | Runtime/Spline.cs:611-618 | A curve length read from a computed table is never negative |
| SplineIndex.PreviousIndex | Runtime/SplineUtility.cs:724-727 | For an index in range: wrapping gives the previous knot, with the last before the first; clamping stops at 0; the result is always in range |
| SplineIndex.NextIndex | Runtime/SplineUtility.cs:729-732 | For an index in range: wrapping gives the next knot, with the first after the last; clamping stops at the last knot; the result is always in range |
| SplineIndex.WrappedStepsAreInverse | Runtime/SplineUtility.cs:724-732 | On a closed spline, stepping back then forward, or forward then back, returns to the start |
| SplineIndex.ClampedStepsAreInverse | Runtime/SplineUtility.cs:724-732 | On an open spline, the same holds away from the clamped end |
| SplineIndex.CurveCount | Runtime/SplineUtility.cs:294-297 | The curve count is `Count` when closed, `Count - 1` when open, and never negative |
| SplineIndex.CurveIndicesHaveDistinctSuccessor | Runtime/SplineUtility.cs:294-297 | Curve `i` exists exactly when knot `i` has a successor other than itself |
| CurveAssembly.CurveControlPointsForIndex | Runtime/Spline.cs:443-513 | The second point is the knot at `index`; a single knot gives four copies of itself whatever the index |
| CurveAssembly.CurveForControlPoint | Runtime/Spline.cs:515-519 | The section's `P1` is the knot at `index`; a single knot gives the curve with all four points on it, for any index |
| CurveAssembly.CurveIsWindowOfExtended | Runtime/Spline.cs:443-513 | Every assembled section is four consecutive points of the knot sequence. A closed spline extends cyclically; an open one gains one reflected point before its start and two after its end |
| CurveAssembly.SingleKnotCurve | Runtime/Spline.cs:445-449 | With one knot, all four points of the section are that knot, for any index |
| CurveAssembly.ClosedCurveIndices | Runtime/Spline.cs:451-464 | A closed section reads knots `(i-1+n)%n, i, (i+1)%n, (i+2)%n` |
| CurveAssembly.ClosedLastCurveWraps | Runtime/Spline.cs:451-464 | The last closed section ends on knot 0 and is pulled towards knot 1 |
| CurveAssembly.OpenBoundaryRules | Runtime/Spline.cs:465-512 | Which points of an open section are knots and which are reflections: `p0` at `i = 0`, `p3` at `i = n-2`, and `p2` and `p3` at `i = n-1` |
| CurveAssembly.OpenVirtualPointsExtendEndSteps | Runtime/Spline.cs:476-508 | The reflected points continue the first and the last knot step in a straight line at equal spacing |
| CurveAssembly.CurveJoinsKnotAndNext | Runtime/ISpline.cs:58-65 | Every curve runs from the knot at its index to the next knot |
| SplineRead.CurveCount | Runtime/SplineUtility.cs:294-297 | A spline has at most as many curves as knots, and at least one once it has two knots |
| SplineRead.CurveLength | Runtime/ISpline.cs:69-77 | A curve's length is never negative |
| SplineRead.CurveInterpolation | Runtime/ISpline.cs:79-86 | A curve-relative distance maps to a ratio in `[0, 1]` |
| SplineRead.Length | Runtime/ISpline.cs:50-56 | The total length is never negative |
| SplineRead.LengthBeforeMonotone | Runtime/SplineUtility.cs:264-270 | The running total of curve lengths never decreases |
| SplineRead.LengthBeforeStrictlyIncreasing | Runtime/SplineUtility.cs:220-234 | With every curve of positive length, the running total strictly increases |
| SplineRead.CurveWithinLength | Runtime/ISpline.cs:50-56 | The curves before `k`, plus curve `k`, add up to at most the total |
| SplineRead.NoCurvesNoLength | Runtime/Spline.cs:633-643 | An empty spline, or an open spline with one knot, has no curves and length 0 |
| SplineRead.SingleKnotLength | Runtime/Spline.cs:445-449 | A single knot has length 0 when a point measures as length 0 |
| Splines.DirtyIsCoherent | Runtime/Spline.cs:243-249 | A spline whose caches are all invalid is coherent with every collaborator |
| Splines.Empty | Runtime/Spline.cs:399 | A new spline is open, has no knots and no events, and has every cache invalid |
| Splines.FromKnots | Runtime/Spline.cs:417-421 | The knots are kept in order with the given closed flag; no cache slot exists yet |
| Splines.CopyOf | Runtime/Spline.cs:427-441 | The copy constructor copies the knots and the closed flag, and starts with empty caches |
| Splines.EnsureMetaDataValid | Runtime/Spline.cs:292-296 | Fresh invalid slots are appended until there is one slot per knot; existing slots and all other state are untouched |
| Splines.EnsureMetaDataValidKeepsCoherence | Runtime/Spline.cs:292-296 | Appending fresh slots keeps the caches coherent |
| Splines.InvalidateAll | Runtime/Spline.cs:247-248 | Every slot is invalidated in place |
| Splines.SetDirtyNoNotify | Runtime/Spline.cs:243-249 | Afterwards there is at least one slot per knot and the length sentinel is -1. Each existing slot has only its entry 0 invalidated, and each appended slot is fresh. Knots and events are unchanged |
| Splines.SetDirty | Runtime/Spline.cs:251-264 | Same as `SetDirtyNoNotify`, slot by slot, plus exactly one event carrying the kind, the knot and the two recorded curve lengths |
| Splines.FillSlot | Runtime/Spline.cs:614-615 | An invalid slot is filled with the collaborator's table for its curve, and a valid one is left alone; coherence is kept |
| Splines.GetCurveLength | Runtime/Spline.cs:611-618 | On a coherent spline, returns the fresh curve length and leaves the spline coherent, with slot `index` valid. Knots, length and events are untouched |
| Splines.SumCurveLengths | Runtime/Spline.cs:635-640 | From a coherent spline, the loop's accumulated value is the fresh total length |
| Splines.GetLength | Runtime/Spline.cs:633-643 | A valid cached length is returned unchanged. Otherwise, on a coherent spline, the result is the sum of the curve lengths, `Closed ? Count : Count - 1` of them, and it is cached |
| Splines.Warmup | Runtime/Spline.cs:666-669 | Warming up caches the fresh total length and keeps coherence and geometry |
| Splines.GetCurveInterpolation | Runtime/Spline.cs:645-660 | Gives a ratio in `[0, 1]`; on a coherent spline it is the read contract's ratio |
| Splines.GetLengthIsCached | Runtime/Spline.cs:633-643 | A second `GetLength` returns the first value and changes nothing |
| Splines.WarmupIsIdempotent | Runtime/Spline.cs:666-669 | Warming up twice is warming up once, and the knots stay as they were |
| Splines.RecordIncomingCurve | Runtime/Spline.cs:807 | Records the fresh length of the curve ending at the knot; the slot list is extended to one per knot and no further |
| Splines.RecordOutgoingCurve | Runtime/Spline.cs:808-809 | Records the fresh length of the curve starting at the knot; the slot list is extended to one per knot and no further |
| Splines.CacheKnotOperationCurves | Runtime/Spline.cs:802-810 | With two knots or more, records the fresh lengths of curve `PreviousIndex(i)` and, when knot `i` exists, of curve `i`. At `i == Count` the outgoing recorded length stays as it was. With fewer knots nothing changes. Geometry and coherence are kept |
| Splines.Insert | Runtime/Spline.cs:340-347 | Knots before `i` are kept, the new knot is at `i`, and later knots shift up. After the slot list is extended to one per knot, one more slot is inserted: a fresh invalid one at `i`. Inserting at `Count` leaves the outgoing recorded length as it was. Everything is dirty, and one `KnotInserted` event is raised. With two knots or more it carries the pre-insertion lengths of the neighbouring curves; with fewer it carries the lengths recorded by an earlier operation, unchanged |
| Splines.Add | Runtime/Spline.cs:740-743 | The knot is appended with a fresh slot and one `KnotInserted` event at index `Count` is raised. With two knots or more it carries the fresh length of the curve ending at the old last knot; the outgoing recorded length is left as it was, and with fewer knots both recorded lengths are |
| Splines.RemoveAt | Runtime/Spline.cs:353-362 | Knots before `i` are kept and later knots shift down. After the slot list is extended to one per knot, one slot is removed. Everything is dirty, and one `KnotRemoved` event is raised. With two knots or more it carries the pre-removal lengths of the neighbouring curves; with fewer it carries the lengths recorded by an earlier operation, unchanged |
| Splines.SetKnotNoNotify | Runtime/Spline.cs:391-394 | Only knot `i` changes; caches, length, closed flag and events are untouched |
| Splines.SetKnot | Runtime/Spline.cs:379-384 | Knot `i` is replaced, everything is dirty, and one `KnotModified` event is raised. With two knots or more it carries the lengths of the two curves touching the knot, as they were before the change; with fewer it carries the lengths recorded by an earlier operation, unchanged |
| Splines.SetClosed | Runtime/Spline.cs:315-325 | Setting the current value changes nothing. Otherwise the flag flips, everything is dirty, and one `ClosedModified` batch event is raised |
| Splines.SetKnots | Runtime/Spline.cs:301-310 | The knot list is replaced, exactly one fresh slot exists per knot, everything is dirty, and one `Default` batch event is raised |
| Splines.Clear | Runtime/Spline.cs:748-754 | No knots and no slots remain, and one `KnotRemoved` batch event is raised |
| Splines.Copy | Runtime/Spline.cs:709-722 | Copying from itself (`copyFrom == this`) changes nothing. Otherwise the knots and closed flag become the source's, everything is dirty, and one `Default` event is raised |
| Splines.IndexOf | Runtime/Spline.cs:332 | Returns -1 exactly when the knot is absent; otherwise the first position holding it |
| Splines.Remove | Runtime/Spline.cs:775-785 | Reports whether the knot was present. If it was, its first occurrence is removed; if not, nothing changes |
| Splines.Grow | Runtime/Spline.cs:683-688 | Appends default knots up to the target, keeping the prefix, with one event per knot |
| Splines.Shrink | Runtime/Spline.cs:689-693 | Removes knots from the tail down to the target, keeping the prefix, with one event per knot |
| Splines.Resize | Runtime/Spline.cs:675-694 | `Count` becomes `max(0, n)` and the common prefix is kept. Growth appends default knots; the same size changes nothing; each knot added or removed raises one event |
| Splines.InsertThenRemoveAtRestoresKnots | Runtime/Spline.cs:340-362 | Removing the knot just inserted gives back the knots and the closed flag |
| Splines.RemoveAtThenInsertRestoresKnots | Runtime/Spline.cs:340-362 | Re-inserting a removed knot where it was gives back the knots and the closed flag |
| Splines.LengthAfterMutationIsFresh | Runtime/Spline.cs:633-643 | After any notifying mutation, `GetLength` is the fresh sum over the new knots |
| Splines.SetKnotToSameValueKeepsLength | Runtime/Spline.cs:379-384 | Setting a knot to the value it holds leaves the total length as it was |
| Splines.SilentSetLeavesLengthStale | Runtime/Spline.cs:391-394 | When a silent edit changes the fresh length, a cached length is left incoherent |
| Splines.SilentSetThenDirtyIsCoherent | Runtime/Spline.cs:243-249 | A silent edit followed by `SetDirtyNoNotify` is coherent again |
| Splines.CopyReproducesLength | Runtime/Spline.cs:709-722 | After `Copy`, the length read is the source spline's length |
| Parameterization.Locate | Runtime/SplineUtility.cs:222-236 | The walk stops on the first curve whose end reaches the target, reporting the offset into it. It falls through only when the target exceeds the total length |
| Parameterization.LinearCurveT | Runtime/SplineUtility.cs:228-231 | The distance-proportional ratio lies in `[0, 1]` and scales back to the offset; a curve of length zero gives ratio 0 |
| Parameterization.TargetLength | Runtime/SplineUtility.cs:217-218 | The target distance is the clamped ratio of the total length, within `[0, length]` |
| Parameterization.SplineToCurveT | Runtime/SplineUtility.cs:208-240 | One knot or none gives `(0, 0)`. Otherwise the index is a curve of the spline and the ratio lies in `[0, 1]` |
| Parameterization.LinearSplineToCurveTHitsTarget | Runtime/SplineUtility.cs:208-240 | The place the linear conversion returns lies at exactly the distance the ratio asks for |
| Parameterization.SplineToCurveTLinearAsWritten | Runtime/SplineUtility.cs:208-240 | The source's linear conversion, with its unguarded division. Wherever it is finite it agrees with `SplineToCurveT` |
| Parameterization.DistanceAt | Runtime/SplineUtility.cs:264-270 | The distance named by curve `k` at ratio `f` lies between the start and the end of that curve |
| Parameterization.DistanceAtWithinLength | Runtime/SplineUtility.cs:264-270 | No place on a curve lies beyond the total length |
| Parameterization.CurveToSplineT | Runtime/SplineUtility.cs:253-273 | The result is in `[0, 1]`. It is 0 with one knot or none and for a negative index, and 1 at or past the last curve |
| Parameterization.CurveToSplineTScalesToDistance | Runtime/SplineUtility.cs:253-273 | Inside the curves, the ratio times the total length is the distance the index names: the lengths before `floor(curve)` plus `frac(curve)` of that curve |
| Parameterization.CurveToSplineTAsWritten | Runtime/SplineUtility.cs:253-273 | The source's conversion, with its unguarded division by the total length. It is finite whenever the length is positive, and then agrees with `CurveToSplineT` |
| Parameterization.CoincidentKnotsHaveZeroLength | Runtime/SplineUtility.cs:253-273 | Two coincident knots on an open spline give length 0, when a point measures as 0 |
| Parameterization.LinearCurveTAsWrittenIsNaN | Runtime/SplineUtility.cs:231 | As written, asking for the start of a spline whose first curve has no length gives NaN |
| Parameterization.CurveToSplineTAsWrittenIsNaN | Runtime/SplineUtility.cs:272 | As written, every in-range index on a spline of length zero gives NaN |
| Parameterization.BackFromInsideCurve | Runtime/SplineUtility.cs:253-273 | An index strictly inside curve `k` converts to the ratio of the distance it names |
| Parameterization.CurveEndMeetsNextStart | Runtime/SplineUtility.cs:264-270 | The end of one curve names the same distance as the start of the next |
| Parameterization.SplineToCurveTThenBack | Runtime/SplineUtility.cs:208-273 | The linear `SplineToCurveT` followed by `CurveToSplineT` gives back the clamped ratio, on a spline with length |
| Parameterization.BackToShare | Runtime/SplineUtility.cs:253-273 | Any place at a given share of the total length converts back to that share |
| Parameterization.LocateFindsContainingCurve | Runtime/SplineUtility.cs:222-236 | When every curve has length, the walk lands on the curve that contains the distance |
| Parameterization.LinearWalkFinds | Runtime/SplineUtility.cs:208-240 | When every curve has length, the linear walk for the share of a place returns that place, except at a knot other than the first |
| Parameterization.LinearWalkInsideCurve | Runtime/SplineUtility.cs:208-273 | Inside a curve, or at the very start, converting an index to a ratio and back returns the same curve and fraction |
| Parameterization.LinearWalkOnKnot | Runtime/SplineUtility.cs:208-273 | On a knot other than the first, the round trip returns the end of the previous curve |
| Parameterization.CurveToSplineTThenBack | Runtime/SplineUtility.cs:208-273 | When every curve has length, `CurveToSplineT` then the linear `SplineToCurveT` gives back the knot-index value |
| Parameterization.WrapInterpolation | Runtime/SplineUtility.cs:671-677 | The result is in `[0, 1]` and a value already there is kept. Open splines and whole numbers are clamped; otherwise a closed spline keeps the fractional part, with the difference a whole number of laps |
| Parameterization.WrapIsIdempotent | Runtime/SplineUtility.cs:671-677 | Wrapping a wrapped ratio changes nothing |
| Parameterization.WrapIsPeriodic | Runtime/SplineUtility.cs:671-677 | On a closed spline, a non-integral ratio shifted by whole laps wraps to the same place |
| Parameterization.ConvertNormalizedIndexUnit | Runtime/SplineUtility.cs:655-669 | A ratio becomes a distance within `[0, length]`, or a knot-index value within `[0, curve count]` (0 with fewer than two knots), or stays itself. The knot-index case uses the corrected ratio of the :231 finding, so a curve of length zero gives 0 where the source gives NaN |
| Parameterization.GetNormalizedInterpolation | Runtime/SplineUtility.cs:688-700 | Any unit becomes a ratio in `[0, 1]`. A ratio is wrapped, and a distance on a spline without length gives 0. The knot-index case uses the corrected ratio of the :272 finding, so a spline of length zero gives 0 where the source gives NaN |
| Parameterization.ConvertIndexUnit | Runtime/SplineUtility.cs:623-630 | A ratio target is wrapped into `[0, 1]`. For a ratio already in range this overload agrees with the two-unit one. A knot-index target uses the corrected ratio of the :231 finding, where the source can give NaN |
| Parameterization.ConvertIndexUnitBetween | Runtime/SplineUtility.cs:641-653 | Equal units give `t` back, wrapped when the unit is a ratio; any ratio result lies in `[0, 1]`. The knot-index cases use the corrected ratios of the :231 and :272 findings: on a spline of length zero the source gives NaN for a knot-index source or target, and the model gives 0 |
| Parameterization.ShareOfDistanceOfShare | Runtime/SplineUtility.cs:664-697 | Ratio to distance and back is the identity on `[0, 1]` |
| Parameterization.DistanceOfShareOfDistance | Runtime/SplineUtility.cs:664-697 | Distance to ratio and back is the identity on `[0, length]` |
| Parameterization.NormalizedDistanceRoundTrip | Runtime/SplineUtility.cs:641-697 | On a spline with length, converting a ratio to a distance and back gives the wrapped ratio |
| Parameterization.DistanceNormalizedRoundTrip | Runtime/SplineUtility.cs:641-697 | Distance to ratio and back gives the distance |
| Parameterization.ZeroLengthDistanceIsStart | Runtime/SplineUtility.cs:694-696 | On a spline of length zero, every distance converts to 0 in the other units. For the knot-index unit this is the corrected behaviour of the :231 finding; as written the source gives NaN when the spline has two knots or more |
| Parameterization.NormalizedControlPointRoundTrip | Runtime/SplineUtility.cs:641-697 | Converting a ratio to a knot index and back gives the wrapped ratio, on a spline with length. It uses the corrected ratio of the :231 finding, which matters when the wrapped ratio lands on a curve of length zero |
| Parameterization.ControlPointNormalizedRoundTrip | Runtime/SplineUtility.cs:641-697 | When every curve has length, a knot index converted to a ratio and back gives the index |
| Bounds.PointBox | Runtime/SplineUtility.cs:323 | The box of one point has both corners at that point |
| Bounds.Encapsulate | Runtime/SplineUtility.cs:324-330 | The widened box holds the point, and on each axis its faces are the min and max of the old face and the point |
| Bounds.EncapsulateKeepsTight | Runtime/SplineUtility.cs:326-330 | Encapsulating the next knot keeps the box holding every knot so far, with each face touched by one of them |
| Bounds.GetBounds | Runtime/SplineUtility.cs:317-333 | No knots gives the default box. Otherwise every transformed knot lies inside, and each of the six faces is touched by some knot |
| Bounds.TightBoxIsSmallest | Runtime/SplineUtility.cs:317-333 | Any box holding all the knots contains the result |
| Bounds.TightBoxIsUnique | Runtime/SplineUtility.cs:317-333 | The result is determined by the knot positions alone |
| NearestPoint.SubdivisionCount | Runtime/SplineUtility.cs:358-361 | The count is in `[6, 1024]`: 6 or 1024 at the extremes, and otherwise `sqrt(length) * resolution` truncated |
| NearestPoint.SubdivisionCountMonotone | Runtime/SplineUtility.cs:358-361 | A longer span never gets fewer subdivisions |
| NearestPoint.ClampResolution | Runtime/SplineUtility.cs:534 | The resolution used is clamped to `[2, 64]` |
| NearestPoint.PassCount | Runtime/SplineUtility.cs:536 | The search makes `min(10, iterations)` passes, and none for a non-positive count |
| NearestPoint.FirstNearest | Runtime/SplineUtility.cs:427-442 | Among the chords, the first one whose squared distance is least |
| NearestPoint.Scan | Runtime/SplineUtility.cs:412-450 | Fewer than two samples leave the segment at `(-1, 0)` with nothing found. Otherwise the result is the first nearest chord, with the ratio along it that the chord geometry reports |
| NearestPoint.SamplesStayInRange | Runtime/SplineUtility.cs:427-429 | Sample ratios increase and stay within the searched range |
| NearestPoint.ChordWithinRange | Runtime/SplineUtility.cs:436-438 | Every chord lies within the searched range, and its hit's ratio lies within the chord |
| NearestPoint.GetNearestPoint | Runtime/SplineUtility.cs:523-542 | With no pass, nothing is found and `t` is 0. Otherwise a hit is found and `t`, its ratio, lies in `[0, 1]` |
| Numerics.Truncate | Runtime/SplineUtility.cs:360 | The `(int)` cast truncates toward zero |
| Numerics.CsRem | Runtime/SplineUtility.cs:724-732 | C#'s `%` keeps the dividend's sign and agrees with the mathematical remainder on non-negative operands |
| Numerics.FloatDivide | Runtime/SplineUtility.cs:231 | A float quotient is finite exactly when the divisor is non-zero; `0/0` is NaN |

## Left out

- Curve mathematics (`CurveUtility`, `SplineMath`) is not part of this model. This covers lookup-table construction and inversion, position, tangent and curvature evaluation, and the point-to-chord and ray-to-chord geometry. These are parameters: `DistanceLuts.CurveEvaluator` and the `probe` and `position` functions of `NearestPoint.Search`. The model assumes only what their types say: a computed table is valid and monotone, a looked-up ratio lies in `[0, 1]`, and the chord parameter that `SplineMath.PointLineNearestPoint` and `SplineMath.RayLineNearestPoint` return (`Runtime/SplineUtility.cs:392` and `:431`) lies in `[0, 1]`. The range of `t` that `NearestPoint.GetNearestPoint` and `NearestPoint.ChordWithinRange` state rests on that last assumption.
- `Evaluate`, `EvaluatePosition`, `EvaluateTangent` and the other evaluation entry points are not modelled. They only forward to the curve mathematics.
- `GetPointAtLinearDistance` is not modelled: it is a float loop with an epsilon stop and no termination argument.
- `CalculateLength` is not modelled: it needs `NativeSpline`, which is not part of this model.
- `EvaluateCurvatureCenter` is not modelled: it is float vector algebra on the curve mathematics.
- The container and knot-link helpers are not modelled. They depend on container and link-collection types that are not part of this model.
- The `NativeArray` overload of `GetCurveForControlPoint` is not modelled. It repeats the list version minus the single-knot case.
- `float4x4` is an arbitrary map on positions, and single-precision rounding is not modelled: reals stand in for floats. NaN is modelled only at the two unguarded divisions (see Findings).
- Event delivery is not modelled. That includes the obsolete `changed` event, `OnSplineChanged`, the editor's once-per-frame `afterSplineWasModified` coalescing, and the embedded `SplineData` dictionaries and their `OnSplineModified` notifications. The model keeps the event sequence the spline raises, with kind, knot index and the two recorded curve lengths.
- `ToArray`, `Contains`, `CopyTo`, the enumerators and `RemoveUnusedSplineData` are plain list or dictionary forwarding and are not modelled.
- Splines.Resize: a `Resize` to a new size raises one event per knot added or removed. The model counts those events but does not state each one's contents.
- Splines.Grow: states the count of events it raises, not their contents.
- Splines.Shrink: states the count of events it raises, not their contents.
- Splines.Remove: states the knots and dirtiness after a removal, not the recorded curve lengths. Those are `RemoveAt`'s contract.
- Splines.GetCurveInterpolation: requires the slot of `curveIndex` to exist. The source reads it without first extending the slot list, and would throw otherwise.
- Parameterization.SplineToCurveT: with the lookup table, the ratio is whatever the collaborator's lookup returns. Only its range and the curve index are stated. The round trips are proved for the linear variant, which is the one the index-unit conversions use.
- Parameterization.CurveToSplineTThenBack: proved when every curve has positive length. A curve of length zero inside the spline makes the walk skip it, so the index does not come back.
- NearestPoint.GetNearestPoint: states the shape of the result and the range of `t`, not that the point found is near. Nearness depends on the curve mathematics, which is not part of this model. The ray and point overloads share one skeleton, with the geometry a parameter. The final `math.sqrt` of the squared distance is left to the caller, and the square root used for the subdivision count is a parameter.
- NearestPoint.Scan: the source starts its best distance, point and time at positive infinity. The model starts with no hit (`None`), which is what they stand for.
- Bounds.GetBounds: a Unity `Bounds` stores its center and extents in floats. The model keeps the two corners exactly.

## Findings

| source | as written | input that shows it | evidently intended | confidence | as-written member | corrected member |
|---|---|---|---|---|---|---|
| Runtime/SplineUtility.cs:231 | The linear `curveT` is `(tLength - start) / curveLength` with no guard | `splineT = 0` on a spline of two coincident knots, whose only curve has length 0: `0 / 0` is NaN, and the NaN flows into `ConvertIndexUnit(..., ControlPoint)` | A curve of length zero gives ratio 0, as `GetNormalizedInterpolation` does for a zero total length (line 696) | not executed | Parameterization.SplineToCurveTLinearAsWritten, Parameterization.LinearCurveTAsWrittenIsNaN | Parameterization.LinearCurveT, Parameterization.SplineToCurveT, Parameterization.ConvertNormalizedIndexUnit, Parameterization.ConvertIndexUnit, Parameterization.ConvertIndexUnitBetween, Parameterization.ZeroLengthDistanceIsStart, Parameterization.NormalizedControlPointRoundTrip |
| Runtime/SplineUtility.cs:272 | `CurveToSplineT` returns `t / spline.GetLength()` with no guard | `curve = 0.5` on a spline of two coincident knots, whose total length is 0: `0 / 0` is NaN, and `GetNormalizedInterpolation(..., ControlPoint)` passes it to `WrapInterpolation` | A spline of length zero gives 0, the ratio of its start, as line 696 does for a distance | not executed | Parameterization.CurveToSplineTAsWritten, Parameterization.CurveToSplineTAsWrittenIsNaN | Parameterization.CurveToSplineT, Parameterization.GetNormalizedInterpolation, Parameterization.ConvertIndexUnitBetween |
