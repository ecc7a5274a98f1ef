/**
  The `Spline` aggregate: an ordered knot list, the closed flag, one cached
  lookup table per knot, the cached total length, and the change events it
  raises. Every mutator is a pure function from the state before to the
  state after; reads that fill a cache return the value and the new state.
 */
module Splines {
  import opened Numerics
  import opened Vectors
  import opened ControlPoints
  import opened Curves
  import opened DistanceLuts
  import SplineIndex
  import CurveAssembly
  import SplineRead

  datatype SplineModification = Default | ClosedModified | KnotModified | KnotInserted | KnotRemoved

  /** The knot index reported with a change that concerns the whole spline. */
  const BatchModification: int := -1

  /** What listeners receive for one change: its kind, its knot, and the two curve lengths captured before it. */
  datatype ChangeEvent = ChangeEvent(kind: SplineModification, knotIndex: int, curve0: real, curve1: real)

  /** `m_LastKnotChangeCurveLengths`: the curve ending at and the curve starting at the last knot operated on. */
  datatype CurveLengthPair = CurveLengthPair(curve0: real, curve1: real)

  datatype Spline = Spline(
    knots: seq<ControlPoint>,
    closed: bool,
    meta: seq<Lut>,
    length: real,
    lastCurveLengths: CurveLengthPair,
    events: seq<ChangeEvent>)

  /** A read that may fill a cache: the value and the state afterwards. */
  datatype Read<T> = Read(value: T, after: Spline)

  /** The spline seen through the read contract, with every value freshly computed. */
  function View(s: Spline, ev: CurveEvaluator): SplineRead.SplineView {
    SplineRead.SplineView(s.knots, s.closed, ev)
  }

  /** `GetCurve(index)`. */
  function GetCurve(s: Spline, index: int): BSplineCurve
    requires 0 <= index < |s.knots|
  {
    CurveAssembly.CurveForControlPoint(index, s.knots, s.closed)
  }

  /** The two states hold the same knots in the same topology, so every fresh value agrees. */
  predicate SameGeometry(a: Spline, b: Spline) {
    a.knots == b.knots && a.closed == b.closed
  }

  /** Every cache is invalid: the state every notifying mutation leaves behind. */
  predicate Dirty(s: Spline) {
    && s.length < 0.0
    && forall i :: 0 <= i < |s.meta| ==> !IsValid(s.meta[i])
  }

  /**
    Cache coherence: a valid slot holds exactly the table the collaborator
    builds for its curve, and a valid total length is the fresh sum.
   */
  predicate Coherent(s: Spline, ev: CurveEvaluator) {
    && (forall i :: 0 <= i < |s.meta| && i < |s.knots| && IsValid(s.meta[i]) ==>
          s.meta[i] == ev.buildLut(GetCurve(s, i)))
    && (s.length >= 0.0 ==> s.length == SplineRead.Length(View(s, ev)))
  }

  lemma DirtyIsCoherent(s: Spline, ev: CurveEvaluator)
    requires Dirty(s)
    ensures Coherent(s, ev)
  {
  }

  // ---------------------------------------------------------------------
  // Construction

  /** `new Spline()`: no knots, open. */
  function Empty(): (s: Spline)
    ensures |s.knots| == 0 && !s.closed && |s.events| == 0 && Dirty(s)
  {
    Spline([], false, [], -1.0, CurveLengthPair(0.0, 0.0), [])
  }

  /** `new Spline(knots, closed)`: the knots in order; no cache slot exists yet. */
  function FromKnots(knots: seq<ControlPoint>, closed: bool): (s: Spline)
    ensures s.knots == knots && s.closed == closed && |s.meta| == 0 && Dirty(s)
  {
    Spline(knots, closed, [], -1.0, CurveLengthPair(0.0, 0.0), [])
  }

  /** `new Spline(spline)`: the knots and the closed flag are copied; caches start empty. */
  function CopyOf(src: Spline): (s: Spline)
    ensures SameGeometry(s, src) && |s.meta| == 0 && Dirty(s) && |s.events| == 0
  {
    Spline(src.knots, src.closed, [], -1.0, CurveLengthPair(0.0, 0.0), [])
  }

  // ---------------------------------------------------------------------
  // Cache bookkeeping

  /** `EnsureMetaDataValid`: append fresh invalid slots until there is one per knot. */
  function EnsureMetaDataValid(s: Spline): (r: Spline)
    ensures SameGeometry(r, s) && r.length == s.length
    ensures r.lastCurveLengths == s.lastCurveLengths && r.events == s.events
    ensures |r.meta| == if |s.meta| >= |s.knots| then |s.meta| else |s.knots|
    ensures forall i :: 0 <= i < |s.meta| ==> r.meta[i] == s.meta[i]
    ensures forall i :: |s.meta| <= i < |r.meta| ==> r.meta[i] == NewSlot()
    decreases |s.knots| - |s.meta|
  {
    if |s.meta| >= |s.knots| then s
    else EnsureMetaDataValid(s.(meta := s.meta + [NewSlot()]))
  }

  lemma EnsureMetaDataValidKeepsCoherence(s: Spline, ev: CurveEvaluator)
    requires Coherent(s, ev)
    ensures Coherent(EnsureMetaDataValid(s), ev)
  {
    var r := EnsureMetaDataValid(s);
    assert forall i :: |s.meta| <= i < |r.meta| ==> !IsValid(r.meta[i]);
  }

  /** Invalidate every slot, keeping the rest of each table. */
  function InvalidateAll(m: seq<Lut>): (r: seq<Lut>)
    ensures |r| == |m|
    ensures forall i :: 0 <= i < |m| ==> r[i] == Invalidate(m[i])
  {
    if |m| == 0 then [] else [Invalidate(m[0])] + InvalidateAll(m[1..])
  }

  /** `SetDirtyNoNotify`: one slot per knot at least, every slot invalid, and the length sentinel reset. */
  function SetDirtyNoNotify(s: Spline): (r: Spline)
    ensures SameGeometry(r, s) && r.lastCurveLengths == s.lastCurveLengths && r.events == s.events
    ensures Dirty(r) && r.length == -1.0
    ensures |r.meta| >= |r.knots|
    ensures |r.meta| == if |s.meta| >= |s.knots| then |s.meta| else |s.knots|
    ensures forall i :: 0 <= i < |s.meta| ==> r.meta[i] == Invalidate(s.meta[i])
    ensures forall i :: |s.meta| <= i < |r.meta| ==> r.meta[i] == NewSlot()
  {
    var e := EnsureMetaDataValid(s);
    InvalidateNewSlot();
    e.(length := -1.0, meta := InvalidateAll(e.meta))
  }

  /** `SetDirty(kind, knotIndex)`: invalidate, then raise exactly one change event. */
  function SetDirty(s: Spline, kind: SplineModification, knotIndex: int): (r: Spline)
    ensures SameGeometry(r, s) && r.lastCurveLengths == s.lastCurveLengths
    ensures Dirty(r) && r.length == -1.0 && |r.meta| >= |r.knots|
    ensures |r.meta| == if |s.meta| >= |s.knots| then |s.meta| else |s.knots|
    ensures forall i :: 0 <= i < |s.meta| ==> r.meta[i] == Invalidate(s.meta[i])
    ensures forall i :: |s.meta| <= i < |r.meta| ==> r.meta[i] == NewSlot()
    ensures r.events == s.events + [ChangeEvent(kind, knotIndex, s.lastCurveLengths.curve0, s.lastCurveLengths.curve1)]
  {
    var d := SetDirtyNoNotify(s);
    d.(events := d.events + [ChangeEvent(kind, knotIndex, s.lastCurveLengths.curve0, s.lastCurveLengths.curve1)])
  }

  // ---------------------------------------------------------------------
  // Cached reads

  /** Fill slot `index` with the table the collaborator builds for its curve, unless the slot is already valid. */
  function FillSlot(s: Spline, ev: CurveEvaluator, index: int): (r: Spline)
    requires 0 <= index < |s.knots| && index < |s.meta|
    ensures SameGeometry(r, s) && r.length == s.length
    ensures r.lastCurveLengths == s.lastCurveLengths && r.events == s.events
    ensures |r.meta| == |s.meta| && IsValid(r.meta[index])
    ensures IsValid(s.meta[index]) ==> r == s
    ensures Coherent(s, ev) ==> Coherent(r, ev) && r.meta[index] == ev.buildLut(GetCurve(s, index))
  {
    if s.meta[index][0].distance < 0.0 then s.(meta := s.meta[index := ev.buildLut(GetCurve(s, index))]) else s
  }

  /** `GetCurveLength(index)`: fill slot `index` if it is invalid, then read the length its table records. */
  function GetCurveLength(s: Spline, ev: CurveEvaluator, index: int): (r: Read<real>)
    requires 0 <= index < |s.knots|
    ensures SameGeometry(r.after, s) && r.after.length == s.length
    ensures r.after.lastCurveLengths == s.lastCurveLengths && r.after.events == s.events
    ensures |r.after.meta| == if |s.meta| >= |s.knots| then |s.meta| else |s.knots|
    ensures IsValid(r.after.meta[index])
    ensures Coherent(s, ev) ==> Coherent(r.after, ev) && r.value == SplineRead.CurveLength(View(s, ev), index)
  {
    var e := EnsureMetaDataValid(s);
    assert Coherent(s, ev) ==> Coherent(e, ev) by {
      if Coherent(s, ev) {
        EnsureMetaDataValidKeepsCoherence(s, ev);
      }
    }
    var filled := FillSlot(e, ev, index);
    var lut := filled.meta[index];
    Read(if |lut| > 0 then lut[|lut| - 1].distance else 0.0, filled)
  }

  /** The loop of `GetLength`: add up the lengths of curves `i .. c-1`, filling their slots. */
  function SumCurveLengths(s: Spline, ev: CurveEvaluator, i: int, c: int, acc: real): (r: Read<real>)
    requires 0 <= i && c <= |s.knots|
    ensures SameGeometry(r.after, s) && r.after.length == s.length
    ensures r.after.lastCurveLengths == s.lastCurveLengths && r.after.events == s.events
    ensures |r.after.meta| >= |s.meta|
    ensures
      && Coherent(s, ev) && c == SplineRead.CurveCount(View(s, ev)) && i <= c
      && acc == SplineRead.LengthBefore(View(s, ev), i)
      ==> r.value == SplineRead.Length(View(s, ev)) && Coherent(r.after, ev)
    decreases c - i
  {
    if i >= c then Read(acc, s)
    else
      var one := GetCurveLength(s, ev, i);
      SumCurveLengths(one.after, ev, i + 1, c, acc + one.value)
  }

  /** `GetLength`: the cached total when valid, otherwise the sum over `Closed ? Count : Count - 1` curves, cached. */
  function GetLength(s: Spline, ev: CurveEvaluator): (r: Read<real>)
    ensures SameGeometry(r.after, s)
    ensures r.after.lastCurveLengths == s.lastCurveLengths && r.after.events == s.events
    ensures r.after.length == r.value
    ensures s.length >= 0.0 ==> r == Read(s.length, s)
    ensures Coherent(s, ev) ==> r.value == SplineRead.Length(View(s, ev)) && Coherent(r.after, ev)
  {
    if s.length < 0.0 then
      var c := if s.closed then |s.knots| else |s.knots| - 1;
      var sum := SumCurveLengths(s, ev, 0, c, 0.0);
      assert Coherent(s, ev) ==> Coherent(sum.after.(length := sum.value), ev) by {
        if Coherent(s, ev) {
          assert c <= 0 ==> SplineRead.CurveCount(View(s, ev)) == 0;
          if c > 0 {
            assert c == SplineRead.CurveCount(View(s, ev));
          }
        }
      }
      Read(sum.value, sum.after.(length := sum.value))
    else
      Read(s.length, s)
  }

  /** `Warmup`: compute and cache the total length. */
  function Warmup(s: Spline, ev: CurveEvaluator): (r: Spline)
    ensures SameGeometry(r, s) && r.events == s.events
    ensures Coherent(s, ev) ==> Coherent(r, ev) && r.length == SplineRead.Length(View(s, ev))
  {
    GetLength(s, ev).after
  }

  /** `GetCurveInterpolation(curveIndex, curveDistance)`; its table read does not extend the slot list first. */
  function GetCurveInterpolation(s: Spline, ev: CurveEvaluator, curveIndex: int, curveDistance: real): (r: Read<real>)
    requires 0 <= curveIndex < |s.knots| && curveIndex < |s.meta|
    ensures SameGeometry(r.after, s) && r.after.length == s.length && r.after.events == s.events
    ensures 0.0 <= r.value <= 1.0
    ensures Coherent(s, ev) ==>
      Coherent(r.after, ev) && r.value == SplineRead.CurveInterpolation(View(s, ev), curveIndex, curveDistance)
  {
    var filled := FillSlot(s, ev, curveIndex);
    Read(ev.lookup(filled.meta[curveIndex], curveDistance), filled)
  }

  /** Reading the length twice returns the cached value the second time and changes nothing more. */
  lemma GetLengthIsCached(s: Spline, ev: CurveEvaluator)
    requires Coherent(s, ev)
    ensures var first := GetLength(s, ev);
      GetLength(first.after, ev) == Read(first.value, first.after)
  {
  }

  /** `Warmup` is idempotent and leaves the knots alone. */
  lemma WarmupIsIdempotent(s: Spline, ev: CurveEvaluator)
    requires Coherent(s, ev)
    ensures Warmup(Warmup(s, ev), ev) == Warmup(s, ev)
    ensures SameGeometry(Warmup(s, ev), s)
  {
    GetLengthIsCached(s, ev);
  }

  /** First half of `CacheKnotOperationCurves`: remember the length of the curve ending at the knot. */
  function RecordIncomingCurve(s: Spline, ev: CurveEvaluator, previous: int): (r: Spline)
    requires 0 <= previous < |s.knots|
    ensures SameGeometry(r, s) && r.length == s.length && r.events == s.events
    ensures |r.meta| == if |s.meta| >= |s.knots| then |s.meta| else |s.knots|
    ensures r.lastCurveLengths.curve1 == s.lastCurveLengths.curve1
    ensures Coherent(s, ev) ==>
      Coherent(r, ev) && r.lastCurveLengths.curve0 == SplineRead.CurveLength(View(s, ev), previous)
  {
    var read := GetCurveLength(s, ev, previous);
    read.after.(lastCurveLengths := read.after.lastCurveLengths.(curve0 := read.value))
  }

  /** Second half of `CacheKnotOperationCurves`: remember the length of the curve starting at the knot. */
  function RecordOutgoingCurve(s: Spline, ev: CurveEvaluator, index: int): (r: Spline)
    requires 0 <= index < |s.knots|
    ensures SameGeometry(r, s) && r.length == s.length && r.events == s.events
    ensures |r.meta| == if |s.meta| >= |s.knots| then |s.meta| else |s.knots|
    ensures r.lastCurveLengths.curve0 == s.lastCurveLengths.curve0
    ensures Coherent(s, ev) ==>
      Coherent(r, ev) && r.lastCurveLengths.curve1 == SplineRead.CurveLength(View(s, ev), index)
  {
    var read := GetCurveLength(s, ev, index);
    read.after.(lastCurveLengths := read.after.lastCurveLengths.(curve1 := read.value))
  }

  /**
    `CacheKnotOperationCurves(index)`: with at least two knots, record the
    lengths of the curve ending at knot `index` and, when that knot exists,
    of the curve starting there; `index == Count` is an insertion at the end.
   */
  function CacheKnotOperationCurves(s: Spline, ev: CurveEvaluator, index: int): (r: Spline)
    requires 0 <= index <= |s.knots|
    ensures SameGeometry(r, s) && r.length == s.length && r.events == s.events
    ensures |r.meta| == if |s.knots| <= 1 || |s.meta| >= |s.knots| then |s.meta| else |s.knots|
    ensures |s.knots| <= 1 ==> r == s
    ensures index == |s.knots| ==> r.lastCurveLengths.curve1 == s.lastCurveLengths.curve1
    ensures Coherent(s, ev) ==> Coherent(r, ev)
    ensures Coherent(s, ev) && |s.knots| >= 2 ==>
      && r.lastCurveLengths.curve0 == SplineRead.CurveLength(View(s, ev), SplineIndex.PreviousIndex(index, |s.knots|, s.closed))
      && (index < |s.knots| ==> r.lastCurveLengths.curve1 == SplineRead.CurveLength(View(s, ev), index))
  {
    if |s.knots| <= 1 then s
    else
      var previous := SplineIndex.PreviousIndex(index, |s.knots|, s.closed);
      var s1 := RecordIncomingCurve(s, ev, previous);
      assert View(s1, ev) == View(s, ev);
      if index < |s.knots| then RecordOutgoingCurve(s1, ev, index) else s1
  }

  // ---------------------------------------------------------------------
  // Mutators

  /** `Insert(index, knot)`; valid for `0 <= index <= Count`. */
  function Insert(s: Spline, ev: CurveEvaluator, index: int, knot: ControlPoint): (r: Spline)
    requires 0 <= index <= |s.knots|
    ensures r.knots == s.knots[..index] + [knot] + s.knots[index..]
    ensures |r.knots| == |s.knots| + 1 && r.knots[index] == knot
    ensures r.closed == s.closed
    ensures Dirty(r) && |r.meta| >= |r.knots|
    ensures |r.meta| == (if |s.meta| >= |s.knots| then |s.meta| else |s.knots|) + 1
    ensures r.meta[index] == NewSlot()
    ensures index == |s.knots| ==> r.lastCurveLengths.curve1 == s.lastCurveLengths.curve1
    ensures r.events == s.events + [ChangeEvent(KnotInserted, index, r.lastCurveLengths.curve0, r.lastCurveLengths.curve1)]
    ensures |s.knots| <= 1 ==> r.lastCurveLengths == s.lastCurveLengths
    ensures Coherent(s, ev) && |s.knots| >= 2 ==>
      && r.lastCurveLengths.curve0 == SplineRead.CurveLength(View(s, ev), SplineIndex.PreviousIndex(index, |s.knots|, s.closed))
      && (index < |s.knots| ==> r.lastCurveLengths.curve1 == SplineRead.CurveLength(View(s, ev), index))
  {
    var e := EnsureMetaDataValid(s);
    var c := CacheKnotOperationCurves(e, ev, index);
    assert Coherent(s, ev) ==> Coherent(e, ev) by {
      if Coherent(s, ev) {
        EnsureMetaDataValidKeepsCoherence(s, ev);
      }
    }
    var m := c.(knots := c.knots[..index] + [knot] + c.knots[index..],
                meta := c.meta[..index] + [NewSlot()] + c.meta[index..]);
    assert m.meta[index] == NewSlot();
    InvalidateNewSlot();
    SetDirty(m, KnotInserted, index)
  }

  /** `Add(knot)`: insert at the end. */
  function Add(s: Spline, ev: CurveEvaluator, knot: ControlPoint): (r: Spline)
    ensures r.knots == s.knots + [knot] && r.closed == s.closed
    ensures Dirty(r) && |r.meta| >= |r.knots| && r.meta[|s.knots|] == NewSlot()
    ensures r.lastCurveLengths.curve1 == s.lastCurveLengths.curve1
    ensures r.events == s.events + [ChangeEvent(KnotInserted, |s.knots|, r.lastCurveLengths.curve0, r.lastCurveLengths.curve1)]
    ensures |s.knots| <= 1 ==> r.lastCurveLengths == s.lastCurveLengths
    ensures Coherent(s, ev) && |s.knots| >= 2 ==>
      r.lastCurveLengths.curve0 == SplineRead.CurveLength(View(s, ev), SplineIndex.PreviousIndex(|s.knots|, |s.knots|, s.closed))
  {
    assert s.knots[..|s.knots|] == s.knots;
    Insert(s, ev, |s.knots|, knot)
  }

  /** `RemoveAt(index)`; valid for `0 <= index < Count`. */
  function RemoveAt(s: Spline, ev: CurveEvaluator, index: int): (r: Spline)
    requires 0 <= index < |s.knots|
    ensures r.knots == s.knots[..index] + s.knots[index + 1..]
    ensures |r.knots| == |s.knots| - 1 && r.closed == s.closed
    ensures Dirty(r) && |r.meta| >= |r.knots|
    ensures |r.meta| == (if |s.meta| >= |s.knots| then |s.meta| else |s.knots|) - 1
    ensures r.events == s.events + [ChangeEvent(KnotRemoved, index, r.lastCurveLengths.curve0, r.lastCurveLengths.curve1)]
    ensures |s.knots| <= 1 ==> r.lastCurveLengths == s.lastCurveLengths
    ensures Coherent(s, ev) && |s.knots| >= 2 ==>
      && r.lastCurveLengths.curve0 == SplineRead.CurveLength(View(s, ev), SplineIndex.PreviousIndex(index, |s.knots|, s.closed))
      && r.lastCurveLengths.curve1 == SplineRead.CurveLength(View(s, ev), index)
  {
    var e := EnsureMetaDataValid(s);
    var c := CacheKnotOperationCurves(e, ev, index);
    assert Coherent(s, ev) ==> Coherent(e, ev) by {
      if Coherent(s, ev) {
        EnsureMetaDataValidKeepsCoherence(s, ev);
      }
    }
    var m := c.(knots := c.knots[..index] + c.knots[index + 1..],
                meta := c.meta[..index] + c.meta[index + 1..]);
    SetDirty(m, KnotRemoved, index)
  }

  /** `SetKnotNoNotify(index, value)`: replace one knot and touch nothing else, caches included. */
  function SetKnotNoNotify(s: Spline, index: int, value: ControlPoint): (r: Spline)
    requires 0 <= index < |s.knots|
    ensures |r.knots| == |s.knots| && r.knots[index] == value
    ensures forall j :: 0 <= j < |s.knots| && j != index ==> r.knots[j] == s.knots[j]
    ensures r.closed == s.closed && r.meta == s.meta && r.length == s.length
    ensures r.lastCurveLengths == s.lastCurveLengths && r.events == s.events
  {
    s.(knots := s.knots[index := value])
  }

  /** `SetKnot(index, value)` (also the indexer's setter): record the touching curves, replace, invalidate, notify. */
  function SetKnot(s: Spline, ev: CurveEvaluator, index: int, value: ControlPoint): (r: Spline)
    requires 0 <= index < |s.knots|
    ensures r.knots == s.knots[index := value] && r.closed == s.closed
    ensures Dirty(r) && |r.meta| >= |r.knots|
    ensures r.events == s.events + [ChangeEvent(KnotModified, index, r.lastCurveLengths.curve0, r.lastCurveLengths.curve1)]
    ensures |s.knots| <= 1 ==> r.lastCurveLengths == s.lastCurveLengths
    ensures Coherent(s, ev) && |s.knots| >= 2 ==>
      && r.lastCurveLengths.curve0 == SplineRead.CurveLength(View(s, ev), SplineIndex.PreviousIndex(index, |s.knots|, s.closed))
      && r.lastCurveLengths.curve1 == SplineRead.CurveLength(View(s, ev), index)
  {
    var c := CacheKnotOperationCurves(s, ev, index);
    SetDirty(SetKnotNoNotify(c, index, value), KnotModified, index)
  }

  /** The `Closed` setter: nothing happens when the value is unchanged. */
  function SetClosed(s: Spline, value: bool): (r: Spline)
    ensures r.closed == value && r.knots == s.knots
    ensures s.closed == value ==> r == s
    ensures s.closed != value ==>
      Dirty(r) && |r.meta| >= |r.knots| &&
      r.events == s.events + [ChangeEvent(ClosedModified, BatchModification, s.lastCurveLengths.curve0, s.lastCurveLengths.curve1)]
  {
    if s.closed == value then s
    else SetDirty(s.(closed := value), ClosedModified, BatchModification)
  }

  /** The `Knots` setter: replace the whole list; the slot list is rebuilt, one fresh slot per knot. */
  function SetKnots(s: Spline, knots: seq<ControlPoint>): (r: Spline)
    ensures r.knots == knots && r.closed == s.closed
    ensures Dirty(r) && |r.meta| == |knots|
    ensures r.events == s.events + [ChangeEvent(Default, BatchModification, s.lastCurveLengths.curve0, s.lastCurveLengths.curve1)]
  {
    SetDirty(s.(knots := knots, meta := []), Default, BatchModification)
  }

  /** `Clear`: no knots, no slots; reported as a batch removal. */
  function Clear(s: Spline): (r: Spline)
    ensures |r.knots| == 0 && |r.meta| == 0 && r.closed == s.closed && Dirty(r)
    ensures r.events == s.events + [ChangeEvent(KnotRemoved, BatchModification, s.lastCurveLengths.curve0, s.lastCurveLengths.curve1)]
  {
    SetDirty(s.(knots := [], meta := []), KnotRemoved, BatchModification)
  }

  /**
    `Copy(copyFrom)`. The source compares references; `sameInstance` says
    whether `src` is this very spline (so the two are equal), in which case
    nothing happens.
   */
  function Copy(dst: Spline, src: Spline, sameInstance: bool): (r: Spline)
    requires sameInstance ==> src == dst
    ensures sameInstance ==> r == dst
    ensures !sameInstance ==> SameGeometry(r, src) && Dirty(r) && |r.meta| >= |r.knots|
    ensures !sameInstance ==>
      r.events == dst.events + [ChangeEvent(Default, BatchModification, dst.lastCurveLengths.curve0, dst.lastCurveLengths.curve1)]
  {
    if sameInstance then dst
    else SetDirty(dst.(closed := src.closed, knots := src.knots, meta := src.meta), Default, BatchModification)
  }

  /** `IndexOf(item)`: the first position holding an equal knot, or -1. */
  function IndexOf(knots: seq<ControlPoint>, item: ControlPoint): (r: int)
    ensures r == -1 <==> item !in knots
    ensures r != -1 ==> 0 <= r < |knots| && knots[r] == item && item !in knots[..r]
  {
    if |knots| == 0 then -1
    else if knots[0] == item then 0
    else
      var rest := IndexOf(knots[1..], item);
      assert knots == [knots[0]] + knots[1..];
      if rest == -1 then -1
      else
        assert knots[..rest + 1] == [knots[0]] + knots[1..][..rest];
        rest + 1
  }

  /** `Remove(item)`: remove the first equal knot and report whether there was one. */
  function Remove(s: Spline, ev: CurveEvaluator, item: ControlPoint): (r: Read<bool>)
    ensures r.value <==> item in s.knots
    ensures !r.value ==> r.after == s
    ensures r.value ==> |r.after.knots| == |s.knots| - 1 && Dirty(r.after)
    ensures r.value ==> var k := IndexOf(s.knots, item);
      r.after.knots == s.knots[..k] + s.knots[k + 1..] && item !in s.knots[..k]
  {
    var index := IndexOf(s.knots, item);
    if index >= 0 then Read(true, RemoveAt(s, ev, index)) else Read(false, s)
  }

  /** Every knot is the default one, at the origin. */
  predicate AllDefault(knots: seq<ControlPoint>) {
    forall j :: 0 <= j < |knots| ==> knots[j] == ControlPoint(Zero)
  }

  /** One default knot appended in front of a run of default knots keeps the run default. */
  lemma DefaultsExtendBackwards(a: seq<ControlPoint>, b: seq<ControlPoint>, all: seq<ControlPoint>)
    requires b == a + [ControlPoint(Zero)]
    requires |all| >= |b| && all[..|b|] == b && AllDefault(all[|b|..])
    ensures all[..|a|] == a && AllDefault(all[|a|..])
  {
    assert all[..|a|] == all[..|b|][..|a|];
    assert all[|a|] == all[..|b|][|a|];
    forall j | 0 < j < |all| - |a|
      ensures all[|a|..][j] == ControlPoint(Zero)
    {
      assert all[|a|..][j] == all[|b|..][j - 1];
    }
  }

  /** Growth step of `Resize`: append default knots one `Add` at a time. */
  function Grow(s: Spline, ev: CurveEvaluator, target: int): (r: Spline)
    ensures |s.knots| < target ==> Dirty(r) && |r.meta| >= |r.knots|
    ensures |s.knots| >= target ==> r == s
    ensures r.closed == s.closed
    ensures |r.knots| == IntMax(target, |s.knots|) && r.knots[..|s.knots|] == s.knots
    ensures AllDefault(r.knots[|s.knots|..])
    ensures |r.events| == |s.events| + IntMax(0, target - |s.knots|)
    decreases target - |s.knots|
  {
    if |s.knots| >= target then s
    else
      var next := Add(s, ev, ControlPoint(Zero));
      var rest := Grow(next, ev, target);
      DefaultsExtendBackwards(s.knots, next.knots, rest.knots);
      rest
  }

  /** One step of shrinking: `RemoveAt(Count - 1)`, seen only through what `Shrink` needs of it. */
  function DropLast(s: Spline, ev: CurveEvaluator): (r: Spline)
    requires |s.knots| > 0
    ensures r.knots == s.knots[..|s.knots| - 1] && r.closed == s.closed
    ensures Dirty(r) && |r.meta| >= |r.knots| && |r.events| == |s.events| + 1
  {
    var r := RemoveAt(s, ev, |s.knots| - 1);
    assert r.knots == s.knots[..|s.knots| - 1];
    r
  }

  /** Shrinking step of `Resize`: remove the last knot one `RemoveAt` at a time. */
  function Shrink(s: Spline, ev: CurveEvaluator, target: int): (r: Spline)
    requires 0 <= target
    ensures target < |s.knots| ==> Dirty(r) && |r.meta| >= |r.knots|
    ensures target >= |s.knots| ==> r == s
    ensures r.closed == s.closed
    ensures r.knots == s.knots[..IntMin(target, |s.knots|)]
    ensures |r.events| == |s.events| + IntMax(0, |s.knots| - target)
    decreases |s.knots|
  {
    if target >= |s.knots| then s
    else
      var next := DropLast(s, ev);
      var rest := Shrink(next, ev, target);
      PrefixOfPrefix(s.knots, |s.knots| - 1, target);
      rest
  }

  /** A prefix of a prefix is the shorter prefix. */
  lemma PrefixOfPrefix<T>(a: seq<T>, n: int, m: int)
    requires 0 <= m <= n <= |a|
    ensures a[..n][..m] == a[..m]
  {
  }

  /** `Resize(newSize)`: `Count` becomes `max(0, newSize)`, keeping the prefix; one event per step. */
  function Resize(s: Spline, ev: CurveEvaluator, newSize: int): (r: Spline)
    ensures |r.knots| == IntMax(0, newSize) && r.closed == s.closed
    ensures |r.knots| <= |s.knots| ==> r.knots == s.knots[..|r.knots|]
    ensures |r.knots| >= |s.knots| ==> r.knots[..|s.knots|] == s.knots
    ensures forall j :: |s.knots| <= j < |r.knots| ==> r.knots[j] == ControlPoint(Zero)
    ensures |r.knots| == |s.knots| ==> r == s
    ensures |r.knots| != |s.knots| ==> Dirty(r) && |r.meta| >= |r.knots|
    ensures |r.events| - |s.events| == if |r.knots| >= |s.knots| then |r.knots| - |s.knots| else |s.knots| - |r.knots|
  {
    var target := IntMax(0, newSize);
    if target == |s.knots| then s
    else if target > |s.knots| then Grow(s, ev, target)
    else Shrink(s, ev, target)
  }

  // ---------------------------------------------------------------------
  // Properties relating several operations

  /** Removing the knot just inserted gives back the knot list. */
  lemma InsertThenRemoveAtRestoresKnots(s: Spline, ev: CurveEvaluator, index: int, knot: ControlPoint)
    requires 0 <= index <= |s.knots|
    ensures SameGeometry(RemoveAt(Insert(s, ev, index, knot), ev, index), s)
  {
    RemoveInsertedElement(s.knots, index, knot);
  }

  /** Re-inserting a removed knot where it was gives back the knot list. */
  lemma RemoveAtThenInsertRestoresKnots(s: Spline, ev: CurveEvaluator, index: int)
    requires 0 <= index < |s.knots|
    ensures SameGeometry(Insert(RemoveAt(s, ev, index), ev, index, s.knots[index]), s)
  {
    ReinsertRemovedElement(s.knots, index);
  }

  lemma RemoveInsertedElement<T>(a: seq<T>, index: int, x: T)
    requires 0 <= index <= |a|
    ensures var b := a[..index] + [x] + a[index..]; b[..index] + b[index + 1..] == a
  {
    var b := a[..index] + [x] + a[index..];
    assert b[..index] == a[..index];
    assert b[index + 1..] == a[index..];
    assert a[..index] + a[index..] == a;
  }

  lemma ReinsertRemovedElement<T>(a: seq<T>, index: int)
    requires 0 <= index < |a|
    ensures var b := a[..index] + a[index + 1..]; b[..index] + [a[index]] + b[index..] == a
  {
    var b := a[..index] + a[index + 1..];
    assert b[..index] == a[..index];
    assert b[index..] == a[index + 1..];
    assert a[..index] + [a[index]] + a[index + 1..] == a;
  }

  /** After any notifying mutation the next length read is the fresh sum over the new knots. */
  lemma LengthAfterMutationIsFresh(s: Spline, ev: CurveEvaluator)
    requires Dirty(s)
    ensures GetLength(s, ev).value == SplineRead.Length(View(s, ev))
  {
    DirtyIsCoherent(s, ev);
  }

  /** Setting a knot to the value it already holds leaves the total length unchanged. */
  lemma SetKnotToSameValueKeepsLength(s: Spline, ev: CurveEvaluator, index: int)
    requires 0 <= index < |s.knots|
    requires Coherent(s, ev)
    ensures GetLength(SetKnot(s, ev, index, s.knots[index]), ev).value == GetLength(s, ev).value
  {
    var r := SetKnot(s, ev, index, s.knots[index]);
    assert s.knots[index := s.knots[index]] == s.knots;
    LengthAfterMutationIsFresh(r, ev);
  }

  /**
    `SetKnotNoNotify` leaves a cached length stale: when the new knot changes
    the fresh total, the result is no longer coherent.
   */
  lemma SilentSetLeavesLengthStale(s: Spline, ev: CurveEvaluator, index: int, value: ControlPoint)
    requires 0 <= index < |s.knots|
    requires Coherent(s, ev) && s.length >= 0.0
    requires SplineRead.Length(View(SetKnotNoNotify(s, index, value), ev)) != SplineRead.Length(View(s, ev))
    ensures !Coherent(SetKnotNoNotify(s, index, value), ev)
  {
  }

  /** Marking the spline dirty after silent edits restores coherence, as linked-knot propagation relies on. */
  lemma SilentSetThenDirtyIsCoherent(s: Spline, ev: CurveEvaluator, index: int, value: ControlPoint)
    requires 0 <= index < |s.knots|
    ensures Coherent(SetDirtyNoNotify(SetKnotNoNotify(s, index, value)), ev)
  {
    DirtyIsCoherent(SetDirtyNoNotify(SetKnotNoNotify(s, index, value)), ev);
  }

  /** Copying from a spline reproduces its geometry, so the fresh length read afterwards is the source's. */
  lemma CopyReproducesLength(dst: Spline, src: Spline, ev: CurveEvaluator)
    ensures GetLength(Copy(dst, src, false), ev).value == SplineRead.Length(View(src, ev))
  {
    LengthAfterMutationIsFresh(Copy(dst, src, false), ev);
  }
}
