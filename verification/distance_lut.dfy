/**
  Per-curve distance-to-interpolation lookup tables, the cache slot they live
  in, and the curve-maths collaborator (`CurveUtility`) that builds them,
  which is kept abstract.
 */
module DistanceLuts {
  import opened Numerics
  import opened Vectors
  import opened Curves

  /** Number of entries in every curve's table. */
  const LutResolution: nat := 30

  datatype DistanceToInterpolation = DistanceToInterpolation(distance: real, t: real)

  /** `DistanceToInterpolation.Invalid`: the marker written into entry 0 of a stale slot. */
  const Invalid: DistanceToInterpolation := DistanceToInterpolation(-1.0, -1.0)

  /** The fixed-size array held by one cache slot (`MetaData.DistanceToInterpolation`). */
  type Lut = s: seq<DistanceToInterpolation> | |s| == LutResolution
    witness seq(LutResolution, _ => DistanceToInterpolation(0.0, 0.0))

  /** A slot holds a usable table exactly when its first distance is not negative. */
  predicate IsValid(slot: Lut) {
    slot[0].distance >= 0.0
  }

  /** `new MetaData()`: a zeroed array whose first entry is then marked invalid. */
  function NewSlot(): (r: Lut)
    ensures !IsValid(r)
    ensures r[0] == Invalid
    ensures forall k :: 1 <= k < |r| ==> r[k] == DistanceToInterpolation(0.0, 0.0)
  {
    [Invalid] + seq(LutResolution - 1, _ => DistanceToInterpolation(0.0, 0.0))
  }

  /** `MetaData.InvalidateCache`: only entry 0 is overwritten. */
  function Invalidate(slot: Lut): (r: Lut)
    ensures !IsValid(r)
    ensures r[0] == Invalid && r[1..] == slot[1..]
  {
    slot[0 := Invalid]
  }

  /** Invalidating a fresh slot leaves it as it was. */
  lemma InvalidateNewSlot()
    ensures Invalidate(NewSlot()) == NewSlot()
  {
  }

  /** The length a table records: the distance of its last entry (`GetCurveLength`). */
  function LutLength(slot: Lut): real {
    slot[|slot| - 1].distance
  }

  predicate Monotone(s: seq<DistanceToInterpolation>) {
    forall i, j :: 0 <= i <= j < |s| ==> s[i].distance <= s[j].distance
  }

  /** What `CurveUtility.CalculateCurveLengths` produces: a valid table, monotone in distance. */
  type ComputedLut = s: Lut | IsValid(s) && Monotone(s)
    witness seq(LutResolution, _ => DistanceToInterpolation(0.0, 0.0))

  lemma ComputedLutLengthNonNegative(s: ComputedLut)
    ensures LutLength(s) >= s[0].distance >= 0.0
  {
  }

  /**
    The curve-maths collaborator, whose formulas are not part of this model:
    table construction and table lookup (distance to ratio) on one section.
   */
  datatype CurveEvaluator = CurveEvaluator(
    buildLut: BSplineCurve -> ComputedLut,
    lookup: (Lut, real) -> Unit)

  /** The length of one section as the collaborator measures it. */
  function CurveLen(ev: CurveEvaluator, c: BSplineCurve): (r: real)
    ensures r >= 0.0
  {
    var lut := ev.buildLut(c);
    ComputedLutLengthNonNegative(lut);
    LutLength(lut)
  }
}
