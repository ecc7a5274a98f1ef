/**
  Knot adjacency: the single rule, shared by cache invalidation, evaluation
  and search, for the knot before and after an index. A closed spline wraps
  around; an open one clamps to its ends.
 */
module SplineIndex {
  import opened Numerics

  /** `PreviousIndex(index, count, wrap)`. Wrapping divides by `count`, so a closed spline needs knots. */
  function PreviousIndex(index: int, count: int, wrap: bool): (r: int)
    requires wrap ==> count != 0
    ensures wrap && 0 <= index < count ==> r == (if index == 0 then count - 1 else index - 1)
    ensures !wrap && 0 <= index < count ==> r == (if index == 0 then 0 else index - 1)
    ensures 0 <= index < count ==> 0 <= r < count
  {
    if wrap then CsRem(index + (count - 1), count) else IntMax(index - 1, 0)
  }

  /** `NextIndex(index, count, wrap)`. */
  function NextIndex(index: int, count: int, wrap: bool): (r: int)
    requires wrap ==> count != 0
    ensures wrap && 0 <= index < count ==> r == (if index == count - 1 then 0 else index + 1)
    ensures !wrap && 0 <= index < count ==> r == (if index == count - 1 then index else index + 1)
    ensures 0 <= index < count ==> 0 <= r < count
  {
    if wrap then CsRem(index + 1, count) else IntMin(index + 1, count - 1)
  }

  /** `GetCurveCount`: one curve per knot when closed, one fewer when open, never negative. */
  function CurveCount(count: int, closed: bool): (r: nat)
    ensures count >= 1 && closed ==> r == count
    ensures count >= 1 && !closed ==> r == count - 1
    ensures count <= 0 ==> r == 0
  {
    IntMax(0, count - (if closed then 0 else 1)) as nat
  }

  /** On a closed spline stepping back then forward, or forward then back, returns to the start. */
  lemma WrappedStepsAreInverse(i: int, n: int)
    requires 0 <= i < n
    ensures NextIndex(PreviousIndex(i, n, true), n, true) == i
    ensures PreviousIndex(NextIndex(i, n, true), n, true) == i
  {
  }

  /** On an open spline the same holds away from the clamped end. */
  lemma ClampedStepsAreInverse(i: int, n: int)
    requires 0 <= i < n
    ensures 0 < i ==> NextIndex(PreviousIndex(i, n, false), n, false) == i
    ensures i < n - 1 ==> PreviousIndex(NextIndex(i, n, false), n, false) == i
  {
  }

  /** The index and its successor are the two knots a curve joins: curve `i` exists exactly when they differ. */
  lemma CurveIndicesHaveDistinctSuccessor(i: int, n: int, closed: bool)
    requires n >= 2 && 0 <= i < n
    ensures i < CurveCount(n, closed) <==> NextIndex(i, n, closed) != i
  {
  }
}
