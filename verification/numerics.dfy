/**
  Scalar helpers shared by the model: the clamps, floors and fractions the
  runtime takes from its maths library, C#'s truncating integer remainder,
  and an IEEE-754 view of a quotient for the places where the runtime divides
  without a guard.
 */
module Numerics {

  /** A ratio in the closed unit interval. */
  type Unit = r: real | 0.0 <= r <= 1.0

  datatype Option<+T> = None | Some(value: T)

  function Min(a: real, b: real): (r: real)
    ensures r <= a && r <= b
    ensures r == a || r == b
  {
    if a < b then a else b
  }

  function Max(a: real, b: real): (r: real)
    ensures a <= r && b <= r
    ensures r == a || r == b
  {
    if a < b then b else a
  }

  function IntMin(a: int, b: int): (r: int)
    ensures r <= a && r <= b
    ensures r == a || r == b
  {
    if a < b then a else b
  }

  function IntMax(a: int, b: int): (r: int)
    ensures a <= r && b <= r
    ensures r == a || r == b
  {
    if a < b then b else a
  }

  /** `math.clamp(x, lo, hi)`, which is `max(lo, min(hi, x))`. */
  function Clamp(x: real, lo: real, hi: real): (r: real)
    ensures lo <= hi ==> lo <= r <= hi
    ensures lo <= x <= hi ==> r == x
    ensures lo <= hi && x < lo ==> r == lo
    ensures lo <= hi && hi < x ==> r == hi
  {
    Max(lo, Min(hi, x))
  }

  /** True when `t % 1f == 0f`: the value has no fractional part. */
  predicate IsIntegral(t: real) {
    t == t.Floor as real
  }

  /** `math.frac(x)`, the fractional part `x - floor(x)`. */
  function Frac(x: real): (r: real)
    ensures 0.0 <= r < 1.0
    ensures x == x.Floor as real + r
    ensures r == 0.0 <==> IsIntegral(x)
  {
    x - x.Floor as real
  }

  /** C#'s `(int)` cast of a float: truncation toward zero. */
  function Truncate(x: real): (r: int)
    ensures 0.0 <= x ==> 0 <= r && r as real <= x < r as real + 1.0
    ensures x < 0.0 ==> r <= 0 && r as real - 1.0 < x <= r as real
  {
    if x >= 0.0 then x.Floor else -((-x).Floor)
  }

  /** C#'s `%` on `int`, which truncates toward zero: the remainder takes the sign of the dividend. */
  function CsRem(a: int, b: int): (r: int)
    requires b != 0
    ensures 0 <= a && 0 < b ==> r == a % b
    ensures 0 <= a ==> 0 <= r
    ensures a < 0 ==> r <= 0
    ensures 0 < b ==> -b < r < b
  {
    var m := if b < 0 then -b else b;
    if a >= 0 then a % m else -((-a) % m)
  }

  /** An IEEE-754 single-precision result, abstracting away rounding: finite, not-a-number or infinite. */
  datatype FloatValue = Finite(value: real) | NaN | PositiveInfinity | NegativeInfinity

  /** The IEEE-754 quotient of two finite operands: division by zero gives NaN for `0/0` and a signed infinity otherwise. */
  function FloatDivide(num: real, den: real): (r: FloatValue)
    ensures r.Finite? <==> den != 0.0
    ensures r.NaN? <==> den == 0.0 && num == 0.0
    ensures r.Finite? ==> r.value * den == num
  {
    if den != 0.0 then Finite(num / den)
    else if num == 0.0 then NaN
    else if num > 0.0 then PositiveInfinity
    else NegativeInfinity
  }

  /** Dividing a value in `[0, length]` by a positive length gives a ratio in `[0, 1]` that scales back to it. */
  lemma RatioBounds(d: real, length: real)
    requires 0.0 < length && 0.0 <= d <= length
    ensures 0.0 <= d / length <= 1.0 && (d / length) * length == d
  {
  }

  /** Dividing by a positive quantity preserves order. */
  lemma DivideMonotone(a: real, b: real, d: real)
    requires 0.0 < d && a <= b
    ensures a / d <= b / d
  {
    assert b / d - a / d == (b - a) / d;
  }

  /** Scaling by a positive factor is injective. */
  lemma CancelPositive(a: real, b: real, length: real, product: real)
    requires 0.0 < length && a * length == product && b * length == product
    ensures a == b
  {
    assert (a - b) * length == 0.0;
  }

  /** Scaling by a non-negative factor preserves order. */
  lemma ScaleMonotone(a: real, b: real, c: real)
    requires 0.0 <= c && a <= b
    ensures a * c <= b * c
  {
    assert (b - a) * c >= 0.0;
  }

  /** The point a fraction `f` of the way along a span of length `len` that begins at `start`. */
  function Along(start: real, len: real, f: real): real {
    start + len * f
  }

  /** A fraction of the way along a span stays within the span. */
  lemma AlongWithin(start: real, len: real, f: real)
    requires 0.0 <= f <= 1.0 && 0.0 <= len
    ensures start <= Along(start, len, f) <= start + len
  {
    ScaleByUnit(f, len);
  }

  /** Further along a span of non-negative length is no earlier. */
  lemma AlongMonotone(start: real, len: real, f: real, g: real)
    requires f <= g && 0.0 <= len
    ensures Along(start, len, f) <= Along(start, len, g)
  {
    ScaleMonotone(f, g, len);
  }

  /** A ratio of a non-negative quantity lies between zero and that quantity. */
  lemma ScaleByUnit(t: real, length: real)
    requires 0.0 <= t <= 1.0 && 0.0 <= length
    ensures 0.0 <= t * length <= length && length * t == t * length
  {
    ScaleMonotone(0.0, t, length);
    ScaleMonotone(t, 1.0, length);
  }

  lemma ProductPositive(a: real, b: real)
    requires 0.0 < a && 0.0 < b
    ensures 0.0 < a * b
  {
  }

  lemma DivideBack(product: real, w: real, length: real)
    requires 0.0 < length && (product == w * length || product == length * w)
    ensures product / length == w
  {
  }

  lemma FloorBelow(x: real, n: int)
    requires 0.0 <= x < n as real
    ensures 0 <= x.Floor < n
  {
  }

  lemma AddPositivePortion(a: real, b: real, c: real, d: real)
    requires 0.0 < b && 0.0 < c <= 1.0 && d == a + b * c
    ensures a < d
  {
    ProductPositive(b, c);
  }
}
