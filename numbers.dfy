/**
 * Numbers: the model's stand-in for `f64`. Arithmetic is exact on reals;
 * only the distinction finite / non-finite (NaN, +inf, -inf) is kept, for the
 * functions that branch on `is_finite`.
 */
module Numbers {

  /** An `f64` value: finite with its exact value, or one of NaN, +inf, -inf. */
  datatype F64 = Finite(value: real) | NonFinite

  function Abs(x: real): (r: real)
    ensures r >= 0.0 && (r == x || r == -x)
  {
    if x < 0.0 then -x else x
  }

  /** `f64::round`: the nearest integer, halfway cases away from zero. */
  function Round(x: real): (n: int)
    ensures x - 0.5 <= n as real <= x + 0.5
    ensures x >= 0.0 ==> n >= 0
    ensures x <= 0.0 ==> n <= 0
    ensures Abs(n as real - x) == 0.5 ==> Abs(n as real) > Abs(x)
  {
    if x >= 0.0 then (x + 0.5).Floor else -((-x + 0.5).Floor)
  }

  /** Rounding leaves integers alone. */
  lemma RoundOfInteger(n: int)
    ensures Round(n as real) == n
  {
  }

  /** `Round(-x) == -Round(x)`: the rule is symmetric around zero. */
  lemma RoundOdd(x: real)
    ensures Round(-x) == -Round(x)
  {
  }
}
