/**
 * JavaScript numbers as the guarded helpers of the front end see them: a finite
 * value, NaN, or one of the two infinities. Finite values are exact reals; the
 * rounding of IEEE doubles is not modelled.
 */
module JsNumber {

  datatype Num = Finite(value: real) | NaN | Infinity(positive: bool)

  /** `Number.isFinite`. */
  predicate IsFinite(n: Num) { n.Finite? }

  /** `Number.isNaN`. */
  predicate IsNaN(n: Num) { n.NaN? }

  /** The binary `-` operator. */
  function Sub(a: Num, b: Num): Num {
    match (a, b)
    case (NaN, _) => NaN
    case (_, NaN) => NaN
    case (Finite(x), Finite(y)) => Finite(x - y)
    case (Infinity(p), Finite(_)) => Infinity(p)
    case (Finite(_), Infinity(q)) => Infinity(!q)
    case (Infinity(p), Infinity(q)) => if p == q then NaN else Infinity(p)
  }

  /** The binary `+` operator. */
  function Add(a: Num, b: Num): Num {
    match (a, b)
    case (NaN, _) => NaN
    case (_, NaN) => NaN
    case (Finite(x), Finite(y)) => Finite(x + y)
    case (Infinity(p), Finite(_)) => Infinity(p)
    case (Finite(_), Infinity(q)) => Infinity(q)
    case (Infinity(p), Infinity(q)) => if p == q then Infinity(p) else NaN
  }

  /** Division by a positive element count. */
  function DivCount(a: Num, n: nat): Num
    requires n > 0
  {
    match a
    case Finite(x) => Finite(x / (n as real))
    case _ => a
  }

  /** `Math.abs`. */
  function Abs(a: Num): Num {
    match a
    case Finite(x) => Finite(if x < 0.0 then -x else x)
    case Infinity(_) => Infinity(true)
    case NaN => NaN
  }

  /** `a < c` for a constant `c`; every comparison with NaN is false. */
  predicate Less(a: Num, c: real) {
    match a
    case Finite(x) => x < c
    case Infinity(p) => !p
    case NaN => false
  }

  /** `a > c` for a constant `c`. */
  predicate Greater(a: Num, c: real) {
    match a
    case Finite(x) => x > c
    case Infinity(p) => p
    case NaN => false
  }

  /** `a >= c` for a constant `c`. */
  predicate AtLeast(a: Num, c: real) {
    match a
    case Finite(x) => x >= c
    case Infinity(p) => p
    case NaN => false
  }
}
