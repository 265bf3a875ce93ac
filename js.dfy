/**
 * The few JavaScript run-time notions the cache needs: numbers (with their
 * infinities and NaN), the values an option may hold, and a result type
 * for operations that throw.
 *
 * Finite numbers are exact reals: the rounding of IEEE doubles is not modelled.
 */
module Js {

  /** A JavaScript number. */
  datatype Number = Finite(r: real) | PosInf | NegInf | NaN

  /** A JavaScript value as seen by an option setter or a parser. */
  datatype Value = Undefined | Null | Num(n: Number) | Str(s: string) | Other

  /** Either a value or the message of the Error that was thrown. */
  datatype Result<+T> = Ok(value: T) | Throws(message: string)

  datatype Option<+T> = None | Some(value: T) {
    function GetOr(default: T): T {
      match this
      case Some(v) => v
      case None => default
    }
  }

  /** Number.MAX_SAFE_INTEGER, 2^53 - 1. */
  const MaxSafeInteger: int := 0x1F_FFFF_FFFF_FFFF

  /** `x == null` holds of undefined and null only. */
  predicate IsNullish(v: Value) {
    v.Undefined? || v.Null?
  }

  /** Number.isSafeInteger */
  predicate IsSafeInteger(x: Number) {
    x.Finite? && x.r == x.r.Floor as real && -MaxSafeInteger <= x.r.Floor <= MaxSafeInteger
  }

  /** `x > y` on numbers; every comparison with NaN is false. */
  predicate Greater(x: Number, y: Number) {
    match (x, y)
    case (Finite(a), Finite(b)) => a > b
    case (PosInf, Finite(_)) => true
    case (PosInf, NegInf) => true
    case (Finite(_), NegInf) => true
    case _ => false
  }

  /** `x <= 0` on numbers. */
  predicate AtMostZero(x: Number) {
    match x
    case Finite(a) => a <= 0.0
    case NegInf => true
    case _ => false
  }

  /** A positive safe integer or Infinity: the values the option validators accept. */
  predicate IsPositiveIntOrInfinity(x: Number) {
    (IsSafeInteger(x) && x.r > 0.0) || x.PosInf?
  }

  /** Math.ceil on a finite number. */
  function Ceil(r: real): (n: int)
    ensures n as real >= r && (n - 1) as real < r
  {
    if r.Floor as real == r then r.Floor else r.Floor + 1
  }
}
