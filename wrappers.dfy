/** Result shapes shared by every module: Go's `(value, error)` returns,
    panics, and IEEE-754 quotients of counts. */
module Wrappers {

  datatype Option<T> = None | Some(value: T)

  /** A Go call that returns `(value, nil)` or `(zero, err)`. */
  datatype Result<T> = Ok(value: T) | Err(error: string)

  /** A Go call that either returns or panics. */
  datatype Outcome<T> = Value(value: T) | Panic(reason: string)

  /** float64 quotients that matter to the source: a finite value, or the
      NaN/Inf produced by dividing by zero. */
  datatype Float = Num(r: real) | NaN | PosInf | NegInf

  /** IEEE-754 division of two exactly representable reals (rounding of the
      finite case is not modelled). */
  function Div(a: real, b: real): (q: Float)
    ensures b != 0.0 ==> q == Num(a / b)
    ensures b == 0.0 ==> (q == NaN <==> a == 0.0)
    ensures b == 0.0 && a > 0.0 ==> q == PosInf
  {
    if b != 0.0 then Num(a / b)
    else if a > 0.0 then PosInf
    else if a < 0.0 then NegInf
    else NaN
  }

  /** float64 `>=` : false whenever an operand is NaN. */
  predicate AtLeast(x: Float, y: real)
  {
    match x
    case Num(r) => r >= y
    case PosInf => true
    case _ => false
  }

  const MinInt64: int := -0x8000_0000_0000_0000
  const MaxInt64: int := 0x7FFF_FFFF_FFFF_FFFF
  type Int64 = i: int | MinInt64 <= i <= MaxInt64
  const TwoTo64: int := 0x1_0000_0000_0000_0000
  type Word64 = w: int | 0 <= w < TwoTo64
  type Byte = b: int | 0 <= b < 256
}
