/** Floating point without rounding: the reals with infinities and the value that is no number. A
    divisor that is zero counts as positive zero, as it is wherever the firmware may divide by it. */
module Floats {
  datatype Float = Num(x: real) | Infinite(positive: bool) | NaN

  function Negated(a: Float): Float {
    match a
    case Num(x) => Num(-x)
    case Infinite(p) => Infinite(!p)
    case NaN => NaN
  }

  function Add(a: Float, b: Float): Float {
    match (a, b)
    case (Num(x), Num(y)) => Num(x + y)
    case (Infinite(p), Num(_)) => a
    case (Num(_), Infinite(q)) => b
    case (Infinite(p), Infinite(q)) => if p == q then a else NaN
    case _ => NaN
  }

  function Sub(a: Float, b: Float): Float {
    Add(a, Negated(b))
  }

  function Scaled(p: bool, y: real): Float {
    if y == 0.0 then NaN else Infinite(p == (0.0 < y))
  }

  function Mul(a: Float, b: Float): Float {
    match (a, b)
    case (Num(x), Num(y)) => Num(x * y)
    case (Infinite(p), Num(y)) => Scaled(p, y)
    case (Num(x), Infinite(q)) => Scaled(q, x)
    case (Infinite(p), Infinite(q)) => Infinite(p == q)
    case _ => NaN
  }

  function Div(a: Float, b: Float): Float {
    match (a, b)
    case (Num(x), Num(y)) =>
      if y != 0.0 then Num(x / y) else if x == 0.0 then NaN else Infinite(0.0 < x)
    case (Infinite(p), Num(y)) => if y == 0.0 then a else Infinite(p == (0.0 < y))
    case (Num(_), Infinite(_)) => Num(0.0)
    case _ => NaN
  }

  /** Every comparison with no number is false. */
  predicate Less(a: Float, b: Float) {
    match (a, b)
    case (Num(x), Num(y)) => x < y
    case (Infinite(p), Num(_)) => !p
    case (Num(_), Infinite(q)) => q
    case (Infinite(p), Infinite(q)) => !p && q
    case _ => false
  }

  /** Limiting a value lets through what is no number. */
  function Clip(x: Float, lo: real, hi: real): (r: Float)
    requires lo <= hi
    ensures r.NaN? || (r.Num? && lo <= r.x <= hi)
    ensures r.NaN? <==> x.NaN?
  {
    if Less(Num(hi), x) then Num(hi) else if Less(x, Num(lo)) then Num(lo) else x
  }
}
