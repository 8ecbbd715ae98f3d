/**
 The number arithmetic the tour solver computes with: exact reals extended by the two
 infinities and NaN, with the IEEE 754 rules for adding, subtracting and comparing them.
 Rounding of finite values is not modelled.
 */
module ExtendedNumbers {

  datatype Number = NaN | NegInf | Fin(v: real) | PosInf

  function Add(a: Number, b: Number): Number {
    if a.NaN? || b.NaN? then NaN
    else if a.Fin? && b.Fin? then Fin(a.v + b.v)
    else if a.Fin? then b
    else if b.Fin? || a == b then a
    else NaN
  }

  function Negate(a: Number): Number {
    match a
    case NaN => NaN
    case NegInf => PosInf
    case PosInf => NegInf
    case Fin(v) => Fin(-v)
  }

  function Sub(a: Number, b: Number): Number {
    Add(a, Negate(b))
  }

  /** `a < b`; every comparison with NaN is false. */
  predicate Less(a: Number, b: Number) {
    match (a, b)
    case (NaN, _) => false
    case (_, NaN) => false
    case (Fin(x), Fin(y)) => x < y
    case (NegInf, _) => b != NegInf
    case (_, PosInf) => a != PosInf
    case _ => false
  }

  /** `a <= b` */
  predicate AtMost(a: Number, b: Number) {
    Less(a, b) || (a == b && a != NaN)
  }
}
