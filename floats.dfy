/**
 * Numeric cells of a table: a float64 value is NaN (pandas' missing marker), a
 * finite number, or one of the two infinities. Finite values are exact reals:
 * rounding, overflow and the sign of zero are not modelled.
 */
module Floats {

  datatype Float = NaN | Fin(v: real) | PosInf | NegInf

  predicate IsNull(a: Float) { a.NaN? }

  predicate IsInf(a: Float) { a.PosInf? || a.NegInf? }

  function Neg(a: Float): Float
  {
    match a
    case NaN => NaN
    case Fin(x) => Fin(-x)
    case PosInf => NegInf
    case NegInf => PosInf
  }

  /** IEEE 754 addition on the four kinds of values. */
  function Add(a: Float, b: Float): (r: Float)
    ensures a.Fin? && b.Fin? ==> r == Fin(a.v + b.v)
    ensures IsNull(a) || IsNull(b) ==> IsNull(r)
  {
    match (a, b)
    case (NaN, _) => NaN
    case (_, NaN) => NaN
    case (PosInf, NegInf) => NaN
    case (NegInf, PosInf) => NaN
    case (PosInf, _) => PosInf
    case (NegInf, _) => NegInf
    case (_, PosInf) => PosInf
    case (_, NegInf) => NegInf
    case (Fin(x), Fin(y)) => Fin(x + y)
  }

  function Sub(a: Float, b: Float): Float
  {
    Add(a, Neg(b))
  }

  /** Sign of a non-NaN value: -1, 0 or 1. */
  function Sign(a: Float): int
  {
    match a
    case NaN => 0
    case Fin(x) => if x > 0.0 then 1 else if x < 0.0 then -1 else 0
    case PosInf => 1
    case NegInf => -1
  }

  function InfOfSign(s: int): Float
  {
    if s >= 0 then PosInf else NegInf
  }

  /** IEEE 754 multiplication (zero times infinity is NaN). */
  function Mul(a: Float, b: Float): (r: Float)
    ensures a.Fin? && b.Fin? ==> r == Fin(a.v * b.v)
  {
    if a.NaN? || b.NaN? then NaN
    else if a.Fin? && b.Fin? then Fin(a.v * b.v)
    else if Sign(a) == 0 || Sign(b) == 0 then NaN
    else InfOfSign(Sign(a) * Sign(b))
  }

  /**
   * IEEE 754 division: a non-zero finite value over zero is an infinity of its
   * sign, zero over zero and infinity over infinity are NaN.
   */
  function Div(a: Float, b: Float): (r: Float)
    ensures a.Fin? && b.Fin? && b.v != 0.0 ==> r == Fin(a.v / b.v)
    ensures a.Fin? && b == Fin(0.0) ==> (IsInf(r) <==> a.v != 0.0)
  {
    match (a, b)
    case (NaN, _) => NaN
    case (_, NaN) => NaN
    case (Fin(x), Fin(y)) =>
      if y != 0.0 then Fin(x / y)
      else if x == 0.0 then NaN
      else InfOfSign(Sign(a))
    case (Fin(_), _) => Fin(0.0)
    case (_, Fin(y)) => if y < 0.0 then Neg(a) else a
    case _ => NaN
  }

  /** `abs(a)`: NaN stays NaN and both infinities become +inf. */
  function Abs(a: Float): (r: Float)
    ensures r.NaN? <==> a.NaN?
    ensures r.Fin? <==> a.Fin?
    ensures r.Fin? ==> r.v >= 0.0 && (r.v == a.v || r.v == -a.v)
    ensures IsInf(a) ==> r.PosInf?
  {
    match a
    case Fin(x) => Fin(if x < 0.0 then -x else x)
    case NaN => NaN
    case _ => PosInf
  }

  /** The comparison `a < b` of float64 values: false whenever NaN is involved. */
  predicate Less(a: Float, b: Float)
  {
    match (a, b)
    case (NaN, _) => false
    case (_, NaN) => false
    case (Fin(x), Fin(y)) => x < y
    case (NegInf, NegInf) => false
    case (NegInf, _) => true
    case (_, PosInf) => !a.PosInf?
    case _ => false
  }

  lemma {:induction false} SubFinite(a: real, b: real)
    ensures Sub(Fin(a), Fin(b)) == Fin(a - b)
  {
    assert Neg(Fin(b)) == Fin(-b);
  }

  lemma MulFinite(a: real, b: real)
    ensures Mul(Fin(a), Fin(b)) == Fin(a * b)
  {
  }

  /** A difference of two present, finite values is neither NaN nor infinite. */
  lemma SubKeepsFinite(a: Float, b: Float)
    requires a.Fin? && b.Fin?
    ensures Sub(a, b).Fin?
  {
    SubFinite(a.v, b.v);
  }
}
