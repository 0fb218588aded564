/** Floating-point values as the source's pandas/numpy columns see them:
    a finite real, one of the two infinities, or NaN. Rounding is not
    modelled (finite arithmetic is exact); the special values follow
    IEEE 754 for the operations the pipeline uses. */
module ExtReal {

  datatype Ext = Fin(v: real) | PosInf | NegInf | NaN

  predicate IsNaN(x: Ext) { x.NaN? }

  predicate IsFinite(x: Ext) { x.Fin? }

  function Neg(x: Ext): Ext
  {
    match x
    case Fin(a) => Fin(-a)
    case PosInf => NegInf
    case NegInf => PosInf
    case NaN => NaN
  }

  function Add(x: Ext, y: Ext): (r: Ext)
    ensures x.Fin? && y.Fin? ==> r == Fin(x.v + y.v)
    ensures (IsNaN(x) || IsNaN(y)) ==> IsNaN(r)
  {
    match (x, y)
    case (NaN, _) => NaN
    case (_, NaN) => NaN
    case (Fin(a), Fin(b)) => Fin(a + b)
    case (PosInf, NegInf) => NaN
    case (NegInf, PosInf) => NaN
    case (Fin(_), inf) => inf
    case (inf, _) => inf
  }

  function Sub(x: Ext, y: Ext): Ext
  {
    Add(x, Neg(y))
  }

  /** Strictly above zero (an infinity counts). */
  predicate Positive(x: Ext) { x == PosInf || (x.Fin? && x.v > 0.0) }

  predicate IsZero(x: Ext) { x == Fin(0.0) }

  function Mul(x: Ext, y: Ext): (r: Ext)
    ensures x.Fin? && y.Fin? ==> r == Fin(x.v * y.v)
    ensures (IsNaN(x) || IsNaN(y)) ==> IsNaN(r)
  {
    if IsNaN(x) || IsNaN(y) then NaN
    else if x.Fin? && y.Fin? then Fin(x.v * y.v)
    else if IsZero(x) || IsZero(y) then NaN    // zero times an infinity
    else if Positive(x) == Positive(y) then PosInf
    else NegInf
  }

  /** Infinity times a finite number: NaN for zero, otherwise an infinity
      with the number's sign. */
  lemma MulInfinity(x: Ext)
    requires x.Fin?
    ensures x.v == 0.0 ==> IsNaN(Mul(PosInf, x))
    ensures x.v > 0.0 ==> Mul(PosInf, x) == PosInf
    ensures x.v < 0.0 ==> Mul(PosInf, x) == NegInf
  {
  }

  /** Division; a nonzero number over zero is an infinity and 0/0 is NaN
      (the sign of zero is not modelled). */
  function Div(x: Ext, y: Ext): (r: Ext)
    ensures x.Fin? && y.Fin? && y.v != 0.0 ==> r == Fin(x.v / y.v)
    ensures (IsNaN(x) || IsNaN(y)) ==> IsNaN(r)
  {
    match (x, y)
    case (NaN, _) => NaN
    case (_, NaN) => NaN
    case (Fin(a), Fin(b)) =>
      if b != 0.0 then Fin(a / b)
      else if a == 0.0 then NaN
      else if a > 0.0 then PosInf else NegInf
    case (Fin(_), _) => Fin(0.0)
    case (_, Fin(b)) => if b >= 0.0 then x else Neg(x)
    case (_, _) => NaN
  }

  /** pandas `clip(lower=lo)`: NaN stays NaN. */
  function ClipLower(x: Ext, lo: real): (r: Ext)
    ensures IsNaN(r) <==> IsNaN(x)
    ensures r != NegInf
    ensures r.Fin? ==> r.v >= lo
    ensures x.Fin? && x.v >= lo ==> r == x
  {
    match x
    case Fin(a) => if a < lo then Fin(lo) else x
    case NegInf => Fin(lo)
    case _ => x
  }

  /** pandas `clip(lo, hi)`: NaN stays NaN, every other value lands in [lo, hi]. */
  function Clip(x: Ext, lo: real, hi: real): (r: Ext)
    requires lo <= hi
    ensures IsNaN(r) <==> IsNaN(x)
    ensures !IsNaN(x) ==> r.Fin? && lo <= r.v <= hi
    ensures x.Fin? && lo <= x.v <= hi ==> r == x
  {
    match x
    case Fin(a) => if a < lo then Fin(lo) else if a > hi then Fin(hi) else x
    case PosInf => Fin(hi)
    case NegInf => Fin(lo)
    case NaN => NaN
  }

  /** pandas `fillna(d)`. */
  function FillNaN(x: Ext, d: real): (r: Ext)
    ensures !IsNaN(r)
    ensures !IsNaN(x) ==> r == x
  {
    if IsNaN(x) then Fin(d) else x
  }
}
