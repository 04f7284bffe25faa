/**
 * JavaScript numbers as the Bessel routines use them: a finite value, one of
 * the two infinities, or NaN.  Finite values are exact reals: rounding,
 * overflow to infinity, the sign of zero and NaN payloads are not represented,
 * so the arithmetic below is IEEE 754 arithmetic without rounding.
 */
module Numbers {

  datatype Num = Fin(v: real) | PosInf | NegInf | NaN

  function Infinity(positive: bool): Num
  {
    if positive then PosInf else NegInf
  }

  /** Whether a non-NaN, nonzero number is positive. */
  predicate Positive(a: Num)
  {
    match a
    case Fin(x) => x > 0.0
    case PosInf => true
    case NegInf => false
    case NaN => false
  }

  predicate IsZeroNum(a: Num)
  {
    a == Fin(0.0)
  }

  /** Unary `-`. */
  function Neg(a: Num): Num
  {
    match a
    case Fin(x) => Fin(-x)
    case PosInf => NegInf
    case NegInf => PosInf
    case NaN => NaN
  }

  /** `a + b`; opposite infinities give NaN. */
  function Add(a: Num, b: Num): Num
  {
    if a.NaN? || b.NaN? then NaN
    else if a.Fin? && b.Fin? then Fin(a.v + b.v)
    else if a.Fin? then b
    else if b.Fin? then a
    else if a == b then a
    else NaN
  }

  /** `a - b`, which IEEE 754 defines as `a + (-b)`. */
  function Sub(a: Num, b: Num): Num
  {
    Add(a, Neg(b))
  }

  /** `a * b`; an infinity times zero gives NaN. */
  function Mul(a: Num, b: Num): Num
  {
    if a.NaN? || b.NaN? then NaN
    else if a.Fin? && b.Fin? then Fin(a.v * b.v)
    else if IsZeroNum(a) || IsZeroNum(b) then NaN
    else Infinity(Positive(a) == Positive(b))
  }

  /**
   * `a / b`.  A zero divisor is read as +0 (the sign of zero is not
   * represented), so a nonzero finite over zero is an infinity of the sign
   * of the dividend, and 0/0 is NaN.
   */
  function Div(a: Num, b: Num): Num
  {
    if a.NaN? || b.NaN? then NaN
    else if a.Fin? && b.Fin? then
      if b.v != 0.0 then Fin(a.v / b.v)
      else if a.v == 0.0 then NaN
      else Infinity(a.v > 0.0)
    else if a.Fin? then Fin(0.0)
    else if b.Fin? then Infinity(Positive(a) == (b.v >= 0.0))
    else NaN
  }

  /** `Math.abs`. */
  function Abs(a: Num): Num
  {
    match a
    case Fin(x) => Fin(if x < 0.0 then -x else x)
    case PosInf => PosInf
    case NegInf => PosInf
    case NaN => NaN
  }

  /** `a <= b`; false whenever either side is NaN. */
  predicate LessEq(a: Num, b: Num)
  {
    if a.NaN? || b.NaN? then false
    else if a.NegInf? || b.PosInf? then true
    else if a.PosInf? || b.NegInf? then false
    else a.v <= b.v
  }

  /** `a < b`; false whenever either side is NaN. */
  predicate Less(a: Num, b: Num)
  {
    LessEq(a, b) && !LessEq(b, a)
  }

  lemma NegInvolutive(a: Num)
    ensures Neg(Neg(a)) == a
  {}

  lemma AddCommutes(a: Num, b: Num)
    ensures Add(a, b) == Add(b, a)
  {}

  /** Unary minus distributes over `+`, infinities and NaN included. */
  lemma NegAdd(a: Num, b: Num)
    ensures Neg(Add(a, b)) == Add(Neg(a), Neg(b))
  {}

  /** Multiplying by the integer `sign` of `yn` is the identity or a negation. */
  lemma MulBySign(a: Num)
    ensures Mul(Fin(1.0), a) == a
    ensures Mul(Fin(-1.0), a) == Neg(a)
  {}

  /** A quotient `t * z / b` is unchanged when `t` and `b` are scaled by the same positive factor. */
  lemma ScaledQuotient(c: real, t: real, b: real, z: Num)
    requires c > 0.0
    ensures Div(Mul(Fin(c * t), z), Fin(c * b)) == Div(Mul(Fin(t), z), Fin(b))
  {
    if z.Fin? {
      var p := t * z.v;
      assert Mul(Fin(t), z) == Fin(p);
      assert Mul(Fin(c * t), z) == Fin(c * p) by {
        assert (c * t) * z.v == c * p;
      }
      FiniteQuotientScaled(c, p, b);
    } else {
      InfiniteProductScaled(c, t, z);
      InfiniteQuotientScaled(c, Mul(Fin(t), z), b);
    }
  }

  lemma FiniteQuotientScaled(c: real, p: real, b: real)
    requires c > 0.0
    ensures Div(Fin(c * p), Fin(c * b)) == Div(Fin(p), Fin(b))
  {
    SignScale(c, p);
    SignScale(c, b);
    if b != 0.0 {
      QuotientCancel(c, p, b);
    }
  }

  lemma InfiniteProductScaled(c: real, t: real, z: Num)
    requires c > 0.0 && !z.Fin?
    ensures Mul(Fin(c * t), z) == Mul(Fin(t), z)
  {
    SignScale(c, t);
  }

  lemma InfiniteQuotientScaled(c: real, a: Num, b: real)
    requires c > 0.0 && !a.Fin?
    ensures Div(a, Fin(c * b)) == Div(a, Fin(b))
  {
    SignScale(c, b);
  }

  lemma SignScale(c: real, p: real)
    requires c > 0.0
    ensures c * p > 0.0 <==> p > 0.0
    ensures c * p == 0.0 <==> p == 0.0
    ensures c * p >= 0.0 <==> p >= 0.0
  {}

  lemma QuotientCancel(c: real, p: real, b: real)
    requires c > 0.0 && b != 0.0
    ensures c * b != 0.0 && (c * p) / (c * b) == p / b
  {}
}
