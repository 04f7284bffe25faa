/**
 * IEEE 754 binary64 values seen as two 32-bit words, as `bin_utils.highWord`
 * and `bin_utils.lowWord` expose them: the high word holds the sign (bit 31),
 * the 11-bit biased exponent (bits 20-30) and the top 20 fraction bits; the
 * low word holds the other 32 fraction bits.
 */
module Ieee {
  import opened Words
  import opened Numbers

  /** A double as its bit pattern. */
  datatype Double = Double(hi: Word, lo: Word)

  /** Threshold patterns that the routines compare the sign-cleared high word with. */
  const EXP_ALL_ONES: int := 0x7ff0_0000   // exponent 0x7ff: infinities and NaNs
  const HUGE: int := 0x52d0_0000           // exponent 0x52d: |x| >= 2^302
  const TINY: int := 0x3e10_0000           // exponent 0x3e1: |x| >= 2^-30
  const NEG_INF_HIGH: int := 0xfff0_0000   // high word of -Infinity

  /** The high word with the sign bit cleared (`ix` in the routines). */
  function HighBits(d: Double): nat
  {
    d.hi % TWO31
  }

  function Exponent(d: Double): nat
  {
    HighBits(d) / 0x10_0000
  }

  function Fraction(d: Double): nat
  {
    (HighBits(d) % 0x10_0000) * TWO32 + d.lo
  }

  predicate SignSet(d: Double)
  {
    d.hi >= TWO31
  }

  predicate IsFinite(d: Double)
  {
    Exponent(d) < 0x7ff
  }

  predicate IsInfinite(d: Double)
  {
    Exponent(d) == 0x7ff && Fraction(d) == 0
  }

  predicate IsNaN(d: Double)
  {
    Exponent(d) == 0x7ff && Fraction(d) != 0
  }

  predicate IsZero(d: Double)
  {
    HighBits(d) == 0 && d.lo == 0
  }

  /** JavaScript's unary `-` on a double flips the sign bit. */
  function Negated(d: Double): Double
  {
    Double((d.hi + TWO31) % TWO32, d.lo)
  }

  /** `Math.abs` clears the sign bit. */
  function Absolute(d: Double): Double
  {
    Double(d.hi % TWO31, d.lo)
  }

  /** x * 2^e, by doubling x e times (or halving it -e times). */
  function Scaled(x: real, e: int): real
    decreases if e < 0 then -e else e
  {
    if e == 0 then x else if e > 0 then 2.0 * Scaled(x, e - 1) else Scaled(x, e + 1) / 2.0
  }

  /** 2^e for any integer exponent. */
  function Pow2Real(e: int): real
  {
    Scaled(1.0, e)
  }

  /** |value| of a finite double: the significand scaled by its power of two. */
  function MagnitudeOf(d: Double): real
    requires IsFinite(d)
  {
    Scaled(Significand(d) as real, Scale(d))
  }

  /** The integer significand: the fraction, with the implicit leading 1 for normal doubles. */
  function Significand(d: Double): nat
  {
    if Exponent(d) == 0 then Fraction(d) else Pow2(52) + Fraction(d)
  }

  /** The power of two the significand is scaled by: subnormals share the scale of exponent field 1. */
  function Scale(d: Double): int
  {
    if Exponent(d) == 0 then -1074 else Exponent(d) - 1075
  }

  function Value(d: Double): real
    requires IsFinite(d)
  {
    if SignSet(d) then -MagnitudeOf(d) else MagnitudeOf(d)
  }

  /** The number a bit pattern denotes (NaN payloads are not kept). */
  function ToNum(d: Double): Num
  {
    if IsNaN(d) then NaN
    else if IsInfinite(d) then Infinity(!SignSet(d))
    else Fin(Value(d))
  }

  // ---------------------------------------------------------------------------
  // The word decoder

  /**
   * Whether `bin_utils.highWord` / `lowWord` return the word as a signed
   * int32 or as an unsigned number.  Their source is not part of this model,
   * so every statement about the routines is made for a given convention.
   */
  datatype Signedness = Signed | Unsigned

  function DecodeWord(s: Signedness, w: Word): int
  {
    if s.Signed? then ToInt32(w) else w
  }

  function HighWord(s: Signedness, d: Double): int
  {
    DecodeWord(s, d.hi)
  }

  function LowWord(s: Signedness, d: Double): int
  {
    DecodeWord(s, d.lo)
  }

  /** Either decoding keeps the 32-bit pattern that the bitwise operators see. */
  lemma DecodedPattern(s: Signedness, w: Word)
    ensures ToUint32(DecodeWord(s, w)) == w
    ensures DecodeWord(s, w) < 0 <==> s.Signed? && w >= TWO31
  {
    Uint32OfInt32(w);
    DivModUnique(w, TWO32, 0, w);
  }

  // ---------------------------------------------------------------------------
  // Powers of two

  /** Scaling by 2^(e+1) doubles the scaling by 2^e, for negative e too. */
  lemma ScaledStep(x: real, e: int, e': int)
    requires e' == e + 1
    ensures Scaled(x, e') == 2.0 * Scaled(x, e)
  {}

  /** Scaling keeps the sign of x. */
  lemma {:induction false} ScaledSign(x: real, e: int)
    ensures Scaled(x, e) > 0.0 <==> x > 0.0
    ensures Scaled(x, e) == 0.0 <==> x == 0.0
    decreases if e < 0 then -e else e
  {
    if e > 0 {
      ScaledSign(x, e - 1);
    } else if e < 0 {
      ScaledSign(x, e + 1);
    }
  }

  /** Scaling is strictly increasing in x. */
  lemma {:induction false} ScaledMonotone(x: real, y: real, e: int)
    ensures x <= y ==> Scaled(x, e) <= Scaled(y, e)
    ensures x < y ==> Scaled(x, e) < Scaled(y, e)
    decreases if e < 0 then -e else e
  {
    if e > 0 {
      ScaledMonotone(x, y, e - 1);
    } else if e < 0 {
      ScaledMonotone(x, y, e + 1);
    }
  }

  /** Scaling by 2^a and then by 2^b is scaling by 2^(a+b). */
  lemma {:induction false} ScaledTwice(x: real, a: int, b: int, c: int)
    requires c == a + b
    ensures Scaled(Scaled(x, a), b) == Scaled(x, c)
    decreases if b < 0 then -b else b
  {
    if b > 0 {
      ScaledTwice(x, a, b - 1, c - 1);
      ScaledStep(x, c - 1, c);
    } else if b < 0 {
      ScaledTwice(x, a, b + 1, c + 1);
      ScaledStep(x, c, c + 1);
    }
  }

  /** Scaled(x, e) is the product x * 2^e. */
  lemma {:induction false} ScaledIsProduct(x: real, e: int)
    ensures Scaled(x, e) == x * Pow2Real(e)
    decreases if e < 0 then -e else e
  {
    if e > 0 {
      ScaledIsProduct(x, e - 1);
      assert Scaled(1.0, e) == 2.0 * Scaled(1.0, e - 1);
    } else if e < 0 {
      ScaledIsProduct(x, e + 1);
      assert Scaled(1.0, e) == Scaled(1.0, e + 1) / 2.0;
    }
  }

  /**
   * The magnitude is the binary64 reading significand * 2^scale of
   * section 3.4 of IEEE 754-2008.
   */
  lemma MagnitudeIsProduct(d: Double)
    requires IsFinite(d)
    ensures MagnitudeOf(d) == Significand(d) as real * Pow2Real(Scale(d))
  {
    ScaledIsProduct(Significand(d) as real, Scale(d));
  }

  lemma Pow2RealPositive(e: int)
    ensures Pow2Real(e) > 0.0
  {
    ScaledSign(1.0, e);
  }

  lemma {:induction false} Pow2RealOfNat(k: nat)
    ensures Pow2Real(k) == Pow2(k) as real
  {
    if k > 0 {
      Pow2RealOfNat(k - 1);
    }
  }

  lemma {:induction false} Pow2RealMonotone(a: int, b: int)
    requires a <= b
    ensures Pow2Real(a) <= Pow2Real(b)
    decreases b - a
  {
    if a < b {
      Pow2RealMonotone(a, b - 1);
      ScaledStep(1.0, b - 1, b);
      Pow2RealPositive(b - 1);
    }
  }

  // ---------------------------------------------------------------------------
  // What the word tests mean

  lemma FractionBound(d: Double)
    ensures Fraction(d) < Pow2(52)
  {
    Pow2Constants();
    Pow2Add(20, 32);
    var top := HighBits(d) % 0x10_0000;
    assert top <= 0x10_0000 - 1;
    assert Fraction(d) <= (0x10_0000 - 1) * TWO32 + (TWO32 - 1);
  }

  /** The significand lies in [2^52, 2^53) for normal doubles and below 2^52 for subnormals and zeros. */
  lemma SignificandRange(d: Double)
    ensures Exponent(d) == 0 ==> Significand(d) < Pow2(52)
    ensures Exponent(d) > 0 ==> Pow2(52) <= Significand(d) < 2 * Pow2(52)
  {
    FractionBound(d);
  }

  /** Normal doubles: 2^(e-1023) <= |x| < 2^(e-1022). */
  lemma NormalBounds(d: Double)
    requires IsFinite(d) && Exponent(d) > 0
    ensures Pow2Real(Exponent(d) - 1023) <= MagnitudeOf(d) < Pow2Real(Exponent(d) - 1022)
  {
    SignificandRange(d);
    ScaledRange(52, Significand(d), Scale(d), Exponent(d) - 1023, Exponent(d) - 1022);
  }

  /** m * 2^e lies in [2^lo, 2^hi) when 2^k <= m < 2^(k+1), lo = k + e and hi = lo + 1. */
  lemma ScaledRange(k: nat, m: nat, e: int, lo: int, hi: int)
    requires Pow2(k) <= m < 2 * Pow2(k) && lo == k + e && hi == lo + 1
    ensures Pow2Real(lo) <= Scaled(m as real, e) < Pow2Real(hi)
  {
    Pow2RealOfNat(k);
    Pow2RealOfNat(k + 1);
    ScaledTwice(1.0, k, e, lo);
    ScaledTwice(1.0, k + 1, e, hi);
    ScaledMonotone(Pow2(k) as real, m as real, e);
    ScaledMonotone(m as real, Pow2(k + 1) as real, e);
  }

  /** Subnormal doubles and zeros: |x| < 2^-1022. */
  lemma SubnormalBound(d: Double)
    requires IsFinite(d) && Exponent(d) == 0
    ensures MagnitudeOf(d) < Pow2Real(-1022)
  {
    SignificandRange(d);
    SubnormalRange(52, Significand(d), Scale(d), -1022);
  }

  /** m * 2^e < 2^hi when m < 2^k and hi = k + e. */
  lemma SubnormalRange(k: nat, m: nat, e: int, hi: int)
    requires m < Pow2(k) && hi == k + e
    ensures Scaled(m as real, e) < Pow2Real(hi)
  {
    Pow2RealOfNat(k);
    ScaledTwice(1.0, k, e, hi);
    ScaledMonotone(m as real, Pow2(k) as real, e);
  }

  lemma MagnitudeNonNegative(d: Double)
    requires IsFinite(d)
    ensures MagnitudeOf(d) >= 0.0
  {
    ScaledSign(Significand(d) as real, Scale(d));
  }

  /** `ix >= 0x7ff00000` tests for an infinity or a NaN; `ix > 0x7ff00000` with `lx == 0` is a NaN. */
  lemma SpecialPatterns(d: Double)
    ensures HighBits(d) >= EXP_ALL_ONES <==> !IsFinite(d)
    ensures HighBits(d) == EXP_ALL_ONES && d.lo == 0 <==> IsInfinite(d)
    ensures HighBits(d) > EXP_ALL_ONES ==> IsNaN(d)
    ensures IsNaN(d) && d.lo == 0 ==> HighBits(d) > EXP_ALL_ONES
  {
    var top := HighBits(d) % 0x10_0000;
    DivModUnique(HighBits(d), 0x10_0000, Exponent(d), top);
  }

  /**
   * The huge threshold: `ix >= 0x52d00000` holds exactly when |x| >= 2^302
   * (the exponent field is at least 0x52d).
   */
  lemma HugeThreshold(d: Double)
    requires IsFinite(d)
    ensures HighBits(d) >= HUGE <==> MagnitudeOf(d) >= Pow2Real(302)
  {
    if Exponent(d) == 0 {
      SubnormalBound(d);
      Pow2RealMonotone(-1022, 302);
      Pow2RealPositive(-1022);
      assert Pow2Real(-1022) < Pow2Real(302) by {
        Pow2RealMonotone(-1021, 302);
        ScaledStep(1.0, -1022, -1021);
      }
    } else {
      NormalBounds(d);
      if HighBits(d) >= HUGE {
        Pow2RealMonotone(302, Exponent(d) - 1023);
      } else {
        Pow2RealMonotone(Exponent(d) - 1022, 302);
      }
    }
  }

  /**
   * The tiny threshold: `ix < 0x3e100000` holds exactly when |x| < 2^-30
   * (the exponent field is at most 0x3e0).
   */
  lemma TinyThreshold(d: Double)
    requires IsFinite(d)
    ensures HighBits(d) < TINY <==> MagnitudeOf(d) < Pow2Real(-30)
  {
    if Exponent(d) == 0 {
      SubnormalBound(d);
      Pow2RealMonotone(-1022, -30);
    } else {
      NormalBounds(d);
      if HighBits(d) < TINY {
        Pow2RealMonotone(Exponent(d) - 1022, -30);
      } else {
        Pow2RealMonotone(-30, Exponent(d) - 1023);
      }
    }
  }

  /** `(ix | lx) == 0` exactly for the two zeros. */
  lemma ZeroPattern(d: Double)
    requires IsFinite(d)
    ensures IsZero(d) <==> MagnitudeOf(d) == 0.0
  {
    var top := HighBits(d) % 0x10_0000;
    DivModUnique(HighBits(d), 0x10_0000, Exponent(d), top);
    ScaledSign(Significand(d) as real, Scale(d));
  }

  /** Negation flips the sign bit only: same magnitude word, negated number. */
  lemma NegatedMeaning(d: Double)
    ensures HighBits(Negated(d)) == HighBits(d) && Negated(d).lo == d.lo
    ensures SignSet(Negated(d)) <==> !SignSet(d)
    ensures ToNum(Negated(d)) == Neg(ToNum(d))
    ensures Negated(Negated(d)) == d
  {
    NegatedWords(d);
    NegatedWords(Negated(d));
    SameMagnitude(d, Negated(d));
  }

  lemma NegatedWords(d: Double)
    ensures HighBits(Negated(d)) == HighBits(d) && Negated(d).lo == d.lo
    ensures SignSet(Negated(d)) <==> !SignSet(d)
    ensures Negated(Negated(d)).hi == d.hi
  {
    var h := Negated(d).hi;
    if d.hi >= TWO31 {
      DivModUnique(d.hi + TWO31, TWO32, 1, d.hi - TWO31);
      DivModUnique(d.hi, TWO31, 1, d.hi - TWO31);
      DivModUnique(h + TWO31, TWO32, 0, d.hi);
    } else {
      DivModUnique(d.hi + TWO31, TWO32, 0, d.hi + TWO31);
      DivModUnique(d.hi + TWO31, TWO31, 1, d.hi);
      DivModUnique(h + TWO31, TWO32, 1, d.hi);
    }
  }

  /** Two patterns that differ at most in the sign bit denote numbers of equal magnitude. */
  lemma SameMagnitude(d: Double, e: Double)
    requires HighBits(d) == HighBits(e) && d.lo == e.lo
    ensures IsFinite(d) == IsFinite(e) && IsNaN(d) == IsNaN(e) && IsInfinite(d) == IsInfinite(e)
    ensures IsFinite(d) ==> MagnitudeOf(d) == MagnitudeOf(e)
    ensures SignSet(d) != SignSet(e) ==> ToNum(e) == Neg(ToNum(d))
    ensures !SignSet(e) ==> ToNum(e) == Abs(ToNum(d))
  {
    assert Exponent(d) == Exponent(e) && Fraction(d) == Fraction(e);
    if IsFinite(d) {
      assert Significand(d) == Significand(e) && Scale(d) == Scale(e);
      MagnitudeNonNegative(d);
    }
  }

  /** `Math.abs` keeps the magnitude and clears the sign. */
  lemma AbsoluteMeaning(d: Double)
    ensures HighBits(Absolute(d)) == HighBits(d) && Absolute(d).lo == d.lo
    ensures !SignSet(Absolute(d))
    ensures ToNum(Absolute(d)) == Abs(ToNum(d))
    ensures Absolute(Negated(d)) == Absolute(d)
  {
    NegatedWords(d);
    DivModUnique(HighBits(d), TWO31, 0, HighBits(d));
    SameMagnitude(d, Absolute(d));
  }

  // ---------------------------------------------------------------------------
  // The exit test of the `yn` loop

  /**
   * Whether `bin_utils.highWord(b) == 0xfff00000` holds for a number `b` the
   * recurrence computed: the pattern of -Infinity is `Double(NEG_INF_HIGH, 0)`,
   * and no other non-NaN double has that high word (NegInfHighWord).
   */
  predicate HighWordIsNegInf(s: Signedness, b: Num)
  {
    b.NegInf? && HighWord(s, Double(NEG_INF_HIGH, 0)) == NEG_INF_HIGH
  }

  /** The test can only succeed with an unsigned decoder: a signed one never yields 0xfff00000. */
  lemma HighWordIsNegInfMeaning(s: Signedness, b: Num)
    ensures HighWordIsNegInf(s, b) <==> s.Unsigned? && b.NegInf?
  {
    assert ToInt32(NEG_INF_HIGH) < TWO31;
  }

  /** On the words of any non-NaN double, the test agrees with HighWordIsNegInf of its value. */
  lemma NegInfHighWord(s: Signedness, d: Double)
    requires !IsNaN(d)
    ensures HighWord(s, d) == NEG_INF_HIGH <==> HighWordIsNegInf(s, ToNum(d))
  {
    HighWordIsNegInfMeaning(s, ToNum(d));
    SpecialPatterns(d);
    if s.Unsigned? && d.hi == NEG_INF_HIGH {
      DivModUnique(d.hi, TWO31, 1, EXP_ALL_ONES);
    }
    if s.Unsigned? && ToNum(d) == NegInf {
      DivModUnique(d.hi, TWO31, 1, HighBits(d));
    }
    if s.Signed? {
      assert HighWord(s, d) < TWO31;
    }
  }
}
