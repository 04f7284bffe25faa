/**
 * The straight-line part of `jn` and `yn`: the tests on the words of the
 * argument, the reduction of a negative order, the sign bookkeeping and the
 * `n&3` case tables.  Each routine first computes
 *   lx = lowWord(x), hx = highWord(x), ix = 0x7fffffff & hx
 * and then picks a route; the routes say which computation produces the
 * result, and the lemmas say what the word tests mean for the number x.
 */
module Dispatch {
  import opened Words
  import opened Numbers
  import opened Ieee

  // ---------------------------------------------------------------------------
  // Word tests

  /** `ix = 0x7fffffff & hx`. */
  function SignCleared(hx: int): (ix: int)
    ensures 0 <= ix < TWO31 && ix == ToUint32(hx) % TWO31
  {
    ClearSignBit(hx);
    And(0x7fff_ffff, hx)
  }

  /** The NaN guard `(ix | ((lx | -lx) >> 31)) > 0x7ff00000`. */
  predicate NaNGuard(ix: int, lx: int)
  {
    Or(ix, Sar(Or(lx, -lx), 31)) > EXP_ALL_ONES
  }

  /** `(ix | lx) == 0`. */
  predicate ZeroWords(ix: int, lx: int)
  {
    Or(ix, lx) == 0
  }

  /** `ix` is the high word without its sign bit, whichever way the word is decoded. */
  lemma SignClearedMeaning(s: Signedness, d: Double)
    ensures SignCleared(HighWord(s, d)) == HighBits(d)
  {
    ClearSignBit(HighWord(s, d));
    DecodedPattern(s, d.hi);
  }

  /**
   * In JavaScript `(lx | -lx) >> 31` is 0 when lx is 0 and -1 otherwise, so
   * the guard holds exactly when the low word is 0 and ix > 0x7ff00000: a NaN
   * whose low word is nonzero gets past it.
   */
  lemma NaNGuardMeaning(s: Signedness, d: Double)
    ensures NaNGuard(HighBits(d), LowWord(s, d)) <==> d.lo == 0 && HighBits(d) > EXP_ALL_ONES
  {
    var ix, lx := HighBits(d), LowWord(s, d);
    assert Sar(Or(lx, -lx), 31) == if d.lo == 0 then 0 else -1 by {
      DecodedPattern(s, d.lo);
      NegationSmearShift(lx);
    }
    if d.lo == 0 {
      assert Or(ix, 0) == ix by {
        OrZero(ix);
        SmallPattern(ix);
      }
    } else {
      OrMinusOne(ix);
    }
  }

  /** A high word without its sign bit is its own int32 reading. */
  lemma SmallPattern(ix: nat)
    requires ix < TWO31
    ensures ToInt32(ix) == ix
  {
    DivModUnique(ix, TWO32, 0, ix);
  }

  /** `(ix | lx) == 0` holds exactly for the two zeros. */
  lemma ZeroWordsMeaning(s: Signedness, d: Double)
    ensures ZeroWords(HighBits(d), LowWord(s, d)) <==> IsZero(d)
  {
    DecodedPattern(s, d.lo);
    OrIsZero(HighBits(d), LowWord(s, d));
    DivModUnique(HighBits(d), TWO32, 0, HighBits(d));
  }

  /** `hx >> 31` is -1 exactly when the sign bit is set. */
  lemma SignWordMeaning(s: Signedness, d: Double)
    ensures Sar(HighWord(s, d), 31) == if SignSet(d) then -1 else 0
  {
    SignShift(HighWord(s, d));
    DecodedPattern(s, d.hi);
  }

  // ---------------------------------------------------------------------------
  // The case tables at lines 101-106 and 278-283

  /** `jn`'s table for `n&3`, in terms of c = cos(x) and s = sin(x). */
  function JnTable(k: int, c: Num, s: Num): Num
  {
    if k == 0 then Add(c, s)
    else if k == 1 then Add(Neg(c), s)
    else if k == 2 then Sub(Neg(c), s)
    else Sub(c, s)
  }

  /** `yn`'s table for `n&3`, in terms of s = sin(x) and c = cos(x). */
  function YnTable(k: int, s: Num, c: Num): Num
  {
    if k == 0 then Sub(s, c)
    else if k == 1 then Sub(Neg(s), c)
    else if k == 2 then Add(Neg(s), c)
    else Add(s, c)
  }

  /** Two quarter turns negate an entry: T(k+2) = -T(k). */
  lemma TablesHalfTurn(k: int, c: Num, s: Num)
    requires 0 <= k < 2
    ensures JnTable(k + 2, c, s) == Neg(JnTable(k, c, s))
    ensures YnTable(k + 2, s, c) == Neg(YnTable(k, s, c))
  {
    NegAdd(c, s);
    NegAdd(Neg(c), s);
    NegAdd(s, Neg(c));
    NegAdd(Neg(s), Neg(c));
    NegInvolutive(c);
    NegInvolutive(s);
  }

  /** `yn`'s case k is `jn`'s case k+1 (mod 4): sin(xn) = cos(x(n+1)) with xn = x-(2n+1)pi/4. */
  lemma TablesShifted(k: int, c: Num, s: Num)
    requires 0 <= k < 4
    ensures YnTable(k, s, c) == JnTable((k + 1) % 4, c, s)
  {
    AddCommutes(s, Neg(c));
    AddCommutes(Neg(s), Neg(c));
    AddCommutes(Neg(s), c);
    AddCommutes(s, c);
  }

  // ---------------------------------------------------------------------------
  // Routes of `jn`

  datatype Regime =
    | Vanishing            // x is 0 or infinite (or a NaN that passed the guard): b = 0
    | Asymptotic           // n <= |x| and |x| >= 2^302: the cos/sin formula
    | ForwardRecurrence    // n <= |x| < 2^302: forward recurrence
    | Tiny                 // |x| < n and |x| < 2^-30: leading Taylor term
    | BackwardRecurrence   // 2^-30 <= |x| < n: continued fraction and backward recurrence

  datatype JnRoute =
    | JnNaN                          // return x+x
    | JnOrderZero(arg: Double)       // return j0(x), x possibly negated
    | JnOrderOne(arg: Double)        // return j1(x), x possibly negated
    | JnGeneral(order: nat, negate: bool, arg: Double, regime: Regime)   // arg = |x|

  /** The regime test at lines 83-118, on `ix`, `lx` and the number |x|. */
  function JnRegime(n: nat, ax: Double, ix: int, lx: int): Regime
  {
    if ZeroWords(ix, lx) || ix >= EXP_ALL_ONES then Vanishing
    else if LessEq(Fin(n as real), ToNum(ax)) then
      if ix >= HUGE then Asymptotic else ForwardRecurrence
    else if ix < TINY then Tiny
    else BackwardRecurrence
  }

  /** Lines 63-82 and the regime test. */
  function ClassifyJn(s: Signedness, n: int, x: Double): JnRoute
  {
    var lx := LowWord(s, x);
    var hx := HighWord(s, x);
    var ix := SignCleared(hx);
    if NaNGuard(ix, lx) then JnNaN
    else
      var m := if n < 0 then -n else n;
      var y := if n < 0 then Negated(x) else x;
      var hy := if n < 0 then Xor(hx, 0x8000_0000) else hx;
      if m == 0 then JnOrderZero(y)
      else if m == 1 then JnOrderOne(y)
      else
        var sgn := And(And(m, 1), Sar(hy, 31));
        var ax := Absolute(y);
        JnGeneral(m, sgn == 1, ax, JnRegime(m, ax, ix, lx))
  }

  /** What a regime promises about the number it was chosen for. */
  predicate RegimeFits(n: nat, ax: Double, regime: Regime)
  {
    !SignSet(ax) &&
    (regime.Vanishing? <==> IsZero(ax) || !IsFinite(ax)) &&
    (!regime.Vanishing? ==> IsFinite(ax) && MagnitudeOf(ax) > 0.0) &&
    (regime.Asymptotic? <==> !IsZero(ax) && IsFinite(ax) && n as real <= MagnitudeOf(ax) && MagnitudeOf(ax) >= Pow2Real(302)) &&
    (regime.ForwardRecurrence? <==> !IsZero(ax) && IsFinite(ax) && n as real <= MagnitudeOf(ax) && MagnitudeOf(ax) < Pow2Real(302)) &&
    (regime.Tiny? <==> !IsZero(ax) && IsFinite(ax) && MagnitudeOf(ax) < n as real && MagnitudeOf(ax) < Pow2Real(-30)) &&
    (regime.BackwardRecurrence? <==> !IsZero(ax) && IsFinite(ax) && MagnitudeOf(ax) < n as real && MagnitudeOf(ax) >= Pow2Real(-30))
  }

  /** The regime is a faithful reading of the words: which one runs depends on |x| alone. */
  lemma JnRegimeMeaning(s: Signedness, n: nat, x: Double)
    ensures RegimeFits(n, Absolute(x), JnRegime(n, Absolute(x), HighBits(x), LowWord(s, x)))
  {
    var ax := Absolute(x);
    AbsoluteMeaning(x);
    ZeroWordsMeaning(s, x);
    SpecialPatterns(ax);
    assert IsZero(ax) <==> IsZero(x);
    if IsFinite(ax) && !IsZero(ax) {
      FiniteRegimeFits(n, ax, JnRegime(n, ax, HighBits(x), LowWord(s, x)));
    }
  }

  /** For a finite nonzero |x|, the thresholds on `ix` are the thresholds on |x|. */
  lemma FiniteRegimeFits(n: nat, ax: Double, regime: Regime)
    requires IsFinite(ax) && !IsZero(ax) && !SignSet(ax)
    requires regime == if LessEq(Fin(n as real), ToNum(ax)) then (if HighBits(ax) >= HUGE then Asymptotic else ForwardRecurrence)
      else if HighBits(ax) < TINY then Tiny else BackwardRecurrence
    ensures RegimeFits(n, ax, regime)
  {
    MagnitudeNonNegative(ax);
    ZeroPattern(ax);
    TinyThreshold(ax);
    HugeThreshold(ax);
    assert ToNum(ax) == Fin(MagnitudeOf(ax));
  }

  /** The NaN guard of `jn` fires exactly for NaNs whose low word is 0. */
  lemma JnGuardMeaning(s: Signedness, n: int, x: Double)
    ensures ClassifyJn(s, n, x).JnNaN? <==> x.lo == 0 && HighBits(x) > EXP_ALL_ONES
    ensures ClassifyJn(s, n, x).JnNaN? ==> IsNaN(x)
  {
    SignClearedMeaning(s, x);
    NaNGuardMeaning(s, x);
    SpecialPatterns(x);
  }

  /**
   * Order reduction (lines 70-82): J(-n, x) is computed as J(n, -x); orders 0
   * and 1 go to the kernels; otherwise the result is negated exactly when the
   * order is odd and the (possibly flipped) sign bit is set.
   */
  lemma JnOrderReduction(s: Signedness, n: int, x: Double)
    requires !ClassifyJn(s, n, x).JnNaN?
    ensures n == 0 ==> ClassifyJn(s, n, x) == JnOrderZero(x)
    ensures n == 1 ==> ClassifyJn(s, n, x) == JnOrderOne(x)
    ensures n == -1 ==> ClassifyJn(s, n, x) == JnOrderOne(Negated(x))
    ensures n >= 2 || n <= -2 ==>
      var r := ClassifyJn(s, n, x);
      var m := if n < 0 then -n else n;
      r.JnGeneral? && r.order == m && r.arg == Absolute(x)
      && (r.negate <==> m % 2 == 1 && (SignSet(x) != (n < 0)))
      && RegimeFits(m, r.arg, r.regime)
  {
    var hx := HighWord(s, x);
    SignClearedMeaning(s, x);
    if n >= 2 || n <= -2 {
      var m := if n < 0 then -n else n;
      var hy := if n < 0 then Xor(hx, 0x8000_0000) else hx;
      SignWordMeaning(s, x);
      if n < 0 {
        XorSignBit(hx);
        NegatedMeaning(x);
        AbsoluteMeaning(x);
        AbsoluteMeaning(Negated(x));
      }
      assert Sar(hy, 31) == if SignSet(x) != (n < 0) then -1 else 0;
      LowOrderBits(m);
      AndOfBit(m % 2);
      JnRegimeMeaning(s, m, if n < 0 then Negated(x) else x);
      if n < 0 {
        assert Absolute(Negated(x)) == Absolute(x);
        assert HighBits(Negated(x)) == HighBits(x);
        assert LowWord(s, Negated(x)) == LowWord(s, x);
      }
    }
  }

  /** Reducing a negative order: the route of (-n, x) is the route of (n, -x). */
  lemma JnNegatedOrder(s: Signedness, n: int, x: Double)
    requires n > 0
    ensures ClassifyJn(s, -n, x) == ClassifyJn(s, n, Negated(x))
  {
    var hx := HighWord(s, x);
    var y := Negated(x);
    NegatedMeaning(x);
    SignClearedMeaning(s, x);
    SignClearedMeaning(s, y);
    if n >= 2 {
      SignWordMeaning(s, x);
      SignWordMeaning(s, y);
      XorSignBit(hx);
      assert Sar(Xor(hx, 0x8000_0000), 31) == Sar(HighWord(s, y), 31);
    }
  }

  /** For n >= 2, negating x changes only the sign flag, and only for odd n. */
  lemma JnNegatedArgument(s: Signedness, n: int, x: Double)
    requires n >= 2 && !ClassifyJn(s, n, x).JnNaN?
    ensures var r, r' := ClassifyJn(s, n, x), ClassifyJn(s, n, Negated(x));
            r.JnGeneral? && r'.JnGeneral? && r'.order == r.order && r'.arg == r.arg && r'.regime == r.regime
            && (r'.negate <==> (r.negate != (n % 2 == 1)))
  {
    NegatedMeaning(x);
    SignClearedMeaning(s, x);
    SignClearedMeaning(s, Negated(x));
    JnOrderReduction(s, n, x);
    JnOrderReduction(s, n, Negated(x));
    AbsoluteMeaning(x);
    assert Absolute(Negated(x)) == Absolute(x);
    assert LowWord(s, Negated(x)) == LowWord(s, x);
  }

  // ---------------------------------------------------------------------------
  // Routes of `yn`

  datatype YnRoute =
    | YnNaN                                         // return x+x
    | YnZero                                        // return -Infinity
    | YnNegative                                    // return NaN
    | YnOrderZero                                   // return y0(x)
    | YnOrderOne(sign: int)                         // return sign*y1(x)
    | YnInfinite                                    // return 0
    | YnGeneral(order: nat, sign: int, asymptotic: bool)

  /** Lines 237-264, in their order. */
  function ClassifyYn(s: Signedness, n: int, x: Double): YnRoute
  {
    var lx := LowWord(s, x);
    var hx := HighWord(s, x);
    var ix := SignCleared(hx);
    if NaNGuard(ix, lx) then YnNaN
    else if ZeroWords(ix, lx) then YnZero
    else if hx < 0 then YnNegative
    else YnOrderRoute(n, ix)
  }

  /** Lines 250-264: past the special cases, the route depends on n and `ix` alone. */
  function YnOrderRoute(n: int, ix: int): YnRoute
  {
    var m := if n < 0 then -n else n;
    var sign := if n < 0 then 1 - Shl(And(m, 1), 1) else 1;
    if m == 0 then YnOrderZero
    else if m == 1 then YnOrderOne(sign)
    else if ix == EXP_ALL_ONES then YnInfinite
    else YnGeneral(m, sign, ix >= HUGE)
  }

  /**
   * The special cases of `yn`, in the order the source tests them: a NaN with
   * low word 0, then both zeros, then a set sign bit -- which only a signed
   * decoder can report as `hx < 0`.
   */
  lemma YnSpecialCases(s: Signedness, n: int, x: Double)
    ensures ClassifyYn(s, n, x).YnNaN? <==> x.lo == 0 && HighBits(x) > EXP_ALL_ONES
    ensures ClassifyYn(s, n, x).YnNaN? ==> IsNaN(x)
    ensures ClassifyYn(s, n, x).YnZero? <==> IsZero(x)
    ensures ClassifyYn(s, n, x).YnNegative? <==> s.Signed? && SignSet(x) && !IsZero(x) && !(x.lo == 0 && HighBits(x) > EXP_ALL_ONES)
  {
    SignClearedMeaning(s, x);
    NaNGuardMeaning(s, x);
    ZeroWordsMeaning(s, x);
    SpecialPatterns(x);
    DecodedPattern(s, x.hi);
  }

  /**
   * After the special cases: a negative order sets `sign = 1 - ((n&1)<<1)`,
   * orders 0 and 1 go to the kernels, and ix == 0x7ff00000 (+Infinity, or a
   * NaN whose low word is nonzero) gives 0 for orders of magnitude 2 or more.
   */
  lemma YnOrderReduction(s: Signedness, n: int, x: Double)
    requires var r := ClassifyYn(s, n, x); !r.YnNaN? && !r.YnZero? && !r.YnNegative?
    ensures var r := ClassifyYn(s, n, x);
            var m := if n < 0 then -n else n;
            var sign := if n < 0 && m % 2 == 1 then -1 else 1;
            (m == 0 <==> r.YnOrderZero?)
            && (m == 1 <==> r == YnOrderOne(sign))
            && (m >= 2 && HighBits(x) == EXP_ALL_ONES <==> r.YnInfinite?)
            && (r.YnGeneral? ==> r.order == m && r.sign == sign && m >= 2
                                 && (r.asymptotic <==> HighBits(x) >= HUGE) && HighBits(x) != EXP_ALL_ONES)
  {
    SignClearedMeaning(s, x);
    YnSign(n);
  }

  /** `sign = 1 - ((n&1)<<1)` after `n = -n` is -1 for odd orders and 1 for even ones. */
  lemma YnSign(n: int)
    ensures var m := if n < 0 then -n else n;
            (if n < 0 then 1 - Shl(And(m, 1), 1) else 1) == (if n < 0 && m % 2 == 1 then -1 else 1)
  {
    var m := if n < 0 then -n else n;
    LowOrderBits(m);
    ShiftBitLeft(m % 2);
  }
}
