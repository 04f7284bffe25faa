/**
 * What `jn` and `yn` return, stated in terms of the argument x: the
 * reflection formulas in n and in x, the special values, and the exactness of
 * the recurrences over the reals.  Each lemma is about `JnSpec` / `YnSpec`,
 * which the methods `Jn` and `Yn` are proved to return.
 */
module BesselProperties {
  import opened Numbers
  import opened Ieee
  import opened Recurrences
  import opened Dispatch
  import opened Bessel

  // ---------------------------------------------------------------------------
  // jn

  /** J(-n, x) is computed as J(n, -x) (lines 70-74). */
  lemma JnNegativeOrder(ext: Kernels, s: Signedness, n: int, x: Double)
    requires n > 0
    ensures JnSpec(ext, s, -n, x) == JnSpec(ext, s, n, Negated(x))
  {
    var y := Negated(x);
    JnNegatedOrder(s, n, x);
    JnGuardMeaning(s, n, y);
    if ClassifyJn(s, n, y).JnNaN? {
      NegatedMeaning(x);
      assert ToNum(x) == NaN && ToNum(y) == NaN;
    }
  }

  /** J(n, -x) = (-1)^n J(n, x) for n >= 2: only the sign flag of lines 80-82 changes. */
  lemma JnReflection(ext: Kernels, s: Signedness, n: int, x: Double)
    requires n >= 2
    ensures JnSpec(ext, s, n, Negated(x)) == if n % 2 == 1 then Neg(JnSpec(ext, s, n, x)) else JnSpec(ext, s, n, x)
  {
    var y := Negated(x);
    NegatedMeaning(x);
    JnGuardMeaning(s, n, x);
    JnGuardMeaning(s, n, y);
    if ClassifyJn(s, n, x).JnNaN? {
      assert ClassifyJn(s, n, y).JnNaN?;
      assert ToNum(x) == NaN && ToNum(y) == NaN;
    } else {
      JnNegatedArgument(s, n, x);
      var r := ClassifyJn(s, n, x);
      JnOrderReduction(s, n, x);
      NegInvolutive(JnMagnitude(ext, r.order, r.arg, r.regime));
    }
  }

  /**
   * For |n| >= 2, `jn` returns NaN for a NaN whose low word is 0, and 0 at
   * both zeros, both infinities and every NaN whose low word is not 0: such a
   * NaN gets past the guard of lines 63-69 and ends in the `b = 0` branch.
   */
  lemma JnSpecialValues(ext: Kernels, s: Signedness, n: int, x: Double)
    requires n >= 2 || n <= -2
    ensures IsNaN(x) && x.lo == 0 ==> JnSpec(ext, s, n, x) == NaN
    ensures IsZero(x) || IsInfinite(x) || (IsNaN(x) && x.lo != 0) ==> JnSpec(ext, s, n, x) == Fin(0.0)
  {
    JnGuardMeaning(s, n, x);
    SpecialPatterns(x);
    if !ClassifyJn(s, n, x).JnNaN? {
      JnOrderReduction(s, n, x);
      AbsoluteMeaning(x);
    }
  }

  /** In the forward regime the result is R(n) of the recurrence seeded with j0(|x|) and j1(|x|). */
  lemma JnForwardValue(ext: Kernels, m: nat, ax: Double, p: real, q: real)
    requires m >= 2 && RegimeFits(m, ax, ForwardRecurrence)
    requires ext.j0(ToNum(ax)) == Fin(p) && ext.j1(ToNum(ax)) == Fin(q)
    ensures JnMagnitude(ext, m, ax, ForwardRecurrence) == Fin(Recurrence(MagnitudeOf(ax), p, q, m))
  {
    var v := MagnitudeOf(ax);
    assert ToNum(ax) == Fin(v);
    JnForwardExact(v, p, q, 1, m);
  }

  /**
   * In the backward regime the result is R(n) whenever the continued fraction
   * gives the true ratio R(n)/R(n-1): the backward loop and the anchoring to
   * j0 or j1 lose nothing over the reals.
   */
  lemma JnBackwardValue(ext: Kernels, m: nat, ax: Double, p: real, q: real)
    requires m >= 2 && RegimeFits(m, ax, BackwardRecurrence)
    requires ext.j0(ToNum(ax)) == Fin(p) && ext.j1(ToNum(ax)) == Fin(q)
    requires Recurrence(MagnitudeOf(ax), p, q, m - 1) != 0.0
    requires BackwardRatio(MagnitudeOf(ax), m) == Recurrence(MagnitudeOf(ax), p, q, m) / Recurrence(MagnitudeOf(ax), p, q, m - 1)
    ensures JnMagnitude(ext, m, ax, BackwardRecurrence) == Fin(Recurrence(MagnitudeOf(ax), p, q, m))
  {
    var v := MagnitudeOf(ax);
    assert ToNum(ax) == Fin(v);
    Renormalisation(v, p, q, m);
  }

  // ---------------------------------------------------------------------------
  // yn

  /**
   * The special values of `yn`: NaN for a NaN with low word 0, -Infinity at
   * both zeros, NaN for a negative x that the decoder reports as `hx < 0`,
   * and, for |n| >= 2, 0 whenever `ix` is 0x7ff00000 -- +Infinity, a NaN with
   * that high word, and -Infinity too when the decoder is unsigned.
   */
  lemma YnSpecialValues(ext: Kernels, s: Signedness, n: int, x: Double)
    ensures IsNaN(x) && x.lo == 0 ==> YnSpec(ext, s, n, x) == NaN
    ensures IsZero(x) ==> YnSpec(ext, s, n, x) == NegInf
    ensures s.Signed? && SignSet(x) && !IsZero(x) && !IsNaN(x) ==> YnSpec(ext, s, n, x) == NaN
    ensures HighBits(x) == EXP_ALL_ONES && (n >= 2 || n <= -2) ==>
              YnSpec(ext, s, n, x) == if s.Signed? && SignSet(x) then NaN else Fin(0.0)
  {
    YnSpecialCases(s, n, x);
    SpecialPatterns(x);
    var r := ClassifyYn(s, n, x);
    if r.YnNaN? {
      assert ToNum(x) == NaN;
    } else if !r.YnZero? && !r.YnNegative? {
      YnOrderReduction(s, n, x);
    }
  }

  /**
   * Y(-n, x) = (-1)^n Y(n, x) (the `sign` of lines 250-256 and 298-302), at
   * every x except the two zeros, where both are -Infinity.
   */
  lemma YnReflection(ext: Kernels, s: Signedness, n: int, x: Double)
    requires n > 0
    ensures !IsZero(x) ==>
              YnSpec(ext, s, -n, x) == if n % 2 == 1 then Neg(YnSpec(ext, s, n, x)) else YnSpec(ext, s, n, x)
    ensures IsZero(x) ==> YnSpec(ext, s, -n, x) == NegInf && YnSpec(ext, s, n, x) == NegInf
  {
    YnSpecialCases(s, n, x);
    YnSpecialCases(s, -n, x);
    var hx := HighWord(s, x);
    var ix := SignCleared(hx);
    if NaNGuard(ix, LowWord(s, x)) {
      assert ToNum(x) == NaN;
    } else if !ZeroWords(ix, LowWord(s, x)) && hx >= 0 {
      assert ClassifyYn(s, n, x) == YnOrderRoute(n, ix);
      assert ClassifyYn(s, -n, x) == YnOrderRoute(-n, ix);
      YnRouteReflection(ext, s, x, n, ix);
    }
  }

  /** Past the special cases, negating the order negates the result exactly when the order is odd. */
  lemma YnRouteReflection(ext: Kernels, s: Signedness, x: Double, n: int, ix: int)
    requires n > 0
    ensures YnValue(ext, s, x, YnOrderRoute(-n, ix))
            == if n % 2 == 1 then Neg(YnValue(ext, s, x, YnOrderRoute(n, ix))) else YnValue(ext, s, x, YnOrderRoute(n, ix))
  {
    YnSign(-n);
    var r := YnOrderRoute(n, ix);
    if n == 1 {
      MulBySign(ext.y1(ToNum(x)));
    } else if r.YnGeneral? {
      NegInvolutive(YnValue(ext, s, x, r));
    }
  }

  /**
   * When y0(x) and y1(x) are finite and the forward recurrence runs, `yn`
   * returns R(|n|) of the recurrence seeded with them, negated for a
   * negative odd order: the early exit of line 291 never fires.
   */
  lemma YnForwardValue(ext: Kernels, s: Signedness, n: int, x: Double, p: real, q: real)
    requires IsFinite(x) && ClassifyYn(s, n, x).YnGeneral? && !ClassifyYn(s, n, x).asymptotic
    requires ext.y0(ToNum(x)) == Fin(p) && ext.y1(ToNum(x)) == Fin(q)
    ensures var m := if n < 0 then -n else n;
            var v := Value(x);
            v != 0.0 && YnSpec(ext, s, n, x) == Fin(if n < 0 && m % 2 == 1 then -Recurrence(v, p, q, m) else Recurrence(v, p, q, m))
  {
    YnSpecialCases(s, n, x);
    YnOrderReduction(s, n, x);
    var r := ClassifyYn(s, n, x);
    ZeroPattern(x);
    var v := Value(x);
    assert ToNum(x) == Fin(v) && v != 0.0;
    var b := Fin(Recurrence(v, p, q, r.order));
    assert YnForward(s, Fin(v), Fin(p), Fin(q), 1, r.order).1 == b by {
      YnForwardExact(s, v, p, q, 1, r.order);
    }
    assert YnSpec(ext, s, n, x) == if r.sign > 0 then b else Neg(b);
  }

  /**
   * When y1(x) is -Infinity at a finite nonzero x in the forward regime, the
   * exit test of line 291 stops the loop at once with an unsigned decoder, so
   * the result is an infinity -- for a negative x too, which the unsigned
   * decoder lets past `hx < 0`; with a signed decoder the test never fires,
   * and from order 3 on the recurrence reaches Infinity - Infinity, a NaN.
   */
  lemma YnOverflowValue(ext: Kernels, s: Signedness, n: int, x: Double, p: real)
    requires IsFinite(x) && ClassifyYn(s, n, x).YnGeneral? && !ClassifyYn(s, n, x).asymptotic
    requires ext.y0(ToNum(x)) == Fin(p) && ext.y1(ToNum(x)) == NegInf
    ensures var r := ClassifyYn(s, n, x);
            (s.Unsigned? ==> YnSpec(ext, s, n, x) == if r.sign > 0 then NegInf else PosInf)
            && (s.Signed? && r.order >= 3 ==> YnSpec(ext, s, n, x) == NaN)
  {
    YnSpecialCases(s, n, x);
    YnOrderReduction(s, n, x);
    ZeroPattern(x);
    var v := Value(x);
    assert ToNum(x) == Fin(v) && v != 0.0;
    YnForwardOverflow(s, v, p, ClassifyYn(s, n, x).order);
  }
}
