/**
 * `jn(n, x)` and `yn(n, x)`: Bessel functions of the first and second kind
 * of integer order n.
 *
 * `JnSpec` and `YnSpec` say what each routine returns, route by route (the
 * routes are chosen in `Dispatch`); the methods `Jn` and `Yn` follow the
 * source statement by statement and are proved to return exactly that.  What
 * the result is in terms of the number x (the reflection formulas, the
 * special values, the value of the recurrence each computation runs) is
 * stated in `BesselProperties`.
 */
module Bessel {
  import opened Words
  import opened Numbers
  import opened Ieee
  import opened Recurrences
  import opened Dispatch
  import opened Loops

  /**
   * The functions the routines call and do not define: the order-0 and
   * order-1 Bessel functions and the `Math` functions.
   */
  datatype Kernels = Kernels(
    j0: Num -> Num, j1: Num -> Num, y0: Num -> Num, y1: Num -> Num,
    sin: Num -> Num, cos: Num -> Num, sqrt: Num -> Num, log: Num -> Num)

  /** 1/sqrt(pi), the constant `invsqrtpi`. */
  const INVSQRTPI: real := 0.564189583547756279280

  /** The `double` bound on n*log(2n/x) below which the backward loop cannot overflow. */
  const OVERFLOW_BOUND: real := 709.782712893383973096

  /** Past order 33 the Taylor term (x/2)^n/n! of a tiny x underflows, and `jn` returns 0. */
  const TAYLOR_LIMIT: nat := 33

  // ---------------------------------------------------------------------------
  // What `jn` returns

  /** The starting ratio of the backward recurrence: the continued fraction, cut off at the depth search's k. */
  function BackwardRatio(v: real, m: nat): real
    requires 0.0 < v < m as real
  {
    QuotientAbove((m + m) as real, v);
    var k := Depth((m + m) as real / v, 2.0 / v, 1);
    ContinuedFraction(v, 2 * m, 2 * (m + k))
  }

  /** |J(m, x)| before the sign, for order m >= 2 and |x| given by its bit pattern `ax`. */
  function JnMagnitude(ext: Kernels, m: nat, ax: Double, regime: Regime): Num
    requires m >= 2 && RegimeFits(m, ax, regime)
  {
    var X := ToNum(ax);
    match regime
    case Vanishing => Fin(0.0)
    case Asymptotic => Div(Mul(Fin(INVSQRTPI), JnTable(m % 4, ext.cos(X), ext.sin(X))), ext.sqrt(X))
    case ForwardRecurrence => JnForward(X, ext.j0(X), ext.j1(X), 1, m).1
    case Tiny =>
      if m > TAYLOR_LIMIT then Fin(0.0)
      else Fin(Power(MagnitudeOf(ax) * 0.5, m) / Factorial(m) as real)
    case BackwardRecurrence => BackwardValue(MagnitudeOf(ax), m, ext.j0(X), ext.j1(X))
  }

  /**
   * The backward method at v = |x|: the recurrence run down from the ratio t
   * and 1, then anchored to z = j0(x) or w = j1(x).
   */
  function BackwardValue(v: real, m: nat, z: Num, w: Num): Num
    requires 0.0 < v < m as real
  {
    var t := BackwardRatio(v, m);
    var ab := Backward(v, t, 1.0, m - 1);
    Anchor(t, ab.0, ab.1, z, w)
  }

  /** The value `jn(n, x)` returns. */
  function JnSpec(ext: Kernels, s: Signedness, n: int, x: Double): Num
  {
    match ClassifyJn(s, n, x)
    case JnNaN => Add(ToNum(x), ToNum(x))
    case JnOrderZero(y) => ext.j0(ToNum(y))
    case JnOrderOne(y) => ext.j1(ToNum(y))
    case JnGeneral(m, negate, ax, regime) =>
      JnOrderReduction(s, n, x);
      var b := JnMagnitude(ext, m, ax, regime);
      if negate then Neg(b) else b
  }

  // ---------------------------------------------------------------------------
  // What `yn` returns

  /** The value `yn(n, x)` returns. */
  function YnSpec(ext: Kernels, s: Signedness, n: int, x: Double): Num
  {
    YnValue(ext, s, x, ClassifyYn(s, n, x))
  }

  /** The value each route of `yn` returns. */
  function YnValue(ext: Kernels, s: Signedness, x: Double, route: YnRoute): Num
  {
    var X := ToNum(x);
    match route
    case YnNaN => Add(X, X)
    case YnZero => NegInf
    case YnNegative => NaN
    case YnOrderZero => ext.y0(X)
    case YnOrderOne(sign) => Mul(Fin(sign as real), ext.y1(X))
    case YnInfinite => Fin(0.0)
    case YnGeneral(m, sign, asymptotic) =>
      var b :=
        if asymptotic then Div(Mul(Fin(INVSQRTPI), YnTable(m % 4, ext.sin(X), ext.cos(X))), ext.sqrt(X))
        else YnForward(s, X, ext.y0(X), ext.y1(X), 1, m).1;
      if sign > 0 then b else Neg(b)
  }

  // ---------------------------------------------------------------------------
  // The routines

  /** `jn(n, x)`, lines 55-230. */
  method Jn(ext: Kernels, s: Signedness, n0: int, x0: Double) returns (r: Num)
    ensures r == JnSpec(ext, s, n0, x0)
  {
    ghost var route := ClassifyJn(s, n0, x0);
    var n, x := n0, x0;
    var lx := LowWord(s, x);
    var hx := HighWord(s, x);
    var ix := SignCleared(hx);
    if NaNGuard(ix, lx) {
      assert route == JnNaN;
      return Add(ToNum(x), ToNum(x));
    }
    JnOrderReduction(s, n0, x0);
    if n < 0 {
      n := -n;
      x := Negated(x);
      hx := Xor(hx, 0x8000_0000);
    }
    if n == 0 {
      assert route == JnOrderZero(x);
      return ext.j0(ToNum(x));
    }
    if n == 1 {
      assert route == JnOrderOne(x);
      return ext.j1(ToNum(x));
    }
    var sgn := And(And(n, 1), Sar(hx, 31));
    x := Absolute(x);
    ghost var regime := JnRegime(n, x, ix, lx);
    assert route == JnGeneral(n, sgn == 1, x, regime);
    assert RegimeFits(n, x, regime);
    var b: Num;
    if ZeroWords(ix, lx) || ix >= EXP_ALL_ONES {
      b := Fin(0.0);
    } else if LessEq(Fin(n as real), ToNum(x)) {
      b := JnLarge(ext, n, x, ix, regime);
    } else {
      b := JnSmall(ext, n, x, ix, regime);
    }
    assert b == JnMagnitude(ext, n, x, regime);
    if sgn == 1 {
      r := Neg(b);
    } else {
      r := b;
    }
  }

  /** Lines 86-116: n <= x, by the asymptotic formula or the forward recurrence. */
  method JnLarge(ext: Kernels, n: nat, x: Double, ix: int, ghost regime: Regime) returns (b: Num)
    requires n >= 2 && RegimeFits(n, x, regime)
    requires regime == if ix >= HUGE then Asymptotic else ForwardRecurrence
    ensures b == JnMagnitude(ext, n, x, regime)
  {
    var X := ToNum(x);
    if ix >= HUGE {
      LowOrderBits(n);
      var temp := JnTable(And(n, 3), ext.cos(X), ext.sin(X));
      b := Div(Mul(Fin(INVSQRTPI), temp), ext.sqrt(X));
    } else {
      var a := ext.j0(X);
      b := ext.j1(X);
      a, b := JnForwardLoop(X, a, b, n);
    }
  }

  /** Lines 117-225: n > x, by the Taylor term or the backward recurrence. */
  method JnSmall(ext: Kernels, n: nat, x: Double, ix: int, ghost regime: Regime) returns (b: Num)
    requires n >= 2 && RegimeFits(n, x, regime)
    requires regime == if ix < TINY then Tiny else BackwardRecurrence
    ensures b == JnMagnitude(ext, n, x, regime)
  {
    if ix < TINY {
      b := JnTaylor(n, x);
    } else {
      var X, v := ToNum(x), MagnitudeOf(x);
      assert 0.0 < v < n as real;
      b := JnBackward(ext, n, v, ext.j0(X), ext.j1(X));
    }
  }

  /** Lines 117-132: the leading Taylor term, or 0 past order 33. */
  method JnTaylor(n: nat, x: Double) returns (b: Num)
    requires n >= 2 && IsFinite(x)
    ensures b == if n > TAYLOR_LIMIT then Fin(0.0) else Fin(Power(MagnitudeOf(x) * 0.5, n) / Factorial(n) as real)
  {
    if n > TAYLOR_LIMIT {
      b := Fin(0.0);
    } else {
      var temp := MagnitudeOf(x) * 0.5;
      var a, p := TaylorLoop(n, temp);
      b := Fin(p / a);
    }
  }

  /** Lines 133-222: the backward recurrence, anchored to j0(x) or j1(x). */
  method JnBackward(ext: Kernels, n: nat, v: real, z: Num, w: Num) returns (b: Num)
    requires 0.0 < v < n as real && n >= 2
    ensures b == BackwardValue(v, n, z, w)
  {
    var t0 := StartingRatio(n, v);
    var t, a, c, scale := BackwardRun(ext, n, v, t0);
    b := Anchor(t, a, c, z, w);
    ScaledBackwardValue(v, n, z, w, scale, t0, t, a, c);
  }

  /** A run scaled by a positive factor anchors to the same value. */
  lemma ScaledBackwardValue(v: real, n: nat, z: Num, w: Num, scale: real, t0: real, t: real, a: real, b: real)
    requires 0.0 < v < n as real && scale > 0.0 && t0 == BackwardRatio(v, n) && t == scale * t0
    requires a == scale * Backward(v, t0, 1.0, n - 1).0 && b == scale * Backward(v, t0, 1.0, n - 1).1
    ensures Anchor(t, a, b, z, w) == BackwardValue(v, n, z, w)
  {
    var ab := Backward(v, t0, 1.0, n - 1);
    AnchorScaleInvariant(scale, t0, ab.0, ab.1, t, a, b, z, w);
  }

  /**
   * Lines 162-179: the depth search for k with w = 2n/x and h = 2/x, then
   * the continued fraction down to depth k.
   */
  method StartingRatio(n: nat, v: real) returns (t: real)
    requires 0.0 < v < n as real
    ensures t == BackwardRatio(v, n)
  {
    QuotientAbove((n + n) as real, v);
    var w := (n + n) as real / v;
    var h := 2.0 / v;
    var k, z, q0, q1 := DepthSearch(w, h);
    ghost var steps;
    t, steps := ContinuedFractionLoop(n, k, v);
    SearchedRatio(v, n, w, h, k, t);
  }

  /** The depth search and the continued fraction compute `BackwardRatio`. */
  lemma SearchedRatio(v: real, n: nat, w: real, h: real, k: nat, t: real)
    requires 0.0 < v < n as real && w == (n + n) as real / v && h == 2.0 / v && w > 2.0 && h > 0.0
    requires 1 <= k && Q(w, h, k) >= 1.0e9 && forall j :: 1 <= j < k ==> Q(w, h, j) < 1.0e9
    requires t == ContinuedFraction(v, 2 * n, 2 * (n + k))
    ensures t == BackwardRatio(v, n)
  {
    DepthOfLeast(w, h, 1, k);
  }

  /**
   * Lines 180-214: the backward recurrence from (t0, 1), rescaled or not
   * according to the overflow test on n*log(2n/x).  Either way the result is
   * the unrescaled run times a positive factor c (1 when the loop does not
   * rescale), so it anchors to the same value whatever j0 and j1 are.
   */
  method BackwardRun(ext: Kernels, n: nat, v: real, t0: real) returns (t: real, a: real, b: real, ghost c: real)
    requires 0.0 < v && n >= 2
    ensures c > 0.0 && t == c * t0
    ensures a == c * Backward(v, t0, 1.0, n - 1).0 && b == c * Backward(v, t0, 1.0, n - 1).1
    ensures !MayOverflow(ext, n, v) ==> t == t0 && (a, b) == Backward(v, t0, 1.0, n - 1)
    ensures forall z: Num, w: Num :: Anchor(t, a, b, z, w) == Anchor(t0, Backward(v, t0, 1.0, n - 1).0, Backward(v, t0, 1.0, n - 1).1, z, w)
  {
    if !MayOverflow(ext, n, v) {
      a, b := BackwardLoop(v, n, t0);
      t, c := t0, 1.0;
    } else {
      a, b, t, c := BackwardLoopRescaled(v, n, t0);
    }
  }

  /**
   * Lines 185-192: the estimate n*log(|(2/x)*n|) of log((2/x)^n n!) is not
   * below 709.78..., the logarithm of the largest double, so the unscaled
   * loop might overflow.
   */
  predicate MayOverflow(ext: Kernels, n: nat, v: real)
    requires v != 0.0
  {
    var tmp := Mul(Fin(n as real), ext.log(Abs(Fin(2.0 / v * n as real))));
    !Less(tmp, Fin(OVERFLOW_BOUND))
  }

  /** `yn(n, x)`, lines 232-303. */
  method Yn(ext: Kernels, s: Signedness, n0: int, x: Double) returns (r: Num)
    ensures r == YnSpec(ext, s, n0, x)
  {
    ghost var route := ClassifyYn(s, n0, x);
    var lx := LowWord(s, x);
    var hx := HighWord(s, x);
    var ix := SignCleared(hx);
    if NaNGuard(ix, lx) {
      assert route == YnNaN;
      return Add(ToNum(x), ToNum(x));
    }
    if ZeroWords(ix, lx) {
      assert route == YnZero;
      return NegInf;
    }
    if hx < 0 {
      assert route == YnNegative;
      return NaN;
    }
    r := YnRegular(ext, s, n0, x, ix);
  }

  /** Lines 250-302: an argument past the three special-case tests, with `ix` already computed. */
  method YnRegular(ext: Kernels, s: Signedness, n0: int, x: Double, ix: int) returns (r: Num)
    ensures r == YnValue(ext, s, x, YnOrderRoute(n0, ix))
  {
    ghost var route := YnOrderRoute(n0, ix);
    var n := n0;
    var sign := 1;
    if n < 0 {
      n := -n;
      sign := 1 - Shl(And(n, 1), 1);
    }
    if n == 0 {
      assert route == YnOrderZero;
      return ext.y0(ToNum(x));
    }
    if n == 1 {
      assert route == YnOrderOne(sign);
      return Mul(Fin(sign as real), ext.y1(ToNum(x)));
    }
    if ix == EXP_ALL_ONES {
      assert route == YnInfinite;
      return Fin(0.0);
    }
    assert route == YnGeneral(n, sign, ix >= HUGE);
    var b := YnMagnitude(ext, s, n, x, ix >= HUGE);
    if sign > 0 {
      r := b;
    } else {
      r := Neg(b);
    }
  }

  /** Lines 265-297: the asymptotic formula or the forward recurrence, before the sign. */
  method YnMagnitude(ext: Kernels, s: Signedness, n: nat, x: Double, asymptotic: bool) returns (b: Num)
    ensures var X := ToNum(x);
            b == if asymptotic then Div(Mul(Fin(INVSQRTPI), YnTable(n % 4, ext.sin(X), ext.cos(X))), ext.sqrt(X))
                 else YnForward(s, X, ext.y0(X), ext.y1(X), 1, n).1
  {
    var X := ToNum(x);
    if asymptotic {
      LowOrderBits(n);
      var temp := YnTable(And(n, 3), ext.sin(X), ext.cos(X));
      b := Div(Mul(Fin(INVSQRTPI), temp), ext.sqrt(X));
    } else {
      var a := ext.y0(X);
      b := ext.y1(X);
      a, b := YnForwardLoop(s, X, a, b, n);
    }
  }
}
