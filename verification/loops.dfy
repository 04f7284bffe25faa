/**
 * The loops of `jn` and `yn`, as the source writes them, each proved to
 * compute the function in `Recurrences` that describes it.
 */
module Loops {
  import opened Numbers
  import opened Ieee
  import opened Recurrences

  /**
   * The `jn` forward recurrence (special/jn.js:109-115): for i from 1 up to
   * n-1, each step replaces (a, b) by (b, b*(2i/x) - a).
   */
  method JnForwardLoop(x: Num, a0: Num, b0: Num, n: nat) returns (a: Num, b: Num)
    ensures (a, b) == JnForward(x, a0, b0, 1, n)
  {
    a, b := a0, b0;
    var i := 1;
    while i < n
      invariant 1 <= i
      invariant JnForward(x, a, b, i, n) == JnForward(x, a0, b0, 1, n)
      decreases n - i
    {
      var temp := b;
      b := Sub(Mul(b, Div(Fin((i + i) as real), x)), a);
      a := temp;
      i := i + 1;
    }
  }

  /**
   * The `yn` forward recurrence (special/jn.js:287-296): as the `jn` one, with
   * the factor 2i/x on the left, and stopping early as soon as the high word
   * of b reads as that of -Infinity (tested before the first step too).
   */
  method YnForwardLoop(s: Signedness, x: Num, a0: Num, b0: Num, n: nat) returns (a: Num, b: Num)
    ensures (a, b) == YnForward(s, x, a0, b0, 1, n)
  {
    a, b := a0, b0;
    var quit := HighWordIsNegInf(s, b);
    var i := 1;
    while i < n && !quit
      invariant 1 <= i
      invariant quit == HighWordIsNegInf(s, b)
      invariant YnForward(s, x, a, b, i, n) == YnForward(s, x, a0, b0, 1, n)
      decreases n - i
    {
      var temp := b;
      b := Sub(Mul(Div(Fin((i + i) as real), x), b), a);
      quit := HighWordIsNegInf(s, b);
      a := temp;
      i := i + 1;
    }
  }

  /**
   * The leading Taylor term (special/jn.js:125-130): starting from a = 1 and
   * b = temp = x/2, each i from 2 to n multiplies a by i and b by temp, which
   * leaves a = n! and b = temp^n.
   */
  method TaylorLoop(n: nat, temp: real) returns (a: real, b: real)
    requires n >= 1
    ensures a == Factorial(n) as real && b == Power(temp, n)
  {
    b := temp;
    a := 1.0;
    var i := 2;
    while i <= n
      invariant 2 <= i <= n + 1
      invariant a == Factorial(i - 1) as real && b == Power(temp, i - 1)
    {
      a := a * i as real;
      b := b * temp;
      i := i + 1;
    }
  }

  /**
   * The search for the depth of the continued fraction (special/jn.js:166-177):
   * it starts from Q(0) and Q(1) with k = 1 and, while the latest term is
   * below 1e9, advances k and the partial denominator z = w + kh and computes
   * the next term of Q.  It stops, at the least k >= 1 with Q(k) >= 1e9 (so k
   * is `Depth(w, h, 1)`, by `DepthOfLeast`).
   */
  method DepthSearch(w: real, h: real) returns (k: nat, z: real, q0: real, q1: real)
    requires w > 2.0 && h > 0.0
    ensures Searching(w, h, k, z, q0, q1) && q1 >= 1.0e9
    ensures forall j :: 1 <= j < k ==> Q(w, h, j) < 1.0e9
  {
    q0 := w;
    z := w + h;
    q1 := w * z - 1.0;
    k := 1;
    SearchStart(w, h, z, q0, q1);
    while q1 < 1.0e9
      invariant Searching(w, h, k, z, q0, q1)
      invariant forall j :: 1 <= j < k ==> Q(w, h, j) < 1.0e9
      decreases 1_000_000_000 - k
    {
      QAtLeast(w, h, k);
      ghost var k0, z0 := k, z;
      k := k + 1;
      z := z + h;
      var tmp := z * q1 - q0;
      SearchStep(w, h, k0, z0, q0, q1, k, z, tmp);
      q0 := q1;
      q1 := tmp;
    }
  }

  /** The state of the depth search after k steps: z = w + kh, q0 = Q(k-1), q1 = Q(k). */
  predicate Searching(w: real, h: real, k: nat, z: real, q0: real, q1: real)
  {
    k >= 1 && z == Shift(w, h, k) && q0 == Q(w, h, k - 1) && q1 == Q(w, h, k)
  }

  lemma SearchStart(w: real, h: real, z: real, q0: real, q1: real)
    requires z == w + h && q0 == w && q1 == w * z - 1.0
    ensures Searching(w, h, 1, z, q0, q1)
  {}

  /** One step of the search computes the next term of Q. */
  lemma SearchStep(w: real, h: real, k: nat, z: real, q0: real, q1: real, k': nat, z': real, q2: real)
    requires Searching(w, h, k, z, q0, q1)
    requires k' == k + 1 && z' == z + h && q2 == z' * q1 - q0
    ensures Searching(w, h, k', z', q1, q2)
  {}

  /** The first index from k on where Q reaches 1e9 is the depth. */
  lemma {:induction false} DepthOfLeast(w: real, h: real, k: nat, d: nat)
    requires w > 2.0 && h > 0.0 && k <= d && Q(w, h, d) >= 1.0e9
    requires forall j :: k <= j < d ==> Q(w, h, j) < 1.0e9
    ensures Depth(w, h, k) == d
    decreases d - k
  {
    if k < d {
      QAtLeast(w, h, k);
      DepthOfLeast(w, h, k + 1, d);
    }
  }

  /**
   * The continued fraction (special/jn.js:179), evaluated from its deepest
   * term up: t starts at 0 and, for i = 2(n+k), 2(n+k) - 2, ..., 2n, becomes
   * the reciprocal of i/x - t -- k + 1 partial denominators in all.
   */
  method ContinuedFractionLoop(n: nat, k: nat, x: real) returns (t: real, ghost steps: nat)
    requires 0.0 < x < n as real
    ensures t == ContinuedFraction(x, 2 * n, 2 * (n + k))
    ensures steps == k + 1
  {
    var m := n + n;
    var top := 2 * (n + k);
    t := 0.0;
    var i := top;
    steps := 0;
    while i >= m
      invariant i == top - 2 * steps && steps <= k + 1
      invariant t == ContinuedFraction(x, i + 2, top)
      decreases i
    {
      ghost var t0 := t;
      QuotientAbove(i as real, x);
      t := 1.0 / (i as real / x - t);
      FractionStep(x, i, top, t0, t);
      i := i - 2;
      steps := steps + 1;
    }
  }

  /** One more partial denominator: the value at i from the value at i+2. */
  lemma FractionStep(x: real, i: nat, top: nat, t: real, t': real)
    requires x > 0.0 && 2.0 * x < i as real && i <= top
    requires t == ContinuedFraction(x, i + 2, top) && t' == 1.0 / (i as real / x - t)
    ensures t' == ContinuedFraction(x, i, top)
  {}

  /**
   * The backward recurrence without rescaling (special/jn.js:194-200): from
   * a = t, b = 1 and for i from n-1 down to 1, each step replaces (a, b) by
   * (b, b*2i/x - a), keeping 2i in a separate counter.
   */
  method BackwardLoop(x: real, n: nat, t: real) returns (a: real, b: real)
    requires x != 0.0 && n >= 1
    ensures (a, b) == Backward(x, t, 1.0, n - 1)
  {
    a, b := t, 1.0;
    var i := n - 1;
    var di := i + i;
    while i > 0
      invariant di == 2 * i
      invariant Backward(x, a, b, i) == Backward(x, t, 1.0, n - 1)
    {
      var temp := b;
      b := b * di as real;
      b := b / x - a;
      BackwardStep(x, a, temp, b, i);
      a := temp;
      di := di - 2;
      i := i - 1;
    }
  }

  /**
   * The backward recurrence with rescaling: as `BackwardLoop`, and whenever
   * b exceeds 1e100 the pair (a, b) and the ratio t are divided by b.  The
   * state stays a positive multiple `c` of the unscaled one, so anchoring it
   * to j0 or j1 gives what anchoring the unscaled run gives.
   */
  method BackwardLoopRescaled(x: real, n: nat, t0: real) returns (a: real, b: real, t: real, ghost c: real)
    requires x != 0.0 && n >= 1
    ensures c > 0.0 && t == c * t0
    ensures a == c * Backward(x, t0, 1.0, n - 1).0 && b == c * Backward(x, t0, 1.0, n - 1).1
    ensures forall z: Num, w: Num :: Anchor(t, a, b, z, w) == Anchor(t0, Backward(x, t0, 1.0, n - 1).0, Backward(x, t0, 1.0, n - 1).1, z, w)
  {
    t := t0;
    a, b := t0, 1.0;
    c := 1.0;
    var i := n - 1;
    var di := i + i;
    ghost var target := Backward(x, t0, 1.0, n - 1);
    while i > 0
      invariant di == 2 * i
      invariant Tracks(x, a, b, i, c, t, t0, target)
    {
      var temp := b;
      b := b * di as real;
      b := b / x - a;
      TracksStep(x, a, temp, i, c, t, t0, target, di, b);
      a := temp;
      di := di - 2;
      if b > 1.0e100 {
        TracksRescale(x, a, b, i - 1, c, t, t0, target);
        c := c / b;
        a := a / b;
        t := t / b;
        b := 1.0;
      }
      i := i - 1;
    }
    forall z: Num, w: Num
      ensures Anchor(t, a, b, z, w) == Anchor(t0, target.0, target.1, z, w)
    {
      AnchorScaleInvariant(c, t0, target.0, target.1, t, a, b, z, w);
    }
  }

  /** The rescaled state runs to c times the unscaled result, and t is c times the guess. */
  predicate Tracks(x: real, a: real, b: real, i: nat, c: real, t: real, t0: real, target: (real, real))
    requires x != 0.0
  {
    c > 0.0 && t == c * t0
    && Backward(x, a, b, i).0 == c * target.0 && Backward(x, a, b, i).1 == c * target.1
  }

  lemma TracksStep(x: real, a: real, b: real, i: nat, c: real, t: real, t0: real, target: (real, real), di: int, b': real)
    requires x != 0.0 && i > 0 && Tracks(x, a, b, i, c, t, t0, target)
    requires di == 2 * i && b' == b * di as real / x - a
    ensures Tracks(x, b, b', i - 1, c, t, t0, target)
  {
    BackwardStep(x, a, b, b', i);
  }

  lemma TracksRescale(x: real, a: real, b: real, i: nat, c: real, t: real, t0: real, target: (real, real))
    requires x != 0.0 && b > 0.0 && Tracks(x, a, b, i, c, t, t0, target)
    ensures Tracks(x, a / b, 1.0, i, c / b, t / b, t0, target)
  {
    var r, r' := Backward(x, a, b, i), Backward(x, a / b, 1.0, i);
    Rescale(x, a, b, i);
    Quotient(c, r.0, target.0, b, r'.0);
    Quotient(c, r.1, target.1, b, r'.1);
    Quotient(c, t, t0, b, t / b);
    assert c / b > 0.0;
  }

  /** u = c*v divided by b > 0 is (c/b)*v. */
  lemma Quotient(c: real, u: real, v: real, b: real, q: real)
    requires b > 0.0 && u == c * v && q == u / b
    ensures q == (c / b) * v
  {}

  /** Dividing the state (a, b) by b divides the whole backward run by b. */
  lemma Rescale(x: real, a: real, b: real, i: nat)
    requires x != 0.0 && b > 0.0
    ensures Backward(x, a / b, 1.0, i).0 == Backward(x, a, b, i).0 / b
    ensures Backward(x, a / b, 1.0, i).1 == Backward(x, a, b, i).1 / b
  {
    var r := 1.0 / b;
    assert r * a == a / b && r * b == 1.0;
    BackwardLinear(x, r, a, b, i);
  }
}
