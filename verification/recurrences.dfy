/**
 * The sequences the Bessel loops compute, as recursive functions.
 *
 * The Bessel functions of integer order satisfy the three-term recurrence
 *   C(i+1) = (2i/x) C(i) - C(i-1),
 * run forwards from orders 0 and 1 in the `jn` and `yn` forward loops,
 * and backwards from a guessed ratio in the `jn` backward loop.  Numbers
 * are exact reals here; the forward loops run over `Num` because their
 * seeds come from the order-0 and order-1 kernels and may be infinite.
 */
module Recurrences {
  import opened Numbers
  import opened Ieee

  // ---------------------------------------------------------------------------
  // The reference recurrence

  /** R(0) = p, R(1) = q, R(i) = (2(i-1)/v) R(i-1) - R(i-2). */
  function Recurrence(v: real, p: real, q: real, i: nat): real
    requires v != 0.0
  {
    if i == 0 then p
    else if i == 1 then q
    else (2.0 * (i - 1) as real / v) * Recurrence(v, p, q, i - 1) - Recurrence(v, p, q, i - 2)
  }

  /** Two consecutive zeros make the whole sequence zero. */
  lemma {:induction false} RecurrenceZero(v: real, p: real, q: real, i: nat)
    requires v != 0.0 && p == 0.0 && q == 0.0
    ensures Recurrence(v, p, q, i) == 0.0
  {
    if i >= 2 {
      RecurrenceZero(v, p, q, i - 1);
      RecurrenceZero(v, p, q, i - 2);
    }
  }

  // ---------------------------------------------------------------------------
  // Forward loops

  /** The `jn` forward loop from index `i` to `n`: each step maps (a, b) to (b, b*(2i/x) - a). */
  function JnForward(x: Num, a: Num, b: Num, i: nat, n: nat): (Num, Num)
    decreases n - i
  {
    if i >= n then (a, b)
    else JnForward(x, b, Sub(Mul(b, Div(Fin((i + i) as real), x)), a), i + 1, n)
  }

  /**
   * The `yn` forward loop from index `i` to `n`: each step maps (a, b) to
   * (b, (2i/x)*b - a), leaving early once the high word of b is 0xfff00000.
   */
  function YnForward(s: Signedness, x: Num, a: Num, b: Num, i: nat, n: nat): (Num, Num)
    decreases n - i
  {
    if i >= n || HighWordIsNegInf(s, b) then (a, b)
    else YnForward(s, x, b, Sub(Mul(Div(Fin((i + i) as real), x), b), a), i + 1, n)
  }

  lemma ForwardStep(v: real, p: real, q: real, i: nat)
    requires v != 0.0 && i >= 1
    ensures Sub(Mul(Fin(Recurrence(v, p, q, i)), Div(Fin((i + i) as real), Fin(v))), Fin(Recurrence(v, p, q, i - 1)))
         == Fin(Recurrence(v, p, q, i + 1))
    ensures Sub(Mul(Div(Fin((i + i) as real), Fin(v)), Fin(Recurrence(v, p, q, i))), Fin(Recurrence(v, p, q, i - 1)))
         == Fin(Recurrence(v, p, q, i + 1))
  {
    var c := (i + i) as real / v;
    assert c == 2.0 * ((i + 1) - 1) as real / v;
  }

  /** With finite seeds, the `jn` forward loop yields (R(n-1), R(n)). */
  lemma {:induction false} JnForwardExact(v: real, p: real, q: real, i: nat, n: nat)
    requires v != 0.0 && 1 <= i <= n
    ensures JnForward(Fin(v), Fin(Recurrence(v, p, q, i - 1)), Fin(Recurrence(v, p, q, i)), i, n)
         == (Fin(Recurrence(v, p, q, n - 1)), Fin(Recurrence(v, p, q, n)))
    decreases n - i
  {
    if i < n {
      var a, b := Recurrence(v, p, q, i - 1), Recurrence(v, p, q, i);
      assert JnForward(Fin(v), Fin(a), Fin(b), i, n) == JnForward(Fin(v), Fin(b), Fin(Recurrence(v, p, q, i + 1)), i + 1, n) by {
        ForwardStep(v, p, q, i);
      }
      JnForwardExact(v, p, q, i + 1, n);
    }
  }

  /** With finite seeds, the `yn` forward loop never leaves early and yields (R(n-1), R(n)). */
  lemma {:induction false} YnForwardExact(s: Signedness, v: real, p: real, q: real, i: nat, n: nat)
    requires v != 0.0 && 1 <= i <= n
    ensures YnForward(s, Fin(v), Fin(Recurrence(v, p, q, i - 1)), Fin(Recurrence(v, p, q, i)), i, n)
         == (Fin(Recurrence(v, p, q, n - 1)), Fin(Recurrence(v, p, q, n)))
    decreases n - i
  {
    if i < n {
      var a, b := Recurrence(v, p, q, i - 1), Recurrence(v, p, q, i);
      var b' := Sub(Mul(Div(Fin((i + i) as real), Fin(v)), Fin(b)), Fin(a));
      assert !HighWordIsNegInf(s, Fin(b));
      assert YnForward(s, Fin(v), Fin(a), Fin(b), i, n) == YnForward(s, Fin(v), Fin(b), b', i + 1, n);
      ForwardStep(v, p, q, i);
      YnForwardExact(s, v, p, q, i + 1, n);
    }
  }

  /** Once the `yn` state is NaN it stays NaN (there is no early exit on NaN). */
  lemma {:induction false} YnForwardNaN(s: Signedness, x: Num, a: Num, i: nat, n: nat)
    ensures YnForward(s, x, a, NaN, i, n).1 == NaN
    decreases n - i
  {
    if i < n {
      YnForwardNaN(s, x, NaN, i + 1, n);
    }
  }

  /**
   * Seeded with a finite y0 and y1 = -Infinity at any nonzero x, the `yn`
   * loop stops at once when the decoder is unsigned, and produces NaN from
   * n = 3 on when it is signed: the first step gives an infinity (of the sign
   * of -x), and the second subtracts -Infinity from an infinity of the same
   * sign, which is NaN.
   */
  lemma YnForwardOverflow(s: Signedness, v: real, p: real, n: nat)
    requires v != 0.0 && n >= 1
    ensures s.Unsigned? ==> YnForward(s, Fin(v), Fin(p), NegInf, 1, n) == (Fin(p), NegInf)
    ensures s.Signed? && n >= 3 ==> YnForward(s, Fin(v), Fin(p), NegInf, 1, n).1 == NaN
  {
    HighWordIsNegInfMeaning(s, NegInf);
    if s.Signed? && n >= 3 {
      var c1 := Div(Fin(2.0), Fin(v));
      assert c1 == Fin(2.0 / v) && (2.0 / v > 0.0 <==> v > 0.0) && 2.0 / v != 0.0;
      var b1 := Sub(Mul(c1, NegInf), Fin(p));
      assert b1 == if v > 0.0 then NegInf else PosInf;
      assert YnForward(s, Fin(v), Fin(p), NegInf, 1, n) == YnForward(s, Fin(v), NegInf, b1, 2, n);
      var c2 := Div(Fin(4.0), Fin(v));
      assert c2 == Fin(4.0 / v) && (4.0 / v > 0.0 <==> v > 0.0) && 4.0 / v != 0.0;
      var b2 := Sub(Mul(c2, b1), NegInf);
      assert b2 == NaN;
      HighWordIsNegInfMeaning(s, b1);
      assert YnForward(s, Fin(v), NegInf, b1, 2, n) == YnForward(s, Fin(v), b1, b2, 3, n);
      YnForwardNaN(s, Fin(v), b1, 3, n);
    }
  }

  // ---------------------------------------------------------------------------
  // The Taylor term

  function Factorial(n: nat): (r: nat)
    ensures r >= 1
  {
    if n == 0 then 1 else n * Factorial(n - 1)
  }

  function Power(c: real, n: nat): real
  {
    if n == 0 then 1.0 else Power(c, n - 1) * c
  }

  lemma {:induction false} PowerPositive(c: real, n: nat)
    requires c > 0.0
    ensures Power(c, n) > 0.0
  {
    if n > 0 {
      PowerPositive(c, n - 1);
      PositiveProduct(Power(c, n - 1), c);
    }
  }

  lemma PositiveProduct(x: real, y: real)
    requires x > 0.0 && y > 0.0
    ensures x * y > 0.0
  {}

  // ---------------------------------------------------------------------------
  // Continued-fraction depth

  /** The k-th partial denominator w + kh, built up by adding h as the search does. */
  function Shift(w: real, h: real, k: nat): real
  {
    if k == 0 then w else Shift(w, h, k - 1) + h
  }

  lemma {:induction false} ShiftClosed(w: real, h: real, k: nat)
    ensures Shift(w, h, k) == w + k as real * h
  {
    if k > 0 {
      ShiftClosed(w, h, k - 1);
      assert (k - 1) as real * h + h == k as real * h;
    }
  }

  lemma {:induction false} ShiftAtLeast(w: real, h: real, k: nat)
    requires h > 0.0
    ensures Shift(w, h, k) >= w
  {
    if k > 0 {
      ShiftAtLeast(w, h, k - 1);
    }
  }

  /** Q(0) = w, Q(1) = w(w+h) - 1, Q(k) = (w+kh) Q(k-1) - Q(k-2). */
  function Q(w: real, h: real, k: nat): real
  {
    if k == 0 then w
    else if k == 1 then w * Shift(w, h, 1) - 1.0
    else Shift(w, h, k) * Q(w, h, k - 1) - Q(w, h, k - 2)
  }

  /**
   * For w > 2 and h > 0 the differences Q(k) - Q(k-1) exceed 1 and grow:
   * Q(k+1) - Q(k) - (Q(k) - Q(k-1)) = (w + (k+1)h - 2) Q(k).
   */
  lemma {:induction false} QGrowth(w: real, h: real, k: nat)
    requires w > 2.0 && h > 0.0 && k >= 1
    ensures Q(w, h, k - 1) > 0.0
    ensures Q(w, h, k) - Q(w, h, k - 1) > 1.0
  {
    if k == 1 {
      QFirst(w, h);
    } else {
      QGrowth(w, h, k - 1);
      QLater(w, h, k);
    }
  }

  lemma QFirst(w: real, h: real)
    requires w > 2.0 && h > 0.0
    ensures Q(w, h, 0) > 0.0 && Q(w, h, 1) - Q(w, h, 0) > 1.0
  {
    assert Shift(w, h, 1) == w + h;
    FirstDifference(w, h);
  }

  lemma QLater(w: real, h: real, k: nat)
    requires w > 2.0 && h > 0.0 && k >= 2
    requires Q(w, h, k - 2) > 0.0 && Q(w, h, k - 1) - Q(w, h, k - 2) > 1.0
    ensures Q(w, h, k - 1) > 0.0 && Q(w, h, k) - Q(w, h, k - 1) > 1.0
  {
    ShiftAtLeast(w, h, k);
    DifferenceGrows(Shift(w, h, k), Q(w, h, k - 2), Q(w, h, k - 1), Q(w, h, k));
  }

  lemma DifferenceGrows(z: real, q0: real, q1: real, q2: real)
    requires z > 2.0 && q0 > 0.0 && q1 - q0 > 1.0 && q2 == z * q1 - q0
    ensures q1 > 0.0 && q2 - q1 > 1.0
  {
    var d := z - 2.0;
    var e := d * q1;
    PositiveProduct(d, q1);
    Distribute(d, q1);
    assert z * q1 == e + 2.0 * q1;
    assert q2 - q1 == e + (q1 - q0);
  }

  lemma Distribute(d: real, q: real)
    ensures (d + 2.0) * q == d * q + 2.0 * q
  {}

  lemma FirstDifference(w: real, h: real)
    requires w > 2.0 && h > 0.0
    ensures w * (w + h) - 1.0 - w > 1.0
  {
    PositiveProduct(w, h);
    PositiveProduct(w - 2.0, w + 1.0);
    assert w * (w + h) - 1.0 - w == (w - 2.0) * (w + 1.0) + 1.0 + w * h;
  }

  /** Q(k) > k, so Q eventually reaches any bound. */
  lemma {:induction false} QAtLeast(w: real, h: real, k: nat)
    requires w > 2.0 && h > 0.0
    ensures Q(w, h, k) > k as real
  {
    if k > 0 {
      QAtLeast(w, h, k - 1);
      QGrowth(w, h, k);
    }
  }

  /** The depth the `jn` search settles on: the least j >= k with Q(j) >= 1e9. */
  function Depth(w: real, h: real, k: nat): (r: nat)
    requires w > 2.0 && h > 0.0
    ensures r >= k && Q(w, h, r) >= 1.0e9
    decreases 1_000_000_000 - k
  {
    if Q(w, h, k) >= 1.0e9 then k
    else
      QAtLeast(w, h, k);
      Depth(w, h, k + 1)
  }

  /** No index between k and the depth reaches 1e9: the depth is the least one that does. */
  lemma {:induction false} DepthIsLeast(w: real, h: real, k: nat, j: nat)
    requires w > 2.0 && h > 0.0 && k <= j < Depth(w, h, k)
    ensures Q(w, h, j) < 1.0e9
    decreases 1_000_000_000 - k
  {
    QAtLeast(w, h, k);
    if j > k {
      DepthIsLeast(w, h, k + 1, j);
    }
  }

  // ---------------------------------------------------------------------------
  // The continued fraction

  /**
   * 1 / (i/v - 1 / ((i+2)/v - ... 1 / (top/v - 0))), the continued fraction
   * for J(n,x)/J(n-1,x) cut off at `top`.  Every partial denominator exceeds 1
   * when i > 2v, so the value lies in [0, 1).
   */
  function ContinuedFraction(v: real, i: nat, top: nat): (r: real)
    requires v > 0.0 && 2.0 * v < i as real
    ensures 0.0 <= r < 1.0
    ensures i <= top ==> r > 0.0
    decreases top + 2 - i
  {
    if i > top then 0.0
    else
      var rest := ContinuedFraction(v, i + 2, top);
      var d := i as real / v - rest;
      assert i as real / v > 2.0 by {
        QuotientAbove(i as real, v);
      }
      assert d > 1.0;
      ReciprocalBelowOne(d);
      1.0 / d
  }

  lemma QuotientAbove(i: real, v: real)
    requires v > 0.0 && 2.0 * v < i
    ensures i / v > 2.0
  {
    assert i / v * v == i;
  }

  lemma ReciprocalBelowOne(d: real)
    requires d > 1.0
    ensures 0.0 < 1.0 / d < 1.0
  {}

  // ---------------------------------------------------------------------------
  // The backward recurrence

  /**
   * The `jn` backward loop from index `i` down to 1:
   * each step maps (a, b) to (b, b*2i/x - a).
   */
  function Backward(v: real, a: real, b: real, i: nat): (real, real)
    requires v != 0.0
    decreases i
  {
    if i == 0 then (a, b)
    else Backward(v, b, b * (2 * i) as real / v - a, i - 1)
  }

  /** Run on (R(i+1), R(i)), the backward loop retraces the forward recurrence down to (R(1), R(0)). */
  lemma {:induction false} BackwardInvertsForward(v: real, p: real, q: real, i: nat)
    requires v != 0.0
    ensures Backward(v, Recurrence(v, p, q, i + 1), Recurrence(v, p, q, i), i)
         == (Recurrence(v, p, q, 1), Recurrence(v, p, q, 0))
  {
    if i > 0 {
      var r0, r1, r2 := Recurrence(v, p, q, i - 1), Recurrence(v, p, q, i), Recurrence(v, p, q, i + 1);
      assert r1 * (2 * i) as real / v - r2 == r0 by {
        RetraceStep(v, p, q, i);
      }
      BackwardStep(v, r2, r1, r0, i);
      BackwardInvertsForward(v, p, q, i - 1);
      assert i - 1 + 1 == i;
    }
  }

  lemma BackwardStep(v: real, a: real, b: real, b': real, i: nat)
    requires v != 0.0 && i > 0 && b' == b * (2 * i) as real / v - a
    ensures Backward(v, a, b, i) == Backward(v, b, b', i - 1)
  {}

  lemma RetraceStep(v: real, p: real, q: real, i: nat)
    requires v != 0.0 && i >= 1
    ensures Recurrence(v, p, q, i) * (2 * i) as real / v - Recurrence(v, p, q, i + 1) == Recurrence(v, p, q, i - 1)
  {
    var r0, r1 := Recurrence(v, p, q, i - 1), Recurrence(v, p, q, i);
    assert Recurrence(v, p, q, i + 1) == (2.0 * i as real / v) * r1 - r0;
    assert r1 * (2 * i) as real / v == (2.0 * i as real / v) * r1;
  }

  /** The backward loop is linear: scaling its start scales its result. */
  lemma {:induction false} BackwardLinear(v: real, c: real, a: real, b: real, i: nat)
    requires v != 0.0
    ensures Backward(v, c * a, c * b, i).0 == c * Backward(v, a, b, i).0
    ensures Backward(v, c * a, c * b, i).1 == c * Backward(v, a, b, i).1
    decreases i
  {
    if i > 0 {
      var b' := b * (2 * i) as real / v - a;
      assert (c * b) * (2 * i) as real / v - c * a == c * b' by {
        ScaleStep(v, c, a, b, (2 * i) as real);
      }
      BackwardStep(v, c * a, c * b, c * b', i);
      BackwardStep(v, a, b, b', i);
      BackwardLinear(v, c, b, b', i - 1);
    } else {
      assert Backward(v, c * a, c * b, 0) == (c * a, c * b);
      assert Backward(v, a, b, 0) == (a, b);
    }
  }

  lemma ScaleStep(v: real, c: real, a: real, b: real, d: real)
    requires v != 0.0
    ensures (c * b) * d / v - c * a == c * (b * d / v - a)
  {}

  /**
   * The anchoring step after the backward loop: the guessed sequence is
   * rescaled so that its order-0 term matches j0(x) (`t*z/b`) or, when
   * |j1(x)| is larger, its order-1 term matches j1(x) (`t*w/a`).
   */
  function Anchor(t: real, a: real, b: real, z: Num, w: Num): Num
  {
    if LessEq(Abs(w), Abs(z)) then Div(Mul(Fin(t), z), Fin(b))
    else Div(Mul(Fin(t), w), Fin(a))
  }

  /** Anchoring ignores a common positive factor of t, a and b. */
  lemma AnchorScaleInvariant(c: real, t: real, a: real, b: real, t': real, a': real, b': real, z: Num, w: Num)
    requires c > 0.0 && t' == c * t && a' == c * a && b' == c * b
    ensures Anchor(t', a', b', z, w) == Anchor(t, a, b, z, w)
  {
    ScaledQuotient(c, t, b, z);
    ScaledQuotient(c, t, a, w);
  }

  /**
   * The backward method is exact when the continued fraction is: if t is the
   * true ratio R(n)/R(n-1), the backward loop from (t, 1) followed by anchoring
   * to R(0) = z or R(1) = w returns R(n).
   */
  lemma Renormalisation(v: real, p: real, q: real, n: nat)
    requires v != 0.0 && n >= 1 && Recurrence(v, p, q, n - 1) != 0.0
    ensures var t := Recurrence(v, p, q, n) / Recurrence(v, p, q, n - 1);
            var ab := Backward(v, t, 1.0, n - 1);
            Anchor(t, ab.0, ab.1, Fin(p), Fin(q)) == Fin(Recurrence(v, p, q, n))
  {
    var rn, rm := Recurrence(v, p, q, n), Recurrence(v, p, q, n - 1);
    var t := rn / rm;
    if p == 0.0 && q == 0.0 {
      RecurrenceZero(v, p, q, n - 1);
      assert false;
    }
    BackwardFromRatio(v, p, q, n);
    var ab := Backward(v, t, 1.0, n - 1);
    assert ab.0 == (1.0 / rm) * q && ab.1 == (1.0 / rm) * p;
    AnchorValue(rn, rm, p, q);
    assert Anchor(rn / rm, (1.0 / rm) * q, (1.0 / rm) * p, Fin(p), Fin(q)) == Fin(rn);
  }

  /** From the normalised pair (R(n)/R(n-1), 1) the backward loop reaches (R(1), R(0)) / R(n-1). */
  lemma BackwardFromRatio(v: real, p: real, q: real, n: nat)
    requires v != 0.0 && n >= 1 && Recurrence(v, p, q, n - 1) != 0.0
    ensures var rn, rm := Recurrence(v, p, q, n), Recurrence(v, p, q, n - 1);
            Backward(v, rn / rm, 1.0, n - 1).0 == (1.0 / rm) * q
            && Backward(v, rn / rm, 1.0, n - 1).1 == (1.0 / rm) * p
  {
    var rn, rm := Recurrence(v, p, q, n), Recurrence(v, p, q, n - 1);
    assert Backward(v, rn, rm, n - 1) == (q, p) by {
      Retrace(v, p, q, n - 1, n);
    }
    NormalisedBackward(v, rn, rm, n - 1);
  }

  /** Starting from (rn/rm, 1) instead of (rn, rm) divides the whole run by rm. */
  lemma NormalisedBackward(v: real, rn: real, rm: real, i: nat)
    requires v != 0.0 && rm != 0.0
    ensures Backward(v, rn / rm, 1.0, i).0 == (1.0 / rm) * Backward(v, rn, rm, i).0
    ensures Backward(v, rn / rm, 1.0, i).1 == (1.0 / rm) * Backward(v, rn, rm, i).1
  {
    Normalise(rn, rm);
    ScaledBackward(v, 1.0 / rm, rn, rm, rn / rm, 1.0, i);
  }

  /** BackwardInvertsForward with the top index named. */
  lemma Retrace(v: real, p: real, q: real, i: nat, j: nat)
    requires v != 0.0 && j == i + 1
    ensures Backward(v, Recurrence(v, p, q, j), Recurrence(v, p, q, i), i) == (q, p)
  {
    BackwardInvertsForward(v, p, q, i);
  }

  /** BackwardLinear with the scaled start named. */
  lemma ScaledBackward(v: real, c: real, a: real, b: real, a': real, b': real, i: nat)
    requires v != 0.0 && a' == c * a && b' == c * b
    ensures Backward(v, a', b', i).0 == c * Backward(v, a, b, i).0
    ensures Backward(v, a', b', i).1 == c * Backward(v, a, b, i).1
  {
    BackwardLinear(v, c, a, b, i);
  }

  lemma Normalise(rn: real, rm: real)
    requires rm != 0.0
    ensures rn / rm == (1.0 / rm) * rn && (1.0 / rm) * rm == 1.0
  {}

  lemma AnchorValue(rn: real, rm: real, p: real, q: real)
    requires rm != 0.0 && (p != 0.0 || q != 0.0)
    ensures Anchor(rn / rm, (1.0 / rm) * q, (1.0 / rm) * p, Fin(p), Fin(q)) == Fin(rn)
  {
    var t, a, b := rn / rm, (1.0 / rm) * q, (1.0 / rm) * p;
    if LessEq(Abs(Fin(q)), Abs(Fin(p))) {
      assert p != 0.0;
      CancelRatio(rn, rm, p);
      assert Anchor(t, a, b, Fin(p), Fin(q)) == Div(Mul(Fin(t), Fin(p)), Fin(b));
    } else {
      assert q != 0.0;
      CancelRatio(rn, rm, q);
      assert Anchor(t, a, b, Fin(p), Fin(q)) == Div(Mul(Fin(t), Fin(q)), Fin(a));
    }
  }

  lemma CancelRatio(rn: real, rm: real, p: real)
    requires rm != 0.0 && p != 0.0
    ensures (1.0 / rm) * p != 0.0
    ensures Div(Mul(Fin(rn / rm), Fin(p)), Fin((1.0 / rm) * p)) == Fin(rn)
  {
    var c := 1.0 / rm;
    assert c * rm == 1.0;
    assert c * p != 0.0;
    assert (rn / rm) * p == rn * (c * p);
  }
}
