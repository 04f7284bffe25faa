/**
 * 32-bit words and the ECMAScript integer operators used by the Bessel
 * routines.
 *
 * JavaScript's `|`, `&` and `^` convert both operands with ToInt32, combine
 * the two 32-bit two's-complement patterns bit by bit and read the result back
 * as a signed int32.  `>>` shifts the int32 right, copying the sign bit in, and
 * `<<` shifts the pattern left and reads it back as an int32.  Every operand
 * the routines feed to these operators is an integer, so numbers are `int`
 * here and the operators are written out on integers.
 */
module Words {

  const TWO31: int := 0x8000_0000
  const TWO32: int := 0x1_0000_0000

  /** An unsigned 32-bit pattern. */
  type Word = w: int | 0 <= w < TWO32

  function Pow2(k: nat): (r: nat)
    ensures r >= 1
  {
    if k == 0 then 1 else 2 * Pow2(k - 1)
  }

  // ---------------------------------------------------------------------------
  // Integer division helpers

  lemma MulAtLeast(x: int, d: int)
    requires x >= 1 && d > 0
    ensures x * d >= d
  {}

  /** Euclidean division is determined by its quotient and remainder. */
  lemma DivModUnique(a: int, d: int, m: int, r: int)
    requires d > 0 && a == m * d + r && 0 <= r < d
    ensures a % d == r && a / d == m
  {
    var q, rr := a / d, a % d;
    assert (m - q) * d == rr - r;
    if m > q {
      MulAtLeast(m - q, d);
    } else if m < q {
      MulAtLeast(q - m, d);
    }
  }

  lemma HalveTwice(a: nat, p: nat)
    requires p > 0
    ensures a / 2 / p == a / (2 * p)
  {
    var q := a / 2;
    assert a == (2 * p) * (q / p) + (2 * (q % p) + a % 2);
    DivModUnique(a, 2 * p, q / p, 2 * (q % p) + a % 2);
  }

  /** The low k bits of `a` are its low bit followed by the low k-1 bits of a/2. */
  lemma ModSplit(a: nat, k: nat)
    requires k >= 1
    ensures a % Pow2(k) == a % 2 + 2 * ((a / 2) % Pow2(k - 1))
  {
    var p := Pow2(k - 1);
    var q := a / 2;
    assert a == (2 * p) * (q / p) + (2 * (q % p) + a % 2);
    DivModUnique(a, 2 * p, q / p, 2 * (q % p) + a % 2);
  }

  lemma {:induction false} Pow2Add(a: nat, b: nat)
    ensures Pow2(a + b) == Pow2(a) * Pow2(b)
  {
    if a > 0 {
      Pow2Add(a - 1, b);
    }
  }

  lemma Pow2Constants()
    ensures Pow2(1) == 2 && Pow2(2) == 4 && Pow2(20) == 0x10_0000
    ensures Pow2(31) == TWO31 && Pow2(32) == TWO32
  {
    assert Pow2(4) == 16;
    assert Pow2(8) == 256;
    Pow2Add(4, 4);
    Pow2Add(8, 8);
    Pow2Add(16, 4);
    Pow2Add(16, 8);
    Pow2Add(24, 7);
    Pow2Add(24, 8);
    assert Pow2(7) == 128;
  }

  // ---------------------------------------------------------------------------
  // ToUint32 and ToInt32 on integral numbers

  function ToUint32(v: int): Word
  {
    v % TWO32
  }

  function ToInt32(v: int): (r: int)
    ensures -TWO31 <= r < TWO31 && ToUint32(r) == ToUint32(v)
  {
    var u := ToUint32(v);
    if u < TWO31 then u else u - TWO32
  }

  // ---------------------------------------------------------------------------
  // Bitwise operators

  datatype BitOp = OrOp | AndOp | XorOp

  function Combine(op: BitOp, p: bool, q: bool): bool
  {
    match op
    case OrOp => p || q
    case AndOp => p && q
    case XorOp => p != q
  }

  /** The low `k` bits of `a op b`, built from the least significant bit up. */
  function Bitwise(op: BitOp, a: nat, b: nat, k: nat): nat
  {
    if k == 0 then 0
    else (if Combine(op, a % 2 == 1, b % 2 == 1) then 1 else 0) + 2 * Bitwise(op, a / 2, b / 2, k - 1)
  }

  /** JavaScript `a | b`. */
  function Or(a: int, b: int): (r: int)
    ensures -TWO31 <= r < TWO31
  {
    ToInt32(Bitwise(OrOp, ToUint32(a), ToUint32(b), 32))
  }

  /** JavaScript `a & b`. */
  function And(a: int, b: int): (r: int)
    ensures -TWO31 <= r < TWO31
  {
    ToInt32(Bitwise(AndOp, ToUint32(a), ToUint32(b), 32))
  }

  /** JavaScript `a ^ b`. */
  function Xor(a: int, b: int): (r: int)
    ensures -TWO31 <= r < TWO31
  {
    ToInt32(Bitwise(XorOp, ToUint32(a), ToUint32(b), 32))
  }

  /** JavaScript `a >> s` (sign-propagating); the routines only shift by constants below 32. */
  function Sar(a: int, s: nat): (r: int)
    requires s < 32
    ensures -TWO31 <= r < TWO31
  {
    QuotientRange(ToInt32(a), Pow2(s));
    ToInt32(a) / Pow2(s)
  }

  /** Dividing by a positive integer keeps an int32 an int32. */
  lemma QuotientRange(w: int, p: int)
    requires -TWO31 <= w < TWO31 && p >= 1
    ensures -TWO31 <= w / p < TWO31
  {}

  /** JavaScript `a << s`. */
  function Shl(a: int, s: nat): (r: int)
    requires s < 32
    ensures -TWO31 <= r < TWO31
  {
    ToInt32(ToUint32(a) * Pow2(s))
  }

  // ---------------------------------------------------------------------------
  // Facts about Bitwise, by induction on the width

  lemma {:induction false} BitwiseBound(op: BitOp, a: nat, b: nat, k: nat)
    ensures Bitwise(op, a, b, k) < Pow2(k)
  {
    if k > 0 {
      BitwiseBound(op, a / 2, b / 2, k - 1);
    }
  }

  lemma {:induction false} BitwiseCommutes(op: BitOp, a: nat, b: nat, k: nat)
    ensures Bitwise(op, a, b, k) == Bitwise(op, b, a, k)
  {
    if k > 0 {
      BitwiseCommutes(op, a / 2, b / 2, k - 1);
    }
  }

  /** An OR is zero exactly when both operands have no bit set in the width. */
  lemma {:induction false} OrZeroIff(a: nat, b: nat, k: nat)
    ensures Bitwise(OrOp, a, b, k) == 0 <==> a % Pow2(k) == 0 && b % Pow2(k) == 0
  {
    if k > 0 {
      OrZeroIff(a / 2, b / 2, k - 1);
      ModSplit(a, k);
      ModSplit(b, k);
    }
  }

  /** AND with the mask 2^j - 1 keeps the low j bits. */
  lemma {:induction false} AndMask(a: nat, j: nat, k: nat)
    requires j <= k
    ensures Bitwise(AndOp, Pow2(j) - 1, a, k) == a % Pow2(j)
  {
    if j == 0 {
      AndZero(a, k);
    } else {
      var m := Pow2(j) - 1;
      var r := Bitwise(AndOp, m / 2, a / 2, k - 1);
      assert r == (a / 2) % Pow2(j - 1) by {
        MaskHalves(j);
        AndMask(a / 2, j - 1, k - 1);
      }
      assert Bitwise(AndOp, m, a, k) == a % 2 + 2 * r by {
        MaskHalves(j);
        AndOddStep(m, a, k);
      }
      ModSplit(a, j);
    }
  }

  lemma {:induction false} AndZero(a: nat, k: nat)
    ensures Bitwise(AndOp, 0, a, k) == 0
  {
    if k > 0 {
      AndZero(a / 2, k - 1);
    }
  }

  /** Against an odd m, the low bit of `m & a` is the low bit of a. */
  lemma AndOddStep(m: nat, a: nat, k: nat)
    requires k > 0 && m % 2 == 1
    ensures Bitwise(AndOp, m, a, k) == a % 2 + 2 * Bitwise(AndOp, m / 2, a / 2, k - 1)
  {}

  /** 2^j - 1 is odd and halves to 2^(j-1) - 1. */
  lemma MaskHalves(j: nat)
    requires j >= 1
    ensures (Pow2(j) - 1) % 2 == 1 && (Pow2(j) - 1) / 2 == Pow2(j - 1) - 1
  {
    DivModUnique(Pow2(j) - 1, 2, Pow2(j - 1) - 1, 1);
  }

  /** OR with the all-ones mask of the width gives all ones. */
  lemma {:induction false} OrAllOnes(a: nat, k: nat)
    ensures Bitwise(OrOp, a, Pow2(k) - 1, k) == Pow2(k) - 1
  {
    if k > 0 {
      OrAllOnes(a / 2, k - 1);
      assert (Pow2(k) - 1) / 2 == Pow2(k - 1) - 1;
    }
  }

  /** OR of a pattern with its complement gives all ones. */
  lemma {:induction false} OrComplement(p: nat, k: nat)
    requires p < Pow2(k)
    ensures Bitwise(OrOp, p, Pow2(k) - 1 - p, k) == Pow2(k) - 1
  {
    if k > 0 {
      var c := Pow2(k) - 1 - p;
      assert c / 2 == Pow2(k - 1) - 1 - p / 2;
      OrComplement(p / 2, k - 1);
    }
  }

  /** The OR of a nonzero u and its two's-complement negation has the top bit set. */
  lemma {:induction false} NegationSmear(u: nat, k: nat)
    requires k >= 1 && 0 < u < Pow2(k)
    ensures Bitwise(OrOp, u, Pow2(k) - u, k) >= Pow2(k - 1)
  {
    if u % 2 == 1 {
      assert (Pow2(k) - u) / 2 == Pow2(k - 1) - 1 - u / 2;
      OrComplement(u / 2, k - 1);
    } else {
      assert k != 1;
      assert (Pow2(k) - u) / 2 == Pow2(k - 1) - u / 2;
      NegationSmear(u / 2, k - 1);
    }
  }

  /** The top bit of a k-bit result is the operator applied to the operands' bits k-1. */
  lemma {:induction false} TopBitSplit(op: BitOp, a: nat, b: nat, k: nat)
    requires k >= 1
    ensures Bitwise(op, a, b, k)
      == Bitwise(op, a, b, k - 1)
       + Pow2(k - 1) * (if Combine(op, (a / Pow2(k - 1)) % 2 == 1, (b / Pow2(k - 1)) % 2 == 1) then 1 else 0)
  {
    if k > 1 {
      TopBitSplit(op, a / 2, b / 2, k - 1);
      HalveTwice(a, Pow2(k - 2));
      HalveTwice(b, Pow2(k - 2));
    }
  }

  // ---------------------------------------------------------------------------
  // The JavaScript expressions of the routines

  lemma Uint32OfInt32(v: int)
    ensures ToUint32(ToInt32(v)) == ToUint32(v)
  {}

  /** `v >> 31` is -1 when bit 31 of v's pattern is set and 0 otherwise. */
  lemma SignShift(v: int)
    ensures Sar(v, 31) == if ToUint32(v) >= TWO31 then -1 else 0
  {
    Pow2Constants();
    var i := ToInt32(v);
    if ToUint32(v) >= TWO31 {
      DivModUnique(i, TWO31, -1, i + TWO31);
    } else {
      DivModUnique(i, TWO31, 0, i);
    }
  }

  /**
   * `(lx | -lx) >> 31` is 0 when the pattern of lx is zero and -1 otherwise:
   * the shift copies the sign bit, so this is never the 1 an unsigned shift
   * would give.
   */
  lemma NegationSmearShift(lx: int)
    ensures Sar(Or(lx, -lx), 31) == if ToUint32(lx) == 0 then 0 else -1
  {
    SmearPattern(lx);
    SignShift(Or(lx, -lx));
  }

  /** The pattern of `lx | -lx` is 0 when lx's pattern is 0, and has bit 31 set otherwise. */
  lemma SmearPattern(lx: int)
    ensures ToUint32(lx) == 0 ==> ToUint32(Or(lx, -lx)) == 0
    ensures ToUint32(lx) != 0 ==> ToUint32(Or(lx, -lx)) >= TWO31
  {
    var u, nu := ToUint32(lx), ToUint32(-lx);
    var w := Bitwise(OrOp, u, nu, 32);
    WordWidth();
    BitwiseBound(OrOp, u, nu, 32);
    Uint32OfInt32(w);
    WordPattern(w);
    if u == 0 {
      NegatedZeroPattern(lx);
      OrZeroIff(u, nu, 32);
    } else {
      NegatedPattern(lx);
      NegationSmear(u, 32);
    }
  }

  lemma NegatedZeroPattern(v: int)
    requires ToUint32(v) == 0
    ensures ToUint32(-v) == 0
  {
    DivModUnique(-v, TWO32, -(v / TWO32), 0);
  }

  lemma NegatedPattern(v: int)
    requires ToUint32(v) != 0
    ensures ToUint32(-v) == TWO32 - ToUint32(v)
  {
    DivModUnique(-v, TWO32, -(v / TWO32) - 1, TWO32 - ToUint32(v));
  }

  /** `a | b` is 0 exactly when both patterns are 0. */
  lemma OrIsZero(a: int, b: int)
    ensures Or(a, b) == 0 <==> ToUint32(a) == 0 && ToUint32(b) == 0
  {
    var ua, ub := ToUint32(a), ToUint32(b);
    WordWidth();
    OrZeroIff(ua, ub, 32);
    BitwiseBound(OrOp, ua, ub, 32);
    WordPattern(Bitwise(OrOp, ua, ub, 32));
    WordPattern(ua);
    WordPattern(ub);
  }

  /** `a | -1` is -1. */
  lemma OrMinusOne(a: int)
    ensures Or(a, -1) == -1
  {
    WordWidth();
    OrAllOnes(ToUint32(a), 32);
  }

  /** `a | 0` is the int32 reading of a. */
  lemma OrZero(a: int)
    ensures Or(a, 0) == ToInt32(a)
  {
    var u := ToUint32(a);
    OrZeroLeft(u, 32);
    BitwiseCommutes(OrOp, u, 0, 32);
    WordWidth();
    WordPattern(u);
  }

  lemma WordWidth()
    ensures Pow2(31) == TWO31 && Pow2(32) == TWO32
  {
    Pow2Constants();
  }

  /** A 32-bit pattern is its own ToUint32. */
  lemma WordPattern(u: Word)
    ensures u % TWO32 == u && ToUint32(u) == u
  {
    DivModUnique(u, TWO32, 0, u);
  }

  lemma {:induction false} OrZeroLeft(a: nat, k: nat)
    ensures Bitwise(OrOp, 0, a, k) == a % Pow2(k)
  {
    if k > 0 {
      OrZeroLeft(a / 2, k - 1);
      ModSplit(a, k);
    }
  }

  /** `mask & v` and `v & mask` keep the low j bits of v, for a mask 2^j - 1 with 0 < j < 32. */
  lemma AndLowBits(v: int, j: nat)
    requires 0 < j < 32
    ensures And(Pow2(j) - 1, v) == ToUint32(v) % Pow2(j)
    ensures And(v, Pow2(j) - 1) == ToUint32(v) % Pow2(j)
  {
    var m := Pow2(j) - 1;
    var u := ToUint32(v);
    MaskPattern(j);
    AndMask(u, j, 32);
    BitwiseCommutes(AndOp, m, u, 32);
    LowBitsBelow(u, j);
  }

  /** The low j < 32 bits of a pattern read the same as int32. */
  lemma LowBitsBelow(u: Word, j: nat)
    requires 0 < j < 32 && Pow2(j) <= TWO31
    ensures 0 <= u % Pow2(j) < TWO31 && ToInt32(u % Pow2(j)) == u % Pow2(j)
  {
    WordPattern(u % Pow2(j));
  }

  lemma MaskPattern(j: nat)
    requires 0 < j < 32
    ensures Pow2(j) <= TWO31 && ToUint32(Pow2(j) - 1) == Pow2(j) - 1
  {
    Pow2Constants();
    Pow2Add(31 - j, j);
    MulAtLeast(Pow2(31 - j), Pow2(j));
    var m := Pow2(j) - 1;
    DivModUnique(m, TWO32, 0, m);
  }

  /** `0x7fffffff & hx` clears the sign bit of hx's pattern. */
  lemma ClearSignBit(hx: int)
    ensures And(0x7fff_ffff, hx) == ToUint32(hx) % TWO31
  {
    Pow2Constants();
    AndLowBits(hx, 31);
  }

  /** `n & 1` and `n & 3` are n's remainders modulo 2 and 4. */
  lemma LowOrderBits(n: int)
    ensures And(n, 1) == n % 2 && And(n, 3) == n % 4
  {
    assert Pow2(1) == 2 && Pow2(2) == 4;
    AndLowBits(n, 1);
    AndLowBits(n, 2);
    PatternRemainder(n, 2, TWO32 / 2);
    PatternRemainder(n, 4, TWO32 / 4);
  }

  /** Reducing modulo 2^32 first does not change a remainder modulo a divisor of 2^32. */
  lemma PatternRemainder(n: int, d: int, e: int)
    requires d > 0 && e > 0 && d * e == TWO32
    ensures ToUint32(n) % d == n % d
  {
    var q := n / TWO32;
    var p := n / d;
    var r := n % d;
    assert q * TWO32 == (q * e) * d by {
      Associate(q, e, d);
    }
    assert ToUint32(n) == (p - q * e) * d + r by {
      assert ToUint32(n) == n - q * TWO32;
      assert n == p * d + r;
      Distribute(p, q * e, d);
    }
    DivModUnique(ToUint32(n), d, p - q * e, r);
  }

  lemma Associate(q: int, e: int, d: int)
    ensures q * (d * e) == (q * e) * d
  {}

  lemma Distribute(p: int, s: int, d: int)
    ensures (p - s) * d == p * d - s * d
  {}

  /** `v & -1` is v and `v & 0` is 0, for a bit v. */
  lemma AndOfBit(v: int)
    requires v == 0 || v == 1
    ensures And(v, -1) == v && And(v, 0) == 0
  {
    AndAllOnes(v);
    AndNothing(v);
    WordPattern(v);
  }

  /** `v & -1` is the int32 reading of v. */
  lemma AndAllOnes(v: int)
    ensures And(v, -1) == ToInt32(v)
  {
    var u := ToUint32(v);
    var ones := ToUint32(-1);
    assert ones == Pow2(32) - 1 by {
      WordWidth();
      DivModUnique(-1, TWO32, -1, TWO32 - 1);
    }
    assert Bitwise(AndOp, u, ones, 32) == u by {
      AndMask(u, 32, 32);
      BitwiseCommutes(AndOp, u, ones, 32);
      WordWidth();
      WordPattern(u);
    }
    WordPattern(u);
  }

  /** `v & 0` is 0. */
  lemma AndNothing(v: int)
    ensures And(v, 0) == 0
  {
    var u := ToUint32(v);
    AndZero(u, 32);
    BitwiseCommutes(AndOp, u, 0, 32);
  }

  /** Flipping bit 31 with `^ 0x80000000` flips the result of `>> 31`. */
  lemma XorSignBit(v: int)
    ensures Sar(Xor(v, 0x8000_0000), 31) == -1 - Sar(v, 31)
  {
    var u := ToUint32(v);
    var t := ToUint32(0x8000_0000);
    assert t == TWO31;
    var w := Bitwise(XorOp, u, t, 32);
    assert Xor(v, 0x8000_0000) == ToInt32(w);
    XorTopBit(u);
    Uint32OfInt32(w);
    SignShift(Xor(v, 0x8000_0000));
    SignShift(v);
  }

  lemma XorTopBit(u: Word)
    ensures Bitwise(XorOp, u, TWO31, 32) < TWO32
    ensures Bitwise(XorOp, u, TWO31, 32) >= TWO31 <==> u < TWO31
  {
    Pow2Constants();
    TopBitSplit(XorOp, u, TWO31, 32);
    BitwiseBound(XorOp, u, TWO31, 31);
    BitwiseBound(XorOp, u, TWO31, 32);
    DivModUnique(TWO31, TWO31, 1, 0);
    if u >= TWO31 {
      DivModUnique(u, TWO31, 1, u - TWO31);
    } else {
      DivModUnique(u, TWO31, 0, u);
    }
  }

  /** `(b & 1) << 1` is twice the bit. */
  lemma ShiftBitLeft(v: int)
    requires v == 0 || v == 1
    ensures Shl(v, 1) == 2 * v
  {
    assert Pow2(1) == 2;
    WordPattern(v);
    WordPattern(2 * v);
  }
}
