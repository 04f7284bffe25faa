# jn / yn — Bessel functions of integer order

This project models `special/jn.js`, a JavaScript port of the Sun/openlibm
routines `__ieee754_jn` and `__ieee754_yn`:

- `jn(n, x)` is the Bessel function of the first kind, J(n, x);
- `yn(n, x)` is the Bessel function of the second kind, Y(n, x).

Both routines first read the argument's two 32-bit words: `lx = lowWord(x)`,
`hx = highWord(x)`, `ix = 0x7fffffff & hx`. The word tests pick a route:

- a NaN;
- a zero;
- a negative argument (yn only);
- order 0 or 1, which calls the kernels j0/j1/y0/y1;
- an infinity;
- for jn, one of five regimes:
  - the asymptotic formula for |x| >= 2^302, using the `n&3` case tables;
  - the forward three-term recurrence for n <= |x|;
  - the leading Taylor term for |x| < 2^-30;
  - the backward recurrence for n > |x|, started from a continued fraction and
    anchored to j0 or j1, with optional rescaling;
  - 0 at zero and infinity;
- for yn, the asymptotic formula or the forward recurrence, which leaves early
  once the value reaches -Infinity.

How the model is built:

- **The argument.** `x` is its bit pattern, `Ieee.Double(hi, lo)`. It is
  decoded exactly to the real number an IEEE 754 binary64 pattern denotes.
- **Numbers.** JavaScript numbers are `Numbers.Num`: a real, +Infinity,
  -Infinity or NaN. Arithmetic on them is exact.
- **Bit operators.** JavaScript's `|`, `&`, `^`, `>>` and `<<` are defined on
  integers through ToInt32/ToUint32 (`Words`).
- **Loops.** Each loop of the source is a method in `Loops` or `Bessel`. It is
  proved to compute a recursive function of `Recurrences`.
- **The two routines.** `Bessel.Jn` and `Bessel.Yn` follow the source
  statement by statement. They are proved to return `JnSpec` / `YnSpec`,
  which read the route computed in `Dispatch`.
- **Properties.** `BesselProperties` states what the result is in terms of x:
  - the reflection formulas:
    - J(-n, x) = J(n, -x) for every x and n > 0;
    - J(n, -x) = (-1)^n J(n, x) for n >= 2 only. Orders 0 and 1 return
      j0(-x) and j1(-x), and the kernels j0, j1 are uninterpreted;
    - Y(-n, x) = (-1)^n Y(n, x) for n > 0 at every x except the two zeros,
      where both sides are -Infinity;
  - the special values;
  - exactness over the reals. The forward recurrence returns R(n) of the
    three-term recurrence seeded with the order-0 and order-1 values. The
    backward recurrence returns R(n) too, whenever its starting ratio is the
    true ratio R(n)/R(n-1).

Points where the code differs from what its comments say. The model follows
the code in each case:

- The threshold `ix < 0x3e100000` at line 118 is commented `x < 2**-29`.
  `Ieee.TinyThreshold` proves that it means |x| < 2^-30.
- The threshold `ix >= 0x52D00000` at lines 87 and 264 is commented
  `x > 2**302`. It means |x| >= 2^302 (`Ieee.HugeThreshold`).
- The NaN guard at lines 67 and 241 is `(ix | ((lx | -lx) >> 31)) > 0x7ff00000`.
  In JavaScript `>>` copies the sign bit, so `(lx | -lx) >> 31` is -1 or 0,
  never the 1 of the C original's unsigned shift.
  - The guard therefore fires only for NaNs whose low word is 0
    (`Dispatch.NaNGuardMeaning`).
  - Any other NaN goes on. `jn` returns 0 for it when |n| >= 2
    (`BesselProperties.JnSpecialValues`).
- Two tests read `bin_utils.highWord`, whose source is not part of this model:
  `hx < 0` at line 247 and `high != 0xfff00000` at line 291. Each can only
  fire under one convention:
  - `hx < 0` only if the high word is returned as a signed int32;
  - `high != 0xfff00000` can only stop the loop if it is returned unsigned.

  The convention is a parameter `Ieee.Signedness`. What each convention gives
  is proved:
  - for `hx < 0`, in `BesselProperties.YnSpecialValues`: NaN for a negative
    x under a signed decoder. Under an unsigned one, a negative x passes the
    test and takes the route its order and `ix` select;
  - for the exit, in `BesselProperties.YnOverflowValue`: when y1(x) is
    -Infinity at a finite nonzero x, the unsigned decoder stops the loop with
    an infinity. With a signed decoder the loop runs on and gives NaN from
    order 3 on.

  Arithmetic in the model is exact, so the recurrence itself never
  overflows. The exit, and the signed decoder's NaN, therefore arise only
  from the seed y1(x) = -Infinity (see "Left out").

## Model

| member | source | states |
|---|---|---|
| Numbers.Neg | special/jn.js:226 | JavaScript's unary minus on a number |
| Numbers.Add | special/jn.js:102 | JavaScript's `+`: exact on finite values; NaN for NaN operands and for Infinity + (-Infinity) |
| Numbers.Sub | special/jn.js:113 | JavaScript's `-`, as adding the negation |
| Numbers.Mul | special/jn.js:113 | JavaScript's `*`: exact on finite values; NaN for 0 times an infinity |
| Numbers.Div | special/jn.js:197 | JavaScript's `/`: exact for a nonzero finite divisor; a zero divisor is read as +0, giving an infinity of the dividend's sign, or NaN for 0/0 |
| Numbers.Abs | special/jn.js:218 | `Math.abs` |
| Words.Or | special/jn.js:67 | `\|` is a signed int32, computed on the two ToUint32 patterns |
| Words.And | special/jn.js:65 | `&` is a signed int32, computed on the two ToUint32 patterns |
| Words.Xor | special/jn.js:73 | `^` is a signed int32, computed on the two ToUint32 patterns |
| Words.Sar | special/jn.js:81 | `>>` is a signed int32: the ToInt32 value divided by 2^s, rounded down |
| Words.Shl | special/jn.js:253 | `<<` is a signed int32: the ToUint32 pattern times 2^s, read back by ToInt32 |
| Words.SignShift | special/jn.js:81 | `v >> 31` is -1 when bit 31 of v's 32-bit pattern is set and 0 otherwise |
| Words.NegationSmearShift | special/jn.js:67 | `(lx \| -lx) >> 31` is 0 when lx's pattern is zero and -1 otherwise (a signed shift, never 1) |
| Words.SmearPattern | special/jn.js:67 | the pattern of `lx \| -lx` is zero for a zero lx and has bit 31 set otherwise |
| Words.OrIsZero | special/jn.js:83 | `a \| b` is 0 exactly when both 32-bit patterns are 0 |
| Words.ClearSignBit | special/jn.js:65 | `0x7fffffff & hx` is hx's pattern with bit 31 cleared, whether hx is read signed or unsigned |
| Words.LowOrderBits | special/jn.js:101 | `n & 1` and `n & 3` are n mod 2 and n mod 4, for every integer n including negative ones |
| Words.XorSignBit | special/jn.js:73 | after `hx ^= 0x80000000`, `hx >> 31` flips between 0 and -1 |
| Words.ShiftBitLeft | special/jn.js:253 | `(n&1) << 1` is twice the low bit |
| Ieee.DecodedPattern | special/jn.js:238 | a decoded high word has the word's pattern, and is negative only when decoded signed with bit 31 set |
| Ieee.SpecialPatterns | special/jn.js:83 | `ix >= 0x7ff00000` exactly for the non-finite patterns; `ix == 0x7ff00000` with lo 0 exactly for the infinities; `ix > 0x7ff00000` only for NaNs |
| Ieee.ZeroPattern | special/jn.js:83 | a finite pattern is a zero exactly when its magnitude is 0 |
| Ieee.HugeThreshold | special/jn.js:87 | `ix >= 0x52D00000` exactly when \|x\| >= 2^302 |
| Ieee.TinyThreshold | special/jn.js:118 | `ix < 0x3e100000` exactly when \|x\| < 2^-30 |
| Ieee.NormalBounds | special/jn.js:87 | a normal pattern's magnitude lies in [2^(e-1023), 2^(e-1022)) for its exponent field e |
| Ieee.SubnormalBound | special/jn.js:118 | a subnormal pattern's magnitude is below 2^-1022 |
| Ieee.NegatedMeaning | special/jn.js:72-73 | `x = -x` flips only the sign bit: same `ix` and `lx`, value negated, negation an involution |
| Ieee.AbsoluteMeaning | special/jn.js:82 | `abs(x)` keeps `ix` and `lx`, clears the sign and has the absolute value; \|-x\| = \|x\| |
| Ieee.SameMagnitude | special/jn.js:82 | two patterns with the same `ix` and `lx` have the same class and magnitude, and values that differ only in sign |
| Ieee.HighWordIsNegInfMeaning | special/jn.js:290-291 | the exit test `high == 0xfff00000` holds exactly for -Infinity and only with an unsigned decoder |
| Ieee.NegInfHighWord | special/jn.js:290-291 | the modelled exit test agrees with decoding the high word of the actual pattern |
| Dispatch.SignCleared | special/jn.js:65 | `ix = 0x7fffffff & hx` lies in [0, 2^31) and is hx's 32-bit pattern without bit 31 |
| Dispatch.NaNGuard | special/jn.js:67 | the NaN guard `(ix \| ((lx \| -lx) >> 31)) > 0x7ff00000` on JavaScript's int32 operators; its meaning is `Dispatch.NaNGuardMeaning` |
| Dispatch.ZeroWords | special/jn.js:83 | the zero test `(ix \| lx) == 0`; its meaning is `Dispatch.ZeroWordsMeaning` |
| Dispatch.JnTable | special/jn.js:101-106 | jn's `n&3` table of the asymptotic formula; `Dispatch.TablesHalfTurn` states its symmetry |
| Dispatch.YnTable | special/jn.js:278-283 | yn's `n&3` table; `Dispatch.TablesShifted` relates it to jn's |
| Dispatch.JnRegime | special/jn.js:83-118 | the regime chosen by the tests on `ix`, `lx` and `n <= x`; `Dispatch.JnRegimeMeaning` states what it means for \|x\| |
| Dispatch.ClassifyJn | special/jn.js:63-82 | the route jn takes: the NaN guard, order reduction, j0/j1, or order \|n\|, argument \|x\|, regime and sign flag; `Dispatch.JnOrderReduction` and `Dispatch.JnGuardMeaning` state it in terms of n and x |
| Dispatch.ClassifyYn | special/jn.js:237-249 | the route yn takes through its special cases; `Dispatch.YnSpecialCases` states it in terms of x |
| Dispatch.YnOrderRoute | special/jn.js:250-264 | the route chosen from n and `ix` past the special cases; `Dispatch.YnOrderReduction` states it |
| Dispatch.SignClearedMeaning | special/jn.js:65 | `ix` is the high word without its sign bit under either decoder |
| Dispatch.NaNGuardMeaning | special/jn.js:67-69 | the NaN guard fires exactly when lo is 0 and `ix > 0x7ff00000` |
| Dispatch.ZeroWordsMeaning | special/jn.js:83 | `(ix \| lx) == 0` exactly for the two zeros |
| Dispatch.SignWordMeaning | special/jn.js:81 | `hx >> 31` is -1 exactly when the sign bit is set |
| Dispatch.TablesHalfTurn | special/jn.js:101-106 | both `n&3` tables negate under k -> k+2 |
| Dispatch.TablesShifted | special/jn.js:278-283 | yn's table entry k is jn's entry k+1 mod 4 |
| Dispatch.JnRegimeMeaning | special/jn.js:83-118 | the regime chosen from the words fits the number \|x\|: 0 for a zero or non-finite \|x\|, asymptotic for n <= \|x\| >= 2^302, forward for n <= \|x\| < 2^302, Taylor for \|x\| < n and \|x\| < 2^-30, backward otherwise |
| Dispatch.FiniteRegimeFits | special/jn.js:85-118 | for a finite nonzero \|x\| the word thresholds are the number thresholds of the regimes |
| Dispatch.JnGuardMeaning | special/jn.js:63-69 | jn returns x+x exactly for NaNs with low word 0 |
| Dispatch.JnOrderReduction | special/jn.js:70-82 | orders 0 and 1 go to j0/j1 (of -x for n = -1); otherwise the order is \|n\|, the argument \|x\|, and the result is negated exactly for odd \|n\| with the (flipped) sign bit set |
| Dispatch.JnNegatedOrder | special/jn.js:70-74 | the route of jn(-n, x) is the route of jn(n, -x) |
| Dispatch.JnNegatedArgument | special/jn.js:81-82 | for n >= 2, negating x changes only the sign flag, and only for odd n |
| Dispatch.YnSpecialCases | special/jn.js:237-249 | yn returns x+x exactly for NaNs with low word 0, -Infinity exactly at the zeros, and NaN exactly for a set sign bit under a signed decoder |
| Dispatch.YnOrderReduction | special/jn.js:250-264 | past the special cases: order 0 and 1 go to y0/y1 with sign -1 for odd negative orders; `ix == 0x7ff00000` gives 0 for \|n\| >= 2; otherwise order \|n\|, that sign, asymptotic exactly when `ix >= 0x52D00000` |
| Dispatch.YnSign | special/jn.js:251-254 | `sign = 1 - ((n&1)<<1)` after `n = -n` is -1 for odd orders and 1 for even ones |
| Recurrences.JnForward | special/jn.js:111-115 | the state (a, b) of jn's forward loop after steps i .. n-1; `Recurrences.JnForwardExact` gives its value |
| Recurrences.YnForward | special/jn.js:288-296 | the state of yn's forward loop, with its exit at -Infinity; `Recurrences.YnForwardExact`, `YnForwardNaN` and `YnForwardOverflow` give its value |
| Recurrences.Backward | special/jn.js:194-200 | the state of the unscaled backward loop after i steps; `Recurrences.BackwardInvertsForward` gives its value |
| Recurrences.Anchor | special/jn.js:216-222 | the anchoring `t*z/b` when \|z\| >= \|w\|, `t*w/a` otherwise; `Recurrences.AnchorScaleInvariant` states its invariance |
| Recurrences.JnForwardExact | special/jn.js:111-115 | from finite seeds the jn forward loop yields (R(n-1), R(n)) of the three-term recurrence |
| Recurrences.YnForwardExact | special/jn.js:291-296 | from finite seeds the yn forward loop never leaves early and yields (R(n-1), R(n)) |
| Recurrences.YnForwardNaN | special/jn.js:291-296 | a NaN state stays NaN to the end of the yn loop |
| Recurrences.YnForwardOverflow | special/jn.js:288-296 | with y1 = -Infinity at any nonzero x, the loop stops at once under an unsigned decoder; under a signed one it reaches NaN from order 3 on |
| Recurrences.Factorial | special/jn.js:127-128 | n! is at least 1, so the Taylor term's division is defined |
| Recurrences.PowerPositive | special/jn.js:129 | (x/2)^n is positive for a positive x |
| Recurrences.QGrowth | special/jn.js:156-157 | for w > 2, h > 0 the depth sequence Q is positive with increments above 1 |
| Recurrences.QAtLeast | special/jn.js:172-177 | Q(k) > k, so the depth search ends |
| Recurrences.Depth | special/jn.js:168-177 | the depth is at or after its start and reaches Q >= 1e9 |
| Recurrences.DepthIsLeast | special/jn.js:172-177 | no index before the depth reaches 1e9 |
| Recurrences.ContinuedFraction | special/jn.js:179 | the continued fraction for J(n,x)/J(n-1,x) lies in [0, 1), positive when it has a term |
| Recurrences.BackwardInvertsForward | special/jn.js:194-200 | run on (R(i+1), R(i)), the backward loop retraces the recurrence down to (R(1), R(0)) |
| Recurrences.BackwardLinear | special/jn.js:202-214 | the backward loop is linear: scaling its start scales its result |
| Recurrences.AnchorScaleInvariant | special/jn.js:216-222 | `t*z/b` and `t*w/a` ignore a common positive factor of t, a and b |
| Recurrences.Renormalisation | special/jn.js:178-222 | started from the true ratio R(n)/R(n-1) and 1, the backward loop and the anchoring to j0 or j1 return R(n) exactly |
| Recurrences.BackwardFromRatio | special/jn.js:180-200 | from (R(n)/R(n-1), 1) the backward loop reaches (R(1), R(0)) / R(n-1) |
| Loops.JnForwardLoop | special/jn.js:109-115 | the jn forward loop computes `JnForward` |
| Loops.YnForwardLoop | special/jn.js:287-296 | the yn forward loop, with its -Infinity exit, computes `YnForward` |
| Loops.TaylorLoop | special/jn.js:125-130 | the Taylor loop leaves a = n! and b = (x/2)^n |
| Loops.DepthSearch | special/jn.js:166-177 | the depth search ends with Q(k) >= 1e9, every earlier Q(j) below 1e9, z = w + kh and q0 = Q(k-1) |
| Loops.DepthOfLeast | special/jn.js:172-177 | the least k with Q(k) >= 1e9 is the depth |
| Loops.ContinuedFractionLoop | special/jn.js:179 | the `t = 1/(i/x-t)` loop evaluates the continued fraction from 2(n+k) down to 2n, in k + 1 steps |
| Loops.FractionStep | special/jn.js:179 | one step of that loop adds one partial denominator |
| Loops.BackwardLoop | special/jn.js:194-200 | the unscaled backward loop computes `Backward` from (t, 1) |
| Loops.BackwardLoopRescaled | special/jn.js:202-214 | the rescaling loop leaves t, a, b equal to a positive multiple of the unscaled t, a, b, so anchoring to any j0, j1 gives the unscaled run's value |
| Loops.TracksRescale | special/jn.js:209-213 | dividing a, t and b by b > 0 keeps the state a positive multiple of the unscaled run |
| Bessel.BackwardRatio | special/jn.js:162-179 | the starting ratio t of the backward method, cut at the depth `Recurrences.Depth`; `Bessel.StartingRatio` computes it |
| Bessel.JnMagnitude | special/jn.js:83-223 | the value b of each jn regime before the sign flag; `BesselProperties.JnForwardValue` and `JnBackwardValue` give it |
| Bessel.BackwardValue | special/jn.js:133-222 | the value of the backward method over the reals; `Bessel.JnBackward` computes it and `Recurrences.Renormalisation` says when it is exact |
| Bessel.MayOverflow | special/jn.js:190-193 | the test `n*log(\|2n/x\|) >= 7.0978...e+02` that selects the rescaling loop |
| Bessel.JnSpec | special/jn.js:55-230 | what jn returns for each route; `Bessel.Jn` returns it and the `BesselProperties` lemmas state it in terms of n and x |
| Bessel.YnSpec | special/jn.js:232-303 | what yn returns for each route; `Bessel.Yn` returns it and the `BesselProperties` lemmas state it in terms of n and x |
| Bessel.YnValue | special/jn.js:255-302 | the value of each yn route, with the sign applied |
| Bessel.Jn | special/jn.js:55-230 | `jn(n, x)` returns `JnSpec`: x+x, j0/j1, or the regime's magnitude negated by the sign flag |
| Bessel.JnLarge | special/jn.js:85-116 | for n <= \|x\|, the asymptotic formula with jn's table or the forward recurrence from j0, j1 |
| Bessel.JnSmall | special/jn.js:117-223 | for n > \|x\|, the Taylor term or the backward method |
| Bessel.JnTaylor | special/jn.js:118-132 | 0 past order 33, otherwise (\|x\|/2)^n / n! |
| Bessel.JnBackward | special/jn.js:133-222 | the depth search, continued fraction, backward run and anchoring compute `BackwardValue` |
| Bessel.StartingRatio | special/jn.js:162-179 | the depth search and the continued fraction give `BackwardRatio` |
| Bessel.SearchedRatio | special/jn.js:162-179 | a continued fraction cut at the least k with Q(k) >= 1e9 is `BackwardRatio` |
| Bessel.BackwardRun | special/jn.js:182-215 | when the overflow test passes, exactly the unscaled run; otherwise a positive multiple of it; either way it anchors to the unscaled run's value |
| Bessel.ScaledBackwardValue | special/jn.js:216-222 | anchoring a positively scaled run gives the same value as the unscaled one |
| Bessel.Yn | special/jn.js:232-303 | `yn(n, x)` returns `YnSpec`: the special values, y0 or sign*y1, 0 at `ix == 0x7ff00000`, or the asymptotic or forward value with the sign |
| Bessel.YnRegular | special/jn.js:250-302 | past the special cases, the value of the route chosen from n and `ix` |
| Bessel.YnMagnitude | special/jn.js:264-297 | the asymptotic formula with yn's table, or the forward recurrence from y0, y1 |
| BesselProperties.JnNegativeOrder | special/jn.js:60-74 | J(-n, x) = J(n, -x) for every x |
| BesselProperties.JnReflection | special/jn.js:80-82 | J(n, -x) = (-1)^n J(n, x) for n >= 2, NaNs included |
| BesselProperties.JnSpecialValues | special/jn.js:63-84 | for \|n\| >= 2: NaN for a NaN with low word 0; 0 at both zeros, both infinities and every other NaN |
| BesselProperties.JnForwardValue | special/jn.js:108-115 | with finite j0, j1 the forward regime returns R(n) exactly |
| BesselProperties.JnBackwardValue | special/jn.js:133-222 | when the starting ratio is the true R(n)/R(n-1), the backward regime returns R(n) exactly |
| BesselProperties.YnSpecialValues | special/jn.js:240-263 | NaN for a NaN with low word 0, -Infinity at the zeros, NaN for a negative x under a signed decoder, 0 at `ix == 0x7ff00000` for \|n\| >= 2 (and NaN there if the decoder reports hx < 0) |
| BesselProperties.YnReflection | special/jn.js:250-260 | Y(-n, x) = (-1)^n Y(n, x) except at the zeros, where both are -Infinity |
| BesselProperties.YnRouteReflection | special/jn.js:298-302 | past the special cases, negating the order negates the result exactly for odd orders |
| BesselProperties.YnForwardValue | special/jn.js:285-302 | with finite y0, y1 the forward route returns R(\|n\|), negated for negative odd n |
| BesselProperties.YnOverflowValue | special/jn.js:247-296 | with y1(x) = -Infinity at a finite nonzero x in the forward route: under an unsigned decoder -Infinity with yn's sign applied, for a negative x too (it passes `hx < 0`); NaN from order 3 on under a signed one |

## Left out

- Floating-point rounding. Arithmetic is exact on the reals, and results have
  no -0. A negative zero argument is still modelled through its bit pattern.
- The accuracy of the approximations: the asymptotic formula, the Taylor
  term, and how close the continued fraction is to J(n,x)/J(n-1,x).
  `BesselProperties.JnBackwardValue` takes the exact ratio as a hypothesis.
- The kernels `j0`, `j1`, `y0`, `y1` (`math.*`) and `Math.sin`, `Math.cos`,
  `Math.sqrt`, `Math.log`. They are defined elsewhere, so they are
  uninterpreted functions in the record `Bessel.Kernels`. `Math.abs` is
  modelled exactly.
- `bin_utils.highWord` / `lowWord` are not part of this model. Whether they
  return a signed int32 or an unsigned word is the parameter
  `Ieee.Signedness`, and every statement holds for the convention given.
- NaN payloads and signalling. Any NaN result is `NaN`.
- Overflow to ±Infinity. Arithmetic is exact, so the recurrences never
  overflow. The exit at line 291 and the signed decoder's NaN in
  `BesselProperties.YnOverflowValue` are therefore reached only when y1(x)
  is itself -Infinity.
- The closure wrapper and the registration `math.jn = jn; math.yn = yn`
  (lines 41-53 and 305-308). Their constants are kept: `invsqrtpi` is the
  exact decimal `Bessel.INVSQRTPI`, and the overflow bound is the exact
  decimal `Bessel.OVERFLOW_BOUND`.
- A non-integer or non-number order n. The model takes an integer n.
