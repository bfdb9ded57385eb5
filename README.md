# core-math integer core, modelled in Dafny

This project models the integer and bit-level parts of four correctly rounded
functions from the CORE-MATH library. It also models the three test drivers
that check them. The four functions are:

- `cr_hypotl`: hypot on the x87 80-bit extended format;
- `cr_exp2l`: 2^x on the x87 80-bit extended format;
- `cr_cbrtl`: the cube root on the x87 80-bit extended format;
- `cr_sinf`: the sine on binary32.

The three test drivers are:

- the exhaustive binary32 driver `check_exhaustive.c`;
- the special-value drivers for `log2l`;
- the special-value drivers for `hypotl`.

Floating-point numbers are modelled by their encodings.

- An 80-bit value is `Ext80.Bits80(m, e)`. `m` is the 64-bit significand with its explicit integer bit. `e` is the 16-bit sign-and-exponent word.
  - Its magnitude `Ext80.Mag` is an exact integer in units of 2^-16445, the smallest subnormal.
  - `Ext80.Canonical` says that the integer bit is set exactly when the biased exponent is nonzero.
- A binary32 value is its `u32` word (`Bin32`).

All integer widths are explicit:

- 64-bit and 128-bit wrap-around is written as `% 2^64` and `% 2^128`;
- shifts are `Words.Shl` and `Words.Shr`;
- an `int32_t` conversion is `Words.ToInt32`.

The rounding direction is an explicit parameter (`Ext80.RoundingMode`).

**hypotl.** The whole integer algorithm of `cr_hypotl` is modelled as methods:

- operand ordering;
- the NaN and infinity cases;
- normalisation of subnormals;
- the `d >= 32` shortcut;
- the 256-bit sum of squares `hh:ll`;
- the overflow tests;
- the integer square root with its correction step;
- the subnormal shift;
- the final rounding.

`Hypotl.CrHypotl` is proved against `HypotlSpec.HypotSpec`, for every canonical input and every rounding mode. `HypotSpec` is IEEE 754 hypot with the correctly rounded square root of the exact `x^2 + y^2`, returned as a canonical encoding.

That proof is about the corrected code (see Findings), which differs from hypotl.c in three places:

- the overflow test of line 281 uses `ll >= LT` rather than `ll > 0`;
- the `d >= 32` shortcut of lines 230-255 is taken only for a normal x;
- a subnormal result that rounds up to 2^63 also carries into the biased exponent 1 (lines 378-383 carry only when m wraps to 0).

Each of the three is also modelled as written, with a lemma that exhibits the wrong result.

**exp2l.** The integer parts of `cr_exp2l` are modelled:

- the range classification;
- the fast computation of `k = round(2^15 x)` from the significand bits;
- the split of `k` into the table indices and the exponent;
- the scaling of `h` and `l` by `2^e`, corrected so that a zero `l` stays zero (see Findings);
- the exception-table lookup;
- the path selection.

**cbrtl.** The argument reduction of `cr_cbrtl` is modelled (normalisation and `e = 3 * exp + i`), together with the final rescaling.

**sinf.** The following parts of `cr_sinf` are modelled:

- the input classification;
- the database lookup;
- the 256-bit Payne-Hanek product of `rbig`, with its index and fraction windows and its rounding;
- the symmetries of the 32-entry `tb` table.

## Model

| member | source | states |
|---|---|---|
| Hypotl.OrderOperands | src/binary80/hypot/hypotl.c:162-171 | the pair is the inputs or the inputs swapped, and afterwards the exponent of x is larger, or equal with the significand of x at least that of y |
| Hypotl.SpecialResult | src/binary80/hypot/hypotl.c:175-192 | once a NaN or infinity is involved, the result is +Inf exactly when neither operand is a signalling NaN and one is an infinity, and a quiet NaN otherwise |
| Hypotl.SpecialResultMatches | src/binary80/hypot/hypotl.c:175-192 | that special-case result is the one IEEE 754 hypot prescribes, with no inexact flag |
| Hypotl.Normalize | src/binary80/hypot/hypotl.c:207-209 | a subnormal significand shifted by its leading-zero count has its top bit set, and the exponent is adjusted so the value is unchanged |
| Hypotl.ShortcutAsWritten | src/binary80/hypot/hypotl.c:230-255 | the shortcut as written returns a positive encoding, and when rounding down or toward zero it returns sx with its sign cleared |
| Hypotl.ShortcutSubnormalMisscaled | src/binary80/hypot/hypotl.c:206-255 | for x = 2^-16383 (a subnormal) and y = 2^-16445 the shortcut returns a value other than the correctly rounded result |
| Hypotl.Shortcut | src/binary80/hypot/hypotl.c:230-255 | for a normal x with an exponent gap d >= 32, the result is the correctly rounded hypot in every rounding mode, with inexact set |
| Hypotl.ShortcutRounds | src/binary80/hypot/hypotl.c:232-244 | on the shortcut, \|x\| is the floor of the root on the grid of x and is never exact, and the root rounds up exactly when rounding upward, or to nearest with d = 32 and (h > m, or h = m and l > 2^62) |
| Hypotl.SumOfSquares | src/binary80/hypot/hypotl.c:258-267 | hh:ll (renormalised by 2 bits on carry, with the exponent raised by one) is exactly mx^2 + my^2 / 4^d, and hh >= 2^126 |
| Hypotl.SumNoCarry | src/binary80/hypot/hypotl.c:259-262 | without a carry, hh * 2^128 + ll is exactly the scaled sum of squares, and ll keeps the trailing zeros the subnormal shift needs |
| Hypotl.SumCarry | src/binary80/hypot/hypotl.c:263-267 | with a carry, the 2-bit renormalisation is exact, keeps both words below 2^128, and keeps the trailing zeros of ll |
| Hypotl.IntegerSqrt | src/binary80/hypot/hypotl.c:287-357 | th is the integer square root of hh and r = hh - th^2. In the subnormal range, hh and ll are shifted right exactly onto the subnormal grid and th < 2^63; otherwise 2^63 <= th < 2^64 |
| Hypotl.ShiftSubnormal | src/binary80/hypot/hypotl.c:333-341 | shifting hh:ll by 2k and the estimate by k keeps the estimate within one of the shifted integer square root, and the shift is exact |
| Hypotl.CorrectRoot | src/binary80/hypot/hypotl.c:343-357 | the correction step turns any estimate within one of the root into the exact integer square root, with its remainder |
| Hypotl.Round | src/binary80/hypot/hypotl.c:359-386 | corrected (see Findings): from th, r and ll, the encoding produced is the canonical correctly rounded square root in the given mode, with the exact inexact flag, including the carry into the next binade and, for a subnormal rounded up to 2^63, into the biased exponent 1 |
| Hypotl.SubnormalCarryAsWritten | src/binary80/hypot/hypotl.c:359-386 | as written: for x = {2^63 - 1, 0} and y = {0xf0000000, 0} to nearest, the floor 2^63 - 1 on the subnormal grid rounds up and lines 378-383 return the pseudo-denormal {2^63, 0}, which is no correctly rounded result in any mode; {2^63, 1} is the correct one |
| Hypotl.ScaledSum | src/binary80/hypot/hypotl.c:257-270 | the words hh:ll with the updated exponent represent exactly x^2 + y^2 |
| Hypotl.SqrtAndRound | src/binary80/hypot/hypotl.c:271-386 | corrected (see Findings: `ll >= LT` on line 281, the subnormal carry of lines 378-383): from hh:ll, the overflow tests, the root and the rounding give the canonical correctly rounded square root of x^2 + y^2 |
| Hypotl.GeneralPath | src/binary80/hypot/hypotl.c:257-386 | corrected (see Findings: `ll >= LT` on line 281, the subnormal carry of lines 378-383): for an exponent gap below 63, the integer path gives the canonical correctly rounded hypot in every mode, with the exact inexact flag |
| Hypotl.PathSureOverflow | src/binary80/hypot/hypotl.c:273-274 | when the exponent after the sum reaches 0x4000, the root overflows in every mode (+Inf or the largest finite value, inexact) |
| Hypotl.PathOverflowBoundary | src/binary80/hypot/hypotl.c:275-282 | at exponent 0x3fff the corrected test (hh > HT, or hh = HT and ll >= 2^126) decides overflow to nearest exactly |
| Hypotl.PrepareOperands | src/binary80/hypot/hypotl.c:194-216 | both significands are normalised with their values unchanged, and a subnormal x leaves a gap of at most 62 |
| Hypotl.FiniteHypot | src/binary80/hypot/hypotl.c:194-386 | corrected (see Findings: the shortcut only for a normal x, `ll >= LT` on line 281, the subnormal carry of lines 378-383): for finite ordered operands the result is the canonical correctly rounded sqrt(x^2 + y^2) with the exact inexact flag |
| Hypotl.HypotOrdered | src/binary80/hypot/hypotl.c:175-386 | corrected (see Findings, the three hypotl rows): for ordered operands the result meets the hypot specification, special cases included, with a canonical finite result |
| Hypotl.CrHypotl | src/binary80/hypot/hypotl.c:156-388 | corrected (see Findings, the three hypotl rows): for every pair of canonical encodings and every rounding mode, the result (canonical when finite) and the inexact flag meet IEEE 754 hypot |
| HypotlLemmas.SeedTooLarge | src/binary80/hypot/hypotl.c:343-350 | an estimate one above the root makes the wrapped remainder negative, and adding 2th - 1 gives the true remainder |
| HypotlLemmas.SeedExact | src/binary80/hypot/hypotl.c:343-357 | an exact estimate gives a remainder in [0, 2th], so no correction applies |
| HypotlLemmas.SeedTooSmall | src/binary80/hypot/hypotl.c:351-357 | an estimate one below the root gives a remainder of at least 2th + 1, and subtracting it gives the true remainder |
| HypotlLemmas.NearestDecision | src/binary80/hypot/hypotl.c:359-373 | the test r > th, or r = th with ll > 2^126 (or ll = 2^126 with th odd), is exactly "the root lies above th + 1/2, or on it with th odd" |
| HypotlLemmas.ShortcutNearest | src/binary80/hypot/hypotl.c:232-241 | for d >= 32, rounding to nearest goes up exactly when d = 32 and the y^2 word pair exceeds m + 1/4 |
| HypotlLemmas.ShortcutTieEven | src/binary80/hypot/hypotl.c:235-238 | y^2 = m + 1/4 forces m even, so the midpoint case with m odd cannot occur |
| HypotlLemmas.ShortcutFloor | src/binary80/hypot/hypotl.c:221-229 | for d >= 32, mx is the floor of sqrt(mx^2 4^d + my^2) on the grid of 4^d |
| HypotlScaling.SureOverflow | src/binary80/hypot/hypotl.c:273-274 | a scaled sum whose exponent reaches 0x4000 overflows in every mode |
| HypotlScaling.OverflowBoundary | src/binary80/hypot/hypotl.c:275-282 | with the test hh > HT or (hh = HT and ll >= LT), overflow to nearest is detected exactly, and the result is the overflow value in every mode |
| HypotlScaling.OverflowTestTooEager | src/binary80/hypot/hypotl.c:281 | with hh = HT and 0 < ll < LT, the written test reports overflow, but the correctly rounded result to nearest is the largest finite value and not +Inf |
| HypotlScaling.ShortcutDecision | src/binary80/hypot/hypotl.c:230-255 | on the grid of x, mx is the floor of the root, it is never exact, and it rounds up exactly in the modes the shortcut increments |
| HypotlScaling.GridDecision | src/binary80/hypot/hypotl.c:358-386 | on the grid of th, the exact case is r = 0 and ll = 0, and the rounding-up decision is the one the final rounding takes |
| HypotlScaling.ZeroOperand | src/binary80/hypot/hypotl.c:194-204 | hypot(x, 0) is \|x\| exactly |
| HypotlSpec.HypotSwap | src/binary80/hypot/hypotl.c:165-171 | the specification is symmetric in x and y, which justifies the swap |
| HypotlSpec.HypotNegate | src/binary80/hypot/hypotl.c:162-163 | the specification ignores the signs of x and y |
| HypotlSpec.NanBits | src/binary80/hypot/hypotl.c:116-133 | with exponent 0x7fff, is_nan is "m is not 2^63" and is_snan is "m is not 2^63 and bit 62 is clear" |
| HypotlSpec.RoundedEncoding | src/binary80/hypot/hypotl.c:359-386 | corrected (see Findings): a floor th on the grid of the result, incremented when rounding up, with the carry into the next binade and the carry of a subnormal 2^63 into the biased exponent 1, is the canonical encoding of the correctly rounded square root |
| HypotlSpec.InexactIff | src/binary80/hypot/hypotl.c:359-376 | the result is inexact exactly when it rounded up or the floor was not exact |
| SqrtRounding.RoundSqrtAtDown | src/binary80/hypot/hypotl.c:359-386 | rounding down or toward zero gives the floor of the root on the grid |
| SqrtRounding.RoundSqrtAtUp | src/binary80/hypot/hypotl.c:359-386 | rounding upward gives the least grid point whose square is at least the sum |
| SqrtRounding.RoundSqrtAtNearest | src/binary80/hypot/hypotl.c:359-386 | rounding to nearest gives a grid point within half a unit of the root, the even one on a tie |
| SqrtRounding.GridOfFloor | src/binary80/hypot/hypotl.c:218-229 | a 64-bit floor (with its top bit set above the subnormal range) fixes the result's exponent |
| Exp2l.Classify | src/binary80/exp2/exp2l.c:756-786 | exactly NaN and the infinities return x or +0 |
| Exp2l.ClassifyByValue | src/binary80/exp2/exp2l.c:760-786 | the bit tests select overflow exactly for x >= 16384, underflow exactly for x <= -16446, and the tiny path exactly on the two intervals around zero |
| Exp2l.GeneralRange | src/binary80/exp2/exp2l.c:788 | the general path sees -16446 < x < -0x1.71547652b82fe176p-65 or 0x1.71547652b82fe176p-64 < x < 16384 |
| Exp2l.UnderflowValue | src/binary80/exp2/exp2l.c:773-774 | 2^-16445 * 0.5 rounds to the smallest subnormal upward and to +0 otherwise |
| Exp2l.IndexRange | src/binary80/exp2/exp2l.c:469 | on the general path, -16446 * 2^15 <= k <= 16384 * 2^15 |
| Exp2l.RoundHalfAwayBracket | src/binary80/exp2/exp2l.c:453 | the rounded quotient is within half a unit of num / den |
| Exp2l.RoundedMagnitude | src/binary80/exp2/exp2l.c:451-467 | the wrapped 64-bit add, the carry branch and the shift give round-half-away(2^15 \|x\|), below 2^31 |
| Exp2l.ApplySign | src/binary80/exp2/exp2l.c:468-469 | (m ^ sgn) - sgn negates exactly when x is negative |
| Exp2l.FastIndex | src/binary80/exp2/exp2l.c:451-469 | the bit-level computation of k equals roundl(2^15 x) with ties away from zero |
| Exp2l.Split | src/binary80/exp2/exp2l.c:479-482 | the masked index and the arithmetic shift decompose k = e 2^15 + i2 2^10 + i1 2^5 + i0 with 5-bit digits |
| Exp2l.SplitUnique | src/binary80/exp2/exp2l.c:479-482 | that decomposition is the only one with digits in range |
| Exp2l.SplitExponent | src/binary80/exp2/exp2l.c:479-480 | e is floor(k / 2^15), so e >= -16355 exactly when k >= -16355 * 2^15 |
| Exp2l.ScaleLowAsWritten | src/binary80/exp2/exp2l.c:527-534 | adding e to the exponent field of l keeps its significand when the sum is positive |
| Exp2l.ZeroLowBecomesUnnormal | src/binary80/exp2/exp2l.c:527-532 | a zero l with e >= 1 becomes a non-canonical encoding: significand 0 with a nonzero exponent |
| Exp2l.UnnormalForOne | src/binary80/exp2/exp2l.c:451-534 | x = 1 takes the general path with k = 2^15 and e = 1, so a zero l is turned into an unnormal |
| Exp2l.ScaleLowSound | src/binary80/exp2/exp2l.c:527-534 | with zero left alone, scaling l keeps encodings canonical and multiplies by 2^e |
| Exp2l.FastPairMeaning | src/binary80/exp2/exp2l.c:515-541 | the fast path scales h and l by 2^e when e >= -16355 and returns two NaNs otherwise |
| Exp2l.FastPath | src/binary80/exp2/exp2l.c:448-542 | corrected (see Findings: a zero l stays zero): fast_path's integer steps produce that scaled pair |
| Exp2l.FindException | src/binary80/exp2/exp2l.c:702-710 | the lookup returns the first entry numerically equal to x, or a miss when there is none |
| Exp2l.AccuratePath | src/binary80/exp2/exp2l.c:702-720 | the accurate path answers from the first matching table entry, or else evaluates at the split of k |
| Exp2l.CrExp2l | src/binary80/exp2/exp2l.c:752-803 | corrected (see Findings: a zero l stays zero): each class gets its result: x for NaN and +Inf, +0 for -Inf, the overflow and underflow values, fma for tiny x, the fast value when the two ends agree, and otherwise the accurate path (always taken when e < -16355) |
| Ext80.NumEqCanonical | src/binary80/exp2/exp2l.c:704 | == on canonical encodings is equality of the bits for non-NaNs, and also holds between +0 and -0 |
| Ext80.MagAbove | src/binary80/exp2/exp2l.c:770-773 | the comparison with a constant read from the exponent and significand fields is the comparison of magnitudes |
| Ext80.ExponentScaling | src/binary80/exp2/exp2l.c:524-526 | adding e to the exponent field of a normal encoding multiplies its value by 2^e and keeps it canonical |
| Cbrtl.Reduce | src/binary80/cbrt/cbrtl.c:139-153 | the reduction gives a normalised significand and exponents with e - 16383 = 3 exp + i, 0 <= i < 3, within the ranges exp can take |
| Cbrtl.ReduceValue | src/binary80/cbrt/cbrtl.c:143-149 | normalisation keeps the value: \|x\| 2^63 = m 2^(e+62) |
| Cbrtl.Normalize | src/binary80/cbrt/cbrtl.c:141-149 | a subnormal significand is shifted to the top with the exponent lowered, keeping the value |
| Cbrtl.ThirdSplit | src/binary80/cbrt/cbrtl.c:151-152 | (e + 63) % 3 and (e + 63) / 3 - 5482 split e - 16383 into 3 exp + i |
| Cbrtl.CubeSplit | src/binary80/cbrt/cbrtl.c:153 | 2\|x\| is (m 2^i) times a perfect cube of a power of two, so cbrt(x) = cbrt(m/2^63 2^i) 2^exp |
| Cbrtl.ReducedArgument | src/binary80/cbrt/cbrtl.c:150 | setting the exponent field to 16383 gives the positive canonical m / 2^63 in [1, 2) |
| Cbrtl.Rescale | src/binary80/cbrt/cbrtl.c:276-278 | v.e += exp keeps the significand and sign and adds exp to the biased exponent |
| Cbrtl.ResultScaling | src/binary80/cbrt/cbrtl.c:275-278 | that rescaling multiplies the reduced result by 2^exp, keeping it canonical and with the sign of x |
| Cbrtl.CrCbrtl | src/binary80/cbrt/cbrtl.c:258-281 | NaN, the infinities and the zeros are returned unchanged. Otherwise the result is left rescaled by 2^exp when the two ends agree, and 0 when they do not |
| Sinf.FractionOfAx | src/binary32/sin/sinf.c:163 | ax << 8 is nonzero exactly when the fraction field is |
| Sinf.ClassifyByValue | src/binary32/sin/sinf.c:179-213 | the ax tests route each input by its magnitude: 0, tiny (below 2^-25), cubic (below 2^-12), NaN, infinity, large (above 2^26), the three database arguments, and the two reduction ranges |
| Sinf.LargeInDomain | src/binary32/sin/sinf.c:184-205 | rbig is reached for biased exponents 153 to 254, which keeps every shift in range |
| Sinf.LookupDatabase | src/binary32/sin/sinf.c:138-142 | the search returns the first entry matching \|x\| with the sign of x, and passes through exactly when none matches |
| Sinf.DatabaseCovers | src/binary32/sin/sinf.c:132-141 | the arguments routed to the database are found among its first three entries |
| Sinf.TableHalfTurn | src/binary32/sin/sinf.c:149-157 | tb[j + 16] is -tb[j] for every j: sin(x + pi) = -sin x |
| Sinf.TableMirror | src/binary32/sin/sinf.c:149-157 | tb[16 - j] is tb[j] for every j: sin(pi - x) = sin x |
| Sinf.TableOdd | src/binary32/sin/sinf.c:149-157 | tb[-j mod 32] is -tb[j] for every j: sine is odd |
| Sinf.EntriesUnderNegation | src/binary32/sin/sinf.c:217 | for -q, the sine entry is the negated one and the cosine entry is unchanged |
| Sinf.CrSinf | src/binary32/sin/sinf.c:179-220 | every class gets its path: x, the fma with ERANGE exactly on underflow, the cubic, NaN + NaN, EDOM, rbig with an index congruent to the rounded product mod 2^32, the database entry, or the near reductions |
| SinfReduction.CarryChain | src/binary32/sin/sinf.c:85-88 | the carry-propagated 128-bit partial products give exactly m times the 256-bit 1/(2 pi) constant |
| SinfReduction.MultiplyIpi | src/binary32/sin/sinf.c:84-89 | the five words are the product m * ipi, split at 64-bit boundaries |
| SinfReduction.Windows | src/binary32/sin/sinf.c:94-103 | in all three shift branches, i and a are the 64-bit windows of the product at 2^(192-s) and 2^(128-s) |
| SinfReduction.ExtractWindows | src/binary32/sin/sinf.c:83-103 | the index and fraction words are the windows of m * ipi selected by the exponent |
| SinfReduction.ReductionSplit | src/binary32/sin/sinf.c:81-111 | the rounded index times 2^64 plus the signed fraction is the product shifted by the exponent |
| SinfReduction.RoundedIndex | src/binary32/sin/sinf.c:104-108 | i - (a >> 63), negated for a negative x and truncated to int, is congruent mod 2^32 to the rounded index |
| SinfReduction.Rbig | src/binary32/sin/sinf.c:81-111 | q is congruent mod 2^32 to x * 16/pi rounded to nearest with the sign of x, and z is the signed 64-bit fraction word, complemented for a negative x |
| SinfReduction.TableIndexOfQ | src/binary32/sin/sinf.c:174 | ia & 31 and (ia + 8) & 31 depend only on q mod 32, so the congruence is enough for the table lookups |
| Bin32.Fields | src/binary32/support/check_exhaustive.c:76-91 | the word is sign 2^31 + exponent 2^23 + fraction |
| Bin32.NanInfByAbs | src/binary32/support/check_exhaustive.c:76-91 | NaN is \|x\| above 0x7f800000 and infinity is \|x\| equal to it |
| CheckExhaustive.TestsByFields | src/binary32/support/check_exhaustive.c:76-91 | is_nan and is_inf, testing e = 0xff or 0x1ff, are the IEEE classes and exclude each other |
| CheckExhaustive.IsEqualMeaning | src/binary32/support/check_exhaustive.c:93-101 | is_equal is an equivalence: NaNs all equal, other values equal by their bits, so +0 differs from -0 |
| CheckExhaustive.NanInputs | src/binary32/support/check_exhaustive.c:373-378 | the NaN inputs fed in are signalling and quiet NaNs of both signs |
| CheckExhaustive.Doit | src/binary32/support/check_exhaustive.c:156-272 | the failures reported are exactly those the value, flag and errno rules call for, each once and in the order of the checks |
| CheckExhaustive.PrintOrderUnique | src/binary32/support/check_exhaustive.c:156-272 | two lists in the order of the checks with the same failures are the same list, so Doit's contract fixes what is printed |
| CheckExhaustive.Compare | src/binary32/support/check_exhaustive.c:179-184 | a mismatch is reported exactly when the values are not is_equal |
| CheckExhaustive.UnderflowFlags | src/binary32/support/check_exhaustive.c:189-192 | the underflow flags compared are the reference's and the processor's after fix_underflow |
| CheckExhaustive.FlagChecks | src/binary32/support/check_exhaustive.c:194-236 | each spurious or missing underflow, overflow and (when checked) inexact flag is reported, each once |
| CheckExhaustive.ErrnoChecks | src/binary32/support/check_exhaustive.c:239-271 | EDOM is due exactly for a NaN result, ERANGE exactly when expected, and each discrepancy is reported once |
| CheckExhaustive.ErrnoPart | src/binary32/support/check_exhaustive.c:238-271 | the errno checks run only for a finite x with errno support |
| CheckExhaustive.FlagRules | src/binary32/support/check_exhaustive.c:186-236 | an underflow or overflow failure is reported exactly when the corrected flags differ, and a missing underflow needs an inexact reference |
| CheckExhaustive.ValueRules | src/binary32/support/check_exhaustive.c:179-271 | a mismatch is a NaN against a non-NaN or two different non-NaN words, and EDOM failures follow the NaN-ness of y |
| CheckExhaustive.Quieted | src/binary32/support/check_exhaustive.c:274-279 | setting the quiet bit yields a quiet NaN and keeps the other bits |
| CheckExhaustive.SignalingCheck | src/binary32/support/check_exhaustive.c:282-318 | the signalling-NaN check fails exactly on a signalling result and passes on the quieted input |
| CheckExhaustive.ExceptionInputsAreSpecial | src/binary32/support/check_exhaustive.c:354-369 | check_exceptions feeds only NaNs, infinities and zeros, alternating signs |
| CheckExhaustive.LargestFinite | src/binary32/support/check_exhaustive.c:388 | nmax is the largest finite word, and the next word is +Inf |
| CheckExhaustive.Doloop | src/binary32/support/check_exhaustive.c:371-401 | the six special inputs, then each n from 0 to nmax and n \| 0x80000000 |
| CheckExhaustive.DoloopCoverage | src/binary32/support/check_exhaustive.c:371-401 | doloop reaches every finite binary32 input of both signs plus the six specials, each exactly once |
| Check80.IsNanFields | src/binary80/log2/check_special.c:79-84 | the checkers' is_nan is "exponent all ones and m is not 2^63", and on canonical encodings it agrees with hypotl's NaN test |
| Check80.Verdict | src/binary80/log2/check_special.c:96-131 | FAIL exactly when the values differ, spurious or missing inexact exactly when the flags differ that way, and no message exactly when both agree |
| HypotCheck.GetRandom | src/binary80/hypot/check_special.c:62-77 | the low 63 bits come from the three draws, e from the fourth, and the integer bit is set exactly for a nonzero biased exponent, so the draw is canonical |
| HypotCheck.EveryCanonicalDrawn | src/binary80/hypot/check_special.c:62-77 | every canonical encoding can be drawn |
| HypotCheck.IsEqualMeaning | src/binary80/hypot/check_special.c:87-96 | is_equal is an equivalence: NaNs all equal, other encodings equal by their bits, so +0 differs from -0 |
| HypotCheck.Variants | src/binary80/hypot/check_special.c:149-160 | check runs eight sign and order variants, starting with (x, y) |
| HypotCheck.VariantsCover | src/binary80/hypot/check_special.c:149-160 | every swap and sign change of the pair is among them |
| HypotCheck.VariantsShareSpec | src/binary80/hypot/check_special.c:149-160 | all eight variants have the same correct hypot result |
| HypotCheck.CheckAux | src/binary80/hypot/check_special.c:98-147 | no failure exactly when the values are is_equal and the inexact flags agree |
| HypotCheck.SpecDecidesVerdict | src/binary80/hypot/check_special.c:98-147 | a reference and a function that both meet the specification never produce a failure |
| HypotCheck.RoundingUnique | src/binary80/hypot/check_special.c:121-145 | the correctly rounded result (a canonical encoding) and its inexact flag are unique |
| HypotCheck.CorrectPasses | src/binary80/hypot/check_special.c:149-160 | a correct cr_hypotl passes all eight variants, and all eight give the same encoding |
| Log2Check.RandomSignificand | src/binary80/log2/check_special.c:64-66 | the three draws fill bits 0-30, 31-61 and 62-63 of m |
| Log2Check.GetRandom | src/binary80/log2/check_special.c:60-77 | e is the fourth draw. The integer bit is forced on except for e = 0x7fff or 0xffff, and cleared for e = 0 only |
| Log2Check.GetRandomCanonical | src/binary80/log2/check_special.c:68-76 | a finite draw is canonical exactly when e is not 0x8000 |
| Log2Check.PseudoDenormalDrawn | src/binary80/log2/check_special.c:68-76 | e = 0x8000 yields the pseudo-denormal m = 2^63 with a zero biased exponent and the sign set |
| Log2Check.GetRandomIntended | src/binary80/log2/check_special.c:68-76 | clearing the integer bit whenever the biased exponent is zero makes every finite draw canonical |
| Log2Check.IsEqualMeaning | src/binary80/log2/check_special.c:86-94 | is_equal: NaNs equal each other only, other values compare by value, so +0 equals -0 |
| Log2Check.FrexpExponent | src/binary80/log2/check_special.c:143-145 | frexpl's exponent e satisfies 2^(e-1) <= \|x\| < 2^e |
| Log2Check.Doubling | src/binary80/log2/check_special.c:154-158 | K ends as the largest power of two not above f (1 for f = 0) |
| Log2Check.NegativeRange | src/binary80/log2/check_special.c:162-166 | for e < 0, [2K + 1, K] is exactly the exponents whose log2 lies in the binade of e |
| Log2Check.PositiveRange | src/binary80/log2/check_special.c:167-174 | for e >= 2, [K + 1, 2K] is exactly that binade, with K halved when e is a power of two |
| Log2Check.ExponentRange | src/binary80/log2/check_special.c:154-178 | [emin, emax] is exactly the set of exponents in the binade of e not below -16445, and it contains e |
| Log2Check.CheckExtended | src/binary80/log2/check_special.c:135-181 | NaNs, infinities and zeros are skipped, negative inputs fail the assertion, and otherwise every exponent of the binade is checked, in increasing order |
| Log2Check.SnanEncodings | src/binary80/log2/check_special.c:211-228 | the two encodings stored for "snan" and "-snan" are canonical signalling NaNs of each sign |
| Log2Check.LineItem | src/binary80/log2/check_special.c:198-232 | a line yields at most one value, and a comment line yields none |
| Log2Check.ParseLine | src/binary80/log2/check_special.c:209-232 | the value parsed from a non-comment line is that line's item |
| Log2Check.Store | src/binary80/log2/check_special.c:209-231 | storing appends the value after the first count items |
| Log2Check.Grow | src/binary80/log2/check_special.c:199-208 | the buffer doubles and keeps its items |
| Log2Check.ReadLine | src/binary80/log2/check_special.c:197-233 | one line appends its item and keeps the capacity a doubling of 512 that is at most twice the count |
| Log2Check.ReadStdin | src/binary80/log2/check_special.c:183-234 | the array holds exactly the items of the input lines, in order, with capacity 512 doubled as needed |

## Left out

- Floating-point evaluation is abstracted and not modelled:
  - MPFR;
  - the polynomial and table kernels `P`, `Pacc`, `d_mul` and `d_mul_double`;
  - the Newton steps of cbrtl;
  - the binary64 arithmetic of sinf after the reduction.

  Where the integer code consumes such a result it is a function parameter (`kernel`, `approx`, `gate`, `ldexp`, `parse`) with the properties the code relies on as preconditions.
- The rounding mode is an explicit parameter. The floating-point probes the source uses to read it (`z + 0x1p-53 > z`, `HUGE + 0x1p+16319L`) are replaced by tests on that parameter.
- Hypotl.IntegerSqrt: the binary64 estimate of sqrt(hh) and its Newton refinement (lines 287-327) are taken as any estimate within one of the integer square root (`seed` in -1..1). That the floating-point code always lands within one is not proved.
- Hypotl.CrHypotl: of the exception flags only inexact is modelled. Not modelled: overflow raised by `HUGE + HUGE` and `HUGE + 0x1p+16319L` (lines 274 and 282), invalid raised by `x + y` on a signalling NaN (line 180), a possible divide-by-zero from `1.0L / 0.0L` (lines 186 and 190), and the fact that the integer subnormal path never raises underflow.
- Hypotl.CrHypotl, Exp2l.CrExp2l, Cbrtl.CrCbrtl: the inputs are required to be canonical encodings, while the C code accepts any 80 bits. Unnormals, pseudo-denormals, pseudo-NaNs and pseudo-infinities are excluded, so what the code does with them is not modelled. The log2 checker can draw a pseudo-denormal (`Log2Check.PseudoDenormalDrawn`).
- Exp2l.CrExp2l: the tiny-input result `fmal(x, ±x, 1)` is reported as `TinyFma`, not computed. Only the integer part of the accurate path is modelled (the lookup and the split of k); its double-double kernel and the ldexpl near the subnormal range are not. That the rounding test of lines 791-798 returns the correctly rounded value is floating-point reasoning and is not modelled: `gate` is a parameter.
- Exp2l.ScaleLowSound: `__builtin_ldexpl` is a parameter assumed to return canonical encodings.
- Cbrtl.CrCbrtl: the left/right pair is a parameter, and its agreement is the only path modelled. The model returns the code's literal `0` when the ends disagree (the source has no accurate path there).
- Sinf.CrSinf: `rltl`, `rltl0`, the polynomial evaluation and `add_sign` are not modelled. `Rbig` returns the signed 64-bit fraction word, not its conversion `z * 2^-64` to binary64. The int conversions of `i` are modelled as 32-bit wrap-around, so the index is stated modulo 2^32; that is what the table lookups use.
- CheckExhaustive.Doit:
  - the reference and computed values and flags, errno, and MPFR's unbounded-exponent decision in `fix_underflow` are inputs;
  - `keep` is not a parameter: the list is every failure in print order (`Rank` gives that order), and without `--keep` the program stops at the first one;
  - OpenMP scheduling, `printf` and `exit` are not modelled.
- CheckExhaustive.Doloop: it returns the sequence of inputs handed to `doit`, not the calls themselves; `check_signaling_nan` and `check_exceptions` are modelled separately by their pass/fail predicates.
- Log2Check.CheckExtended:
  - the skip test `2 * x == x` is modelled by what it means for a canonical x (NaN, infinity or zero);
  - `frexpl` and `ldexpl` are modelled by the exponent only;
  - the call to `check` for each exponent is returned as the list of exponents.
- Log2Check.ReadStdin: `getline` is the list of lines. `sscanf("%La")` is the `parse` parameter. A failed `malloc`/`realloc` and `int` overflow of the capacity are not modelled.
- HypotCheck.CheckAux:
  - `rand_r` and the per-thread seeds are parameters;
  - the value under `DO_NOT_ABORT` (`return 1` in a `void` function) is not modelled;
  - `exit` is represented by the list of failures.
- The `main` functions, argument parsing, thread setup and the `mpfr`/`libm` reference wrappers are not part of this model.

## Findings

| source | as written | input that shows it | evidently intended | confidence | as-written member | corrected member |
|---|---|---|---|---|---|---|
| src/binary80/hypot/hypotl.c:281 | the overflow test for exponent 0x3fff is `hh > HT \|\| (hh == HT && ll > 0)`. `LT` is defined but unused | x = {m = 0xfffffffffffffffe, e = 0x7ffe}, y = {m = 0xddb3d742c265539d, e = 0x7fdf}, to nearest: hh = HT with 0 < ll < 2^126, so +Inf is returned where the largest finite value is correct | `hh > HT \|\| (hh == HT && ll >= LT)`, as the comment on lines 276-280 describes | not executed; high | HypotlScaling.OverflowTestTooEager | HypotlScaling.OverflowBoundary |
| src/binary80/hypot/hypotl.c:210-255 | for a subnormal x the significand is shifted in place, but the exponent field stays 0; the `d >= 32` shortcut then returns sx as it is | x = {m = 2^62, e = 0}, y = {m = 1, e = 0}: it returns the pseudo-denormal {m = 2^63, e = 0} instead of x (toward zero, down and to nearest) | take the shortcut only for a normal x; a subnormal x goes through the exact integer path, which handles gaps up to 62 | not executed; high | Hypotl.ShortcutSubnormalMisscaled | Hypotl.FiniteHypot |
| src/binary80/exp2/exp2l.c:527-532 | `w.e += e` is applied to l even when l is ±0, giving significand 0 under a nonzero exponent (an unnormal, which x87 arithmetic treats as invalid) | x = 1: k = 2^15, e = 1, and the kernel gives l = +0; the sums on lines 794-795 are then NaN and the accurate path runs, raising a spurious invalid flag | leave a zero l unscaled | not executed; medium (that l is exactly +0 for x = 1 depends on the floating-point kernel) | Exp2l.ZeroLowBecomesUnnormal | Exp2l.ScaleLowSound |
| src/binary80/hypot/hypotl.c:378-383 | after rounding up, the exponent is incremented only when m wraps to 0 | x = {m = 0x7fffffffffffffff, e = 0}, y = {m = 0xf0000000, e = 0}, to nearest: the root lies just below 2^-16382, th = 2^63 - 1 on the subnormal grid rounds up, and the pseudo-denormal {m = 2^63, e = 0} is returned. It has the right value, but it is not the canonical {m = 2^63, e = 1} that the hypot checker compares bits with | when a subnormal th reaches 2^63, set the biased exponent to 1 | not executed; high | Hypotl.SubnormalCarryAsWritten | Hypotl.Round |
| src/binary80/log2/check_special.c:68-76 | the integer bit is forced on for every e other than 0x7fff and 0xffff and cleared only for e == 0 | a fourth draw with low bits 0x8000 (negative, biased exponent 0) gives the pseudo-denormal {m = 2^63 \| low, e = 0x8000} | clear the integer bit whenever the biased exponent is 0, as the hypot checker does | not executed; high | Log2Check.PseudoDenormalDrawn | Log2Check.GetRandomIntended |

## Where comments and code differ (no effect on results)

- The comment on line 469 of exp2l.c gives -16445·2^15 <= k <= 16383·2^15. The general path actually reaches -16446·2^15 and 16384·2^15 (`Exp2l.IndexRange`). Both fit in `int32_t`, and the mask of line 479 is correct for them.
- The comment on lines 92-93 of sinf.c gives 155 <= e <= 254 for `rbig`. The guard `ax > 0x99000000` admits e = 153 and 154 as well (`Sinf.LargeInDomain`). Every shift is still between 1 and 63.
- The fourth database entry of `as_sinf_database` (0x1.2d97c8p+3) is never consulted: only the first three arguments are routed there (`Sinf.DatabaseCovers`).
- Lines 52-57 of the log2 checker describe sNaN as m = 2^63 + 2^62 - 1. The code stores m = 2^63 + 1 (lines 214-225). Both are signalling (`Log2Check.SnanEncodings`).
- For a NaN, exp2l and cbrtl `return x` without quieting it. A signalling NaN therefore comes back signalling; `Exp2l.CrExp2l` and `Cbrtl.CrCbrtl` state exactly that.
