/*
 * cr_hypotl (binary80/hypot/hypotl.c) as the sequence of steps it performs
 * on the x87 encodings of its operands: order the operands, answer NaN,
 * infinity and zero operands, normalise subnormal significands, then
 * either take the shortcut for a large exponent gap or form the exact
 * 256-bit sum of squares hh:ll, test for overflow, take the integer square
 * root of hh from a seed within one of it, and round.
 *
 * The floating-point parts of the source are parameters: the rounding mode
 * replaces the probes `z + 0x1p-53 > z` and `1.0 + eps > 1.0`, and `seed`
 * (in -1..1) stands for how far the binary64 estimate of lines 287-327 lands
 * from floor(sqrt(hh)).  Every method is proved against HypotSpec, the
 * correctly rounded hypotenuse; the ghost parameter S carries the exact
 * x^2 + y^2 through the stages.
 */
module Hypotl {
  import opened Words
  import opened Ext80
  import opened SqrtRounding
  import opened HypotlSpec
  import opened HypotlLemmas
  import opened HypotlScaling

  /** x_exp of a zero or subnormal operand: 0 - 0x3fff */
  const SUBNORMAL_EXP: int := -0x3fff

  // ---------------------------------------------------------------------
  // Ordering and the special operands (lines 160-192)

  /**
   * Lines 162-171: read the unbiased exponents with the sign masked off,
   * and swap the operands unless x is at least y in (exponent, significand)
   * order.
   */
  method OrderOperands(x: Bits80, y: Bits80) returns (sx: Bits80, sy: Bits80, xExp: int, yExp: int)
    ensures (sx, sy) == (x, y) || (sx, sy) == (y, x)
    ensures xExp == BiasedExp(sx) - BIAS && yExp == BiasedExp(sy) - BIAS
    ensures yExp < xExp || (yExp == xExp && sy.m <= sx.m)
  {
    sx, sy := x, y;
    xExp := BiasedExp(sx) - BIAS;
    yExp := BiasedExp(sy) - BIAS;
    if xExp < yExp || (xExp == yExp && sx.m < sy.m) {
      sx, sy := y, x;
      xExp, yExp := yExp, xExp;
    }
  }

  /**
   * Lines 175-192, reached when the larger operand has the all-ones
   * exponent: a signaling NaN gives NaN (x + y), two NaNs give NaN, a quiet
   * NaN beside an infinity gives +Inf, a quiet NaN beside a number gives
   * NaN, and an infinity beside anything else gives +Inf.  That is the
   * table of section 9.2.1 of IEEE 754-2019.
   */
  function SpecialResult(sx: Bits80, sy: Bits80, xExp: int, yExp: int): (r: Outcome)
    requires xExp == BiasedExp(sx) - BIAS && yExp == BiasedExp(sy) - BIAS
    requires xExp == 0x4000
    ensures r == QuietNaN || r == Number(PlusInf)
    ensures r == Number(PlusInf) <==> !IsSnan(sx) && !IsSnan(sy) && (IsInf(sx) || IsInf(sy))
  {
    if IsSnan(sx) || IsSnan(sy) then
      QuietNaN
    else if IsNan(sx) || IsNan(sy) then
      if IsNan(sx) && IsNan(sy) then
        QuietNaN
      else if xExp == 0x4000 && yExp == 0x4000 then
        Number(PlusInf)
      else
        QuietNaN
    else
      Number(PlusInf)
  }

  /** The special cases answer exactly as hypot must, in every mode. */
  lemma SpecialResultMatches(sx: Bits80, sy: Bits80, xExp: int, yExp: int, mode: RoundingMode)
    requires xExp == BiasedExp(sx) - BIAS && yExp == BiasedExp(sy) - BIAS
    requires xExp == 0x4000
    ensures HypotSpec(sx, sy, mode, SpecialResult(sx, sy, xExp, yExp), false)
  {
    assert IsNan(sx) || IsInf(sx);
  }

  // ---------------------------------------------------------------------
  // Subnormal operands (lines 206-215)

  /**
   * Lines 207-209: a subnormal significand is shifted left by its count of
   * leading zeros, and the exponent lowered by k - 1 (subnormals have the
   * exponent of the smallest normal binade), so that the value
   * m * 2^(exp - 63) is unchanged.  Values are counted in units of
   * 2^-16445 scaled by 2^63: m * 2^63 units.
   */
  method Normalize(m: u64, exp: int) returns (nm: u64, nexp: int)
    requires 0 < m < TWO63 && exp == SUBNORMAL_EXP
    ensures TWO63 <= nm && exp - 62 <= nexp <= exp && nexp == exp + 1 - Clz64(m)
    ensures nm * Pow2(nexp + 16445) == m * TWO63
  {
    var k := Clz64(m);
    assert m * Pow2(k) % Pow2(64) == m * Pow2(k) by {
      Pow2At64();
      DivModUnique(m * Pow2(k), TWO64, 0, m * Pow2(k));
    }
    nm := Shl(m, k, 64);
    nexp := exp - (k - 1);
    assert nexp + 16445 == 63 - k;
    assert nm * Pow2(63 - k) == m * TWO63 by {
      assert nm == m * Pow2(k);
      MulAssoc(m, Pow2(k), Pow2(63 - k));
      Pow2Split(k, 63);
      Pow2At63();
    }
  }

  // ---------------------------------------------------------------------
  // The shortcut for an exponent gap of at least 32 (lines 220-255)

  /**
   * The guard of the shortcut, corrected: the gap is at least 32 and x is
   * normal.  For a subnormal x, lines 212-214 have already shifted sx.m,
   * so the shortcut would return the shifted significand with the
   * unchanged exponent field; such an x goes through the exact path
   * instead, which is exact for gaps up to 62.
   */
  predicate ShortcutGuard(d: int, xBiased: nat) {
    d >= 32 && xBiased != 0
  }

  /** The guard as line 230 writes it. */
  predicate ShortcutGuardAsWritten(d: int) {
    d >= 32
  }

  /**
   * Lines 230-255 for a normal x: |x| (sx with its sign bit cleared) is the
   * floor of the result on the grid of x, the result is never exact, and
   * the significand is incremented, carrying into the exponent, when
   * rounding upward, or to nearest when d == 32 and y^2 > m + 1/4 in units
   * of ulp(x)^2 (h > m, or h == m and l > 2^62).
   */
  method Shortcut(sx: Bits80, my: u64, d: nat, mode: RoundingMode, ghost S: nat)
    returns (res: Bits80, inexact: bool)
    requires 1 <= BiasedExp(sx) <= 0x7ffe && TWO63 <= sx.m && TWO63 <= my && d >= 32
    requires S * Pow4(d) == Pow4(BiasedExp(sx) - 1) * (sx.m * sx.m * Pow4(d) + my * my)
    ensures RoundedSqrt(S, mode, res, inexact)
  {
    var b := BiasedExp(sx);
    var bump := false;
    if d == 32 {
      var yy := my * my;
      var h, l, m := Shr(yy, 64), yy % TWO64, sx.m;
      if h > m || (h == m && l > TWO62) {
        bump := true;
      }
    }
    res := Bits80(sx.m, b);
    var up := mode == Upward || (mode == ToNearest && bump);
    if up {
      var m := (res.m + 1) % TWO64;
      if m == 0 {
        res := Bits80(TWO63, b + 1);
      } else {
        res := Bits80(m, b);
      }
    }
    inexact := true;
    IncrementWraps(sx.m);
    ShortcutRounds(S, b, sx.m, my, d, mode, bump);
    RoundedEncoding(S, b - 1, sx.m, b, mode, up, res, inexact);
  }

  /**
   * Lines 230-255 as written, where the guard is only d >= 32: sx is the
   * larger operand as the code holds it at that point, so for a subnormal x
   * its significand has already been shifted by lines 212-214 while its
   * exponent field is still 0.  The result is sx with the sign cleared, or
   * its successor when the mode rounds up.
   */
  function ShortcutAsWritten(sx: Bits80, my: u64, d: int, mode: RoundingMode): (res: Bits80)
    requires ShortcutGuardAsWritten(d) && BiasedExp(sx) < EXP_INF_NAN
    ensures SignBit(res) == 0
    ensures mode == TowardZero || mode == Downward ==> res == Bits80(sx.m, BiasedExp(sx))
  {
    var b := BiasedExp(sx);
    var yy := my * my;
    var bump := d == 32 && (Shr(yy, 64) > sx.m || (Shr(yy, 64) == sx.m && yy % TWO64 > TWO62));
    var up := mode == Upward || (mode == ToNearest && bump);
    if !up then Bits80(sx.m, b)
    else if sx.m + 1 == TWO64 then Bits80(TWO63, b + 1)
    else Bits80(sx.m + 1, b)
  }

  /**
   * The shortcut as written misreads a subnormal x.  For x = 2^-16383
   * (m = 2^62, field 0) and y = 2^-16445 (m = 1, field 0), lines 206-215
   * shift x to m = 2^63 with x_exp unchanged and y by 63 bits, so d = 62 and
   * the shortcut returns m = 2^63 with field 0, which reads as 2^-16382:
   * twice |x|.  Rounded toward zero, hypot(x, y) is x itself.
   */
  lemma ShortcutSubnormalMisscaled()
    ensures var x, y := Bits80(TWO62, 0), Bits80(1, 0);
      var S := SumSq(x, y);
      && Clz64(x.m) == 1 && Clz64(y.m) == 63
      && RoundedSqrt(S, TowardZero, x, true)
      && !RoundedSqrt(S, TowardZero, ShortcutAsWritten(Bits80(TWO63, 0), TWO63, 62, TowardZero), true)
  {
    var x, y := Bits80(TWO62, 0), Bits80(1, 0);
    assert Mag(x) == TWO62 && Mag(y) == 1 by {
      assert Pow2(0) == 1;
    }
    var res := ShortcutAsWritten(Bits80(TWO63, 0), TWO63, 62, TowardZero);
    assert res == Bits80(TWO63, 0);
    TinySumRounds(SumSq(x, y), x, res);
    ClzOfPowers();
  }

  /** sqrt(2^124 + 1) rounded toward zero on the subnormal grid is 2^62. */
  lemma TinySumRounds(S: nat, x: Bits80, res: Bits80)
    requires S == TWO62 * TWO62 + 1
    requires x == Bits80(TWO62, 0) && res == Bits80(TWO63, 0)
    ensures RoundedSqrt(S, TowardZero, x, true) && !RoundedSqrt(S, TowardZero, res, true)
  {
    assert Pow2(0) == 1;
    ISqrtUnique(S, TWO62);
    assert UlpExp(S) == 0;
    assert RoundSqrtAt(S, 0, TowardZero) == TWO62;
    assert Mag(x) == TWO62 && Mag(res) == TWO63;
  }

  /** clz(2^62) == 1 and clz(1) == 63 */
  lemma ClzOfPowers()
    ensures Clz64(TWO62) == 1 && Clz64(1) == 63
  {
    Pow2Consts();
    assert Pow2(1) == 2;
    ClzExact(TWO62, 1);
    ClzExact(1, 63);
  }

  /** The shift that brings bit 63 to the top is the count of leading zeros. */
  lemma ClzExact(m: nat, k: nat)
    requires 0 < m < TWO64 && k < 64 && TWO63 <= m * Pow2(k) < TWO64
    ensures Clz64(m) == k
  {
    var c := Clz64(m);
    if c < k {
      ShiftPastTop(m, c, k);
    } else if k < c {
      ShiftPastTop(m, k, c);
    }
  }

  /** Shifting a word with bit 63 set further left leaves 64 bits. */
  lemma ShiftPastTop(m: nat, a: nat, b: nat)
    requires a < b && TWO63 <= m * Pow2(a)
    ensures m * Pow2(b) >= TWO64
  {
    var P, Q := Pow2(a), Pow2(b - a);
    Pow2Add(a, b - a);
    MulAssoc(m, P, Q);
    Pow2Mono(1, b - a);
    assert Pow2(1) == 2;
    MulLeMul(2, Q, m * P);
  }

  /** The 64-bit increment wraps to zero exactly at 2^64 - 1. */
  lemma IncrementWraps(m: nat)
    requires m < TWO64
    ensures (m + 1) % TWO64 == (if m + 1 == TWO64 then 0 else m + 1)
  {
    if m + 1 == TWO64 {
      DivModUnique(m + 1, TWO64, 1, 0);
    } else {
      DivModUnique(m + 1, TWO64, 0, m + 1);
    }
  }

  /** ShortcutDecision with the test of line 239 written on h = yy >> 64 and l = yy mod 2^64. */
  lemma ShortcutRounds(S: nat, b: nat, mx: nat, my: nat, d: nat, mode: RoundingMode, bump: bool)
    requires 1 <= b && TWO63 <= mx < TWO64 && 0 < my < TWO64 && d >= 32
    requires S * Pow4(d) == Pow4(b - 1) * (mx * mx * Pow4(d) + my * my)
    requires bump == (d == 32 && (Shr(my * my, 64) > mx
                                  || (Shr(my * my, 64) == mx && (my * my) % TWO64 > TWO62)))
    ensures FloorSqrtAt(S, b - 1, mx) && mx * mx * Pow4(b - 1) != S
    ensures RoundsUp(S, b - 1, mx, mode) <==> (mode == Upward || (mode == ToNearest && bump))
  {
    Pow2At64();
    ShortcutDecision(S, b - 1, mx, my, d, mode);
  }

  // ---------------------------------------------------------------------
  // The exact sum of squares (lines 257-269)

  /**
   * Lines 258-267: hh:ll = xx * 2^128 + yy * 2^(128 - 2d) on 256 bits; when
   * the 128-bit addition carries, hh:ll is shifted right by two with the
   * carry as bit 126 of hh, and the exponent goes up by one.  The result is
   * exact and normalised: 2^126 <= hh < 2^128, and hh:ll times 4 per carry
   * is (mx^2 * 4^d + my^2) * 4^(64 - d).  The low 128 - 2d bits of ll (two
   * fewer after a carry) are zero.
   */
  method SumOfSquares(mx: u64, my: u64, d: nat, xExp: int)
    returns (hh: u128, ll: u128, xExp1: int)
    requires TWO63 <= mx && d <= 62
    ensures xExp1 == xExp || xExp1 == xExp + 1
    ensures TWO126 <= hh
    ensures (hh * TWO128 + ll) * Pow4(xExp1 - xExp) == Pow4(64 - d) * (mx * mx * Pow4(d) + my * my)
    ensures ll % Pow2(128 - 2 * d - 2 * (xExp1 - xExp)) == 0
  {
    var dd := d + d;
    var xx := mx * mx;
    var yy := my * my;
    SquaresRange(mx, my);
    Pow2At128();
    var hs := xx + Shr(yy, dd);
    hh := hs % TWO128;
    ll := if dd > 0 then Shl(yy, 128 - dd, 128) else 0;
    xExp1 := xExp;
    SumWrap(xx, hs);
    if hh < xx {
      var hw, low := hh, ll;
      SumCarry(xx, yy, d, dd, hw, low);
      ll := DisjointOr(Shl(hw, 126, 128), Shr(low, 2), 126);
      hh := DisjointOr(TWO126, Shr(hw, 2), 126);
      xExp1 := xExp + 1;
    } else {
      SumNoCarry(xx, yy, d, dd, hh, ll);
    }
  }

  lemma SquaresRange(mx: u64, my: u64)
    requires TWO63 <= mx
    ensures TWO126 <= mx * mx < TWO128 && my * my < TWO128
  {
    MulLeMul(TWO63, mx, TWO63);
    MulLeMul(TWO63, mx, mx);
    MulLtMul(mx, TWO64, mx);
    MulLtMul(mx, TWO64, TWO64);
    MulLtMul(my, TWO64, TWO64);
    MulLeMul(my, TWO64, my);
  }

  /** The 128-bit addition carries (hs leaves 128 bits) exactly when hh < xx. */
  lemma SumWrap(xx: nat, hs: nat)
    requires xx <= hs < xx + TWO128 && xx < TWO128
    ensures hs % TWO128 < xx <==> hs >= TWO128
    ensures hs >= TWO128 ==> hs % TWO128 == hs - TWO128
    ensures hs < TWO128 ==> hs % TWO128 == hs
  {
    if hs >= TWO128 {
      DivModUnique(hs, TWO128, 1, hs - TWO128);
    } else {
      DivModUnique(hs, TWO128, 0, hs);
    }
  }

  /** Lines 259-262 without a carry: hh:ll is the exact sum. */
  lemma SumNoCarry(xx: nat, yy: nat, d: nat, dd: nat, hh: nat, ll: nat)
    requires yy < TWO128 && d <= 62 && dd == 2 * d
    requires hh == xx + Shr(yy, dd) && ll == (if dd > 0 then Shl(yy, 128 - dd, 128) else 0)
    ensures (hh * TWO128 + ll) * Pow4(0) == Pow4(64 - d) * (xx * Pow4(d) + yy)
    ensures ll % Pow2(128 - 2 * d - 2 * 0) == 0
  {
    SumExact(xx, yy, dd);
    SumWords(xx, yy, d);
    assert Pow4(0) == 1;
  }

  /**
   * Lines 263-267: after a carry (hw = hh - 2^128 is what is left of hh),
   * the two ORs join disjoint fields, and the renormalised hh:ll is a
   * quarter of the sum.
   */
  lemma SumCarry(xx: nat, yy: nat, d: nat, dd: nat, hw: nat, low: nat)
    requires xx < TWO128 && yy < TWO128 && d <= 62 && dd == 2 * d
    requires hw == xx + Shr(yy, dd) - TWO128 && hw >= 0
    requires low == (if dd > 0 then Shl(yy, 128 - dd, 128) else 0)
    ensures Shl(hw, 126, 128) % Pow2(126) == 0 && Shr(low, 2) < Pow2(126)
    ensures TWO126 % Pow2(126) == 0 && Shr(hw, 2) < Pow2(126)
    ensures TWO126 + Shr(hw, 2) < TWO128 && Shl(hw, 126, 128) + Shr(low, 2) < TWO128
    ensures ((TWO126 + Shr(hw, 2)) * TWO128 + (Shl(hw, 126, 128) + Shr(low, 2))) * Pow4(1)
            == Pow4(64 - d) * (xx * Pow4(d) + yy)
    ensures (Shl(hw, 126, 128) + Shr(low, 2)) % Pow2(128 - 2 * d - 2 * 1) == 0
  {
    var hs := xx + Shr(yy, dd);
    assert hs * TWO128 + low == Pow4(64 - d) * (xx * Pow4(d) + yy)
        && low < TWO128 && low % Pow2(128 - dd) == 0 by {
      SumExact(xx, yy, dd);
      SumWords(xx, yy, d);
    }
    var hi, lo, hq := Shl(hw, 126, 128), Shr(low, 2), Shr(hw, 2);
    assert hs == TWO128 + hw;
    CarryExact(hw, low, 128 - dd);
    assert 128 - 2 * d - 2 * 1 == 128 - dd - 2;
    Pow2At126();
    assert Pow4(1) == 4 by {
      Pow2Two();
    }
  }

  // ---------------------------------------------------------------------
  // The integer square root (lines 287-357)

  /** The 256-bit word hh0:ll0 is 4^k times hh:ll: a right shift by 2k bits that loses nothing. */
  ghost predicate Rescaled(hh0: nat, ll0: nat, k: nat, hh: nat, ll: nat) {
    hh0 * TWO128 + ll0 == Pow4(k) * (hh * TWO128 + ll)
  }

  /**
   * Lines 287-357.  The seed th is floor(sqrt(hh)) + seed (lines 287-327
   * compute it in binary64 and are not modelled).  A subnormal result is
   * first shifted to the grid of the subnormals, then one correction step
   * makes th = floor(sqrt(hh)) with r = hh - th^2.
   */
  method IntegerSqrt(hh0: u128, ll0: u128, xExp0: int, seed: int)
    returns (th: nat, r: nat, hh: u128, ll: u128, xExp: int)
    requires TWO126 <= hh0 && -1 <= seed <= 1
    requires xExp0 >= -0x3ffe - 63
    requires xExp0 < -0x3ffe ==> ll0 % Pow2(2 * (-0x3ffe - xExp0)) == 0
    ensures th * th <= hh < (th + 1) * (th + 1) && r == hh - th * th
    ensures xExp0 >= -0x3ffe ==> hh == hh0 && ll == ll0 && xExp == xExp0 && TWO63 <= th < TWO64
    ensures xExp0 < -0x3ffe ==> xExp == SUBNORMAL_EXP && th < TWO63
    ensures xExp0 < -0x3ffe ==> Rescaled(hh0, ll0, -0x3ffe - xExp0, hh, ll)
  {
    ISqrtRange(hh0);
    th := ISqrt(hh0) + seed;
    hh, ll, xExp := hh0, ll0, xExp0;
    if xExp < -0x3ffe {
      th, hh, ll, xExp := ShiftSubnormal(th, hh, ll, xExp);
    }
    th, r := CorrectRoot(th, hh);
  }

  /**
   * Lines 333-341: for a result below the smallest normal (x_exp < -0x3ffe)
   * hh:ll is shifted right by 2k bits and th by k bits, k = -0x3ffe - x_exp,
   * so that the last bit of th weighs 2^-16445, and x_exp becomes the
   * subnormal exponent.  The shift is exact, and the seed stays within one
   * of the root, which now has at most 63 bits.
   */
  method ShiftSubnormal(th0: nat, hh0: u128, ll0: u128, xExp0: int)
    returns (th: nat, hh: u128, ll: u128, xExp: int)
    requires -0x3ffe - 63 <= xExp0 < -0x3ffe
    requires ll0 % Pow2(2 * (-0x3ffe - xExp0)) == 0
    requires th0 <= TWO64 && ISqrt(hh0) <= th0 + 1 && th0 <= ISqrt(hh0) + 1
    ensures xExp == SUBNORMAL_EXP && ISqrt(hh) < TWO63
    ensures th <= TWO64 && ISqrt(hh) <= th + 1 && th <= ISqrt(hh) + 1
    ensures Rescaled(hh0, ll0, -0x3ffe - xExp0, hh, ll)
  {
    var k := -0x3ffe - xExp0;
    SubnormalShiftExact(hh0, ll0, k);
    SeedShift(hh0, th0, k);
    ShiftedRootBelow(hh0, k);
    th := Shr(th0, k);
    ll := DisjointOr(Shl(hh0, 128 - 2 * k, 128), Shr(ll0, 2 * k), 128 - 2 * k);
    hh := Shr(hh0, 2 * k);
    xExp := xExp0 + k - 1;
  }

  /**
   * Lines 343-357: r = hh - th^2 on 128 bits; a set top bit means th is one
   * too large, r >= 2th + 1 that it is one too small.  Afterwards th is
   * floor(sqrt(hh)) and r the remainder hh - th^2.
   */
  method CorrectRoot(th0: nat, hh: u128) returns (th: nat, r: nat)
    requires th0 <= TWO64 && ISqrt(hh) <= th0 + 1 && th0 <= ISqrt(hh) + 1
    ensures th * th <= hh < (th + 1) * (th + 1) && r == hh - th * th
    ensures th == ISqrt(hh)
  {
    th := th0;
    r := (hh - (th * th) % TWO128) % TWO128;
    CorrectionStep(hh, th);
    Pow2At127();
    if Shr(r, 127) != 0 {
      r := (r + 2 * th - 1) % TWO128;
      th := th - 1;
    } else if r >= 2 * th + 1 {
      r := r - (2 * th + 1);
      th := th + 1;
    }
    ISqrtBounds(hh);
    ISqrtUnique(hh, th);
  }

  // ---------------------------------------------------------------------
  // Rounding (lines 359-386)

  /**
   * Lines 359-386: the result is exact when r == 0 and ll == 0; otherwise
   * the significand th is incremented (carrying into the exponent when it
   * wraps) when rounding upward, or to nearest when hh:ll lies above
   * (th + 1/2)^2, or on it with th odd.  Proved against the correctly
   * rounded square root of S on the grid of the exponent x_exp.
   *
   * Corrected: a subnormal th = 2^63 - 1 that rounds up also carries, into
   * the biased exponent 1, so the result is the canonical 2^-16382; lines
   * 378-383 as written leave the pseudo-denormal {2^63, 0}
   * (RoundBitsAsWritten, SubnormalCarryAsWritten).
   */
  method Round(th: nat, r: nat, ll: u128, xExp: int, mode: RoundingMode, ghost hh: nat, ghost S: nat)
    returns (res: Bits80, inexact: bool)
    requires th * th <= hh < (th + 1) * (th + 1) && r == hh - th * th
    requires SUBNORMAL_EXP <= xExp <= 0x3fff
    requires if xExp == SUBNORMAL_EXP then th < TWO63 else TWO63 <= th < TWO64
    requires S * Pow4(64) == Pow4(if xExp == SUBNORMAL_EXP then 0 else xExp + 0x3ffe) * (hh * TWO128 + ll)
    ensures RoundedSqrt(S, mode, res, inexact)
  {
    var exact := r == 0 && ll == 0;
    var nearestUp := r > th || (r == th && (ll > TWO126 || (ll == TWO126 && th % 2 == 1)));
    var b := xExp + BIAS;
    res := Bits80(th, b);
    var up := !exact && (mode == Upward || (mode == ToNearest && nearestUp));
    if up {
      var m := (res.m + 1) % TWO64;
      if m == 0 {
        res := Bits80(TWO63, b + 1);
      } else if m == TWO63 && b == 0 {
        res := Bits80(TWO63, 1);
      } else {
        res := Bits80(m, b);
      }
    }
    inexact := !exact;
    IncrementWraps(th);
    ghost var G := if b == 0 then 0 else b - 1;
    GridDecision(S, G, hh, ll, th, mode);
    RoundedEncoding(S, G, th, b, mode, up, res, inexact);
  }

  /**
   * Lines 373-385 as written: th with the biased exponent b, incremented
   * when the mode rounds up, carrying into the exponent only when the
   * 64-bit significand wraps to 0.
   */
  function RoundBitsAsWritten(th: nat, b: nat, up: bool): Bits80
    requires th < TWO64 && b <= 0x7ffe
  {
    if !up then Bits80(th, b)
    else if (th + 1) % TWO64 == 0 then Bits80(TWO63, b + 1)
    else Bits80((th + 1) % TWO64, b)
  }

  /**
   * The rounding of lines 359-386 as written, for x = {2^63 - 1, 0} and
   * y = {0xf0000000, 0} to nearest: sqrt(x^2 + y^2) lies just below
   * 2^-16382, its floor th = 2^63 - 1 on the subnormal grid (biased exponent
   * 0) rounds up, and lines 378-383 return the pseudo-denormal {2^63, 0}.
   * No correctly rounded result in any mode is that encoding; the
   * canonical {2^63, 1}, which Round returns, is the one to nearest.
   */
  lemma SubnormalCarryAsWritten()
    ensures var x, y := Bits80(TWO63 - 1, 0), Bits80(0xf000_0000, 0);
      var S := SumSq(x, y);
      var th := TWO63 - 1;
      && Canonical(x) && Canonical(y)
      && FloorSqrtAt(S, 0, th) && RoundsUp(S, 0, th, ToNearest)
      && RoundBitsAsWritten(th, 0, true) == Bits80(TWO63, 0)
      && (forall mode, inexact :: !RoundedSqrt(S, mode, Bits80(TWO63, 0), inexact))
      && RoundedSqrt(S, ToNearest, Bits80(TWO63, 1), true)
  {
    var x, y := Bits80(TWO63 - 1, 0), Bits80(0xf000_0000, 0);
    assert Pow2(0) == 1;
    assert Pow4(0) == 1 by {
      assert Pow2(2 * 0) == 1;
    }
    var S := SumSq(x, y);
    var th := TWO63 - 1;
    assert S == th * th + 225 * 0x100_0000_0000_0000;
    NearTopOfSubnormals(S, th);
    IncrementWraps(th);
    DivModUnique(th + 1, TWO64, 0, th + 1);
    RoundedEncoding(S, 0, th, 0, ToNearest, true, Bits80(TWO63, 1), true);
  }

  /** (2^63 - 1)^2 + 225 * 2^56 has floor root 2^63 - 1, and rounds up to nearest. */
  lemma NearTopOfSubnormals(S: nat, th: nat)
    requires th == TWO63 - 1 && S == th * th + 225 * 0x100_0000_0000_0000
    ensures FloorSqrtAt(S, 0, th) && RoundsUp(S, 0, th, ToNearest)
  {
    assert Pow4(0) == 1 by {
      assert Pow2(2 * 0) == 1;
    }
    assert (th + 1) * (th + 1) == th * th + 2 * th + 1;
    assert (2 * th + 1) * (2 * th + 1) == 4 * (th * th) + 4 * th + 1;
  }

  // ---------------------------------------------------------------------
  // The exact path (lines 257-386)

  /**
   * Lines 257-386 for operands mx * 2^(xExp - 63) and my * 2^(xExp - d - 63)
   * with normalised significands and a gap d of at most 62: the sum of
   * squares, the overflow test, the integer square root and the rounding
   * give the correctly rounded sqrt(S), where S * 4^63 is
   * 4^(xExp - d + 16445) * (mx^2 * 4^d + my^2).
   */
  method GeneralPath(mx: u64, my: u64, xExp: int, d: nat, mode: RoundingMode, seed: int, ghost S: nat)
    returns (res: Bits80, inexact: bool)
    requires TWO63 <= mx && TWO63 <= my && -1 <= seed <= 1
    requires d <= 62 && SUBNORMAL_EXP - 62 <= xExp - d && xExp <= 0x3fff
    requires S * Pow4(63) == Pow4(xExp - d + 16445) * (mx * mx * Pow4(d) + my * my)
    ensures RoundedSqrt(S, mode, res, inexact)
  {
    var hh, ll, xExp1 := ScaledSum(mx, my, d, xExp, S);
    if xExp1 >= 0x3fff {
      if xExp1 >= 0x4000 {
        PathSureOverflow(S, hh, ll, xExp1, mode);
        return OverflowValue(mode), true;
      }
      if Overflows(hh, ll) {
        PathOverflowBoundary(S, hh, ll, mode);
        return OverflowValue(mode), true;
      }
    }
    res, inexact := SqrtAndRound(hh, ll, xExp1, mode, seed, S);
  }

  /** Lines 257-270: the sum of squares, with the scale of S it keeps. */
  method ScaledSum(mx: u64, my: u64, d: nat, xExp: int, ghost S: nat)
    returns (hh: u128, ll: u128, xExp1: int)
    requires TWO63 <= mx && TWO63 <= my
    requires d <= 62 && SUBNORMAL_EXP - 62 <= xExp - d
    requires S * Pow4(63) == Pow4(xExp - d + 16445) * (mx * mx * Pow4(d) + my * my)
    ensures TWO126 <= hh && -0x3ffe - 63 <= xExp1 <= xExp + 1
    ensures xExp1 < -0x3ffe ==> ll % Pow2(2 * (-0x3ffe - xExp1)) == 0
    ensures S * Pow4(127) == Pow4(xExp1 + 16445) * (hh * TWO128 + ll)
  {
    hh, ll, xExp1 := SumOfSquares(mx, my, d, xExp);
    PathScale(S, mx, my, d, xExp, hh, ll, xExp1);
    PathShiftable(d, xExp, ll, xExp1);
  }

  /** After the sum, S * 4^127 == 4^(x_exp + 16445) * (hh * 2^128 + ll). */
  lemma PathScale(S: nat, mx: nat, my: nat, d: nat, xExp: int, hh: nat, ll: nat, xExp1: int)
    requires d <= 62 && SUBNORMAL_EXP - 62 <= xExp - d
    requires S * Pow4(63) == Pow4(xExp - d + 16445) * (mx * mx * Pow4(d) + my * my)
    requires xExp1 == xExp || xExp1 == xExp + 1
    requires (hh * TWO128 + ll) * Pow4(xExp1 - xExp) == Pow4(64 - d) * (mx * mx * Pow4(d) + my * my)
    ensures S * Pow4(127) == Pow4(xExp1 + 16445) * (hh * TWO128 + ll)
  {
    PathInvariant(S, mx * mx * Pow4(d) + my * my, hh * TWO128 + ll, d, xExp, xExp1);
  }

  /** Lines 288-386: the integer square root and the rounding, once no overflow is possible. */
  method SqrtAndRound(hh: u128, ll: u128, xExp1: int, mode: RoundingMode, seed: int, ghost S: nat)
    returns (res: Bits80, inexact: bool)
    requires TWO126 <= hh && -1 <= seed <= 1
    requires -0x3ffe - 63 <= xExp1 <= 0x3fff
    requires xExp1 < -0x3ffe ==> ll % Pow2(2 * (-0x3ffe - xExp1)) == 0
    requires S * Pow4(127) == Pow4(xExp1 + 16445) * (hh * TWO128 + ll)
    ensures RoundedSqrt(S, mode, res, inexact)
  {
    var th, r, hh2, ll2, xExp2 := IntegerSqrt(hh, ll, xExp1, seed);
    PathGrid(S, hh, ll, xExp1, hh2, ll2, xExp2);
    res, inexact := Round(th, r, ll2, xExp2, mode, hh2, S);
  }

  /** The scale of S carried through the sum: W is the exact sum, N the normalised hh:ll. */
  lemma PathInvariant(S: nat, W: int, N: int, d: nat, xExp: int, xExp1: int)
    requires d <= 62 && SUBNORMAL_EXP - 62 <= xExp - d
    requires S * Pow4(63) == Pow4(xExp - d + 16445) * W
    requires xExp1 == xExp || xExp1 == xExp + 1
    requires N * Pow4(xExp1 - xExp) == Pow4(64 - d) * W
    ensures S * Pow4(127) == Pow4(xExp1 + 16445) * N
  {
    SumInvariant(S, W, N, d, xExp - d + 16445, xExp1 - xExp);
  }

  /** Lines 273-274: x_exp >= 0x4000 overflows in every mode. */
  lemma PathSureOverflow(S: nat, hh: nat, ll: nat, xExp1: int, mode: RoundingMode)
    requires TWO126 <= hh && xExp1 >= 0x4000
    requires S * Pow4(127) == Pow4(xExp1 + 16445) * (hh * TWO128 + ll)
    ensures RoundedSqrt(S, mode, OverflowValue(mode), true)
  {
    MulLeMul(TWO126, hh, TWO128);
    SureOverflow(S, hh * TWO128 + ll, xExp1 + 16445, mode);
  }

  /** Lines 275-282 with the threshold the comments state. */
  lemma PathOverflowBoundary(S: nat, hh: nat, ll: nat, mode: RoundingMode)
    requires hh < TWO128 && ll < TWO128 && Overflows(hh, ll)
    requires S * Pow4(127) == Pow4(0x3fff + 16445) * (hh * TWO128 + ll)
    ensures RoundedSqrt(S, mode, OverflowValue(mode), true)
  {
    NormalInvariant(S, hh * TWO128 + ll, 0x3fff + 16445);
    OverflowBoundary(S, hh, ll, mode);
  }

  /**
   * For a subnormal result the 2k bits that lines 338-339 shift out of ll
   * are zero: k = -0x3ffe - x_exp is at most 63 - d - carry, because y is
   * at least the smallest subnormal.
   */
  lemma PathShiftable(d: nat, xExp: int, ll: nat, xExp1: int)
    requires d <= 62 && SUBNORMAL_EXP - 62 <= xExp - d
    requires xExp1 == xExp || xExp1 == xExp + 1
    requires ll % Pow2(128 - 2 * d - 2 * (xExp1 - xExp)) == 0
    ensures xExp1 >= -0x3ffe - 63
    ensures xExp1 < -0x3ffe ==> ll % Pow2(2 * (-0x3ffe - xExp1)) == 0
  {
    if xExp1 < -0x3ffe {
      MultipleOfSmallerPower(ll, 2 * (-0x3ffe - xExp1), 128 - 2 * d - 2 * (xExp1 - xExp));
    }
  }

  /** The grid of the result after IntegerSqrt: S * 4^64 == 4^G * (hh * 2^128 + ll). */
  lemma PathGrid(S: nat, hh: nat, ll: nat, xExp1: int, hh2: nat, ll2: nat, xExp2: int)
    requires -0x3ffe - 63 <= xExp1 <= 0x3fff
    requires S * Pow4(127) == Pow4(xExp1 + 16445) * (hh * TWO128 + ll)
    requires xExp1 >= -0x3ffe ==> hh2 == hh && ll2 == ll && xExp2 == xExp1
    requires xExp1 < -0x3ffe ==> xExp2 == SUBNORMAL_EXP
    requires xExp1 < -0x3ffe ==> Rescaled(hh, ll, -0x3ffe - xExp1, hh2, ll2)
    ensures S * Pow4(64) == Pow4(if xExp2 == SUBNORMAL_EXP then 0 else xExp2 + 0x3ffe) * (hh2 * TWO128 + ll2)
  {
    if xExp1 >= -0x3ffe {
      NormalInvariant(S, hh * TWO128 + ll, xExp1 + 16445);
    } else {
      ShiftInvariant(S, hh * TWO128 + ll, hh2 * TWO128 + ll2, -0x3ffe - xExp1, xExp1 + 16445);
      assert Pow4(0) == 1;
    }
  }

  // ---------------------------------------------------------------------
  // The whole function (lines 156-388)

  /**
   * The significand m and unbiased exponent E the code works with describe
   * v: Mag(v) * 2^63 == m * 2^(E + 16445).
   */
  ghost predicate OnScale(v: Bits80, m: nat, E: int) {
    SUBNORMAL_EXP - 62 <= E && Mag(v) * TWO63 == m * Pow2(E + 16445)
  }

  lemma NormalOnScale(v: Bits80)
    requires 1 <= BiasedExp(v) <= 0x7ffe
    ensures OnScale(v, v.m, BiasedExp(v) - BIAS)
  {
    NormalScale(v);
  }

  lemma SubnormalOnScale(v: Bits80, nm: nat, nexp: int)
    requires BiasedExp(v) == 0 && SUBNORMAL_EXP - 62 <= nexp
    requires nm * Pow2(nexp + 16445) == v.m * TWO63
    ensures OnScale(v, nm, nexp)
  {
    assert Pow2(0) == 1;
  }

  /** Both operands on one scale: S * 4^63 == 4^(y_exp + 16445) * (mx^2 * 4^d + my^2). */
  lemma OrderedScale(sx: Bits80, sy: Bits80, mx: nat, my: nat, xE: int, yE: int, d: int)
    requires OnScale(sx, mx, xE) && OnScale(sy, my, yE) && yE <= xE && d == xE - yE
    ensures SumSq(sx, sy) * Pow4(63) == Pow4(xE - d + 16445) * (mx * mx * Pow4(d) + my * my)
  {
    SumScale(Mag(sx), Mag(sy), mx, my, xE + 16445, yE + 16445);
  }

  /** The same sum on the scale of the shortcut, whose x is normal with biased exponent b. */
  lemma OrderedShortcutScale(S: nat, sx: Bits80, mx: nat, my: nat, xE: int, d: int)
    requires mx == sx.m && BiasedExp(sx) == xE + BIAS && BiasedExp(sx) >= 1 && 0 <= d <= xE + 16445
    requires S * Pow4(63) == Pow4(xE - d + 16445) * (mx * mx * Pow4(d) + my * my)
    ensures S * Pow4(d) == Pow4(BiasedExp(sx) - 1) * (sx.m * sx.m * Pow4(d) + my * my)
  {
    var x2: nat := mx * mx;
    var y2: nat := my * my;
    var W: nat := x2 * Pow4(d) + y2;
    var Ex: nat := xE + 16445;
    ShortcutScale(S, W, d, Ex);
  }

  /**
   * Lines 206-215 for nonzero finite ordered operands: a subnormal y, and
   * then a subnormal x, is normalised; a normal operand keeps its
   * significand and exponent.
   */
  method PrepareOperands(sx: Bits80, sy: Bits80, xExp: int, yExp: int)
    returns (mx: u64, my: u64, xE: int, yE: int)
    requires Canonical(sx) && Canonical(sy)
    requires xExp == BiasedExp(sx) - BIAS && yExp == BiasedExp(sy) - BIAS && xExp < 0x4000
    requires yExp < xExp || (yExp == xExp && sy.m <= sx.m)
    requires sy.m != 0
    ensures TWO63 <= mx && TWO63 <= my && yE <= xE <= 0x3fff
    ensures OnScale(sx, mx, xE) && OnScale(sy, my, yE)
    ensures BiasedExp(sx) == 0 ==> xE - yE <= 62
    ensures BiasedExp(sx) != 0 ==> mx == sx.m && xE == xExp
  {
    mx, my := sx.m, sy.m;
    xE, yE := xExp, yExp;
    if yExp == SUBNORMAL_EXP {
      my, yE := Normalize(sy.m, yExp);
      SubnormalOnScale(sy, my, yE);
      if xExp == SUBNORMAL_EXP {
        mx, xE := Normalize(sx.m, xExp);
        SubnormalOnScale(sx, mx, xE);
        Clz64Mono(sy.m, sx.m);
      } else {
        NormalOnScale(sx);
      }
    } else {
      NormalOnScale(sx);
      NormalOnScale(sy);
    }
  }

  /**
   * Lines 175-386 once the operands are ordered: the special operands
   * (lines 181-201), then the finite ones.
   */
  method HypotOrdered(sx: Bits80, sy: Bits80, xExp: int, yExp: int, mode: RoundingMode, seed: int)
    returns (res: Outcome, inexact: bool)
    requires Canonical(sx) && Canonical(sy) && -1 <= seed <= 1
    requires xExp == BiasedExp(sx) - BIAS && yExp == BiasedExp(sy) - BIAS
    requires yExp < xExp || (yExp == xExp && sy.m <= sx.m)
    ensures HypotSpec(sx, sy, mode, res, inexact)
  {
    if xExp == 0x4000 {
      SpecialResultMatches(sx, sy, xExp, yExp, mode);
      return SpecialResult(sx, sy, xExp, yExp), false;
    }
    var r, inx := FiniteHypot(sx, sy, xExp, yExp, mode, seed);
    return Number(r), inx;
  }

  /**
   * Lines 203-386 for finite ordered operands: a zero y returns |x|
   * exactly, otherwise the subnormals are normalised and the shortcut (for
   * a normal x) or the exact path rounds sqrt(x^2 + y^2).
   */
  method FiniteHypot(sx: Bits80, sy: Bits80, xExp: int, yExp: int, mode: RoundingMode, seed: int)
    returns (res: Bits80, inexact: bool)
    requires Canonical(sx) && Canonical(sy) && -1 <= seed <= 1
    requires xExp == BiasedExp(sx) - BIAS && yExp == BiasedExp(sy) - BIAS && xExp < 0x4000
    requires yExp < xExp || (yExp == xExp && sy.m <= sx.m)
    ensures RoundedSqrt(SumSq(sx, sy), mode, res, inexact)
  {
    if yExp == SUBNORMAL_EXP && sy.m == 0 {
      ZeroOperand(sx, sy, mode);
      if xExp == SUBNORMAL_EXP && sx.m == 0 {
        return PlusZero, false;
      }
      return Bits80(sx.m, BiasedExp(sx)), false;
    }
    var mx, my, xE, yE := PrepareOperands(sx, sy, xExp, yExp);
    ghost var S := SumSq(sx, sy);
    var d := xE - yE;
    OrderedScale(sx, sy, mx, my, xE, yE, d);
    if ShortcutGuard(d, BiasedExp(sx)) {
      OrderedShortcutScale(S, sx, mx, my, xE, d);
      res, inexact := Shortcut(sx, my, d, mode, S);
      return;
    }
    res, inexact := GeneralPath(mx, my, xE, d, mode, seed, S);
  }

  /**
   * cr_hypotl(x, y) in rounding mode `mode`, with the binary64 seed of the
   * square root `seed` away from floor(sqrt(hh)): the result is the one
   * hypot must return under section 9.2.1 of IEEE 754-2019, correctly
   * rounded, and inexact is raised exactly when the result is inexact.
   */
  method CrHypotl(x: Bits80, y: Bits80, mode: RoundingMode, seed: int) returns (res: Outcome, inexact: bool)
    requires Canonical(x) && Canonical(y) && -1 <= seed <= 1
    ensures HypotSpec(x, y, mode, res, inexact)
  {
    var sx, sy, xExp, yExp := OrderOperands(x, y);
    res, inexact := HypotOrdered(sx, sy, xExp, yExp, mode, seed);
    HypotSwap(x, y, mode, res, inexact);
  }
}
