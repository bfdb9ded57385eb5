/*
 * What cr_hypotl (binary80/hypot/hypotl.c) computes, stated without its
 * algorithm: the NaN and infinity rules of section 9.2.1 of IEEE 754-2019,
 * and otherwise sqrt(x^2 + y^2) correctly rounded in the current rounding
 * mode, with the inexact flag raised exactly when the result is inexact.
 * All magnitudes are integers in units of 2^-16445 (see Ext80), so the
 * exact value is sqrt(SumSq(x, y)) and RoundedSqrt says which encoding is
 * its rounding.
 */
module HypotlSpec {
  import opened Words
  import opened Ext80
  import opened SqrtRounding

  /** is_nan: exponent field all ones and (m << 1) != 0 on 64 bits. */
  predicate IsNan(s: Bits80) {
    BiasedExp(s) == EXP_INF_NAN && Shl(s.m, 1, 64) != 0
  }

  /** is_snan: a NaN whose quiet bit (bit 62 of m) is clear. */
  predicate IsSnan(s: Bits80) {
    var m := Shl(s.m, 1, 64);
    BiasedExp(s) == EXP_INF_NAN && m != 0 && Shr(m, 63) == 0
  }

  predicate IsInf(s: Bits80) {
    BiasedExp(s) == EXP_INF_NAN && !IsNan(s)
  }

  predicate IsZero(s: Bits80) {
    BiasedExp(s) == 0 && s.m == 0
  }

  /** The same encoding with the sign bit flipped (the C `-x`). */
  function Negate(s: Bits80): (r: Bits80)
    ensures r.m == s.m && BiasedExp(r) == BiasedExp(s) && SignBit(r) == 1 - SignBit(s)
  {
    var r := Bits80(s.m, (s.e + TWO15) % TWO16);
    SignFlip(s.e);
    r
  }

  lemma SignFlip(e: nat)
    requires e < TWO16
    ensures ((e + TWO15) % TWO16) % TWO15 == e % TWO15
    ensures ((e + TWO15) % TWO16) / TWO15 == 1 - e / TWO15
  {
  }

  /** x^2 + y^2 in units of 2^-32890 */
  function SumSq(x: Bits80, y: Bits80): nat {
    Mag(x) * Mag(x) + Mag(y) * Mag(y)
  }

  /**
   * res is sqrt(S) correctly rounded in mode on the binary80 grid, and
   * inexact says whether that rounding changed the value: past the largest
   * finite value the result is OverflowValue(mode), and otherwise the
   * canonical nonnegative finite encoding of the rounded value.
   */
  predicate RoundedSqrt(S: nat, mode: RoundingMode, res: Bits80, inexact: bool) {
    var G := UlpExp(S);
    var V := RoundSqrtAt(S, G, mode) * Pow2(G);
    if V > MaxFiniteMag() then
      res == OverflowValue(mode) && inexact
    else
      BiasedExp(res) != EXP_INF_NAN && SignBit(res) == 0 && Mag(res) == V && Canonical(res)
      && inexact == (V * V != S)
  }

  /**
   * hypot(x, y): a signaling NaN gives a quiet NaN; otherwise an infinity
   * gives +Inf even beside a quiet NaN; otherwise a NaN gives a quiet NaN;
   * otherwise the correctly rounded sqrt(x^2 + y^2).  None of the special
   * cases is inexact.
   */
  predicate HypotSpec(x: Bits80, y: Bits80, mode: RoundingMode, res: Outcome, inexact: bool) {
    if IsSnan(x) || IsSnan(y) then
      res == QuietNaN && !inexact
    else if IsInf(x) || IsInf(y) then
      res == Number(PlusInf) && !inexact
    else if IsNan(x) || IsNan(y) then
      res == QuietNaN && !inexact
    else
      res.Number? && RoundedSqrt(SumSq(x, y), mode, res.bits, inexact)
  }

  // ---------------------------------------------------------------------
  // The classification predicates on canonical encodings

  /**
   * For a canonical encoding with an all-ones exponent, is_nan holds
   * exactly when m is not 2^63 (the infinity), and is_snan exactly when
   * moreover bit 62 is clear.
   */
  lemma NanBits(s: Bits80)
    requires Canonical(s) && BiasedExp(s) == EXP_INF_NAN
    ensures IsNan(s) <==> s.m != TWO63
    ensures IsSnan(s) <==> s.m != TWO63 && s.m < TWO63 + TWO62
    ensures IsInf(s) <==> s.m == TWO63
  {
    Pow2Consts();
    Pow2Add(1, 63);
    assert Pow2(1) == 2;
    var m := Shl(s.m, 1, 64);
    assert s.m * 2 == TWO64 + 2 * (s.m - TWO63);
    DivModUnique(s.m * 2, TWO64, 1, 2 * (s.m - TWO63));
    assert m == 2 * (s.m - TWO63);
    if m < TWO63 {
      DivModUnique(m, TWO63, 0, m);
    } else {
      DivModUnique(m, TWO63, 1, m - TWO63);
    }
  }

  /** Swapping the operands does not change hypot. */
  lemma HypotSwap(x: Bits80, y: Bits80, mode: RoundingMode, res: Outcome, inexact: bool)
    ensures HypotSpec(x, y, mode, res, inexact) <==> HypotSpec(y, x, mode, res, inexact)
  {
    assert SumSq(x, y) == SumSq(y, x);
  }

  /** Flipping the sign of either operand does not change hypot. */
  lemma HypotNegate(x: Bits80, y: Bits80, mode: RoundingMode, res: Outcome, inexact: bool)
    ensures HypotSpec(x, y, mode, res, inexact) <==> HypotSpec(Negate(x), y, mode, res, inexact)
    ensures HypotSpec(x, y, mode, res, inexact) <==> HypotSpec(x, Negate(y), mode, res, inexact)
  {
    NegateKeepsClass(x);
    NegateKeepsClass(y);
    assert SumSq(Negate(x), y) == SumSq(x, y);
    assert SumSq(x, Negate(y)) == SumSq(x, y);
  }

  /** Negation keeps the magnitude and the classification. */
  lemma NegateKeepsClass(s: Bits80)
    ensures Mag(Negate(s)) == Mag(s)
    ensures IsNan(Negate(s)) == IsNan(s) && IsSnan(Negate(s)) == IsSnan(s)
    ensures IsInf(Negate(s)) == IsInf(s)
  {
  }

  // ---------------------------------------------------------------------
  // From a floor on the grid to the returned encoding

  /**
   * The last step of both paths of cr_hypotl: th * 2^G is the floor of
   * sqrt(S) on the grid of the biased exponent b, up says whether the
   * mode rounds up, and the significand th (or th + 1, carrying into the
   * exponent when it reaches 2^64, or into the biased exponent 1 when a
   * subnormal reaches 2^63) with exponent field b is returned.
   * That encoding, with inexact set when the result is not sqrt(S), is
   * the correctly rounded result, +Inf included.
   */
  lemma RoundedEncoding(S: nat, G: nat, th: nat, b: nat, mode: RoundingMode, up: bool,
                        res: Bits80, inexact: bool)
    requires FloorSqrtAt(S, G, th)
    requires b <= 0x7ffe && G == (if b == 0 then 0 else b - 1)
    requires (b >= 1 && TWO63 <= th < TWO64) || (b == 0 && th < TWO63)
    requires up == RoundsUp(S, G, th, mode)
    requires res == if up && th + 1 == TWO64 then Bits80(TWO63, b + 1)
                    else if up && th + 1 == TWO63 && b == 0 then Bits80(TWO63, 1)
                    else Bits80(if up then th + 1 else th, b)
    requires inexact == (up || th * th * Pow4(G) != S)
    ensures RoundedSqrt(S, mode, res, inexact)
  {
    GridOfFloor(S, G, th);
    FloorSqrtAtIsQuotient(S, G, th);
    var q := if up then th + 1 else th;
    assert RoundSqrtAt(S, G, mode) == q;
    assert up ==> mode == ToNearest || mode == Upward;
    EncodeGridValue(q, b, G, res, mode, up);
    InexactIff(S, G, th, q, up);
  }

  /**
   * The encoding of q ulps of binade b: past the largest finite value
   * (only q == 2^64 in the top binade) it is +Inf, the overflow value of a
   * mode that rounds up; otherwise the canonical nonnegative finite
   * encoding of q * 2^G.
   */
  lemma EncodeGridValue(q: nat, b: nat, G: nat, res: Bits80, mode: RoundingMode, up: bool)
    requires b <= 0x7ffe && G == (if b == 0 then 0 else b - 1)
    requires q <= TWO64 && (q == TWO64 ==> b >= 1 && up)
    requires (b == 0) == (q < TWO63) || (b == 0 && q == TWO63)
    requires res == if q == TWO64 then Bits80(TWO63, b + 1)
                    else if q == TWO63 && b == 0 then Bits80(TWO63, 1)
                    else Bits80(q, b)
    requires up ==> mode == ToNearest || mode == Upward
    ensures var V := q * Pow2(G);
      && (V > MaxFiniteMag() ==> res == OverflowValue(mode) && up)
      && (V <= MaxFiniteMag() ==>
            BiasedExp(res) != EXP_INF_NAN && SignBit(res) == 0 && Mag(res) == V && Canonical(res))
  {
    if b == 0x7ffe {
      TopBinade(q);
    } else {
      BelowTopBinade(q, G);
      if q == TWO64 {
        CarriedMag(b);
      }
    }
  }

  /** The rounded value squares to S exactly when no rounding happened. */
  lemma InexactIff(S: nat, G: nat, th: nat, q: nat, up: bool)
    requires FloorSqrtAt(S, G, th) && q == (if up then th + 1 else th)
    ensures (q * Pow2(G)) * (q * Pow2(G)) != S <==> (up || th * th * Pow4(G) != S)
  {
    GridSquare(q, G);
  }

  /** 2^63 ulps of binade b + 1 are 2^64 ulps of binade b. */
  lemma CarriedMag(b: nat)
    requires 1 <= b < 0x7ffe
    ensures Mag(Bits80(TWO63, b + 1)) == TWO64 * Pow2(b - 1)
  {
    assert Pow2(b) == 2 * Pow2(b - 1);
  }
}
