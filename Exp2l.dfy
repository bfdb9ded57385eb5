/*
 * cr_exp2l (src/binary80/exp2/exp2l.c): correctly rounded 2^x on the x87
 * 80-bit format.  The model covers what the code does with integers and
 * bit fields: the classification of x by its exponent field and by value,
 * the fast path's k = round(2^15 x) computed from the significand, the
 * split of k into an exponent and three table indices, the rescaling of the
 * double-word result by adding to the exponent field, the NaN sentinel that
 * sends the far subnormal range to the accurate path, the accurate path's
 * lookup of exceptional inputs, and the order of the paths.  The polynomial
 * and table kernels, the double-word products and the final floating-point
 * sums are parameters.
 */
module Exp2l {
  import opened Words
  import opened Ext80
  import opened HypotlSpec

  /**
   * 0x1.71547652b82fe176p-64L has biased exponent 16319 and this
   * significand; 0x1.71547652b82fe176p-65L has exponent 16318 and the same.
   */
  const TINY_M: nat := 0xb8aa3b295c17f0bb

  /** 16446 = 0x1.00f8p+14: biased exponent 16397, significand 0x807c << 48. */
  const M16446: nat := 0x807c_0000_0000_0000

  /** The offset 16445 * 2^15 that makes the index computation non-negative. */
  const INDEX_OFFSET: nat := 538869760

  /** x >= 0x1p+14L, on a canonical finite encoding (see Ext80.MagAbove). */
  predicate AtLeast16384(x: Bits80) {
    SignBit(x) == 0 && Above(x, 16397, TWO63)
  }

  /** x <= -0x1.00f8p+14L, that is x <= -16446. */
  predicate AtMostMinus16446(x: Bits80) {
    SignBit(x) == 1 && Above(x, 16397, M16446)
  }

  /** 0 <= x && x <= 0x1.71547652b82fe176p-64L (both zeros pass 0 <= x). */
  predicate TinyNonNegative(x: Bits80) {
    (SignBit(x) == 0 || x.m == 0) && !Above(x, 16319, TINY_M + 1)
  }

  /** -0x1.71547652b82fe176p-65L <= x && x < 0. */
  predicate TinyNegative(x: Bits80) {
    SignBit(x) == 1 && x.m != 0 && !Above(x, 16318, TINY_M + 1)
  }

  /** Where cr_exp2l sends its argument. */
  datatype Route =
    | ReturnX      // NaN or +Inf: return x
    | ReturnZero   // -Inf: return +0
    | Overflow     // x >= 16384
    | Underflow    // x <= -16446
    | Tiny         // 2^x is 1 or next to it: fma(x, +-x, 1)
    | General      // the fast path, then perhaps the accurate path

  /**
   * The tests of cr_exp2l in their order: the exponent-field gates
   * e >= 16397 and e <= 16319, then comparisons of x with constants.
   */
  function Classify(x: Bits80): (r: Route)
    ensures r == ReturnX || r == ReturnZero <==> !IsFinite(x)
  {
    var e := BiasedExp(x);
    if e >= 16397 && e == EXP_INF_NAN then
      (if x.e == 0xffff && x.m == TWO63 then ReturnZero else ReturnX)
    else if e >= 16397 && AtLeast16384(x) then Overflow
    else if e >= 16397 && AtMostMinus16446(x) then Underflow
    else if e <= 16319 && (TinyNonNegative(x) || TinyNegative(x)) then Tiny
    else General
  }

  /**
   * The exponent-field gates lose nothing: on a canonical finite x the
   * routing is decided by the value of x alone.
   */
  lemma ClassifyByValue(x: Bits80)
    requires Canonical(x) && IsFinite(x)
    ensures Classify(x) == Overflow <==> AtLeast16384(x)
    ensures Classify(x) == Underflow <==> AtMostMinus16446(x)
    ensures Classify(x) == Tiny <==> TinyNonNegative(x) || TinyNegative(x)
  {
  }

  /**
   * What reaches the general path: -16446 < x < -0x1.71547652b82fe176p-65
   * or 0x1.71547652b82fe176p-64 < x < 16384, hence 16318 <= e <= 16397.
   */
  lemma GeneralRange(x: Bits80)
    requires Canonical(x) && Classify(x) == General
    ensures 16318 <= BiasedExp(x) <= 16397
    ensures SignBit(x) == 0 ==> Above(x, 16319, TINY_M + 1) && !Above(x, 16397, TWO63)
    ensures SignBit(x) == 1 ==> Above(x, 16318, TINY_M + 1) && !Above(x, 16397, M16446)
  {
  }

  /**
   * What 0x1p-16445L * 0.5L rounds to: 2^-16446 is halfway between +0 and
   * the smallest subnormal, so only rounding upward leaves zero.
   */
  function UnderflowValue(mode: RoundingMode): (r: Bits80)
    ensures Canonical(r) && SignBit(r) == 0 && Mag(r) <= 1
    ensures Mag(r) == 1 <==> mode == Upward
  {
    if mode == Upward then Bits80(1, 0) else PlusZero
  }

  // ---------------------------------------------------------------------
  // k = round(2^15 x)
  // ---------------------------------------------------------------------

  /**
   * Rounding num/den to the nearest integer, halfway cases away from zero
   * (roundl on a non-negative value).
   */
  function RoundHalfAway(num: nat, den: nat): nat
    requires den > 0
  {
    (2 * num + den) / (2 * den)
  }

  /** The result lies within half a unit of num/den, a tie counting as below. */
  lemma RoundHalfAwayBracket(num: nat, den: nat)
    requires den > 0
    ensures var q := RoundHalfAway(num, den);
      (2 * q - 1) * den <= 2 * num < (2 * q + 1) * den
  {
    DivBracket(2 * num + den, 2 * den);
  }

  /** Only one integer lies within half a unit of num/den, ties going up. */
  lemma RoundHalfAwayUnique(num: nat, den: nat, q: nat)
    requires den > 0
    requires (2 * q - 1) * den <= 2 * num < (2 * q + 1) * den
    ensures q == RoundHalfAway(num, den)
  {
    DivModUnique(2 * num + den, 2 * den, q, 2 * num + den - q * (2 * den));
  }

  /**
   * The shift that makes bit s of the significand weigh 1 in 2^15 |x|:
   * for a normal x, 2^15 |x| = m / 2^s.
   */
  function IndexShift(x: Bits80): (s: nat)
    requires 1 <= BiasedExp(x) <= 16431
  {
    16431 - BiasedExp(x)
  }

  /**
   * int32_t k = __builtin_roundl (0x1p15L * x), as the accurate path
   * computes it: 2^15 |x| = m / 2^s rounded to nearest, ties away from zero,
   * with the sign of x.
   */
  function IndexOf(x: Bits80): int
    requires 1 <= BiasedExp(x) <= 16431
  {
    var q: int := RoundHalfAway(x.m, Pow2(IndexShift(x)));
    if SignBit(x) == 1 then -q else q
  }

  /**
   * The range of k on the general path: -16446 * 2^15 <= k <= 16384 * 2^15,
   * so k + 538869760 stays within int32 and is never below -2^15.
   */
  lemma IndexRange(x: Bits80)
    requires Canonical(x) && Classify(x) == General
    ensures -16446 * TWO15 <= IndexOf(x) <= 16384 * TWO15
  {
    var s := IndexShift(x);
    var P := Pow2(s);
    var bound := if SignBit(x) == 0 then 16384 * TWO15 else 16446 * TWO15;
    Pow2At34();
    if BiasedExp(x) == 16397 {
      // only x <= -16384 is this large on the general path
      assert SignBit(x) == 1;
      IndexBound(x.m, P, M16446, bound);
    } else {
      Pow2Mono(35, s);
      MulLeMul(0x8_0000_0000, P, bound);
      IndexBound(x.m, P, TWO64, bound);
    }
  }

  lemma Pow2At34()
    ensures Pow2(34) == 0x4_0000_0000 && Pow2(35) == 0x8_0000_0000
  {
    Pow2Mid();
    assert Pow2(2) == 4 && Pow2(3) == 8 by { assert Pow2(1) == 2; }
    Pow2Add(32, 2);
    Pow2Add(32, 3);
  }

  lemma IndexBound(m: nat, P: nat, M: nat, bound: nat)
    requires P > 0 && m < M && M <= bound * P
    ensures RoundHalfAway(m, P) <= bound
  {
    DivUpperBound(2 * m + P, 2 * P, bound + 1);
  }

  /** 1l << c; a count past 63 is undefined in C and yields some word `other`. */
  function ShiftOne(c: nat, other: u64): (r: u64)
    ensures c < 64 ==> r == Pow2(c)
  {
    if c < 64 then Pow2Mono(c, 63); Pow2Consts(); Pow2(c) else other
  }

  /**
   * Adding half a unit at bit s - 1 and shifting right by s rounds m / 2^s
   * to nearest, ties away from zero.
   */
  lemma HalfUnitRounding(m: nat, s: nat)
    requires s >= 1
    ensures RoundHalfAway(m, Pow2(s)) == (m + Pow2(s - 1)) / Pow2(s)
  {
    var H := Pow2(s - 1);
    assert Pow2(s) == 2 * H;
    assert 2 * m + 2 * H == (m + H) * 2;
    assert 2 * (2 * H) == (2 * H) * 2;
    MulMod(m + H, 2, 2 * H);
  }

  /** Rounding half of m, the carry branch: ((m >> 1) + 2^(c-1)) >> c == (m + 2^c) >> (c + 1). */
  lemma HalvedRounding(m: nat, c: nat)
    requires c >= 1
    ensures (m / 2 + Pow2(c - 1)) / Pow2(c) == (m + Pow2(c)) / Pow2(c + 1)
  {
    assert Pow2(c) == 2 * Pow2(c - 1);
    DivModSplit(m, 2);
    DivAddMul(Pow2(c - 1) + m / 2, m % 2, 2);
    assert (m + Pow2(c)) / 2 == m / 2 + Pow2(c - 1);
    DivDiv(m + Pow2(c), 2, Pow2(c));
  }

  /** When 2^(s-1) is at least 2^64, or the sum stays below 2^s, k is 0. */
  lemma SmallIndex(m: nat, s: nat)
    requires s >= 1 && m < TWO64
    requires s >= 65 || m + Pow2(s - 1) < Pow2(s)
    ensures (m + Pow2(s - 1)) / Pow2(s) == 0
  {
    if s >= 65 {
      Pow2Mono(64, s - 1);
      Pow2Consts();
    }
    DivUpperBound(m + Pow2(s - 1), Pow2(s), 1);
  }

  /**
   * Lines 451-467: round(2^15 |x|) from the significand, by adding half a
   * unit at bit s - 1 and shifting right by s, with a second try one bit
   * lower when the addition carries out of 64 bits.  `other1` and `other2`
   * are what the undefined shifts 1l << (s-1) for s - 1 >= 64 produce; the
   * result does not depend on them.
   */
  method RoundedMagnitude(x: Bits80, other1: u64, other2: u64) returns (m: u64)
    requires 16318 <= BiasedExp(x) <= 16397
    ensures m == RoundHalfAway(x.m, Pow2(IndexShift(x)))
    ensures m < TWO31
  {
    var s: nat := 48 - (BiasedExp(x) - 0x3fff);
    ghost var s0 := s;
    HalfUnitRounding(x.m, s0);
    m := (x.m + ShiftOne(s - 1, other1)) % TWO64;
    if m < x.m {
      // the addition carried out of 64 bits: retry with half of m
      s := s - 1;
      m := (Shr(x.m, 1) + ShiftOne(s - 1, other2)) % TWO64;
      CarryBranch(x.m, s, other2, m);
    } else {
      NoCarryBranch(x.m, s, other1, m);
    }
    if s > 63 {
      m := 0;
    }
    m := Shr(m, s);
    IndexBelow(x.m, s0);
  }

  /** Without a carry, shifting the sum by s rounds, or s > 63 and k is 0. */
  lemma NoCarryBranch(xm: u64, s: nat, other: u64, m: nat)
    requires 34 <= s && m == (xm + ShiftOne(s - 1, other)) % TWO64 && m >= xm
    ensures (if s > 63 then 0 else m / Pow2(s)) == (xm + Pow2(s - 1)) / Pow2(s)
  {
    if s <= 64 {
      Pow2Mono(s - 1, 63);
      Pow2At63();
      NoWrap(xm, Pow2(s - 1), m);
      if s == 64 {
        Pow2At64();
        SmallIndex(xm, s);
      }
    } else {
      SmallIndex(xm, s);
    }
  }

  /** A 64-bit sum that does not decrease did not wrap. */
  lemma NoWrap(a: nat, b: nat, m: nat)
    requires a < TWO64 && b < TWO64 && m == (a + b) % TWO64 && m >= a
    ensures m == a + b
  {
    if a + b >= TWO64 {
      DivModUnique(a + b, TWO64, 1, a + b - TWO64);
    } else {
      DivModUnique(a + b, TWO64, 0, a + b);
    }
  }

  /** After a carry, half of m plus half a unit one bit lower gives the same rounding. */
  lemma CarryBranch(xm: u64, s: nat, other: u64, m: nat)
    requires 33 <= s && m == (Shr(xm, 1) + ShiftOne(s - 1, other)) % TWO64
    ensures (if s > 63 then 0 else m / Pow2(s)) == (xm + Pow2(s)) / Pow2(s + 1)
  {
    if s <= 63 {
      HalveWord(xm);
      UnitBelow62(s - 1);
      SumFits(Shr(xm, 1), Pow2(s - 1), m);
      HalvedRounding(xm, s);
    } else {
      SmallIndex(xm, s + 1);
    }
  }

  /** m >> 1 of a 64-bit word is m / 2 and fits in 63 bits. */
  lemma HalveWord(m: nat)
    requires m < TWO64
    ensures Shr(m, 1) == m / 2 < TWO63
  {
    assert Pow2(1) == 2;
    DivUpperBound(m, 2, TWO63);
  }

  lemma UnitBelow62(c: nat)
    requires c <= 62
    ensures Pow2(c) <= TWO62
  {
    Pow2Mono(c, 62);
    Pow2Consts();
  }

  /** A sum of a 63-bit and a 62-bit value does not wrap in 64 bits. */
  lemma SumFits(a: nat, b: nat, m: nat)
    requires a < TWO63 && b <= TWO62 && m == (a + b) % TWO64
    ensures m == a + b
  {
    DivModUnique(a + b, TWO64, 0, a + b);
  }

  /** round(m / 2^s) < 2^31 for s >= 34. */
  lemma IndexBelow(m: nat, s: nat)
    requires m < TWO64 && s >= 34
    ensures (m + Pow2(s - 1)) / Pow2(s) < TWO31
  {
    Pow2Mono(34, s);
    Pow2Split(30, 34);
    Pow2Consts();
    assert Pow2(s) == 2 * Pow2(s - 1);
    MulLeMul(Pow2(34), Pow2(s), Pow2(30));
    MulLeMul(1, Pow2(30), Pow2(s));
    DivUpperBound(m + Pow2(s - 1), Pow2(s), TWO31);
  }

  /**
   * Lines 468-469: m = (m ^ sgn) - sgn with sgn = -(v.e >> 15) on 64 bits,
   * then the conversion to int32_t, which keeps the low 32 bits.
   */
  method ApplySign(m: u64, negative: bool) returns (k: int)
    requires m < TWO31
    ensures k == if negative then -(m as int) else m
  {
    var sgn: u64 := if negative then TWO64 - 1 else 0;
    var flipped := if sgn == 0 then m else TWO64 - 1 - m;
    var w := (flipped - sgn) % TWO64;
    if sgn != 0 && m != 0 {
      assert w == TWO64 - m;
      DivAddMul(TWO32 - 1, TWO32 - m, TWO32);
    }
    k := ToInt32(w);
  }

  /**
   * Lines 451-469: the fast path's k equals the accurate path's
   * roundl (0x1p15L * x).
   */
  method FastIndex(x: Bits80, other1: u64, other2: u64) returns (k: int)
    requires 16318 <= BiasedExp(x) <= 16397
    ensures k == IndexOf(x)
  {
    var m := RoundedMagnitude(x, other1, other2);
    k := ApplySign(m, SignBit(x) == 1);
  }

  // ---------------------------------------------------------------------
  // The split of k: k = e * 2^15 + i2 * 2^10 + i1 * 2^5 + i0
  // ---------------------------------------------------------------------

  /** The exponent e and the three 5-bit table indices. */
  datatype Indices = Indices(e: int, i0: nat, i1: nat, i2: nat)

  /** Digits below 32 that recompose k. */
  predicate Decomposes(k: int, ix: Indices) {
    ix.i0 < 32 && ix.i1 < 32 && ix.i2 < 32 &&
    k == ix.e * TWO15 + ix.i2 * 1024 + ix.i1 * 32 + ix.i0
  }

  /**
   * Lines 477-479 and 716-720: i = (k + 538869760) & 32767 on an int32 (a
   * non-negative mask of a two's-complement value, which is the Euclidean
   * remainder), e = (k - i) >> 15 (an arithmetic shift of a multiple of
   * 2^15), and the three 5-bit fields of i.
   */
  function Split(k: int): (ix: Indices)
    requires -16446 * TWO15 <= k <= 16384 * TWO15
    ensures Decomposes(k, ix)
  {
    var i := (k + INDEX_OFFSET) % TWO15;
    DigitsOf(i);
    ShiftedRemainder(k);
    var e := (k - i) / TWO15;
    Indices(e, i % 32, (i / 32) % 32, i / 1024)
  }

  lemma DigitsOf(i: nat)
    requires i < TWO15
    ensures i / 1024 < 32 && i == (i / 1024) * 1024 + ((i / 32) % 32) * 32 + i % 32
  {
    DivModSplit(i, 32);
    DivDiv(i, 32, 32);
    DivModSplit(i / 32, 32);
  }

  /** The offset is a multiple of 2^15, so i is k mod 2^15 and k - i a multiple. */
  lemma ShiftedRemainder(k: int)
    ensures (k + INDEX_OFFSET) % TWO15 == k % TWO15
    ensures (k - k % TWO15) / TWO15 * TWO15 == k - k % TWO15
  {
    DivAddMul(16445, k, TWO15);
    assert 16445 * TWO15 + k == k + INDEX_OFFSET;
    DivModSplit(k, TWO15);
    MulDiv(k / TWO15, TWO15);
  }

  /** Only one exponent and one set of digits recompose k: Split is their inverse. */
  lemma SplitUnique(k: int, ix: Indices)
    requires -16446 * TWO15 <= k <= 16384 * TWO15
    requires Decomposes(k, ix)
    ensures Split(k) == ix
  {
    var i := ix.i2 * 1024 + ix.i1 * 32 + ix.i0;
    DivModUnique(k, TWO15, ix.e, i);
    ShiftedRemainder(k);
    DivModUnique(i, 32, ix.i2 * 32 + ix.i1, ix.i0);
    DivModUnique(i / 32, 32, ix.i2, ix.i1);
    DivDiv(i, 32, 32);
  }

  /** e = floor(k / 2^15), so the fast path's test e >= -16355 compares k. */
  lemma SplitExponent(k: int)
    requires -16446 * TWO15 <= k <= 16384 * TWO15
    ensures Split(k).e == k / TWO15
    ensures Split(k).e >= -16355 <==> k >= -16355 * TWO15
  {
    var ix := Split(k);
    DivModUnique(k, TWO15, ix.e, ix.i2 * 1024 + ix.i1 * 32 + ix.i0);
    if k >= -16355 * TWO15 {
      DivLowerBound(k, TWO15, -16355);
    } else {
      DivUpperBound(k, TWO15, -16355);
    }
  }

  // ---------------------------------------------------------------------
  // Scaling by 2^e through the exponent field
  // ---------------------------------------------------------------------

  /**
   * Lines 527-533 as written: if (w.e & 0x7fff) + e > 0 add e to the
   * exponent field of l, else call ldexpl(l, e) (a parameter here).
   */
  function ScaleLowAsWritten(l: Bits80, e: int, ldexp: (Bits80, int) -> Bits80): (L: Bits80)
    requires BiasedExp(l) + e <= 0x7ffe
    ensures BiasedExp(l) + e > 0 ==> L.m == l.m
  {
    if BiasedExp(l) + e > 0 then AddToExponent(l, e) else ldexp(l, e)
  }

  /**
   * A zero l (its exponent field is 0) passes the test as soon as e >= 1
   * and comes out as an exponent field of e over a zero significand: an
   * unnormal, not 0 * 2^e.
   */
  lemma ZeroLowBecomesUnnormal(sign: nat, e: int, ldexp: (Bits80, int) -> Bits80)
    requires sign <= 1 && 1 <= e <= 0x7ffe
    ensures var L := ScaleLowAsWritten(Bits80(0, sign * TWO15), e, ldexp);
      L.m == 0 && BiasedExp(L) == e && !Canonical(L)
  {
  }

  /** The scaling of l with zero left as it is. */
  function ScaleLow(l: Bits80, e: int, ldexp: (Bits80, int) -> Bits80): (L: Bits80)
    requires BiasedExp(l) + e <= 0x7ffe
  {
    if l.m == 0 then l else ScaleLowAsWritten(l, e, ldexp)
  }

  /**
   * The scaling of l keeps encodings canonical and multiplies by 2^e when it
   * touches the field (ldexpl being assumed to return canonical encodings);
   * zeros are kept as they are.
   */
  lemma ScaleLowSound(l: Bits80, e: int, ldexp: (Bits80, int) -> Bits80)
    requires Canonical(l) && (l.m == 0 || BiasedExp(l) >= 1) && BiasedExp(l) + e <= 0x7ffe
    requires forall a: Bits80, n: int :: Canonical(a) ==> Canonical(ldexp(a, n))
    ensures Canonical(ScaleLow(l, e, ldexp))
    ensures l.m == 0 ==> ScaleLow(l, e, ldexp) == l
    ensures l.m != 0 && BiasedExp(l) + e >= 1 ==>
      SignBit(ScaleLow(l, e, ldexp)) == SignBit(l) &&
      (e >= 0 ==> Mag(ScaleLow(l, e, ldexp)) == Mag(l) * Pow2(e)) &&
      (e < 0 ==> Mag(ScaleLow(l, e, ldexp)) * Pow2(-e) == Mag(l))
  {
    if l.m != 0 && BiasedExp(l) + e >= 1 {
      ExponentScaling(l, e);
    }
  }

  /**
   * The input that shows it: x = 1 reaches the general path with k = 2^15,
   * hence e = 1 and all three indices 0; with a kernel result of h = 1,
   * l = +0 the as-written scaling stores an unnormal in *L.
   */
  lemma UnnormalForOne(ldexp: (Bits80, int) -> Bits80)
    ensures Classify(Bits80(TWO63, BIAS)) == General
    ensures IndexOf(Bits80(TWO63, BIAS)) == TWO15
    ensures Split(TWO15) == Indices(1, 0, 0, 0)
    ensures !Canonical(ScaleLowAsWritten(PlusZero, 1, ldexp))
  {
    var x := Bits80(TWO63, BIAS);
    assert IndexShift(x) == 48;
    Pow2At48();
    RoundOne(Pow2(48));
    SplitUnique(TWO15, Indices(1, 0, 0, 0));
    ZeroLowBecomesUnnormal(0, 1, ldexp);
  }

  lemma Pow2At48()
    ensures Pow2(48) == 0x1_0000_0000_0000
  {
    Pow2Add(16, 32);
    Pow2Small();
    Pow2Mid();
  }

  lemma RoundOne(P: nat)
    requires P == 0x1_0000_0000_0000
    ensures RoundHalfAway(TWO63, P) == TWO15
  {
    DivModUnique(2 * TWO63 + P, 2 * P, TWO15, P);
  }

  // ---------------------------------------------------------------------
  // fast_path
  // ---------------------------------------------------------------------

  /**
   * What the kernel (P and the double-word products of lines 470-518) must
   * deliver for the scaling to be exact: 0.5 <= h < 2, positive, with room
   * for e in the exponent field (the code's "no overflow is possible
   * here"), and l zero or a normal number not above h's binade (l is a
   * double, so never subnormal in the 80-bit format).
   */
  predicate KernelShape(h: Bits80, l: Bits80, e: int) {
    Canonical(h) && SignBit(h) == 0 && 16382 <= BiasedExp(h) <= 16383 &&
    BiasedExp(h) + e <= 0x7ffe &&
    Canonical(l) && (l.m == 0 || 1 <= BiasedExp(l) <= BiasedExp(h))
  }

  /** The exponent and indices of k = roundl(2^15 x) for an x on the general path. */
  function IndicesOf(x: Bits80): (ix: Indices)
    requires Canonical(x) && Classify(x) == General
    ensures Decomposes(IndexOf(x), ix)
  {
    IndexRange(x);
    Split(IndexOf(x))
  }

  /** The kernel's result for this x has that shape whenever it is scaled. */
  predicate KernelFits(x: Bits80, kernel: Indices -> (Bits80, Bits80))
    requires Canonical(x) && Classify(x) == General
  {
    var ix := IndicesOf(x);
    ix.e >= -16355 ==> KernelShape(kernel(ix).0, kernel(ix).1, ix.e)
  }

  /** Lines 538-539: exponent field 32767 over 0xc000000000000000, a quiet NaN. */
  const SENTINEL: Bits80 := Bits80(0xc000_0000_0000_0000, EXP_INF_NAN)

  /**
   * What fast_path stores in *H and *L: the kernel's h and l scaled by 2^e,
   * or the NaN sentinel when e < -16355.  `kernel` stands for P(rh, rl)
   * times the three table entries, which depend on x only through k.
   */
  function FastPair(x: Bits80, kernel: Indices -> (Bits80, Bits80),
                    ldexp: (Bits80, int) -> Bits80): (Bits80, Bits80)
    requires Canonical(x) && Classify(x) == General && KernelFits(x, kernel)
  {
    var ix := IndicesOf(x);
    if ix.e >= -16355 then
      (AddToExponent(kernel(ix).0, ix.e), ScaleLow(kernel(ix).1, ix.e, ldexp))
    else
      (SENTINEL, SENTINEL)
  }

  /**
   * The fast path scales exactly when k >= -16355 * 2^15, and otherwise
   * returns two NaNs.
   */
  lemma FastPairMeaning(x: Bits80, kernel: Indices -> (Bits80, Bits80),
                        ldexp: (Bits80, int) -> Bits80)
    requires Canonical(x) && Classify(x) == General && KernelFits(x, kernel)
    ensures IndicesOf(x).e >= -16355 <==> IndexOf(x) >= -16355 * TWO15
    ensures IndicesOf(x).e >= -16355 ==>
      FastPair(x, kernel, ldexp) ==
        (AddToExponent(kernel(IndicesOf(x)).0, IndicesOf(x).e),
         ScaleLow(kernel(IndicesOf(x)).1, IndicesOf(x).e, ldexp))
    ensures IndicesOf(x).e < -16355 ==>
      IsNan(FastPair(x, kernel, ldexp).0) && IsNan(FastPair(x, kernel, ldexp).1)
  {
    IndexRange(x);
    SplitExponent(IndexOf(x));
    NanBits(SENTINEL);
  }

  /** Lines 447-542. */
  method FastPath(x: Bits80, kernel: Indices -> (Bits80, Bits80), ldexp: (Bits80, int) -> Bits80,
                  other1: u64, other2: u64) returns (H: Bits80, L: Bits80)
    requires Canonical(x) && Classify(x) == General && KernelFits(x, kernel)
    ensures (H, L) == FastPair(x, kernel, ldexp)
  {
    GeneralRange(x);
    var k := FastIndex(x, other1, other2);
    IndexRange(x);
    var ix := Split(k);
    var hl := kernel(ix);
    if ix.e >= -16355 {
      H := AddToExponent(hl.0, ix.e);
      L := ScaleLow(hl.1, ix.e, ldexp);
    } else {
      H, L := SENTINEL, SENTINEL;
    }
  }

  // ---------------------------------------------------------------------
  // accurate_path and cr_exp2l
  // ---------------------------------------------------------------------

  /** An entry of the accurate path's table: an input and 2^x as h + l. */
  datatype Exception = Exception(x: Bits80, h: Bits80, l: Bits80)

  datatype Lookup = Hit(index: nat) | Miss

  /** Lines 702-710: the first entry whose input equals x as a value. */
  method FindException(table: seq<Exception>, x: Bits80) returns (r: Lookup)
    ensures r.Hit? ==> r.index < |table| && NumEq(table[r.index].x, x)
    ensures r.Hit? ==> forall j :: 0 <= j < r.index ==> !NumEq(table[j].x, x)
    ensures r.Miss? ==> forall j :: 0 <= j < |table| ==> !NumEq(table[j].x, x)
  {
    for i := 0 to |table|
      invariant forall j :: 0 <= j < i ==> !NumEq(table[j].x, x)
    {
      if NumEq(table[i].x, x) {
        return Hit(i);
      }
    }
    return Miss;
  }

  /** What cr_exp2l returns, where the model can say it. */
  datatype Exp2Result =
    | Returned(bits: Bits80)  // a value the code returns as it is
    | TinyFma                 // fma(x, +-x, 1): not modelled
    | FromTable(index: nat)   // exceptions[index][1] + exceptions[index][2]
    | Accurate(ix: Indices)   // the accurate evaluation at these indices: not modelled

  /**
   * The accurate path: the first table entry equal to x, or else the
   * evaluation at the split of roundl(2^15 x).
   */
  predicate AccurateOutcome(x: Bits80, table: seq<Exception>, r: Exp2Result)
    requires Canonical(x) && Classify(x) == General
  {
    match r
    case FromTable(i) =>
      i < |table| && NumEq(table[i].x, x) && forall j :: 0 <= j < i ==> !NumEq(table[j].x, x)
    case Accurate(ix) =>
      (forall j :: 0 <= j < |table| ==> !NumEq(table[j].x, x)) && ix == IndicesOf(x)
    case _ => false
  }

  /** Lines 544-720, the integer part: the lookup, then k and its split. */
  method AccuratePath(x: Bits80, table: seq<Exception>) returns (r: Exp2Result)
    requires Canonical(x) && Classify(x) == General
    ensures AccurateOutcome(x, table, r)
  {
    var found := FindException(table, x);
    if found.Hit? {
      return FromTable(found.index);
    }
    IndexRange(x);
    var k := IndexOf(x);
    r := Accurate(Split(k));
  }

  /**
   * cr_exp2l, lines 752-803.  `gate` stands for the two floating-point
   * sums h + (l -+ h * err), which turn a NaN h into NaNs; `kernel`,
   * `ldexp`, `other1` and `other2` are as for FastPath.  The specials,
   * overflow and underflow return at once; the general path returns the
   * fast result exactly when both bounds round alike, and otherwise the
   * accurate one, which is always the case below e = -16355.
   */
  method CrExp2l(x: Bits80, mode: RoundingMode, table: seq<Exception>,
                 kernel: Indices -> (Bits80, Bits80), ldexp: (Bits80, int) -> Bits80,
                 gate: (Bits80, Bits80) -> (Outcome, Outcome),
                 other1: u64, other2: u64) returns (r: Exp2Result)
    requires Canonical(x)
    requires Classify(x) == General ==> KernelFits(x, kernel)
    requires forall a: Bits80, b: Bits80 :: IsNan(a) ==> gate(a, b) == (QuietNaN, QuietNaN)
    ensures Classify(x) == ReturnX ==> r == Returned(x)
    ensures Classify(x) == ReturnZero ==> r == Returned(PlusZero)
    ensures Classify(x) == Overflow ==> r == Returned(OverflowValue(mode))
    ensures Classify(x) == Underflow ==> r == Returned(UnderflowValue(mode))
    ensures Classify(x) == Tiny ==> r == TinyFma
    ensures Classify(x) == General ==>
      var hl := FastPair(x, kernel, ldexp);
      var lr := gate(hl.0, hl.1);
      if Agree(lr.0, lr.1) then r == Returned(lr.0.bits) else AccurateOutcome(x, table, r)
    ensures Classify(x) == General && IndexOf(x) < -16355 * TWO15 ==>
      AccurateOutcome(x, table, r)
  {
    var route := Classify(x);
    match route
    case ReturnX => r := Returned(x);
    case ReturnZero => r := Returned(PlusZero);
    case Overflow => r := Returned(OverflowValue(mode));
    case Underflow => r := Returned(UnderflowValue(mode));
    case Tiny => r := TinyFma;
    case General =>
      var h, l := FastPath(x, kernel, ldexp, other1, other2);
      var lr := gate(h, l);
      if Agree(lr.0, lr.1) {
        r := Returned(lr.0.bits);
      } else {
        r := AccuratePath(x, table);
      }
      if IndexOf(x) < -16355 * TWO15 {
        IndexRange(x);
        SplitExponent(IndexOf(x));
        NanBits(SENTINEL);
      }
  }
}
