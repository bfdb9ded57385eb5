/*
 * rbig (src/binary32/sin/sinf.c, lines 81-111): the range reduction of
 * sinf for large arguments, done on integers.  The 24-bit significand m of
 * x is multiplied by IPI, the 256-bit integer nearest to 2^256 * 2/pi,
 * through a chain of four 64 x 64 -> 128-bit products.  Two windows of the
 * product P are cut out: i, the integer part of x * 16/pi modulo 2^32 (it
 * selects the table entry), and a, the next 64 bits (the fractional part).
 * i is rounded to nearest from the top bit of a and both are negated for a
 * negative x.
 */
module SinfReduction {
  import opened Words
  import opened Bin32

  /** ipi[0..3], least significant word first. */
  const IPI0: nat := 0xfe51_63ab_debb_c562
  const IPI1: nat := 0xdb62_9599_3c43_9041
  const IPI2: nat := 0xfc27_57d1_f534_ddc0
  const IPI3: nat := 0xa2f9_836e_4e44_1529

  /** ipi[3]:ipi[2]:ipi[1]:ipi[0] as one 256-bit integer. */
  const IPI: nat := 0xa2f9_836e_4e44_1529_fc27_57d1_f534_ddc0_db62_9599_3c43_9041_fe51_63ab_debb_c562

  type u128 = x: nat | x < TWO128

  /** Line 84: m = (u & 0x7fffff) | 1 << 23. */
  function Significand(u: u32): (m: nat)
    ensures TWO23 <= m < TWO23 + TWO23
  {
    Fraction(u) + TWO23
  }

  /** The exact product m * IPI. */
  function Product(u: u32): nat {
    Significand(u) * IPI
  }

  /** Line 91: s = k - 23 with k = e - 124. */
  function Shift(u: u32): int {
    ExpField(u) - 147
  }

  /**
   * The exponents for which every shift of lines 94-103 is by 1 to 63 bits:
   * s >= 1, and s <= 108 holds for every exponent field.
   */
  predicate InDomain(u: u32) {
    148 <= ExpField(u)
  }

  /**
   * P / 2^(256 - s) rounded to nearest, ties upward: with
   * x = m 2^(e - 150) and P close to m 2^257 / pi, this is x * 16/pi
   * rounded, the number of sixteenths of pi in x.
   */
  function NearestIndex(u: u32): nat
    requires InDomain(u)
  {
    var s := Shift(u);
    (Product(u) + Pow2(255 - s)) / Pow2(256 - s)
  }

  /** The index carrying the sign of x. */
  function SignedIndex(u: u32): int
    requires InDomain(u)
  {
    if SignOf(u) == 1 then -(NearestIndex(u) as int) else NearestIndex(u)
  }

  /** A 64-bit word read as int64_t. */
  function Signed64(a: nat): (r: int)
    requires a < TWO64
    ensures -0x8000_0000_0000_0000 <= r < TWO63 && (r < 0 <==> a >= TWO63)
  {
    if a >= TWO63 then a - TWO64 else a
  }

  /**
   * The 64 bits of P below the index window, read as int64_t: the
   * fractional part of x * 16/pi in units of 2^-64, taken in [-1/2, 1/2).
   */
  function Fraction64(u: u32): (f: int)
    requires InDomain(u)
    ensures -0x8000_0000_0000_0000 <= f < TWO63
  {
    Signed64((Product(u) / Pow2(192 - Shift(u))) % TWO64)
  }

  /**
   * The index and the fraction together are P / 2^(192 - s): the index is
   * the nearest integer and the fraction the signed remainder.
   */
  lemma ReductionSplit(u: u32)
    requires InDomain(u)
    ensures NearestIndex(u) * TWO64 + Fraction64(u) == Product(u) / Pow2(192 - Shift(u))
  {
    var s := Shift(u);
    var e := Pow2(192 - s);
    WindowPowers(s);
    SplitAt(Product(u), e);
  }

  /** The index window sits 64 bits above the fraction window. */
  lemma WindowPowers(s: int)
    requires 1 <= s <= 108
    ensures Pow2(256 - s) == Pow2(192 - s) * TWO64
    ensures Pow2(255 - s) == Pow2(192 - s) * TWO63
  {
    Pow2Add(192 - s, 64);
    Pow2Add(192 - s, 63);
    Pow2At63();
    Pow2At64();
  }

  lemma SplitAt(p: nat, e: nat)
    requires e > 0
    ensures (p + e * TWO63) / (e * TWO64) * TWO64 + Signed64((p / e) % TWO64) == p / e
  {
    var d := e * TWO64;
    var h := e * TWO63;
    var a := (p / e) % TWO64;
    var top := if a >= TWO63 then 1 else 0;
    RoundBit(p, e);
    DivModSplit(p / e, TWO64);
    DivDiv(p, e, TWO64);
    assert (p + h) / d == p / d + top;
  }

  /**
   * The top bit of the fraction window decides the rounding: adding half a
   * unit and truncating adds one exactly when that bit is set.
   */
  lemma RoundBit(p: nat, e: nat)
    requires e > 0
    ensures (p + e * TWO63) / (e * TWO64) ==
      p / (e * TWO64) + (if (p / e) % TWO64 >= TWO63 then 1 else 0)
  {
    var d := e * TWO64;
    var h := e * TWO63;
    var a := (p / e) % TWO64;
    DivDiv(p, e, TWO64);
    assert a == (p % d) / e;
    DivModSplit(p, d);
    DivAddMul(p / d, p % d + h, d);
    assert p + h == (p / d) * d + (p % d + h);
    if a >= TWO63 {
      DivLowerBound(p % d, e, 0);
      DivBracket(p % d, e);
      MulLeMul(TWO63, a, e);
      DivModUnique(p % d + h, d, 1, p % d + h - d);
    } else {
      DivBracket(p % d, e);
      MulLeMul(a + 1, TWO63, e);
      DivModUnique(p % d + h, d, 0, p % d + h);
    }
  }

  // ---------------------------------------------------------------------
  // The carry chain, lines 85-89

  /** Lines 85-88 add each high half into the next product without loss. */
  lemma CarryChain(m: nat, p0: nat, p1: nat, p2: nat, p3: nat)
    requires p0 == m * IPI0
    requires p1 == m * IPI1 + p0 / TWO64
    requires p2 == m * IPI2 + p1 / TWO64
    requires p3 == m * IPI3 + p2 / TWO64
    ensures m * IPI == ((p3 * TWO64 + p2 % TWO64) * TWO64 + p1 % TWO64) * TWO64 + p0 % TWO64
  {
    DivModSplit(p0, TWO64);
    DivModSplit(p1, TWO64);
    DivModSplit(p2, TWO64);
  }

  // ---------------------------------------------------------------------
  // Bit windows, lines 94-103

  /**
   * `hi << j | lo >> (64 - j)` on 64-bit words: the two fields are disjoint
   * and together they are the window of hi:lo that starts 64 - j bits up.
   */
  lemma ShiftPair(hi: nat, lo: nat, j: nat)
    requires 0 < j < 64 && lo < TWO64
    ensures Shl(hi, j, 64) % Pow2(j) == 0 && Shr(lo, 64 - j) < Pow2(j)
    ensures Shl(hi, j, 64) + Shr(lo, 64 - j) == ((hi * TWO64 + lo) / Pow2(64 - j)) % TWO64
  {
    Pow2Add(j, 64 - j);
    Pow2At64();
    ShiftPairAt(hi, lo, Pow2(j), Pow2(64 - j), TWO64);
  }

  lemma ShiftPairAt(hi: nat, lo: nat, sj: nat, tj: nat, w: nat)
    requires sj > 0 && tj > 0 && w == sj * tj && lo < w
    ensures ((hi * sj) % w) % sj == 0 && lo / tj < sj
    ensures (hi * sj) % w + lo / tj == ((hi * w + lo) / tj) % w
  {
    ShlAsMod(hi, sj, tj, w);
    MulDiv(hi % tj, sj);
    DivUpperBound(lo, tj, sj);
    ShiftedSum(hi, lo, sj, tj, w);
    WindowSum(hi, lo / tj, sj, tj, w);
  }

  lemma ShlAsMod(hi: nat, sj: nat, tj: nat, w: nat)
    requires sj > 0 && tj > 0 && w == sj * tj
    ensures (hi * sj) % w == (hi % tj) * sj
  {
    assert w == tj * sj;
    MulMod(hi, sj, tj);
  }

  lemma ShiftedSum(hi: nat, lo: nat, sj: nat, tj: nat, w: nat)
    requires sj > 0 && tj > 0 && w == sj * tj
    ensures (hi * w + lo) / tj == hi * sj + lo / tj
  {
    assert hi * w == (hi * sj) * tj;
    DivAddMul(hi * sj, lo, tj);
  }

  lemma WindowSum(hi: nat, l: nat, sj: nat, tj: nat, w: nat)
    requires sj > 0 && tj > 0 && w == sj * tj && l < sj
    ensures (hi * sj + l) % w == (hi % tj) * sj + l
  {
    DivModSplit(hi, tj);
    var r := (hi % tj) * sj + l;
    MulLeMul(hi % tj, tj - 1, sj);
    assert (tj - 1) * sj + sj == w;
    assert hi * sj == (hi / tj) * w + (hi % tj) * sj;
    DivModUnique(hi * sj + l, w, hi / tj, r);
  }

  /** Low-order words below the divisor do not reach the quotient. */
  lemma DropLow(y: int, lo: int, d: int, t: int)
    requires d > 0 && t > 0 && 0 <= lo < d
    ensures (y * d + lo) / (d * t) == y / t
  {
    var n := y * d + lo;
    DivModUnique(n, d, y, lo);
    DivDiv(n, d, t);
  }

  /** High-order words whole multiples of w * w fall out of a window modulo w. */
  lemma DropHigh(hh: int, y: int, sj: int, tj: int, w: int)
    requires sj > 0 && tj > 0 && w == sj * tj
    ensures ((hh * w * w + y) / tj) % w == (y / tj) % w
  {
    assert hh * w * w == (hh * w * sj) * tj;
    DivAddMul(hh * w * sj, y, tj);
    assert hh * w * sj == (hh * sj) * w;
    DivAddMul(hh * sj, y / tj, w);
  }

  /** The four top words of P as one number: P without its lowest word. */
  function Top(p3h: nat, p3l: nat, p2l: nat, p1l: nat): nat {
    ((p3h * TWO64 + p3l) * TWO64 + p2l) * TWO64 + p1l
  }

  /** The index window for s < 64: (p3h:p3l) shifted right by 64 - s. */
  lemma IndexWindowBelow64(p3h: nat, p3l: nat, p2l: nat, p1l: nat, s: nat)
    requires p3l < TWO64 && p2l < TWO64 && p1l < TWO64 && 1 <= s < 64
    ensures Shl(p3h, s, 64) % Pow2(s) == 0 && Shr(p3l, 64 - s) < Pow2(s)
    ensures Shl(p3h, s, 64) + Shr(p3l, 64 - s) ==
      (Top(p3h, p3l, p2l, p1l) / Pow2(192 - s)) % TWO64
  {
    ShiftPair(p3h, p3l, s);
    Pow2Add(128, 64 - s);
    Pow2At128();
    TopHalves(p3h, p3l, p2l, p1l);
    WindowAbove(Top(p3h, p3l, p2l, p1l), p3h * TWO64 + p3l, p2l * TWO64 + p1l, TWO128, Pow2(64 - s),
      Pow2(192 - s), Shl(p3h, s, 64) + Shr(p3l, 64 - s));
  }

  /** A window of x above its low part L is the window of its high part Y. */
  lemma WindowAbove(x: int, Y: int, L: int, A: int, T: int, P: int, win: int)
    requires x == Y * A + L && 0 <= L < A && T > 0 && P == A * T
    requires win == (Y / T) % TWO64
    ensures win == (x / P) % TWO64
  {
    assert P == A * T;
    assert x == Y * A + L;
    DropLow(Y, L, A, T);
  }

  /** Top as its two high words above its two low words. */
  lemma TopHalves(p3h: nat, p3l: nat, p2l: nat, p1l: nat)
    requires p2l < TWO64 && p1l < TWO64
    ensures Top(p3h, p3l, p2l, p1l) == (p3h * TWO64 + p3l) * TWO128 + (p2l * TWO64 + p1l)
    ensures p2l * TWO64 + p1l < TWO128
  {
    assert TWO128 == TWO64 * TWO64;
    MulLeMul(p2l, TWO64 - 1, TWO64);
  }

  /** The fraction window for s < 64: (p3l:p2l) shifted right by 64 - s. */
  lemma FracWindowBelow64(p3h: nat, p3l: nat, p2l: nat, p1l: nat, s: nat)
    requires p3l < TWO64 && p2l < TWO64 && p1l < TWO64 && 1 <= s < 64
    ensures Shl(p3l, s, 64) % Pow2(s) == 0 && Shr(p2l, 64 - s) < Pow2(s)
    ensures Shl(p3l, s, 64) + Shr(p2l, 64 - s) ==
      (Top(p3h, p3l, p2l, p1l) / Pow2(128 - s)) % TWO64
  {
    var t := Pow2(64 - s);
    ShiftPair(p3l, p2l, s);
    Pow2Add(64, 64 - s);
    Pow2Add(s, 64 - s);
    Pow2At64();
    var z := (p3h * TWO64 + p3l) * TWO64 + p2l;
    DropLow(z, p1l, TWO64, t);
    assert z == p3h * TWO64 * TWO64 + (p3l * TWO64 + p2l);
    DropHigh(p3h, p3l * TWO64 + p2l, Pow2(s), t, TWO64);
  }

  lemma WindowsAt64(p3h: nat, p3l: nat, p2l: nat, p1l: nat)
    requires p3l < TWO64 && p2l < TWO64 && p1l < TWO64
    ensures p3l == (Top(p3h, p3l, p2l, p1l) / Pow2(128)) % TWO64
    ensures p2l == (Top(p3h, p3l, p2l, p1l) / Pow2(64)) % TWO64
  {
    var z := (p3h * TWO64 + p3l) * TWO64 + p2l;
    var x := Top(p3h, p3l, p2l, p1l);
    Pow2At128();
    Pow2At64();
    TopHalves(p3h, p3l, p2l, p1l);
    DivModUnique(x, TWO128, p3h * TWO64 + p3l, p2l * TWO64 + p1l);
    DivModUnique(p3h * TWO64 + p3l, TWO64, p3h, p3l);
    DivModUnique(x, TWO64, z, p1l);
    DivModUnique(z, TWO64, p3h * TWO64 + p3l, p2l);
  }

  /** The index window for s > 64: (p3l:p2l) shifted right by 128 - s. */
  lemma IndexWindowAbove64(p3h: nat, p3l: nat, p2l: nat, p1l: nat, s: nat)
    requires p3l < TWO64 && p2l < TWO64 && p1l < TWO64 && 64 < s <= 108
    ensures Shl(p3l, s - 64, 64) % Pow2(s - 64) == 0 && Shr(p2l, 128 - s) < Pow2(s - 64)
    ensures Shl(p3l, s - 64, 64) + Shr(p2l, 128 - s) ==
      (Top(p3h, p3l, p2l, p1l) / Pow2(192 - s)) % TWO64
  {
    var t := Pow2(128 - s);
    ShiftPair(p3l, p2l, s - 64);
    Pow2Add(64, 128 - s);
    Pow2Add(s - 64, 128 - s);
    Pow2At64();
    var z := (p3h * TWO64 + p3l) * TWO64 + p2l;
    DropLow(z, p1l, TWO64, t);
    assert z == p3h * TWO64 * TWO64 + (p3l * TWO64 + p2l);
    DropHigh(p3h, p3l * TWO64 + p2l, Pow2(s - 64), t, TWO64);
  }

  /** The fraction window for s > 64: (p2l:p1l) shifted right by 128 - s. */
  lemma FracWindowAbove64(p3h: nat, p3l: nat, p2l: nat, p1l: nat, s: nat)
    requires p3l < TWO64 && p2l < TWO64 && p1l < TWO64 && 64 < s <= 108
    ensures Shl(p2l, s - 64, 64) % Pow2(s - 64) == 0 && Shr(p1l, 128 - s) < Pow2(s - 64)
    ensures Shl(p2l, s - 64, 64) + Shr(p1l, 128 - s) ==
      (Top(p3h, p3l, p2l, p1l) / Pow2(128 - s)) % TWO64
  {
    ShiftPair(p2l, p1l, s - 64);
    Pow2Add(s - 64, 128 - s);
    Pow2At64();
    assert Top(p3h, p3l, p2l, p1l) ==
      (p3h * TWO64 + p3l) * TWO64 * TWO64 + (p2l * TWO64 + p1l);
    DropHigh(p3h * TWO64 + p3l, p2l * TWO64 + p1l, Pow2(s - 64), Pow2(128 - s), TWO64);
  }

  /**
   * Lines 94-103: the three branches on s cut the same two windows out of
   * the top words of P: the index window 2^(192 - s) up and the fraction
   * window 2^(128 - s) up, each 64 bits wide.
   */
  method Windows(p3h: nat, p3l: nat, p2l: nat, p1l: nat, s: nat) returns (iw: nat, a: nat)
    requires p3l < TWO64 && p2l < TWO64 && p1l < TWO64 && 1 <= s <= 108
    ensures iw == (Top(p3h, p3l, p2l, p1l) / Pow2(192 - s)) % TWO64
    ensures a == (Top(p3h, p3l, p2l, p1l) / Pow2(128 - s)) % TWO64
  {
    if s < 64 {
      IndexWindowBelow64(p3h, p3l, p2l, p1l, s);
      FracWindowBelow64(p3h, p3l, p2l, p1l, s);
      iw := DisjointOr(Shl(p3h, s, 64), Shr(p3l, 64 - s), s);
      a := DisjointOr(Shl(p3l, s, 64), Shr(p2l, 64 - s), s);
    } else if s == 64 {
      WindowsAt64(p3h, p3l, p2l, p1l);
      iw := p3l;
      a := p2l;
    } else {
      IndexWindowAbove64(p3h, p3l, p2l, p1l, s);
      FracWindowAbove64(p3h, p3l, p2l, p1l, s);
      iw := DisjointOr(Shl(p3l, s - 64, 64), Shr(p2l, 128 - s), s - 64);
      a := DisjointOr(Shl(p2l, s - 64, 64), Shr(p1l, 128 - s), s - 64);
    }
  }

  /** Without the lowest word, the windows of P are those of Top. */
  lemma ProductWindows(u: u32, x: nat, p0l: nat)
    requires InDomain(u) && Product(u) == x * TWO64 + p0l && p0l < TWO64
    ensures Product(u) / Pow2(256 - Shift(u)) == x / Pow2(192 - Shift(u))
    ensures Product(u) / Pow2(192 - Shift(u)) == x / Pow2(128 - Shift(u))
  {
    var s := Shift(u);
    Pow2Add(64, 192 - s);
    Pow2Add(64, 128 - s);
    Pow2At64();
    DropLow(x, p0l, TWO64, Pow2(192 - s));
    DropLow(x, p0l, TWO64, Pow2(128 - s));
  }

  // ---------------------------------------------------------------------
  // Rounding and sign, lines 104-109

  /** a and b are equal modulo 2^32. */
  predicate Congruent(a: int, b: int) {
    (a - b) % TWO32 == 0
  }

  lemma CongruentStep(a: int, b: int, c: int)
    requires Congruent(a, b)
    ensures Congruent(a + c, b + c) && Congruent(-a, -b)
  {
    DivModSplit(a - b, TWO32);
    MulDiv(-((a - b) / TWO32), TWO32);
  }

  lemma CongruentTrans(a: int, b: int, c: int)
    requires Congruent(a, b) && Congruent(b, c)
    ensures Congruent(a, c)
  {
    DivModSplit(a - b, TWO32);
    DivModSplit(b - c, TWO32);
    MulDiv((a - b) / TWO32 + (b - c) / TWO32, TWO32);
  }

  /** A 64-bit window keeps everything modulo 2^32. */
  lemma WindowCongruent(n: int)
    ensures Congruent(n % TWO64, n)
  {
    DivModSplit(n, TWO64);
    MulDiv(-(n / TWO64) * TWO32, TWO32);
  }

  /**
   * Lines 84-89: the product m * IPI as five 64-bit words, the top one
   * (p3 >> 64) below 2^25; no 128-bit partial sum wraps.
   */
  method MultiplyIpi(m: nat) returns (p3h: nat, p3l: nat, p2l: nat, p1l: nat, p0l: nat)
    requires m < TWO23 + TWO23
    ensures p3l < TWO64 && p2l < TWO64 && p1l < TWO64 && p0l < TWO64
    ensures m * IPI == Top(p3h, p3l, p2l, p1l) * TWO64 + p0l
  {
    var p0: u128 := m * IPI0;
    var p1: u128 := m * IPI1 + p0 / TWO64;
    var p2: u128 := m * IPI2 + p1 / TWO64;
    var p3: u128 := m * IPI3 + p2 / TWO64;
    p3h, p3l, p2l, p1l, p0l := p3 / TWO64, p3 % TWO64, p2 % TWO64, p1 % TWO64, p0 % TWO64;
    CarryChain(m, p0, p1, p2, p3);
    DivModSplit(p3, TWO64);
  }

  /** Lines 83-103: the index window and the fraction window of P. */
  method ExtractWindows(u: u32) returns (iw: nat, a: nat)
    requires InDomain(u)
    ensures iw == (Product(u) / Pow2(256 - Shift(u))) % TWO64
    ensures a == (Product(u) / Pow2(192 - Shift(u))) % TWO64
  {
    var e := (u / TWO23) % 256;
    var m := u % TWO23 + TWO23;
    var p3h, p3l, p2l, p1l, p0l := MultiplyIpi(m);
    var k := e - 124;
    var s := k - 23;
    iw, a := Windows(p3h, p3l, p2l, p1l, s);
    ProductWindows(u, Top(p3h, p3l, p2l, p1l), p0l);
  }

  /**
   * rbig: q is the index x * 16/pi rounded to nearest, with the sign of x,
   * as a 32-bit int (only its low five bits are used); z is the fraction
   * window, complemented for a negative x (a ^ -1 = -a - 1, which negates
   * up to one unit of 2^-64).  The double z * 2^-64 is not modelled.
   */
  method Rbig(u: u32) returns (q: int, z: int)
    requires InDomain(u)
    ensures -0x8000_0000 <= q < TWO31 && Congruent(q, SignedIndex(u))
    ensures z == if SignOf(u) == 1 then -Fraction64(u) - 1 else Fraction64(u)
  {
    var iw, a := ExtractWindows(u);
    q := RoundedIndex(iw, a, u >= TWO31);
    IndexCongruent(u, iw, a, -TopBit64(a), q);
    var sa := Signed64(a);
    z := if u >= TWO31 then -sa - 1 else sa;
  }

  /** The rounding bit: the top bit of the fraction window. */
  function TopBit64(a: nat): (c: int)
    ensures c == 0 || c == 1
  {
    if a >= TWO63 then 1 else 0
  }

  /**
   * Lines 104-108: the index window plus the rounding bit (i - (a >> 63),
   * with a read as signed), negated for a negative x, each step truncated
   * to int.
   */
  method RoundedIndex(iw: nat, a: nat, neg: bool) returns (q: int)
    requires a < TWO64
    ensures -0x8000_0000 <= q < TWO31
    ensures Congruent(q, if neg then -(iw + TopBit64(a)) else iw + TopBit64(a))
  {
    var sa := Signed64(a);
    var sm: int := if sa < 0 then -1 else 0;
    var i := ToInt32(iw);
    ghost var i0 := i;
    i := ToInt32(i - sm);
    CongruentStep(i0, iw, -sm);
    CongruentTrans(i, i0 - sm, iw - sm);
    ghost var i1 := i;
    var r: int := if neg then -i else i;
    i := ToInt32(r);
    q := i;
    NegateCongruent(q, r, i1, iw - sm, neg);
  }

  lemma NegateCongruent(q: int, r: int, i: int, v: int, neg: bool)
    requires Congruent(q, r) && Congruent(i, v)
    requires r == if neg then -i else i
    ensures Congruent(q, if neg then -v else v)
  {
    CongruentStep(i, v, 0);
    if neg {
      CongruentTrans(q, -i, -v);
    } else {
      CongruentTrans(q, i, v);
    }
  }

  lemma IndexCongruent(u: u32, iw: nat, a: nat, sm: int, q: int)
    requires InDomain(u)
    requires iw == (Product(u) / Pow2(256 - Shift(u))) % TWO64
    requires a == (Product(u) / Pow2(192 - Shift(u))) % TWO64
    requires sm == if a >= TWO63 then -1 else 0
    requires Congruent(q, if SignOf(u) == 1 then -(iw - sm) else iw - sm)
    ensures Congruent(q, SignedIndex(u))
  {
    var s := Shift(u);
    var e := Pow2(192 - s);
    WindowPowers(s);
    var n := NearestIndex(u);
    RoundedCongruent(Product(u), e, iw, a, sm);
    NegateCongruent(q, if SignOf(u) == 1 then -(iw - sm) else iw - sm, iw - sm, n,
      SignOf(u) == 1);
  }

  /** Adding the rounding bit to the 64-bit index window gives the index modulo 2^32. */
  lemma RoundedCongruent(p: nat, e: nat, iw: nat, a: nat, sm: int)
    requires e > 0
    requires iw == (p / (e * TWO64)) % TWO64
    requires a == (p / e) % TWO64
    requires sm == if a >= TWO63 then -1 else 0
    ensures Congruent(iw - sm, (p + e * TWO63) / (e * TWO64))
  {
    RoundBit(p, e);
    WindowPlusBit(p / (e * TWO64), iw, sm);
  }

  lemma WindowPlusBit(t: int, iw: int, sm: int)
    requires iw == t % TWO64
    ensures Congruent(iw - sm, t - sm)
  {
    WindowCongruent(t);
    CongruentStep(iw, t, -sm);
  }

  /**
   * `ia & 31` in cr_sinf and `(ia + 8u) & 31` in as_sinf_big read only the
   * low five bits of q, which the congruence fixes.
   */
  lemma TableIndexOfQ(q: int, v: int)
    requires Congruent(q, v)
    ensures q % 32 == v % 32
    ensures ((q % TWO32 + 8) % TWO32) % 32 == (v + 8) % 32
  {
    DivModSplit(q - v, TWO32);
    var k := (q - v) / TWO32;
    DivAddMul(k * 0x800_0000, v, 32);
    assert q == (k * 0x800_0000) * 32 + v;
    DivModSplit(q, TWO32);
    ModMod(q, 32, 0x800_0000);
    var w := (q % TWO32 + 8) % TWO32;
    DivModSplit(q % TWO32 + 8, TWO32);
    ModMod(q % TWO32 + 8, 32, 0x800_0000);
    DivAddMul(-((q % TWO32 + 8) / TWO32) * 0x800_0000, q % TWO32 + 8, 32);
    DivAddMul(q / TWO32 * 0x800_0000, q % TWO32 + 8, 32);
    DivAddMul(k * 0x800_0000, v + 8, 32);
  }
}
