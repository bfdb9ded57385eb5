/*
 * cr_sinf (src/binary32/sin/sinf.c): the integer side of the binary32 sine.
 * The model covers the classification of the argument by its bit pattern,
 * the hard-case database, the sine table as bit patterns with its
 * symmetries, and how the reduced index selects table entries.  The
 * polynomials, the double-precision reductions rltl and rltl0, the final
 * sums and the fma of the tiny path are floating-point numerics and are
 * outcomes here, not values.
 */
module Sinf {
  import opened Words
  import opened Bin32
  import opened SinfReduction

  /** Lines 161 and 181: ax = t.u << 1 on a uint32_t, the sign shifted out. */
  function Ax(u: u32): nat {
    (u * 2) % TWO32
  }

  lemma AxIsTwiceAbs(u: u32)
    ensures Ax(u) == 2 * AbsBits(u)
  {
    Fields(u);
    DivModUnique(u * 2, TWO32, SignOf(u), 2 * AbsBits(u));
  }

  /** Line 163: ax << 8 drops the exponent and leaves the fraction. */
  lemma FractionOfAx(u: u32)
    ensures (Ax(u) * 256) % TWO32 == Fraction(u) * 512
  {
    Fields(u);
    AxIsTwiceAbs(u);
    DivModUnique(Ax(u) * 256, TWO32, ExpField(u), Fraction(u) * 512);
  }

  /** Where cr_sinf (and as_sinf_big for large arguments) sends x. */
  datatype Route =
    | ReturnX     // +-0, line 189
    | Tiny        // |x| < 2^-25: fmaf(-x, |x|, x), line 190
    | Cubic       // |x| < 2^-12: x - x^3/6 in float, line 203
    | NanArg      // x + x, line 163
    | InfArg      // 0/0 and EDOM, lines 164-167
    | Large       // rbig and the table, lines 169-176
    | Database    // as_sinf_database, lines 208 and 211
    | NearSmall   // rltl0, line 209
    | NearLarge   // rltl, line 212

  /** Lines 181-213 of cr_sinf, with lines 161-168 of as_sinf_big. */
  function Classify(u: u32): Route {
    var ax := Ax(u);
    if ax > 0x9900_0000 || ax < 0x7300_0000 then
      if ax < 0x7300_0000 then
        if ax < 0x6600_0000 then
          if ax == 0 then ReturnX else Tiny
        else
          Cubic
      else if ax >= 0xff00_0000 then
        if (ax * 256) % TWO32 != 0 then NanArg else InfArg
      else
        Large
    else if ax < 0x822d_97c8 then
      if ax == 0x7e75_b8a2 || ax == 0x7f4f_0654 then Database else NearSmall
    else if ax == 0x8c33_3330 then
      Database
    else
      NearLarge
  }

  /**
   * The routes by the value of |x| (read through its encoding, whose order
   * is that of the magnitudes): 0x33000000 is 2^-25, 0x39800000 is 2^-12,
   * 0x4c800000 is 2^26, 0x4116cbe4 is 0x1.2d97c8p+3 and 0x7f800000 is
   * infinity.
   */
  lemma ClassifyByValue(u: u32)
    ensures Classify(u) == ReturnX <==> IsZero(u)
    ensures Classify(u) == Tiny <==> 0 < AbsBits(u) < 0x3300_0000
    ensures Classify(u) == Cubic <==> 0x3300_0000 <= AbsBits(u) < 0x3980_0000
    ensures Classify(u) == NanArg <==> IsNan(u)
    ensures Classify(u) == InfArg <==> IsInf(u)
    ensures Classify(u) == Large <==> 0x4c80_0000 < AbsBits(u) < 0x7f80_0000
    ensures Classify(u) == Database <==> AbsBits(u) in DATABASE_ARGS
    ensures Classify(u) == NearSmall <==>
      0x3980_0000 <= AbsBits(u) < 0x4116_cbe4 && AbsBits(u) !in DATABASE_ARGS
    ensures Classify(u) == NearLarge <==>
      0x4116_cbe4 <= AbsBits(u) <= 0x4c80_0000 && AbsBits(u) !in DATABASE_ARGS
  {
    AxIsTwiceAbs(u);
    FractionOfAx(u);
    NanInfByAbs(u);
    Fields(u);
  }

  /** The |x| encodings cr_sinf sends to the database (lines 208, 211). */
  const DATABASE_ARGS: set<nat> := {0x3f3a_dc51, 0x3fa7_832a, 0x4619_9998}

  /**
   * Large arguments reach rbig with 153 <= e <= 254, inside its domain;
   * e = 153 does occur (the comment at lines 92-93 says e >= 155).
   */
  lemma LargeInDomain(u: u32)
    ensures Classify(u) == Large ==> 153 <= ExpField(u) <= 254 && InDomain(u)
    ensures Classify(0x4c80_0001) == Large && ExpField(0x4c80_0001) == 153
  {
    ClassifyByValue(u);
    Fields(u);
    ClassifyByValue(0x4c80_0001);
    Fields(0x4c80_0001);
  }

  // ---------------------------------------------------------------------
  // The hard-case database, lines 131-143

  /** st[i].uarg, the |x| encodings of the four stored arguments. */
  const KEYS: seq<nat> := [0x4619_9998, 0x3f3a_dc51, 0x3fa7_832a, 0x4116_cbe4]

  /** The database answer: the stored rh + rl with the sign of x, or r. */
  datatype Stored = Entry(index: nat, negative: bool) | PassThrough

  /**
   * as_sinf_database: the first key equal to |x| gives its entry with the
   * sign of x (add_sign), and without a match r is returned as it was.
   */
  method LookupDatabase(u: u32) returns (r: Stored)
    ensures r.Entry? ==>
      (r.index < |KEYS| && KEYS[r.index] == AbsBits(u) &&
       r.negative == (SignOf(u) == 1) &&
       forall j :: 0 <= j < r.index ==> KEYS[j] != AbsBits(u))
    ensures r.PassThrough? <==> AbsBits(u) !in KEYS
  {
    var ax := u % TWO31;
    for i := 0 to |KEYS|
      invariant forall j :: 0 <= j < i ==> KEYS[j] != ax
    {
      if KEYS[i] == ax {
        return Entry(i, u >= TWO31);
      }
    }
    return PassThrough;
  }

  /**
   * Every argument cr_sinf sends to the database is stored there, under
   * one of the first three keys: st[3] is never consulted.
   */
  lemma DatabaseCovers(u: u32)
    requires Classify(u) == Database
    ensures AbsBits(u) in KEYS[..3]
    ensures forall j :: 0 <= j < |KEYS| && KEYS[j] == AbsBits(u) ==> j < 3
  {
    ClassifyByValue(u);
    assert KEYS[..3] == [0x4619_9998, 0x3f3a_dc51, 0x3fa7_832a];
  }

  // ---------------------------------------------------------------------
  // The sine table, lines 149-157

  /**
   * tb[j] = sin(j pi/16) as the bit patterns of the doubles.  Entries 0 and
   * 16 are both +0.
   */
  const TB: seq<nat> := [
    0x0000_0000_0000_0000, 0x3fc8_f8b8_3c69_a60b, 0x3fd8_7de2_a6ae_a963, 0x3fe1_c73b_39ae_68c8,
    0x3fe6_a09e_667f_3bcd, 0x3fea_9b66_290e_a1a3, 0x3fed_906b_cf32_8d46, 0x3fef_6297_cff7_5cb0,
    0x3ff0_0000_0000_0000, 0x3fef_6297_cff7_5cb0, 0x3fed_906b_cf32_8d46, 0x3fea_9b66_290e_a1a3,
    0x3fe6_a09e_667f_3bcd, 0x3fe1_c73b_39ae_68c8, 0x3fd8_7de2_a6ae_a963, 0x3fc8_f8b8_3c69_a60b,
    0x0000_0000_0000_0000, 0xbfc8_f8b8_3c69_a60b, 0xbfd8_7de2_a6ae_a963, 0xbfe1_c73b_39ae_68c8,
    0xbfe6_a09e_667f_3bcd, 0xbfea_9b66_290e_a1a3, 0xbfed_906b_cf32_8d46, 0xbfef_6297_cff7_5cb0,
    0xbff0_0000_0000_0000, 0xbfef_6297_cff7_5cb0, 0xbfed_906b_cf32_8d46, 0xbfea_9b66_290e_a1a3,
    0xbfe6_a09e_667f_3bcd, 0xbfe1_c73b_39ae_68c8, 0xbfd8_7de2_a6ae_a963, 0xbfc8_f8b8_3c69_a60b]

  /** -v on a double: the sign bit flipped. */
  function Negate64(b: nat): (r: nat)
    requires b < TWO64
    ensures r < TWO64 && (r >= TWO63 <==> b < TWO63) && (r - b == TWO63 || b - r == TWO63)
  {
    if b >= TWO63 then b - TWO63 else b + TWO63
  }

  /** Equal as doubles (no NaN in the table): the same bits, or +0 and -0. */
  predicate SameDouble(a: nat, b: nat) {
    a == b || ((a == 0 || a == TWO63) && (b == 0 || b == TWO63))
  }

  /** The s0 entry of lines 174 and 217: tb[ia & 31]. */
  function SineEntry(q: int): (b: nat)
    ensures b < TWO64
  {
    TB[q % 32]
  }

  /** The c0 entry of lines 174 and 217: tb[(ia + 8) & 31], a quarter turn on. */
  function CosineEntry(q: int): (b: nat)
    ensures b < TWO64
  {
    TB[(q + 8) % 32]
  }

  /** tb[(j + 16) & 31] = -tb[j] */
  predicate HalfTurned(j: int)
    requires 0 <= j < 32
  {
    SameDouble(TB[(j + 16) % 32], Negate64(TB[j]))
  }

  /** Half a turn on, the table is negated: sin(t + pi) = -sin(t). */
  lemma TableHalfTurn()
    ensures forall j | 0 <= j < 32 :: HalfTurned(j)
  {
    HalfTurnQuarter0();
    HalfTurnQuarter1();
    HalfTurnQuarter2();
    HalfTurnQuarter3();
  }

  /** The entries checked eight at a time, one quarter of the table per lemma. */
  lemma HalfTurnQuarter0()
    ensures forall j | 0 <= j < 8 :: HalfTurned(j)
  {
    forall j | 0 <= j < 8
      ensures HalfTurned(j)
    {
      Mod32(j + 16);
      assert j in {0, 1, 2, 3, 4, 5, 6, 7};
    }
  }

  lemma HalfTurnQuarter1()
    ensures forall j | 8 <= j < 16 :: HalfTurned(j)
  {
    forall j | 8 <= j < 16
      ensures HalfTurned(j)
    {
      Mod32(j + 16);
      assert j in {8, 9, 10, 11, 12, 13, 14, 15};
    }
  }

  lemma HalfTurnQuarter2()
    ensures forall j | 16 <= j < 24 :: HalfTurned(j)
  {
    forall j | 16 <= j < 24
      ensures HalfTurned(j)
    {
      Mod32(j + 16);
      assert j in {16, 17, 18, 19, 20, 21, 22, 23};
    }
  }

  lemma HalfTurnQuarter3()
    ensures forall j | 24 <= j < 32 :: HalfTurned(j)
  {
    forall j | 24 <= j < 32
      ensures HalfTurned(j)
    {
      Mod32(j + 16);
      assert j in {24, 25, 26, 27, 28, 29, 30, 31};
    }
  }

  /** tb[8 - j] = tb[8 + j], indices taken modulo 32. */
  predicate Mirrored(j: int) {
    TB[(8 - j) % 32] == TB[(8 + j) % 32]
  }

  /** The table is symmetric about a quarter turn: sin(pi/2 - t) = sin(pi/2 + t). */
  lemma TableMirror()
    ensures forall j | 0 <= j < 32 :: Mirrored(j)
  {
    MirrorQuarter0();
    MirrorQuarter1();
    MirrorQuarter2();
    MirrorQuarter3();
  }

  lemma MirrorQuarter0()
    ensures forall j | 0 <= j < 8 :: Mirrored(j)
  {
    forall j | 0 <= j < 8
      ensures Mirrored(j)
    {
      Mod32(8 - j);
      Mod32(8 + j);
      assert j in {0, 1, 2, 3, 4, 5, 6, 7};
    }
  }

  lemma MirrorQuarter1()
    ensures forall j | 8 <= j < 16 :: Mirrored(j)
  {
    forall j | 8 <= j < 16
      ensures Mirrored(j)
    {
      Mod32(8 - j);
      Mod32(8 + j);
      assert j in {8, 9, 10, 11, 12, 13, 14, 15};
    }
  }

  lemma MirrorQuarter2()
    ensures forall j | 16 <= j < 24 :: Mirrored(j)
  {
    forall j | 16 <= j < 24
      ensures Mirrored(j)
    {
      Mod32(8 - j);
      Mod32(8 + j);
      assert j in {16, 17, 18, 19, 20, 21, 22, 23};
    }
  }

  lemma MirrorQuarter3()
    ensures forall j | 24 <= j < 32 :: Mirrored(j)
  {
    forall j | 24 <= j < 32
      ensures Mirrored(j)
    {
      Mod32(8 - j);
      Mod32(8 + j);
      assert j in {24, 25, 26, 27, 28, 29, 30, 31};
    }
  }

  /** k & 31 for the indices the table lemmas form. */
  lemma Mod32(k: int)
    requires -32 <= k < 64
    ensures k % 32 == if k < 0 then k + 32 else if k >= 32 then k - 32 else k
  {
  }

  /** tb[-j] = -tb[j], indices taken modulo 32. */
  predicate Odd(j: int)
    requires 0 <= j < 32
  {
    SameDouble(TB[(32 - j) % 32], Negate64(TB[j]))
  }

  /** The table is odd: sin(-t) = -sin(t). */
  lemma TableOdd()
    ensures forall j | 0 <= j < 32 :: Odd(j)
  {
    OddQuarter0();
    OddQuarter1();
    OddQuarter2();
    OddQuarter3();
  }

  lemma OddQuarter0()
    ensures forall j | 0 <= j < 8 :: Odd(j)
  {
    forall j | 0 <= j < 8
      ensures Odd(j)
    {
      Mod32(32 - j);
      assert j in {0, 1, 2, 3, 4, 5, 6, 7};
    }
  }

  lemma OddQuarter1()
    ensures forall j | 8 <= j < 16 :: Odd(j)
  {
    forall j | 8 <= j < 16
      ensures Odd(j)
    {
      Mod32(32 - j);
      assert j in {8, 9, 10, 11, 12, 13, 14, 15};
    }
  }

  lemma OddQuarter2()
    ensures forall j | 16 <= j < 24 :: Odd(j)
  {
    forall j | 16 <= j < 24
      ensures Odd(j)
    {
      Mod32(32 - j);
      assert j in {16, 17, 18, 19, 20, 21, 22, 23};
    }
  }

  lemma OddQuarter3()
    ensures forall j | 24 <= j < 32 :: Odd(j)
  {
    forall j | 24 <= j < 32
      ensures Odd(j)
    {
      Mod32(32 - j);
      assert j in {24, 25, 26, 27, 28, 29, 30, 31};
    }
  }

  /**
   * Negating the index (what rbig does for a negative x) negates the sine
   * entry and keeps the cosine entry: sin is odd and cos is even.
   */
  lemma EntriesUnderNegation(q: int)
    ensures SameDouble(SineEntry(-q), Negate64(SineEntry(q)))
    ensures CosineEntry(-q) == CosineEntry(q)
  {
    var j := q % 32;
    NegatedResidues(q);
    TableOdd();
    TableMirror();
    assert Odd(j) && Mirrored(j);
  }

  lemma NegatedResidues(q: int)
    ensures (-q) % 32 == (32 - q % 32) % 32
    ensures (-q + 8) % 32 == (8 - q % 32) % 32
    ensures (q + 8) % 32 == (8 + q % 32) % 32
  {
    var j := q % 32;
    DivModSplit(q, 32);
    DivAddMul(-(q / 32) - 1, 32 - j, 32);
    DivAddMul(-(q / 32) - 1, 40 - j, 32);
    DivAddMul(-1, 40 - j, 32);
    DivAddMul(q / 32, 8 + j, 32);
  }

  // ---------------------------------------------------------------------
  // cr_sinf

  /** What cr_sinf returns, with the floating-point evaluations left abstract. */
  datatype SinOutcome =
    | Same                                // x itself
    | NanSum                              // x + x
    | Invalid(edom: bool)                 // 0/0, errno set to EDOM
    | TinyFma(erange: bool)               // fmaf(-x, |x|, x), errno set to ERANGE
    | CubicPoly                           // (-0x1.555556p-3f x)(x x) + x
    | FromDatabase(found: Stored)         // as_sinf_database(x, 0.0)
    | BigReduced(q: int, z: int)          // rbig, then the table at q
    | NearReduced(viaRltl: bool)          // rltl0 or rltl, then the table

  /**
   * Lines 198-199: ERANGE when |x| or |res| is below the smallest normal
   * 2^-126, whose encoding is 0x00800000.
   */
  predicate TinyUnderflows(u: u32, res: u32) {
    AbsBits(u) < 0x0080_0000 || AbsBits(res) < 0x0080_0000
  }

  /**
   * cr_sinf.  `tinyRes` is the encoding of fmaf(-x, |x|, x) and `errno` says
   * whether CORE_MATH_SUPPORT_ERRNO is defined.
   */
  method CrSinf(u: u32, tinyRes: u32, errno: bool) returns (out: SinOutcome)
    ensures Classify(u) == ReturnX ==> out == Same
    ensures Classify(u) == Tiny ==> out == TinyFma(errno && TinyUnderflows(u, tinyRes))
    ensures Classify(u) == Cubic ==> out == CubicPoly
    ensures Classify(u) == NanArg ==> out == NanSum
    ensures Classify(u) == InfArg ==> out == Invalid(errno)
    ensures Classify(u) == Large ==>
      (InDomain(u) && out.BigReduced? &&
       -0x8000_0000 <= out.q < TWO31 && Congruent(out.q, SignedIndex(u)) &&
       out.z == (if SignOf(u) == 1 then -Fraction64(u) - 1 else Fraction64(u)))
    ensures Classify(u) == Database ==>
      (out.FromDatabase? && out.found.Entry? &&
       out.found.index < 3 && KEYS[out.found.index] == AbsBits(u) &&
       out.found.negative == (SignOf(u) == 1))
    ensures Classify(u) == NearSmall ==> out == NearReduced(false)
    ensures Classify(u) == NearLarge ==> out == NearReduced(true)
  {
    var route := Classify(u);
    match route {
      case ReturnX => out := Same;
      case Tiny => out := TinyFma(errno && TinyUnderflows(u, tinyRes));
      case Cubic => out := CubicPoly;
      case NanArg => out := NanSum;
      case InfArg => out := Invalid(errno);
      case Large =>
        LargeInDomain(u);
        var q, z := Rbig(u);
        out := BigReduced(q, z);
      case Database =>
        DatabaseCovers(u);
        var found := LookupDatabase(u);
        out := FromDatabase(found);
      case NearSmall => out := NearReduced(false);
      case NearLarge => out := NearReduced(true);
    }
  }
}
