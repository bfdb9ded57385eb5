/*
 * The x87 80-bit double-extended format as the sources see it through the
 * union {long double f; struct {uint64_t m; uint16_t e;};}: a 64-bit
 * significand m with an explicit integer bit (bit 63) and a 16-bit field e
 * whose top bit is the sign and whose low 15 bits are the biased exponent
 * (bias 16383).
 *
 * Magnitudes of finite encodings are counted in units of the smallest
 * subnormal, 2^-16445: an encoding with biased exponent b has magnitude
 * m * 2^(max(b, 1) - 1) units (exponent field 0 is read with exponent 1, as
 * the hardware reads subnormals and pseudo-denormals).
 */
module Ext80 {
  import opened Words

  type u16 = x: nat | x < TWO16

  datatype Bits80 = Bits80(m: u64, e: u16)

  datatype RoundingMode = ToNearest | TowardZero | Upward | Downward

  const BIAS: nat := 0x3fff
  const EXP_INF_NAN: nat := 0x7fff

  /** e & 0x7fff */
  function BiasedExp(v: Bits80): (b: nat)
    ensures b < TWO15
  {
    v.e % TWO15
  }

  /** e >> 15 */
  function SignBit(v: Bits80): (s: nat)
    ensures s <= 1
  {
    v.e / TWO15
  }

  predicate IsFinite(v: Bits80) {
    BiasedExp(v) != EXP_INF_NAN
  }

  /**
   * A canonical encoding: the integer bit is set exactly when the biased
   * exponent is nonzero (no unnormals, pseudo-infinities, pseudo-NaNs or
   * pseudo-denormals).
   */
  predicate Canonical(v: Bits80) {
    (BiasedExp(v) == 0) == (v.m < TWO63)
  }

  /** The power of two that scales m, in units of 2^-16445. */
  function ScaleExp(v: Bits80): nat {
    if BiasedExp(v) == 0 then 0 else BiasedExp(v) - 1
  }

  /** |v| in units of 2^-16445, for a finite encoding. */
  function Mag(v: Bits80): nat {
    v.m * Pow2(ScaleExp(v))
  }

  const PlusZero: Bits80 := Bits80(0, 0)
  const PlusInf: Bits80 := Bits80(TWO63, EXP_INF_NAN)
  /** 0x1.fffffffffffffffep+16383L, the largest finite value */
  const Huge: Bits80 := Bits80(TWO64 - 1, 0x7ffe)

  /** Mag(Huge) */
  function MaxFiniteMag(): nat {
    (TWO64 - 1) * Pow2(0x7ffd)
  }

  /**
   * What an overflowing operation returns under each rounding mode
   * (section 7.4 of IEEE 754-2019): +Inf when rounding to nearest or
   * upward, the largest finite value when rounding toward zero or downward
   * (for a positive result).
   */
  function OverflowValue(mode: RoundingMode): (r: Bits80)
    ensures r == PlusInf || r == Huge
  {
    match mode
    case ToNearest => PlusInf
    case Upward => PlusInf
    case TowardZero => Huge
    case Downward => Huge
  }

  /** Up to 2^64 ulps of a binade below the top one stay finite. */
  lemma BelowTopBinade(q: nat, G: nat)
    requires q <= TWO64 && G <= 0x7ffc
    ensures q * Pow2(G) <= MaxFiniteMag()
  {
    Pow2Mono(G, 0x7ffc);
    BelowTopScaled(q, Pow2(G), Pow2(0x7ffc), Pow2(0x7ffd));
  }

  lemma BelowTopScaled(q: nat, A: nat, B: nat, C: nat)
    requires q <= TWO64 && A <= B && C == 2 * B
    ensures q * A <= (TWO64 - 1) * C
  {
    MulLeMul(q, TWO64, A);
    MulLeMul(A, B, TWO64);
    MulLeMul(TWO63, TWO64 - 1, C);
  }

  /** In the top binade, only 2^64 ulps pass the largest finite value. */
  lemma TopBinade(q: nat)
    requires q <= TWO64
    ensures q * Pow2(0x7ffd) > MaxFiniteMag() <==> q == TWO64
  {
    TopScaled(q, Pow2(0x7ffd));
  }

  lemma TopScaled(q: nat, P: nat)
    requires q <= TWO64 && P > 0
    ensures q * P > (TWO64 - 1) * P <==> q == TWO64
  {
    if q < TWO64 {
      MulLeMul(q, TWO64 - 1, P);
    }
  }

  /** Each binade of a canonical finite encoding spans a factor of two. */
  lemma MagBounds(v: Bits80)
    requires Canonical(v) && IsFinite(v)
    ensures BiasedExp(v) == 0 ==> Mag(v) < TWO63
    ensures BiasedExp(v) >= 1 ==> Pow2(BiasedExp(v) + 62) <= Mag(v) < Pow2(BiasedExp(v) + 63)
  {
    var b := BiasedExp(v);
    if b >= 1 {
      var P := Pow2(b - 1);
      Pow2Add(b - 1, 63);
      Pow2Add(b - 1, 64);
      Pow2At63();
      Pow2At64();
      BinadeScaled(v.m, P);
    }
  }

  lemma BinadeScaled(m: nat, P: nat)
    requires TWO63 <= m < TWO64 && P > 0
    ensures P * TWO63 <= m * P < P * TWO64
  {
    MulLeMul(TWO63, m, P);
    MulLtMul(m, TWO64, P);
  }

  /**
   * x == y on two encodings read as values: a NaN equals nothing, +0
   * equals -0, and an infinity equals only itself.
   */
  predicate NumEq(a: Bits80, b: Bits80) {
    if IsFinite(a) && IsFinite(b) then
      Mag(a) == Mag(b) && (Mag(a) == 0 || SignBit(a) == SignBit(b))
    else
      a == b && a.m == TWO63
  }

  /** On canonical encodings, equal values have equal bits, zeros aside. */
  lemma NumEqCanonical(a: Bits80, b: Bits80)
    requires Canonical(a) && Canonical(b)
    ensures NumEq(a, b) <==>
      (a == b && (IsFinite(a) || a.m == TWO63)) ||
      (IsFinite(a) && IsFinite(b) && Mag(a) == 0 && Mag(b) == 0)
  {
    if IsFinite(a) && IsFinite(b) && Mag(a) == Mag(b) && Mag(a) != 0 && SignBit(a) == SignBit(b) {
      SameBinade(a, b);
      SameBinade(b, a);
      Pow2Mono(0, ScaleExp(a));
      MulCancelRight(a.m, b.m, Pow2(ScaleExp(a)));
      DivModSplit(a.e, TWO15);
      DivModSplit(b.e, TWO15);
    }
  }

  /** A nonzero magnitude cannot be reached from a lower binade. */
  lemma SameBinade(a: Bits80, b: Bits80)
    requires Canonical(a) && Canonical(b) && IsFinite(a) && IsFinite(b)
    requires Mag(a) == Mag(b) && Mag(a) != 0
    ensures BiasedExp(a) <= BiasedExp(b)
  {
    MagBounds(a);
    MagBounds(b);
    if BiasedExp(b) < BiasedExp(a) {
      if BiasedExp(b) == 0 {
        Pow2Mono(63, BiasedExp(a) + 62);
        Pow2Consts();
      } else {
        Pow2Mono(BiasedExp(b) + 63, BiasedExp(a) + 62);
      }
    }
  }

  lemma MulCancelRight(x: nat, y: nat, p: nat)
    requires p > 0 && x * p == y * p
    ensures x == y
  {
    if x < y {
      MulLtMul(x, y, p);
    } else if y < x {
      MulLtMul(y, x, p);
    }
  }

  /**
   * |v| >= M * 2^(B - 16383 - 63) for a 64-bit significand bound M, told
   * from the encoding: a higher binade, or binade B with m >= M.
   */
  predicate Above(v: Bits80, B: nat, M: nat) {
    BiasedExp(v) > B || (BiasedExp(v) == B && v.m >= M)
  }

  /** Above states a comparison of magnitudes. */
  lemma MagAbove(v: Bits80, B: nat, M: nat)
    requires Canonical(v) && IsFinite(v)
    requires B >= 1 && TWO63 <= M <= TWO64
    ensures Above(v, B, M) <==> Mag(v) >= M * Pow2(B - 1)
  {
    var b := BiasedExp(v);
    if b > B {
      MagAboveHigher(v, B, M);
    } else if b == B {
      if v.m >= M {
        MulLeMul(M, v.m, Pow2(B - 1));
      } else {
        MulLtMul(v.m, M, Pow2(B - 1));
      }
    } else {
      MagBelowLower(v, B, M);
    }
  }

  lemma MagAboveHigher(v: Bits80, B: nat, M: nat)
    requires Canonical(v) && IsFinite(v)
    requires B >= 1 && M <= TWO64 && BiasedExp(v) > B
    ensures Mag(v) >= M * Pow2(B - 1)
  {
    MagBounds(v);
    Pow2Mono(B + 63, BiasedExp(v) + 62);
    Pow2Add(B - 1, 64);
    Pow2At64();
    BoundedBelow(Mag(v), Pow2(B - 1), M, TWO64);
  }

  lemma MagBelowLower(v: Bits80, B: nat, M: nat)
    requires Canonical(v) && IsFinite(v)
    requires B >= 1 && TWO63 <= M && BiasedExp(v) < B
    ensures Mag(v) < M * Pow2(B - 1)
  {
    var b := BiasedExp(v);
    MagBounds(v);
    if b >= 1 {
      Pow2Mono(b + 63, B + 62);
    } else {
      Pow2Mono(63, B + 62);
    }
    Pow2Add(B - 1, 63);
    Pow2At63();
    BoundedAbove(Mag(v), Pow2(B - 1), M, TWO63);
  }

  lemma BoundedBelow(mag: nat, P: nat, M: nat, c: nat)
    requires mag >= c * P && M <= c
    ensures mag >= M * P
  {
    MulLeMul(M, c, P);
  }

  lemma BoundedAbove(mag: nat, P: nat, M: nat, c: nat)
    requires mag < c * P && c <= M
    ensures mag < M * P
  {
    MulLeMul(c, M, P);
  }

  /** A result: an encoding, or a quiet NaN whose payload is not modelled. */
  datatype Outcome = Number(bits: Bits80) | QuietNaN

  /** left == right in C: two numbers that compare equal. */
  predicate Agree(left: Outcome, right: Outcome) {
    left.Number? && right.Number? && NumEq(left.bits, right.bits)
  }

  /** v.e += e on the 16-bit sign-and-exponent field, staying in the finite binades. */
  function AddToExponent(v: Bits80, e: int): (w: Bits80)
    requires 1 <= BiasedExp(v) + e <= 0x7ffe
    ensures w.m == v.m && SignBit(w) == SignBit(v) && BiasedExp(w) == BiasedExp(v) + e
  {
    var f := v.e + e;
    DivModSplit(v.e, TWO15);
    DivModUnique(f, TWO15, SignBit(v), BiasedExp(v) + e);
    Bits80(v.m, f % TWO16)
  }

  /** On a normal encoding, adding e to the exponent field multiplies the value by 2^e. */
  lemma ExponentScaling(v: Bits80, e: int)
    requires Canonical(v) && 1 <= BiasedExp(v) && 1 <= BiasedExp(v) + e <= 0x7ffe
    ensures Canonical(AddToExponent(v, e))
    ensures e >= 0 ==> Mag(AddToExponent(v, e)) == Mag(v) * Pow2(e)
    ensures e < 0 ==> Mag(AddToExponent(v, e)) * Pow2(-e) == Mag(v)
  {
    var b := BiasedExp(v);
    if e >= 0 {
      Pow2Add(b - 1, e);
    } else {
      Pow2Add(b + e - 1, -e);
    }
  }
}
