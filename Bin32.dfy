/*
 * The IEEE 754 binary32 encoding as a 32-bit word: sign bit 31, an 8-bit
 * biased exponent in bits 23..30 and a 23-bit fraction.  Both sinf.c and
 * the exhaustive checker look at floats only through these fields.
 */
module Bin32 {
  import opened Words

  const TWO23: nat := 0x80_0000

  type u32 = x: nat | x < TWO32

  /** u >> 31 */
  function SignOf(u: u32): (s: nat)
    ensures s <= 1
  {
    u / TWO31
  }

  /** (u >> 23) & 0xff */
  function ExpField(u: u32): (e: nat)
    ensures e < 256
  {
    (u / TWO23) % 256
  }

  /** u & 0x7fffff */
  function Fraction(u: u32): (f: nat)
    ensures f < TWO23
  {
    u % TWO23
  }

  /** u & 0x7fffffff: the encoding of |x|. */
  function AbsBits(u: u32): (a: nat)
    ensures a < TWO31
  {
    u % TWO31
  }

  /** The three fields put back together give the word. */
  lemma Fields(u: u32)
    ensures u == SignOf(u) * TWO31 + AbsBits(u)
    ensures AbsBits(u) == ExpField(u) * TWO23 + Fraction(u)
  {
    DivModSplit(u, TWO31);
    DivDiv(u, TWO23, 256);
    ModMod(u, TWO23, 256);
    DivModSplit(AbsBits(u), TWO23);
  }

  /** Exponent field all ones and a nonzero fraction, either sign. */
  predicate IsNan(u: u32) {
    ExpField(u) == 255 && Fraction(u) != 0
  }

  /** Exponent field all ones and a zero fraction, either sign. */
  predicate IsInf(u: u32) {
    ExpField(u) == 255 && Fraction(u) == 0
  }

  /** Either sign of zero. */
  predicate IsZero(u: u32) {
    AbsBits(u) == 0
  }

  /** Written on |x|: NaNs lie above the infinity 0x7f800000. */
  lemma NanInfByAbs(u: u32)
    ensures IsNan(u) <==> AbsBits(u) > 0x7f80_0000
    ensures IsInf(u) <==> AbsBits(u) == 0x7f80_0000
  {
    Fields(u);
  }
}
