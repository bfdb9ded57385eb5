/*
 * What the two binary80 checkers, src/binary80/log2/check_special.c and
 * src/binary80/hypot/check_special.c, have in common: the random draws
 * both assemble into a significand, the is_nan test both define in the
 * same words, and the three verdicts of check (log2) and check_aux (hypot)
 * on the result and the inexact flag.
 */
module Check80 {
  import opened Words
  import opened Ext80
  import HypotlSpec

  /** glibc's RAND_MAX: rand () and rand_r () draw from [0, 2^31 - 1]. */
  const RAND_MAX: nat := 0x7fff_ffff

  /** m | 1ul << 63 */
  function SetTop(m: u64): (r: u64)
    ensures r >= TWO63 && r % TWO63 == m % TWO63
  {
    if m >= TWO63 then m else m + TWO63
  }

  /** m & ~(1ul << 63) */
  function ClearTop(m: u64): (r: u64)
    ensures r < TWO63 && r % TWO63 == m % TWO63
  {
    if m >= TWO63 then m - TWO63 else m
  }

  /**
   * is_nan (log2 lines 79-84, hypot lines 80-85): e is 0x7fff or 0xffff
   * and m is not 2^63.
   */
  predicate IsNan80(v: Bits80) {
    (v.e == 0x7fff || v.e == 0xffff) && v.m != TWO63
  }

  /**
   * The test reads the exponent field of either sign; on a canonical
   * encoding it agrees with the NaN test of hypotl.c.
   */
  lemma IsNanFields(v: Bits80)
    ensures IsNan80(v) <==> !IsFinite(v) && v.m != TWO63
    ensures Canonical(v) ==> (IsNan80(v) <==> HypotlSpec.IsNan(v))
  {
    DivModSplit(v.e, TWO15);
    if Canonical(v) && !IsFinite(v) {
      HypotlSpec.NanBits(v);
    }
  }

  /** The messages of check / check_aux. */
  datatype CheckFailure = Fail | SpuriousInexact | MissingInexact

  /**
   * check (log2 lines 96-131) and check_aux (hypot lines 98-147): the
   * result must equal the reference, and the inexact flag must be raised
   * exactly when MPFR's was.  Without DO_NOT_ABORT the program exits at
   * the first failure listed.
   */
  function Verdict(equal: bool, inexRef: bool, inexGot: bool): (fails: seq<CheckFailure>)
    ensures Fail in fails <==> !equal
    ensures SpuriousInexact in fails <==> !inexRef && inexGot
    ensures MissingInexact in fails <==> inexRef && !inexGot
    ensures fails == [] <==> equal && inexRef == inexGot
    ensures |fails| <= 2 && (|fails| > 0 && !equal ==> fails[0] == Fail)
  {
    (if equal then [] else [Fail]) +
    (if !inexRef && inexGot then [SpuriousInexact] else []) +
    (if inexRef && !inexGot then [MissingInexact] else [])
  }
}
