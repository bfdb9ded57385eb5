/*
 * src/binary80/hypot/check_special.c: the random checker of cr_hypotl.
 * The model covers the encodings get_random draws, the NaN-aware bitwise
 * comparison, and check, which runs check_aux on the eight sign and order
 * variants of (x, y).  MPFR, rand_r and the OpenMP loop are inputs.
 */
module HypotCheck {
  import opened Words
  import opened Ext80
  import opened HypotlSpec
  import opened Check80
  import opened SqrtRounding

  /**
   * get_random, lines 62-77, on the four draws of rand_r: the low 63 bits
   * of m are r1 | r2 << 31 | (r3 & 1) << 62 (the fields do not overlap, so
   * the ORs add), e = r4 & 0xffff, and bit 63 of m is set exactly when the
   * biased exponent e & 0x7fff is not 0; every draw is canonical.
   */
  function GetRandom(r1: nat, r2: nat, r3: nat, r4: nat): (v: Bits80)
    requires r1 <= RAND_MAX && r2 <= RAND_MAX && r3 <= RAND_MAX && r4 <= RAND_MAX
    ensures v.e == r4 % TWO16
    ensures v.m % TWO63 == r1 + r2 * TWO31 + (r3 % 2) * TWO62
    ensures v.m >= TWO63 <==> BiasedExp(v) != 0
    ensures Canonical(v)
  {
    var low := r1 + r2 * TWO31 + (r3 % 2) * TWO62;
    var e := r4 % TWO16;
    var t := e % TWO15 != 0;
    var m := if t then SetTop(low) else low;
    Bits80(m, e)
  }

  /** Conversely, every canonical encoding is drawn by some four draws. */
  lemma EveryCanonicalDrawn(v: Bits80)
    requires Canonical(v)
    ensures var low := v.m % TWO63;
      GetRandom(low % TWO31, (low / TWO31) % TWO31, low / TWO62, v.e) == v
  {
    var low := v.m % TWO63;
    LowWords(low);
    var w := GetRandom(low % TWO31, (low / TWO31) % TWO31, low / TWO62, v.e);
    TopBit(v.m);
    TopBit(w.m);
  }

  /** The low 63 bits split into the three draws. */
  lemma LowWords(low: nat)
    requires low < TWO63
    ensures low % TWO31 <= RAND_MAX && (low / TWO31) % TWO31 <= RAND_MAX && low / TWO62 < 2
    ensures low == low % TWO31 + ((low / TWO31) % TWO31) * TWO31 + ((low / TWO62) % 2) * TWO62
  {
    DivModSplit(low, TWO31);
    DivModSplit(low / TWO31, TWO31);
    DivDiv(low, TWO31, TWO31);
    DivUpperBound(low, TWO62, 2);
    DivModUnique(low / TWO62, 2, 0, low / TWO62);
  }

  /** A 64-bit word is its low 63 bits plus its top bit. */
  lemma TopBit(m: u64)
    ensures m == m % TWO63 + (if m >= TWO63 then TWO63 else 0)
  {
    if m >= TWO63 {
      DivModUnique(m, TWO63, 1, m - TWO63);
    } else {
      DivModUnique(m, TWO63, 0, m);
    }
  }

  /** is_equal, lines 87-96: any two NaNs are equal, otherwise e and m must be. */
  predicate IsEqual(x: Bits80, y: Bits80) {
    if IsNan80(x) then IsNan80(y)
    else if IsNan80(y) then IsNan80(x)
    else x.e == y.e && x.m == y.m
  }

  /**
   * is_equal is an equivalence whose classes are the NaNs and the single
   * encodings; unlike the log2 checker's, it tells +0 from -0.
   */
  lemma IsEqualMeaning(x: Bits80, y: Bits80, z: Bits80)
    ensures IsEqual(x, y) <==> (IsNan80(x) && IsNan80(y)) || (!IsNan80(x) && !IsNan80(y) && x == y)
    ensures IsEqual(x, x)
    ensures IsEqual(x, y) ==> IsEqual(y, x)
    ensures IsEqual(x, y) && IsEqual(y, z) ==> IsEqual(x, z)
    ensures !IsEqual(PlusZero, Bits80(0, 0x8000))
  {
  }

  /** The C -v: the sign bit flipped (HypotlSpec.Negate), or v itself. */
  function Signed(v: Bits80, negate: bool): Bits80 {
    if negate then Negate(v) else v
  }

  /** check, lines 149-160: the arguments of its eight calls of check_aux. */
  function Variants(x: Bits80, y: Bits80): (vs: seq<(Bits80, Bits80)>)
    ensures |vs| == 8 && vs[0] == (x, y)
  {
    [(x, y), (x, Negate(y)), (Negate(x), y), (Negate(x), Negate(y)),
     (y, x), (y, Negate(x)), (Negate(y), x), (Negate(y), Negate(x))]
  }

  /** Every order of the operands with every choice of their signs is among them. */
  lemma VariantsCover(x: Bits80, y: Bits80, swap: bool, nx: bool, ny: bool)
    ensures (if swap then (Signed(y, ny), Signed(x, nx)) else (Signed(x, nx), Signed(y, ny)))
      in Variants(x, y)
  {
    var vs := Variants(x, y);
    if swap {
      assert (Signed(y, ny), Signed(x, nx)) == vs[4 + (if ny then 2 else 0) + (if nx then 1 else 0)];
    } else {
      assert (Signed(x, nx), Signed(y, ny)) == vs[(if nx then 2 else 0) + (if ny then 1 else 0)];
    }
  }

  /**
   * All eight variants have the specification of hypot (x, y): the checker
   * asserts hypot (+-x, +-y) = hypot (+-y, +-x) with the same inexact flag.
   */
  lemma VariantsShareSpec(x: Bits80, y: Bits80, mode: RoundingMode, res: Outcome, inexact: bool)
    ensures forall i | 0 <= i < 8 ::
      HypotSpec(Variants(x, y)[i].0, Variants(x, y)[i].1, mode, res, inexact) <==>
      HypotSpec(x, y, mode, res, inexact)
  {
    HypotNegate(x, y, mode, res, inexact);
    HypotNegate(Negate(x), y, mode, res, inexact);
    HypotSwap(x, y, mode, res, inexact);
    HypotSwap(x, Negate(y), mode, res, inexact);
    HypotSwap(Negate(x), y, mode, res, inexact);
    HypotSwap(Negate(x), Negate(y), mode, res, inexact);
  }

  /** What one call of check_aux sees: cr_hypotl's result and flag, and MPFR's. */
  datatype Observation = Observation(got: Bits80, inexGot: bool, ref: Bits80, inexRef: bool)

  /** check_aux, lines 98-147: is_equal (z, t) and the inexact flags. */
  function CheckAux(o: Observation): (fails: seq<CheckFailure>)
    ensures fails == [] <==> IsEqual(o.got, o.ref) && o.inexGot == o.inexRef
  {
    Verdict(IsEqual(o.got, o.ref), o.inexRef, o.inexGot)
  }

  /** check: the verdicts of the eight calls, `run` standing for both evaluations. */
  function Check(x: Bits80, y: Bits80, run: ((Bits80, Bits80)) -> Observation): (verdicts: seq<seq<CheckFailure>>)
    ensures |verdicts| == 8
  {
    var vs := Variants(x, y);
    seq(8, i requires 0 <= i < 8 => CheckAux(run(vs[i])))
  }

  /**
   * Two results that both meet the specification of hypot are the same
   * encoding with the same inexact flag, so check_aux passes.
   */
  lemma SpecDecidesVerdict(x: Bits80, y: Bits80, mode: RoundingMode, o: Observation)
    requires HypotSpec(x, y, mode, Number(o.got), o.inexGot)
    requires HypotSpec(x, y, mode, Number(o.ref), o.inexRef)
    ensures CheckAux(o) == []
  {
    if !(IsSnan(x) || IsSnan(y) || IsInf(x) || IsInf(y) || IsNan(x) || IsNan(y)) {
      RoundingUnique(SumSq(x, y), mode, o.got, o.inexGot, o.ref, o.inexRef);
    }
  }

  /** The rounding of sqrt(S) has one encoding and one inexact flag. */
  lemma RoundingUnique(S: nat, mode: RoundingMode, z: Bits80, iz: bool, t: Bits80, it: bool)
    requires RoundedSqrt(S, mode, z, iz) && RoundedSqrt(S, mode, t, it)
    ensures z == t && iz == it
  {
    var G := UlpExp(S);
    var V := RoundSqrtAt(S, G, mode) * Pow2(G);
    if V <= MaxFiniteMag() {
      if V == 0 {
        PositiveZero(z);
        PositiveZero(t);
      } else {
        NumEqCanonical(z, t);
      }
    }
  }

  /** The canonical +0 is the all-zero encoding. */
  lemma PositiveZero(z: Bits80)
    requires Canonical(z) && IsFinite(z) && SignBit(z) == 0 && Mag(z) == 0
    ensures z == PlusZero
  {
    DivModSplit(z.e, TWO15);
  }

  /**
   * When cr_hypotl and the reference both meet the specification on every
   * variant, check reports nothing, and all eight results are the result
   * for (x, y).
   */
  lemma CorrectPasses(x: Bits80, y: Bits80, mode: RoundingMode, run: ((Bits80, Bits80)) -> Observation)
    requires forall i | 0 <= i < 8 ::
      var o := run(Variants(x, y)[i]);
      HypotSpec(Variants(x, y)[i].0, Variants(x, y)[i].1, mode, Number(o.got), o.inexGot) &&
      HypotSpec(Variants(x, y)[i].0, Variants(x, y)[i].1, mode, Number(o.ref), o.inexRef)
    ensures forall i | 0 <= i < 8 :: Check(x, y, run)[i] == []
    ensures forall i | 0 <= i < 8 :: run(Variants(x, y)[i]).got == run((x, y)).got
  {
    var vs := Variants(x, y);
    var first := run(vs[0]);
    forall i | 0 <= i < 8
      ensures Check(x, y, run)[i] == []
      ensures run(vs[i]).got == first.got
    {
      var o := run(vs[i]);
      SpecDecidesVerdict(vs[i].0, vs[i].1, mode, o);
      VariantsShareSpec(x, y, mode, Number(o.got), o.inexGot);
      SpecDecidesVerdict(x, y, mode, Observation(o.got, o.inexGot, first.got, first.inexGot));
    }
  }
}
