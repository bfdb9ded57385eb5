/*
 * cr_cbrtl (src/binary80/cbrt/cbrtl.c): the cube root on the x87 80-bit
 * format.  The model covers the special-value test, the normalisation of
 * subnormal significands, the split of the exponent into 3 * exp + i, the
 * sign, and the final rescaling through the exponent field.  The
 * polynomial, the two Newton steps, the multiplication by 2^(i/3) and the
 * two bound sums are one parameter.  The code has no accurate path: when
 * the two bounds round differently it returns 0, and so does the model.
 */
module Cbrtl {
  import opened Words
  import opened Ext80

  /**
   * What fast_path works with: the sign s, the significand m normalised to
   * [2^63, 2^64), the matching exponent e, and e - 16383 = 3 * exp + i.
   */
  datatype Reduction = Reduction(s: nat, m: nat, e: int, i: nat, exp: int)

  /**
   * Lines 140-153: s = v.e >> 15, e = v.e & 0x7fff, a subnormal m shifted
   * left by k = clz(m) with e = 1 - k, then i = (e + 63) % 3 and
   * exp = (e + 63) / 3 - 5482 (e + 63 >= 1, so C's division agrees with
   * the Euclidean one).  The value is unchanged: |x| = m * 2^(e - 16383 - 63).
   */
  function Reduce(x: Bits80): (r: Reduction)
    requires Canonical(x) && IsFinite(x) && x.m != 0
    ensures r.s == SignBit(x) && r.s < 2
    ensures TWO63 <= r.m < TWO64 && -62 <= r.e < EXP_INF_NAN
    ensures r.i < 3 && r.e - 16383 == 3 * r.exp + r.i
    ensures -5482 <= r.exp <= 5461
  {
    var (m, e) := Normalize(x);
    ThirdSplit(e);
    Reduction(SignBit(x), m, e, (e + 63) % 3, (e + 63) / 3 - 5482)
  }

  /** The reduction keeps the value: |x| = m * 2^(e - 16383 - 63). */
  lemma ReduceValue(x: Bits80)
    requires Canonical(x) && IsFinite(x) && x.m != 0
    ensures var r := Reduce(x); Mag(x) * TWO63 == r.m * Pow2(r.e + 62)
  {
  }

  /**
   * Lines 141-149: a subnormal significand is shifted left by k = clz(m)
   * (m << k, which cannot overflow) and e becomes 1 - k; a normal one is
   * kept with its biased exponent.
   */
  function Normalize(x: Bits80): (p: (nat, int))
    requires Canonical(x) && IsFinite(x) && x.m != 0
    ensures TWO63 <= p.0 < TWO64 && -62 <= p.1 < EXP_INF_NAN
    ensures Mag(x) * TWO63 == p.0 * Pow2(p.1 + 62)
  {
    if BiasedExp(x) == 0 then
      var k := Clz64(x.m);
      SubnormalValue(x, k);
      (x.m * Pow2(k), 1 - k)
    else
      NormalValue(x);
      (x.m, BiasedExp(x))
  }

  lemma SubnormalValue(x: Bits80, k: nat)
    requires BiasedExp(x) == 0 && k < 64
    ensures Mag(x) * TWO63 == x.m * Pow2(k) * Pow2(63 - k)
  {
    Pow2At63();
    assert Mag(x) == x.m;
    Pow2Add(k, 63 - k);
    Regroup(x.m, Pow2(k), Pow2(63 - k));
  }

  lemma NormalValue(x: Bits80)
    requires BiasedExp(x) >= 1
    ensures Mag(x) * TWO63 == x.m * Pow2(BiasedExp(x) + 62)
  {
    Pow2At63();
    Pow2Add(BiasedExp(x) - 1, 63);
    Regroup(x.m, Pow2(BiasedExp(x) - 1), TWO63);
  }

  lemma Regroup(a: nat, b: nat, c: nat)
    ensures a * (b * c) == (a * b) * c
  {
  }

  /** Lines 151-152: e - 16383 = 3 * exp + i with 0 <= i < 3. */
  lemma ThirdSplit(e: int)
    requires -62 <= e < EXP_INF_NAN
    ensures var i := (e + 63) % 3; var exp := (e + 63) / 3 - 5482;
      i < 3 && e - 16383 == 3 * exp + i && -5482 <= exp <= 5461
  {
    DivModSplit(e + 63, 3);
  }

  /**
   * The reduction splits off a cube: 2 |x| 2^63 = (m 2^i) (2^q)^3 with
   * q = exp + 5482, that is |x| = (m / 2^63) 2^i 2^(3 exp) and
   * cbrt(|x|) = cbrt((m / 2^63) 2^i) 2^exp.
   */
  lemma CubeSplit(x: Bits80)
    requires Canonical(x) && IsFinite(x) && x.m != 0
    ensures var r := Reduce(x); var q := r.exp + 5482;
      q >= 0 && 2 * Mag(x) * TWO63 == (r.m * Pow2(r.i)) * (Pow2(q) * Pow2(q) * Pow2(q))
  {
    var r := Reduce(x);
    var q := r.exp + 5482;
    ReduceValue(x);
    CubePowers(r.e + 62, r.i, q);
    Distribute(Mag(x) * TWO63, r.m, Pow2(r.e + 62), Pow2(r.i), Pow2(q) * Pow2(q) * Pow2(q));
  }

  lemma Distribute(v: nat, m: nat, p: nat, a: nat, c: nat)
    requires v == m * p && 2 * p == a * c
    ensures 2 * v == (m * a) * c
  {
    calc {
      2 * v;
      m * (2 * p);
      m * (a * c);
      { Regroup(m, a, c); }
      (m * a) * c;
    }
  }

  lemma CubePowers(n: nat, i: nat, q: nat)
    requires n + 1 == 3 * q + i
    ensures 2 * Pow2(n) == Pow2(i) * (Pow2(q) * Pow2(q) * Pow2(q))
  {
    var t := q + q + q;
    Pow2Add(q, q);
    Pow2Add(q + q, q);
    Pow2Add(i, t);
    assert i + t == n + 1;
    assert Pow2(n + 1) == 2 * Pow2(n);
  }

  /**
   * Line 150: v.e = 16383 overwrites the whole field, clearing the sign and
   * putting the reduced argument m / 2^63 in [1, 2).
   */
  function ReducedArgument(r: Reduction): (v: Bits80)
    requires TWO63 <= r.m < TWO64
    ensures Canonical(v) && SignBit(v) == 0 && BiasedExp(v) == BIAS && v.m == r.m
  {
    Bits80(r.m, BIAS)
  }

  /**
   * What the floating-point part must deliver when its two bounds agree:
   * a canonical number in [1, 2] carrying the sign sgn[s] (the cube root
   * of a value in [1, 8) is in [1, 2), and may round up to 2).
   */
  predicate ApproxFits(lr: (Outcome, Outcome), s: nat) {
    Agree(lr.0, lr.1) ==>
      Canonical(lr.0.bits) && SignBit(lr.0.bits) == s &&
      BIAS <= BiasedExp(lr.0.bits) <= BIAS + 1
  }

  /**
   * Line 277 (v.e += e): left * 2^exp, which keeps the sign and stays in the
   * finite binades for every exp the reduction produces.
   */
  function Rescale(left: Bits80, exp: int): (w: Bits80)
    requires BIAS <= BiasedExp(left) <= BIAS + 1 && -5482 <= exp <= 5461
    ensures w.m == left.m && SignBit(w) == SignBit(left)
    ensures BiasedExp(w) == BiasedExp(left) + exp
  {
    AddToExponent(left, exp)
  }

  /**
   * cr_cbrtl, lines 260-281.  `approx(m, i, s)` stands for the floating-point
   * part of fast_path on the reduced argument (xh, xl from m / 2^63, the
   * Newton steps, the product by sh[i] + sl[i], the sign sgn[s]) and the two
   * sums h + (l -+ err[i]) of cr_cbrtl: the pair (left, right).
   */
  method CrCbrtl(x: Bits80, approx: (nat, nat, nat) -> (Outcome, Outcome)) returns (res: Bits80)
    requires Canonical(x)
    requires IsFinite(x) && x.m != 0 ==>
      var r := Reduce(x); ApproxFits(approx(r.m, r.i, r.s), r.s)
    ensures !IsFinite(x) || x.m == 0 ==> res == x
    ensures IsFinite(x) && x.m != 0 ==>
      var r := Reduce(x);
      var lr := approx(r.m, r.i, r.s);
      if Agree(lr.0, lr.1) then res == Rescale(lr.0.bits, r.exp) else
        res == PlusZero
  {
    var e := BiasedExp(x);
    if e == EXP_INF_NAN || x.m == 0 {
      // NaN, Inf and both zeros: cbrtl(x) = x
      return x;
    }
    var r := Reduce(x);
    var lr := approx(r.m, r.i, r.s);
    assert ApproxFits(lr, r.s);
    var left, right := lr.0, lr.1;
    if Agree(left, right) {
      // multiply left by 2^exp
      res := Rescale(left.bits, r.exp);
    } else {
      res := PlusZero;
    }
  }

  /**
   * A result of the fast path carries the sign of x and is left * 2^exp as a
   * canonical encoding: the field stays within the finite binades.
   */
  lemma ResultScaling(x: Bits80, left: Bits80)
    requires Canonical(x) && IsFinite(x) && x.m != 0
    requires Canonical(left) && SignBit(left) == SignBit(x)
    requires BIAS <= BiasedExp(left) <= BIAS + 1
    ensures var r := Reduce(x); var res := AddToExponent(left, r.exp);
      Canonical(res) && SignBit(res) == SignBit(x) &&
      (r.exp >= 0 ==> Mag(res) == Mag(left) * Pow2(r.exp)) &&
      (r.exp < 0 ==> Mag(res) * Pow2(-r.exp) == Mag(left))
  {
    ExponentScaling(left, Reduce(x).exp);
  }
}
