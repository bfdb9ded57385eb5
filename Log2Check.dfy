/*
 * src/binary80/log2/check_special.c: the checker of cr_log2l.  The model
 * covers the random encodings it draws, its NaN-aware numeric comparison,
 * the range of exponents check_extended tries around each worst case, and
 * readstdin, which collects the worst cases into a growing buffer.  MPFR,
 * frexpl's and ldexpl's floating-point results, rand, getline and sscanf
 * are inputs.
 */
module Log2Check {
  import opened Words
  import opened Ext80
  import opened SqrtRounding
  import HypotlSpec
  import opened Check80

  // ---------------------------------------------------------------------
  // get_random, lines 60-77

  /**
   * Lines 64-66: m = r1 | r2 << 31 | r3 << 62.  The three fields do not
   * overlap, so the ORs add, and the 64-bit shift keeps the low two bits
   * of r3.
   */
  function RandomSignificand(r1: nat, r2: nat, r3: nat): (m: u64)
    requires r1 <= RAND_MAX && r2 <= RAND_MAX && r3 <= RAND_MAX
    ensures m % TWO31 == r1 && (m / TWO31) % TWO31 == r2 && m / TWO62 == r3 % 4
  {
    var m := r1 + r2 * TWO31 + (r3 % 4) * TWO62;
    DivModUnique(m, TWO31, r2 + (r3 % 4) * TWO31, r1);
    DivModUnique(m / TWO31, TWO31, r3 % 4, r2);
    DivModUnique(m, TWO62, r3 % 4, r1 + r2 * TWO31);
    m
  }

  /**
   * get_random as written: the integer bit is set unless e is 0x7fff or
   * 0xffff, then cleared when e is 0, so the sign of zero's exponent,
   * e = 0x8000, keeps it.
   */
  function GetRandom(r1: nat, r2: nat, r3: nat, r4: nat): (v: Bits80)
    requires r1 <= RAND_MAX && r2 <= RAND_MAX && r3 <= RAND_MAX && r4 <= RAND_MAX
    ensures v.e == r4 % TWO16
    ensures v.m % TWO63 == RandomSignificand(r1, r2, r3) % TWO63
    ensures v.e == 0x7fff || v.e == 0xffff ==> v.m == RandomSignificand(r1, r2, r3)
    ensures v.e == 0 ==> v.m < TWO63
    ensures v.e != 0 && v.e != 0x7fff && v.e != 0xffff ==> v.m >= TWO63
  {
    var m0 := RandomSignificand(r1, r2, r3);
    var e := r4 % TWO16;
    var m1 := if e != 0x7fff && e != 0xffff then SetTop(m0) else m0;
    var m := if e == 0 then ClearTop(m1) else m1;
    Bits80(m, e)
  }

  /**
   * Away from the NaN and infinity exponent, a draw is canonical exactly
   * when e is not 0x8000: that one is a pseudo-denormal.
   */
  lemma GetRandomCanonical(r1: nat, r2: nat, r3: nat, r4: nat)
    requires r1 <= RAND_MAX && r2 <= RAND_MAX && r3 <= RAND_MAX && r4 <= RAND_MAX
    ensures var v := GetRandom(r1, r2, r3, r4);
      IsFinite(v) ==> (Canonical(v) <==> v.e != 0x8000)
  {
    var v := GetRandom(r1, r2, r3, r4);
    DivModSplit(v.e, TWO15);
  }

  /** The draw r4 = 0x8000 gives the pseudo-denormal -0 * 2^-16382 + 2^63 ulps. */
  lemma PseudoDenormalDrawn()
    ensures var v := GetRandom(0, 0, 0, 0x8000);
      !Canonical(v) && BiasedExp(v) == 0 && SignBit(v) == 1 && v.m == TWO63
  {
    var v := GetRandom(0, 0, 0, 0x8000);
    assert v.e == 0x8000;
  }

  /**
   * get_random as its comment intends, and as the hypot checker does it:
   * the integer bit is cleared whenever the biased exponent is 0.
   */
  function GetRandomIntended(r1: nat, r2: nat, r3: nat, r4: nat): (v: Bits80)
    requires r1 <= RAND_MAX && r2 <= RAND_MAX && r3 <= RAND_MAX && r4 <= RAND_MAX
    ensures v.e == r4 % TWO16
    ensures v.m % TWO63 == RandomSignificand(r1, r2, r3) % TWO63
    ensures IsFinite(v) ==> Canonical(v)
  {
    var m0 := RandomSignificand(r1, r2, r3);
    var e := r4 % TWO16;
    var m1 := if e != 0x7fff && e != 0xffff then SetTop(m0) else m0;
    var m := if e % TWO15 == 0 then ClearTop(m1) else m1;
    DivModSplit(e, TWO15);
    Bits80(m, e)
  }

  // ---------------------------------------------------------------------
  // is_equal, lines 86-94

  /** Any two NaNs are equal; anything else compares with ==, as values. */
  predicate IsEqual(x: Bits80, y: Bits80) {
    if IsNan80(x) then IsNan80(y)
    else if IsNan80(y) then IsNan80(x)
    else NumEq(x, y)
  }

  /**
   * On canonical encodings: NaNs are equal to each other only, and other
   * encodings are equal when their bits are, or when both are zeros, so
   * +0 equals -0.
   */
  lemma IsEqualMeaning(x: Bits80, y: Bits80)
    requires Canonical(x) && Canonical(y)
    ensures IsEqual(x, y) <==>
      (IsNan80(x) && IsNan80(y)) ||
      (!IsNan80(x) && !IsNan80(y) &&
       (x == y || (IsFinite(x) && IsFinite(y) && Mag(x) == 0 && Mag(y) == 0)))
    ensures IsEqual(PlusZero, Bits80(0, 0x8000))
  {
    IsNanFields(x);
    IsNanFields(y);
    NumEqCanonical(x, y);
    assert NumEq(PlusZero, Bits80(0, 0x8000));
  }

  // ---------------------------------------------------------------------
  // check_extended, lines 133-181

  /**
   * Line 138, is_nan (x) || 2 * x == x: doubling leaves exactly the
   * infinities and the zeros unchanged (any other finite x either doubles
   * or overflows to an infinity, and differs from x in both cases).
   */
  predicate SkippedInput(x: Bits80) {
    IsNan80(x) || !IsFinite(x) || Mag(x) == 0
  }

  /**
   * frexpl's exponent: x = r * 2^e with 1/2 <= |r| < 1.  Magnitudes are in
   * units of 2^-16445, so 2^(e-1) <= |x| < 2^e reads as below.
   */
  function FrexpExponent(x: Bits80): (e: int)
    requires IsFinite(x) && Mag(x) != 0
    ensures e >= -16444
    ensures Pow2(e + 16444) <= Mag(x) < Pow2(e + 16445)
  {
    Log2(Mag(x)) - 16444
  }

  /**
   * Lines 154-157: starting from 1, K doubles while f >= 2K, ending as the
   * largest power of two not above f (or 1 for f = 0).
   */
  method Doubling(f: nat) returns (K: nat)
    ensures f == 0 ==> K == 1
    ensures f >= 1 ==> K == Pow2(Log2(f))
  {
    K := 1;
    ghost var j: nat := 0;
    while f >= 2 * K
      invariant K == Pow2(j) && (f >= 1 ==> K <= f) && (f == 0 ==> j == 0)
      decreases f - K
    {
      K := 2 * K;
      j := j + 1;
    }
    if f >= 1 {
      Log2Unique(f, j);
    }
  }

  /**
   * log2 (r * 2^e') and log2 (r * 2^e), with 1/2 <= r < 1, lie in the same
   * binade: for e < 0 when -e' and -e share their floor(log2), for e >= 2
   * when e' - 1 and e - 1 do; e = 0 and e = 1 stand alone.
   */
  predicate SameBinade(e: int, e': int) {
    if e == 0 || e == 1 then e' == e
    else if e < 0 then e' < 0 && Log2(-e') == Log2(-e)
    else e' >= 2 && Log2(e' - 1) == Log2(e - 1)
  }

  /**
   * Lines 154-178: the exponents tried around e are exactly those in the
   * same binade, cut at -16445 where r * 2^e' rounds to zero; the assertion
   * of line 175 always holds.
   */
  method ExponentRange(e: int) returns (emin: int, emax: int)
    ensures forall e' :: emin <= e' <= emax <==> SameBinade(e, e') && e' >= -16445
    ensures e >= -16445 ==> emin <= e <= emax
  {
    var f: nat := if e >= 0 then e else -e;
    var K0 := Doubling(f);
    var K: int := K0;
    if e == 0 || e == 1 {
      emin, emax := e, e;
    } else if e < 0 {
      K := -K;
      emin := 2 * K + 1;
      emax := K;
      NegativeRange(e, K0, emin, emax);
    } else {
      if K == e {
        K := K / 2;
      }
      PositiveRange(e, K0, K);
      emin := K + 1;
      emax := 2 * K;
    }
    assert emin <= e <= emax;
    if emin < -16445 {
      emin := -16445;
    }
  }

  lemma NegativeRange(e: int, K0: int, emin: int, emax: int)
    requires e < 0 && K0 == Pow2(Log2(-e)) && emin == -2 * K0 + 1 && emax == -K0
    ensures forall e' :: emin <= e' <= emax <==> SameBinade(e, e')
    ensures emin <= e <= emax
  {
    var j := Log2(-e);
    assert Pow2(j + 1) == 2 * K0;
    forall e' | emin <= e' <= emax
      ensures SameBinade(e, e')
    {
      Log2Unique(-e', j);
    }
  }

  lemma PositiveRange(e: int, K0: int, K: int)
    requires e >= 2 && K0 == Pow2(Log2(e)) && K == (if K0 == e then K0 / 2 else K0)
    ensures K >= 1 && K == Pow2(Log2(e - 1))
    ensures forall e' :: K + 1 <= e' <= 2 * K <==> SameBinade(e, e')
    ensures K + 1 <= e <= 2 * K
  {
    PositiveK(e, K0, K);
    var i := Log2(e - 1);
    assert Pow2(i + 1) == 2 * K;
    forall e' | K + 1 <= e' <= 2 * K
      ensures SameBinade(e, e')
    {
      Log2Unique(e' - 1, i);
    }
    forall e' | SameBinade(e, e')
      ensures K + 1 <= e' <= 2 * K
    {
      assert Log2(e' - 1) == i;
    }
  }

  /** Halving K when it equals e leaves the largest power of two below e. */
  lemma PositiveK(e: int, K0: int, K: int)
    requires e >= 2 && K0 == Pow2(Log2(e)) && K == (if K0 == e then K0 / 2 else K0)
    ensures K >= 1 && K == Pow2(Log2(e - 1))
  {
    var j := Log2(e);
    if K0 == e {
      assert j >= 1;
      assert Pow2(j) == 2 * Pow2(j - 1);
      Log2Unique(e - 1, j - 1);
    } else {
      Log2Unique(e - 1, j);
    }
  }

  /** What check_extended does with one input. */
  datatype Extended =
    | Skip                           // NaN, infinity or zero
    | AssertFails                    // assert (x > 0) of line 141
    | Scaled(e: int, exps: seq<int>) // check (ldexpl (r, e')) for e' in exps

  /**
   * check_extended, lines 135-181: x * 2^(e' - e) is checked for every e'
   * in the binade of log2 of x's exponent e, in increasing order.
   */
  method CheckExtended(x: Bits80) returns (res: Extended)
    ensures res == Skip <==> SkippedInput(x)
    ensures res == AssertFails <==> !SkippedInput(x) && SignBit(x) == 1
    ensures res.Scaled? ==> !SkippedInput(x) && res.e == FrexpExponent(x)
    ensures res.Scaled? ==>
      (forall e' :: e' in res.exps <==> SameBinade(res.e, e') && e' >= -16445) &&
      res.e in res.exps &&
      (forall i :: 0 <= i < |res.exps| ==> res.exps[i] == res.exps[0] + i)
  {
    if IsNan80(x) || !IsFinite(x) || Mag(x) == 0 {
      return Skip;
    }
    if SignBit(x) == 1 {
      return AssertFails;
    }
    var e := FrexpExponent(x);
    var emin, emax := ExponentRange(e);
    var exps := [];
    var k := emin;
    while k <= emax
      invariant emin <= k <= emax + 1
      invariant |exps| == k - emin && forall i :: 0 <= i < |exps| ==> exps[i] == emin + i
      decreases emax - k
    {
      exps := exps + [k];
      k := k + 1;
    }
    assert forall e' :: e' in exps <==> emin <= e' <= emax by {
      forall e' | emin <= e' <= emax
        ensures e' in exps
      {
        assert exps[e' - emin] == e';
      }
    }
    res := Scaled(e, exps);
  }

  // ---------------------------------------------------------------------
  // readstdin, lines 183-234

  datatype Option<T> = None | Some(value: T)

  /** What readstdin stores for snan and +snan, and for -snan. */
  const SNAN_POS: Bits80 := Bits80(0x8000_0000_0000_0001, 0x7fff)
  const SNAN_NEG: Bits80 := Bits80(0x8000_0000_0000_0001, 0xffff)

  /** Both are canonical signalling NaNs, of either sign. */
  lemma SnanEncodings()
    ensures Canonical(SNAN_POS) && IsNan80(SNAN_POS) && HypotlSpec.IsSnan(SNAN_POS) && SignBit(SNAN_POS) == 0
    ensures Canonical(SNAN_NEG) && IsNan80(SNAN_NEG) && HypotlSpec.IsSnan(SNAN_NEG) && SignBit(SNAN_NEG) == 1
  {
    HypotlSpec.NanBits(SNAN_POS);
    HypotlSpec.NanBits(SNAN_NEG);
  }

  /** strncmp (line, p, |p|) == 0 */
  predicate HasPrefix(line: string, p: string) {
    |p| <= |line| && line[..|p|] == p
  }

  /** Line 198: a line starting with '#' is skipped. */
  predicate Comment(line: string) {
    |line| > 0 && line[0] == '#'
  }

  /**
   * What one line adds, lines 198-232: nothing for a comment, the
   * signalling NaNs for snan, +snan and -snan, and otherwise what %La
   * reads, if anything (`parse` stands for sscanf).
   */
  function LineItem(line: string, parse: string -> Option<Bits80>): (r: seq<Bits80>)
    ensures |r| <= 1
    ensures Comment(line) ==> r == []
  {
    if Comment(line) then []
    else if HasPrefix(line, "snan") || HasPrefix(line, "+snan") then [SNAN_POS]
    else if HasPrefix(line, "-snan") then [SNAN_NEG]
    else match parse(line)
      case Some(v) => [v]
      case None => []
  }

  /** The items of the lines read so far, in input order. */
  function Items(lines: seq<string>, parse: string -> Option<Bits80>): (r: seq<Bits80>)
    ensures |r| <= |lines|
  {
    if lines == [] then []
    else Items(lines[..|lines| - 1], parse) + LineItem(lines[|lines| - 1], parse)
  }

  /** n is 512 doubled some number of times. */
  predicate Doubled512(n: nat) {
    n == 512 || (n > 512 && n % 2 == 0 && Doubled512(n / 2))
  }

  /**
   * readstdin: the buffer starts with room for 512 items and doubles when a
   * line that is not a comment finds it full; count never exceeds the
   * capacity, and the buffer holds the items of all lines.
   */
  method ReadStdin(lines: seq<string>, parse: string -> Option<Bits80>)
    returns (items: array<Bits80>, count: nat)
    ensures fresh(items)
    ensures count <= items.Length && items[..count] == Items(lines, parse)
    ensures Doubled512(items.Length) && (items.Length == 512 || items.Length <= 2 * count)
  {
    var capacity := 512;
    items := new Bits80[capacity];
    count := 0;
    var i := 0;
    while i < |lines|
      invariant 0 <= i <= |lines|
      invariant fresh(items) && items.Length == capacity
      invariant count <= capacity && items[..count] == Items(lines[..i], parse)
      invariant Doubled512(capacity) && (capacity == 512 || capacity <= 2 * count)
    {
      ItemsStep(lines, i, parse);
      items, count, capacity := ReadLine(items, count, capacity, lines[i], parse);
      i := i + 1;
    }
    assert lines[..|lines|] == lines;
  }

  lemma ItemsStep(lines: seq<string>, i: nat, parse: string -> Option<Bits80>)
    requires i < |lines|
    ensures Items(lines[..i + 1], parse) == Items(lines[..i], parse) + LineItem(lines[i], parse)
  {
    assert lines[..i + 1][..i] == lines[..i];
  }

  lemma DoubledStep(n: nat)
    requires Doubled512(n)
    ensures Doubled512(2 * n)
  {
  }

  /** *item = v (lines 217, 226 and 229) */
  method Store(items: array<Bits80>, count: nat, v: Bits80)
    requires count < items.Length
    modifies items
    ensures items[..count + 1] == old(items[..count]) + [v]
  {
    items[count] := v;
  }

  /** Lines 200-207: realloc to twice the size keeps the first count items. */
  method Grow(items: array<Bits80>, count: nat) returns (grown: array<Bits80>)
    requires count <= items.Length
    ensures fresh(grown) && grown.Length == 2 * items.Length
    ensures grown[..count] == items[..count]
  {
    grown := new Bits80[2 * items.Length];
    forall j | 0 <= j < count {
      grown[j] := items[j];
    }
  }

  /**
   * The body of the loop of lines 197-233 on one line: a comment is
   * skipped; otherwise a full buffer is doubled first, then the item the
   * line denotes, if any, is stored.
   */
  method ReadLine(items: array<Bits80>, count: nat, capacity: nat, line: string,
                  parse: string -> Option<Bits80>)
    returns (items': array<Bits80>, count': nat, capacity': nat)
    requires items.Length == capacity && count <= capacity
    requires Doubled512(capacity) && (capacity == 512 || capacity <= 2 * count)
    modifies items
    ensures items' == items || fresh(items')
    ensures items'.Length == capacity' && count' <= capacity'
    ensures items'[..count'] == old(items[..count]) + LineItem(line, parse)
    ensures Doubled512(capacity') && (capacity' == 512 || capacity' <= 2 * count')
  {
    items', count', capacity' := items, count, capacity;
    if Comment(line) {
      return;
    }
    if count >= capacity {
      var newsize := 2 * capacity;
      DoubledStep(capacity);
      items' := Grow(items, count);
      capacity' := newsize;
    }
    var found, v := ParseLine(line, parse);
    if found {
      Store(items', count, v);
      count' := count + 1;
    }
  }

  /** Lines 209-232 on a line that is not a comment: what it stores, if anything. */
  method ParseLine(line: string, parse: string -> Option<Bits80>) returns (found: bool, v: Bits80)
    requires !Comment(line)
    ensures LineItem(line, parse) == (if found then [v] else [])
  {
    found, v := true, PlusZero;
    if HasPrefix(line, "snan") || HasPrefix(line, "+snan") {
      v := SNAN_POS;
    } else if HasPrefix(line, "-snan") {
      v := SNAN_NEG;
    } else {
      match parse(line)
      case Some(w) =>
        v := w;
      case None =>
        found := false;
    }
  }
}
