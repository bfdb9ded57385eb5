/*
 * src/binary32/support/check_exhaustive.c: the exhaustive checker of the
 * binary32 functions.  A float is its 32-bit encoding here, so asuint and
 * asfloat are the identity.  The model covers the NaN and infinity tests,
 * the NaN-aware comparison, the signalling test, the decision rules doit
 * applies to the reference and computed flags and errno, the checks on
 * special inputs, and the order in which doloop visits the encodings.
 * The MPFR reference, the floating-point environment and the OpenMP
 * schedule are inputs.
 */
module CheckExhaustive {
  import opened Words
  import opened Bin32

  /** Lines 76-82: e = u >> 23 keeps the sign, u << 9 keeps the fraction. */
  predicate IsNanC(u: u32) {
    var e := u / TWO23;
    (e == 0xff || e == 0x1ff) && Shl(u, 9, 32) != 0
  }

  /** Lines 85-91. */
  predicate IsInfC(u: u32) {
    var e := u / TWO23;
    (e == 0xff || e == 0x1ff) && Shl(u, 9, 32) == 0
  }

  /**
   * The two tests are the field predicates: an all-ones exponent of either
   * sign, with a nonzero or a zero fraction; no encoding is both.
   */
  lemma TestsByFields(u: u32)
    ensures IsNanC(u) <==> IsNan(u)
    ensures IsInfC(u) <==> IsInf(u)
    ensures !(IsNanC(u) && IsInfC(u))
  {
    Fields(u);
    Pow2Nine();
    Pow2Consts();
    DivDiv(u, TWO23, 256);
    DivModUnique(u * 512, TWO32, u / TWO23, Fraction(u) * 512);
  }

  /** Lines 93-101: any two NaNs are equal, otherwise the encodings must be. */
  predicate IsEqual(y1: u32, y2: u32) {
    if IsNanC(y1) then IsNanC(y2)
    else if IsNanC(y2) then IsNanC(y1)
    else y1 == y2
  }

  /**
   * is_equal is an equivalence whose classes are the NaNs and the single
   * encodings: a NaN never equals a number and +0 differs from -0.
   */
  lemma IsEqualMeaning(y1: u32, y2: u32, y3: u32)
    ensures IsEqual(y1, y2) <==>
      (IsNan(y1) && IsNan(y2)) || (!IsNan(y1) && !IsNan(y2) && y1 == y2)
    ensures IsEqual(y1, y1)
    ensures IsEqual(y1, y2) ==> IsEqual(y2, y1)
    ensures IsEqual(y1, y2) && IsEqual(y2, y3) ==> IsEqual(y1, y3)
    ensures !IsEqual(0, 0x8000_0000)
  {
    TestsByFields(y1);
    TestsByFields(y2);
    TestsByFields(y3);
    TestsByFields(0);
    TestsByFields(0x8000_0000);
  }

  /** Lines 275-279: bit 22 (the quiet bit) clear. */
  predicate IsSignaling(u: u32) {
    (u / 0x40_0000) % 2 == 0
  }

  /**
   * The NaNs doloop and check_exceptions feed in: 0x7f800001 and 0xff800001
   * are signalling NaNs, 0x7fc00000 and 0xffc00000 quiet ones.
   */
  lemma NanInputs()
    ensures IsNanC(0x7f80_0001) && IsSignaling(0x7f80_0001)
    ensures IsNanC(0xff80_0001) && IsSignaling(0xff80_0001)
    ensures IsNanC(0x7fc0_0000) && !IsSignaling(0x7fc0_0000)
    ensures IsNanC(0xffc0_0000) && !IsSignaling(0xffc0_0000)
  {
    TestsByFields(0x7f80_0001);
    TestsByFields(0xff80_0001);
    TestsByFields(0x7fc0_0000);
    TestsByFields(0xffc0_0000);
  }

  /** 0x7f800000 and 0xff800000 are the two infinities. */
  lemma InfInputs()
    ensures IsInfC(0x7f80_0000) && IsInfC(0xff80_0000)
  {
    TestsByFields(0x7f80_0000);
    TestsByFields(0xff80_0000);
  }

  lemma Pow2Nine()
    ensures Pow2(9) == 512
  {
    Pow2Small();
    Pow2Add(8, 1);
  }

  // ---------------------------------------------------------------------
  // doit, lines 156-272

  /** The exception flags of one evaluation. */
  datatype Flags = Flags(inexact: bool, underflow: bool, overflow: bool)

  /** The compile-time options CORE_MATH_CHECK_INEXACT and CORE_MATH_SUPPORT_ERRNO. */
  datatype Options = Options(checkInexact: bool, supportErrno: bool)

  /** errno after the call: untouched, EDOM, ERANGE or something else. */
  datatype Errno = NoError | Edom | Erange | OtherError

  /**
   * What fix_underflow (lines 127-154) needs from outside: whether the
   * processor raises underflow before rounding, and whether MPFR (up to
   * version 4.2) rounds f(x) with unbounded exponent to +-2^-126.
   */
  datatype FixInputs = FixInputs(underflowBefore: bool, unboundedAtMinNormal: bool)

  /** The messages doit prints, one per failed check. */
  datatype Failure =
    | Mismatch
    | SpuriousUnderflow | MissingUnderflow
    | SpuriousOverflow | MissingOverflow
    | SpuriousInexact | MissingInexact
    | MissingEdom | SpuriousEdom
    | MissingErange | SpuriousErange

  /** |y| = 2^-126, the only case fix_underflow acts on. */
  predicate AtMinNormal(y: u32) {
    AbsBits(y) == 0x0080_0000
  }

  /**
   * The reference underflow flag doit compares with: an exact underflow does
   * not count (section 7.5 of IEEE 754-2019, lines 189-190), and
   * fix_underflow clears the flag MPFR 4.2 raises wrongly at +-2^-126.
   */
  predicate RefUnderflow(y: u32, ref: Flags, fix: FixInputs) {
    ref.underflow && ref.inexact &&
    !(AtMinNormal(y) && !fix.underflowBefore && fix.unboundedAtMinNormal)
  }

  /**
   * The computed underflow flag doit compares with: on a processor that
   * detects underflow before rounding, fix_underflow clears it at +-2^-126
   * when the reference has none.
   */
  predicate FenvUnderflow(y: u32, ref: Flags, got: Flags, fix: FixInputs) {
    got.underflow &&
    !(AtMinNormal(y) && fix.underflowBefore && !RefUnderflow(y, ref, fix))
  }

  /** Lines 255-257: ERANGE is due for an exact infinity, overflow or underflow. */
  predicate ErangeExpected(y: u32, ref: Flags, fix: FixInputs) {
    (IsInfC(y) && !ref.inexact) || ref.overflow || RefUnderflow(y, ref, fix)
  }

  /** Whether the errno checks of lines 239-271 run. */
  predicate ErrnoChecked(x: u32, opt: Options) {
    opt.supportErrno && !IsNanC(x) && !IsInfC(x)
  }

  /** The failures the flag comparisons of lines 194-236 report. */
  predicate FlagReported(k: Failure, gotUnderflow: bool, refUnderflow: bool,
                         got: Flags, ref: Flags, opt: Options) {
    match k
    case SpuriousUnderflow => gotUnderflow && !refUnderflow
    case MissingUnderflow => !gotUnderflow && refUnderflow
    case SpuriousOverflow => got.overflow && !ref.overflow
    case MissingOverflow => !got.overflow && ref.overflow
    case SpuriousInexact => opt.checkInexact && got.inexact && !ref.inexact
    case MissingInexact => opt.checkInexact && !got.inexact && ref.inexact
    case _ => false
  }

  /** The failures the errno comparisons of lines 239-271 report. */
  predicate ErrnoReported(k: Failure, nanResult: bool, erange: bool, errno: Errno) {
    match k
    case MissingEdom => nanResult && errno != Edom
    case SpuriousEdom => !nanResult && errno == Edom
    case MissingErange => erange && errno != Erange
    case SpuriousErange => !erange && errno == Erange
    case _ => false
  }

  /**
   * What doit must report for one input x: y is the reference value with
   * MPFR's flags `ref`, z the computed value with the processor's flags
   * `got` and `errno`.
   */
  predicate Reported(k: Failure, x: u32, y: u32, z: u32, ref: Flags, got: Flags,
                     errno: Errno, fix: FixInputs, opt: Options) {
    (k == Mismatch && !IsEqual(y, z)) ||
    FlagReported(k, FenvUnderflow(y, ref, got, fix), RefUnderflow(y, ref, fix), got, ref, opt) ||
    (ErrnoChecked(x, opt) && ErrnoReported(k, IsNanC(y), ErangeExpected(y, ref, fix), errno))
  }

  /** No failure is listed twice. */
  predicate Distinct(fails: seq<Failure>) {
    forall i, j :: 0 <= i < j < |fails| ==> fails[i] != fails[j]
  }

  /** The position of each message among the checks of lines 179-271. */
  function Rank(k: Failure): nat {
    match k
    case Mismatch => 0
    case SpuriousUnderflow => 1
    case MissingUnderflow => 2
    case SpuriousOverflow => 3
    case MissingOverflow => 4
    case SpuriousInexact => 5
    case MissingInexact => 6
    case MissingEdom => 7
    case SpuriousEdom => 8
    case MissingErange => 9
    case SpuriousErange => 10
  }

  /** The failures appear in the order doit prints them. */
  predicate InPrintOrder(fails: seq<Failure>) {
    forall i, j :: 0 <= i < j < |fails| ==> Rank(fails[i]) < Rank(fails[j])
  }

  /**
   * A list in print order is fixed by its members: two such lists holding
   * the same failures are the same list.
   */
  lemma {:induction false} PrintOrderUnique(a: seq<Failure>, b: seq<Failure>)
    requires InPrintOrder(a) && InPrintOrder(b)
    requires forall k :: k in a <==> k in b
    ensures a == b
  {
    if a != [] && b != [] {
      // the first entry of each is the failure of least rank
      assert b[0] in b && a[0] in a;
      LeastFirst(a, b[0]);
      LeastFirst(b, a[0]);
      assert a[0] == b[0];
      forall k
        ensures k in a[1..] <==> k in b[1..]
      {
        if k in a[1..] {
          var i :| 1 <= i < |a| && a[i] == k;
          assert a[i] in a;
          var j :| 0 <= j < |b| && b[j] == k;
          assert j != 0;
          assert b[1..][j - 1] == k;
        }
        if k in b[1..] {
          var j :| 1 <= j < |b| && b[j] == k;
          assert b[j] in b;
          var i :| 0 <= i < |a| && a[i] == k;
          assert i != 0;
          assert a[1..][i - 1] == k;
        }
      }
      PrintOrderUnique(a[1..], b[1..]);
      assert a == [a[0]] + a[1..];
      assert b == [b[0]] + b[1..];
    } else {
      FirstIsMember(a);
      FirstIsMember(b);
    }
  }

  lemma FirstIsMember(s: seq<Failure>)
    ensures s != [] ==> s[0] in s
  {
  }

  /** In a list in print order, the first entry has the least rank. */
  lemma LeastFirst(a: seq<Failure>, k: Failure)
    requires InPrintOrder(a) && k in a
    ensures Rank(a[0]) <= Rank(k)
  {
    var i :| 0 <= i < |a| && a[i] == k;
  }

  /** One more message, printed after every message already listed. */
  function Append(fails: seq<Failure>, k: Failure): (r: seq<Failure>)
    requires InPrintOrder(fails)
    requires forall l | l in fails :: Rank(l) < Rank(k)
    ensures InPrintOrder(r)
    ensures forall l :: l in r <==> l in fails || l == k
    ensures forall l | l in r :: Rank(l) <= Rank(k)
  {
    OrderedJoin(fails, [k]);
    fails + [k]
  }

  /** A list in print order lists no failure twice. */
  lemma OrderedDistinct(fails: seq<Failure>)
    requires InPrintOrder(fails)
    ensures Distinct(fails)
  {
  }

  /** Two lists in print order, the second after the first, join in print order. */
  lemma OrderedJoin(a: seq<Failure>, b: seq<Failure>)
    requires InPrintOrder(a) && InPrintOrder(b)
    requires forall k, l :: k in a && l in b ==> Rank(k) < Rank(l)
    ensures InPrintOrder(a + b)
  {
    forall i, j | 0 <= i < j < |a + b|
      ensures Rank((a + b)[i]) < Rank((a + b)[j])
    {
      if j >= |a| && i < |a| {
        assert (a + b)[i] in a && (a + b)[j] in b;
      }
    }
  }

  /**
   * doit, lines 156-272: the failures in the order it prints them, each
   * once; without --keep the program exits at the first.  By
   * PrintOrderUnique, these two clauses fix the list.
   */
  method Doit(x: u32, y: u32, z: u32, ref: Flags, got: Flags, errno: Errno,
              fix: FixInputs, opt: Options) returns (fails: seq<Failure>)
    ensures forall k :: k in fails <==> Reported(k, x, y, z, ref, got, errno, fix, opt)
    ensures Distinct(fails) && InPrintOrder(fails)
  {
    var mismatch := Compare(y, z);
    var refUnderflow, gotUnderflow := UnderflowFlags(y, ref, got, fix);
    var flags := FlagChecks(gotUnderflow, refUnderflow, got, ref, opt);
    var checks := ErrnoPart(x, y, ref, refUnderflow, errno, fix, opt);
    fails := mismatch + flags + checks;
    DistinctJoin(mismatch, flags);
    DistinctJoin(mismatch + flags, checks);
    OrderedJoin(mismatch, flags);
    OrderedJoin(mismatch + flags, checks);
  }

  /** Lines 179-184: the result must match the reference. */
  method Compare(y: u32, z: u32) returns (fails: seq<Failure>)
    ensures forall k :: k in fails <==> k == Mismatch && !IsEqual(y, z)
    ensures Distinct(fails) && InPrintOrder(fails)
  {
    fails := if IsEqual(y, z) then [] else [Mismatch];
  }

  /** Lines 238-271, run only for x neither NaN nor infinite. */
  method ErrnoPart(x: u32, y: u32, ref: Flags, refUnderflow: bool, errno: Errno,
                   fix: FixInputs, opt: Options) returns (fails: seq<Failure>)
    requires refUnderflow == RefUnderflow(y, ref, fix)
    ensures forall k :: k in fails <==>
      ErrnoChecked(x, opt) && ErrnoReported(k, IsNanC(y), ErangeExpected(y, ref, fix), errno)
    ensures Distinct(fails) && InPrintOrder(fails)
  {
    fails := [];
    if opt.supportErrno && !IsNanC(x) && !IsInfC(x) {
      var expectedErange := (IsInfC(y) && !ref.inexact) || ref.overflow || refUnderflow;
      fails := ErrnoChecks(IsNanC(y), expectedErange, errno);
    }
  }

  /**
   * Lines 189-192: the exact underflow is dropped from the reference, then
   * fix_underflow adjusts one of the two flags at +-2^-126.
   */
  method UnderflowFlags(y: u32, ref: Flags, got: Flags, fix: FixInputs)
    returns (refUnderflow: bool, gotUnderflow: bool)
    ensures refUnderflow == RefUnderflow(y, ref, fix)
    ensures gotUnderflow == FenvUnderflow(y, ref, got, fix)
  {
    refUnderflow := ref.underflow;
    gotUnderflow := got.underflow;
    if refUnderflow && !ref.inexact {
      refUnderflow := false;
    }
    // fix_underflow (x, y)
    if AtMinNormal(y) {
      if fix.underflowBefore {
        if !refUnderflow {
          gotUnderflow := false;
        }
      } else if fix.unboundedAtMinNormal {
        refUnderflow := false;
      }
    }
  }

  /** Two lists without repeats and with no entry in common join into one. */
  lemma DistinctJoin(a: seq<Failure>, b: seq<Failure>)
    requires Distinct(a) && Distinct(b)
    requires forall k :: k in a ==> k !in b
    ensures Distinct(a + b)
  {
    forall i, j | 0 <= i < j < |a + b|
      ensures (a + b)[i] != (a + b)[j]
    {
      if j >= |a| && i < |a| {
        assert (a + b)[i] in a && (a + b)[j] in b;
      }
    }
  }

  /** Lines 194-236: each flag is compared with its reference. */
  method FlagChecks(gotUnderflow: bool, refUnderflow: bool, got: Flags, ref: Flags, opt: Options)
    returns (fails: seq<Failure>)
    ensures forall k :: k in fails <==> FlagReported(k, gotUnderflow, refUnderflow, got, ref, opt)
    ensures Distinct(fails) && InPrintOrder(fails)
  {
    fails := [];
    if gotUnderflow && !refUnderflow {
      fails := Append(fails, SpuriousUnderflow);
    }
    if !gotUnderflow && refUnderflow {
      fails := Append(fails, MissingUnderflow);
    }
    if got.overflow && !ref.overflow {
      fails := Append(fails, SpuriousOverflow);
    }
    if !got.overflow && ref.overflow {
      fails := Append(fails, MissingOverflow);
    }
    if opt.checkInexact {
      if !ref.inexact && got.inexact {
        fails := Append(fails, SpuriousInexact);
      }
      if ref.inexact && !got.inexact {
        fails := Append(fails, MissingInexact);
      }
    }
    OrderedDistinct(fails);
  }


  /** Lines 239-271: the errno comparisons. */
  method ErrnoChecks(nanResult: bool, expectedErange: bool, errno: Errno) returns (fails: seq<Failure>)
    ensures forall k :: k in fails <==> ErrnoReported(k, nanResult, expectedErange, errno)
    ensures Distinct(fails) && InPrintOrder(fails)
  {
    fails := [];
    if nanResult && errno != Edom {
      fails := fails + [MissingEdom];
    }
    if !nanResult && errno == Edom {
      fails := fails + [SpuriousEdom];
    }
    if expectedErange && errno != Erange {
      fails := fails + [MissingErange];
    }
    if !expectedErange && errno == Erange {
      fails := fails + [SpuriousErange];
    }
  }

  /**
   * The flag rules doit applies: a spurious or a missing flag is reported
   * exactly when the two flags differ, and an exact underflow is never
   * required.
   */
  lemma FlagRules(x: u32, y: u32, z: u32, ref: Flags, got: Flags, errno: Errno, fix: FixInputs, opt: Options)
    ensures Reported(SpuriousUnderflow, x, y, z, ref, got, errno, fix, opt) ||
            Reported(MissingUnderflow, x, y, z, ref, got, errno, fix, opt) <==>
            FenvUnderflow(y, ref, got, fix) != RefUnderflow(y, ref, fix)
    ensures Reported(SpuriousOverflow, x, y, z, ref, got, errno, fix, opt) ||
            Reported(MissingOverflow, x, y, z, ref, got, errno, fix, opt) <==>
            got.overflow != ref.overflow
    ensures !ref.inexact ==> !Reported(MissingUnderflow, x, y, z, ref, got, errno, fix, opt)
  {
  }

  /**
   * A comparison failure is a NaN against a number or two different
   * encodings, and for x neither NaN nor infinite the EDOM checks fail
   * exactly when errno = EDOM disagrees with a NaN result.
   */
  lemma ValueRules(x: u32, y: u32, z: u32, ref: Flags, got: Flags, errno: Errno, fix: FixInputs, opt: Options)
    ensures Reported(Mismatch, x, y, z, ref, got, errno, fix, opt) <==>
            (IsNan(y) != IsNan(z) || (!IsNan(y) && y != z))
    ensures ErrnoChecked(x, opt) <==> opt.supportErrno && !IsNan(x) && !IsInf(x)
    ensures ErrnoChecked(x, opt) ==>
            (Reported(MissingEdom, x, y, z, ref, got, errno, fix, opt) ||
             Reported(SpuriousEdom, x, y, z, ref, got, errno, fix, opt) <==>
             IsNan(y) != (errno == Edom))
  {
    TestsByFields(x);
    TestsByFields(y);
    IsEqualMeaning(y, z, y);
  }

  // ---------------------------------------------------------------------
  // check_signaling_nan and check_exceptions, lines 281-369

  /** Lines 288-317: f(sNaN) must be a NaN without the signalling bit. */
  predicate SignalingCheckFails(y: u32) {
    !IsNanC(y) || IsSignaling(y)
  }

  /** x | 0x400000: the NaN with its quiet bit set. */
  function Quieted(u: u32): (q: u32)
    ensures !IsSignaling(q)
    ensures q / 0x80_0000 == u / 0x80_0000 && (q % 0x40_0000) == (u % 0x40_0000)
  {
    if IsSignaling(u) then u + 0x40_0000 else u
  }

  /**
   * The check rejects a signalling NaN handed back unchanged and accepts any
   * NaN with the quiet bit set, such as the quieted input.
   */
  lemma SignalingCheck(u: u32)
    requires IsNan(u)
    ensures !SignalingCheckFails(Quieted(u))
    ensures SignalingCheckFails(u) <==> IsSignaling(u)
    ensures SignalingCheckFails(0x7f80_0001) && SignalingCheckFails(0xff80_0001)
  {
    var q := Quieted(u);
    DivModSplit(u, 0x80_0000);
    DivModSplit(q, 0x80_0000);
    Fields(u);
    Fields(q);
    TestsByFields(u);
    TestsByFields(q);
    NanInputs();
  }

  /** The inputs of check_exceptions, lines 357-368. */
  const EXCEPTION_INPUTS: seq<u32> :=
    [0x7f80_0001, 0xff80_0001, 0x7fc0_0000, 0xffc0_0000,
     0x7f80_0000, 0xff80_0000, 0x0000_0000, 0x8000_0000]

  /**
   * check_exceptions_aux, lines 320-350: three evaluations of f(x) with
   * their flags; inexact is an error when y is a NaN, an infinity or a
   * zero, overflow and underflow always are.
   */
  predicate ExceptionCheckFails(y: u32, first: Flags, second: Flags, third: Flags) {
    (first.inexact && (IsNanC(y) || IsInfC(y) || AbsBits(y) == 0)) ||
    second.overflow || third.underflow
  }

  /**
   * check_exceptions feeds both signs of a signalling NaN, a quiet NaN, an
   * infinity and a zero, and nothing else.
   */
  lemma ExceptionInputsAreSpecial()
    ensures forall i | 0 <= i < |EXCEPTION_INPUTS| ::
      IsNan(EXCEPTION_INPUTS[i]) || IsInf(EXCEPTION_INPUTS[i]) || IsZero(EXCEPTION_INPUTS[i])
    ensures forall i | 0 <= i < |EXCEPTION_INPUTS| ::
      SignOf(EXCEPTION_INPUTS[i]) == i % 2
  {
    forall i | 0 <= i < |EXCEPTION_INPUTS|
      ensures IsNan(EXCEPTION_INPUTS[i]) || IsInf(EXCEPTION_INPUTS[i]) || IsZero(EXCEPTION_INPUTS[i])
      ensures SignOf(EXCEPTION_INPUTS[i]) == i % 2
    {
      assert i in {0, 1, 2, 3, 4, 5, 6, 7};
      TestsByFields(EXCEPTION_INPUTS[i]);
    }
  }

  // ---------------------------------------------------------------------
  // doloop, lines 371-401

  /** The six NaN and infinity inputs doit sees first, lines 374-381. */
  const SPECIAL_INPUTS: seq<u32> :=
    [0x7f80_0001, 0xff80_0001, 0x7fc0_0000, 0xffc0_0000, 0x7f80_0000, 0xff80_0000]

  /** asuint (0x1.fffffep+127f), the largest finite float. */
  const NMAX: nat := 0x7f7f_ffff

  /** NMAX is finite and the next encoding is the infinity. */
  lemma LargestFinite()
    ensures !IsNan(NMAX) && !IsInf(NMAX) && IsInf(NMAX + 1)
  {
    Fields(NMAX);
    Fields(NMAX + 1);
  }

  /**
   * The inputs doloop passes to doit, in order: the specials, then n and
   * n | 0x80000000 for n from 0 to NMAX.
   */
  method Doloop() returns (trace: seq<u32>)
    ensures |trace| == 6 + 2 * (NMAX + 1) && trace[..6] == SPECIAL_INPUTS
    ensures forall n :: 0 <= n <= NMAX ==> trace[6 + 2 * n] == n && trace[7 + 2 * n] == n + TWO31
  {
    trace := SPECIAL_INPUTS;
    var n := 0;
    while n <= NMAX
      invariant 0 <= n <= NMAX + 1
      invariant |trace| == 6 + 2 * n && trace[..6] == SPECIAL_INPUTS
      invariant forall k :: 0 <= k < n ==> trace[6 + 2 * k] == k && trace[7 + 2 * k] == k + TWO31
      decreases NMAX + 1 - n
    {
      // n | 0x80000000 with n < 2^31: the OR adds the sign bit
      trace := trace + [n, n + TWO31];
      n := n + 1;
    }
  }

  /** A trace laid out as Doloop's. */
  predicate DoloopShape(trace: seq<u32>) {
    |trace| == 6 + 2 * (NMAX + 1) && trace[..6] == SPECIAL_INPUTS &&
    forall n :: 0 <= n <= NMAX ==> trace[6 + 2 * n] == n && trace[7 + 2 * n] == n + TWO31
  }

  /**
   * Such a trace visits every finite encoding of either sign, and the six
   * specials, each exactly once.
   */
  lemma DoloopCoverage(trace: seq<u32>)
    requires DoloopShape(trace)
    ensures forall u: u32 :: u in trace <==> (!IsNan(u) && !IsInf(u)) || u in SPECIAL_INPUTS
    ensures forall i, j :: 0 <= i < j < |trace| ==> trace[i] != trace[j]
  {
    forall u: u32
      ensures u in trace <==> (!IsNan(u) && !IsInf(u)) || u in SPECIAL_INPUTS
    {
      Fields(u);
      if (!IsNan(u) && !IsInf(u)) {
        var n := AbsBits(u);
        assert n <= NMAX;
        if SignOf(u) == 0 {
          assert trace[6 + 2 * n] == u;
        } else {
          assert trace[7 + 2 * n] == u;
        }
      } else if u in SPECIAL_INPUTS {
        var i :| 0 <= i < 6 && SPECIAL_INPUTS[i] == u;
        assert trace[i] == u;
      }
      if u in trace {
        var i :| 0 <= i < |trace| && trace[i] == u;
        TraceEntry(trace, i);
      }
    }
    forall i, j | 0 <= i < j < |trace|
      ensures trace[i] != trace[j]
    {
      TraceEntry(trace, i);
      TraceEntry(trace, j);
    }
  }

  /** Each trace entry past the specials is n or n + 2^31 for its own n. */
  lemma TraceEntry(trace: seq<u32>, i: nat)
    requires DoloopShape(trace) && i < |trace|
    ensures i < 6 ==> trace[i] == SPECIAL_INPUTS[i]
    ensures i >= 6 && i % 2 == 0 ==> trace[i] == (i - 6) / 2
    ensures i >= 6 && i % 2 == 1 ==> trace[i] == (i - 7) / 2 + TWO31
    ensures i >= 6 ==> !IsNan(trace[i]) && !IsInf(trace[i])
  {
    if i < 6 {
      assert trace[..6][i] == trace[i];
    } else if i % 2 == 0 {
      var n := (i - 6) / 2;
      assert 6 + 2 * n == i;
      Fields(trace[i]);
    } else {
      var n := (i - 7) / 2;
      assert 7 + 2 * n == i;
      Fields(trace[i]);
    }
  }
}
