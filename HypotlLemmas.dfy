/*
 * Integer facts behind the exact path of cr_hypotl (binary80/hypot/hypotl.c):
 * the 256-bit sum of squares held as hh:ll, its renormalisation after a
 * carry, the right shift for subnormal results, the correction of the
 * square-root seed, and the rounding decisions read off the remainder.
 * Each lemma is about the very expressions the stages in Hypotl.dfy compute.
 */
module HypotlLemmas {
  import opened Words
  import opened Ext80
  import opened SqrtRounding

  const HT: nat := TWO128 - TWO64
  const LT: nat := TWO126

  /**
   * The overflow test of line 281 as its comments intend it: with the
   * result binade at the top (x_exp == 0x3fff), overflow for rounding to
   * nearest happens exactly when hh + ll / 2^128 >= (2^64 - 1/2)^2 =
   * HT + 1/4, the midpoint included since 2^64 - 1 is odd.
   */
  predicate Overflows(hh: nat, ll: nat) {
    hh > HT || (hh == HT && ll >= LT)
  }

  /** The test as line 281 writes it: ll > 0 in place of ll >= LT. */
  predicate OverflowsAsWritten(hh: nat, ll: nat) {
    hh > HT || (hh == HT && ll > 0)
  }

  // ---------------------------------------------------------------------
  // The sum of squares (lines 258-262)

  /**
   * hh = xx + (yy >> dd) and ll = yy << (128 - dd) (or 0 when dd == 0)
   * together hold xx * 2^128 + yy * 2^(128 - dd) exactly, as long as the
   * addition does not leave 128 bits.
   */
  lemma SumExact(xx: nat, yy: nat, dd: nat)
    requires yy < TWO128 && dd <= 126
    ensures var low := if dd > 0 then Shl(yy, 128 - dd, 128) else 0;
      && (xx + Shr(yy, dd)) * TWO128 + low == xx * TWO128 + yy * Pow2(128 - dd)
      && low < TWO128
      && low % Pow2(128 - dd) == 0
  {
    Pow2Consts();
    var P, Q := Pow2(dd), Pow2(128 - dd);
    Pow2Add(dd, 128 - dd);
    assert P * Q == TWO128;
    if dd == 0 {
      assert Shr(yy, dd) == yy;
      assert yy * Q == yy * TWO128;
    } else {
      var Y := yy * Q;
      MulMod(yy, Q, P);
      assert Y % TWO128 == (yy % P) * Q && Y / TWO128 == yy / P;
      MulDiv(yy % P, Q);
      assert Y == (Y / TWO128) * TWO128 + Y % TWO128;
    }
  }

  lemma Pow2Two()
    ensures Pow2(2) == 4
  {
    assert Pow2(1) == 2;
  }

  /** (hw << 126) on 128 bits keeps the two low bits of hw, at the top. */
  lemma ShlTop(hw: nat)
    ensures Shl(hw, 126, 128) == (hw % 4) * TWO126
  {
    Pow2Consts();
    Pow2Two();
    Pow2Add(2, 126);
    MulMod(hw, Pow2(126), 4);
  }

  /** A multiple of 2^j (j >= 2) shifted right by two is a multiple of 2^(j-2). */
  lemma QuarterOfMultiple(low: nat, j: nat)
    requires 2 <= j && low % Pow2(j) == 0
    ensures 4 * Shr(low, 2) == low
    ensures Shr(low, 2) == (low / Pow2(j)) * Pow2(j - 2)
  {
    Pow2Two();
    Pow2Add(2, j - 2);
    var c := low / Pow2(j);
    DivModSplit(low, Pow2(j));
    QuarterOf(low, c, Pow2(j - 2));
  }

  lemma QuarterOf(low: int, c: int, P: int)
    requires low == c * (4 * P)
    ensures low / 4 == c * P && 4 * (low / 4) == low
  {
    DivModUnique(low, 4, c * P, 0);
  }

  /**
   * After a carry (hh < xx), with hw the 128 bits left in hh,
   * hh = 2^126 | (hw >> 2) and ll = (hw << 126) | (ll >> 2) hold exactly a
   * quarter of the true 257-bit sum (2^128 + hw) * 2^128 + low, provided
   * the two bits shifted out of ll are zero (low is a multiple of 2^j with
   * j >= 2).
   */
  lemma CarryExact(hw: nat, low: nat, j: nat)
    requires hw < TWO128 && low < TWO128
    requires 2 <= j <= 128 && low % Pow2(j) == 0
    ensures Shl(hw, 126, 128) % Pow2(126) == 0
    ensures Shr(low, 2) < Pow2(126)
    ensures Shr(hw, 2) < Pow2(126)
    ensures TWO126 % Pow2(126) == 0
    ensures 4 * ((TWO126 + Shr(hw, 2)) * TWO128 + (Shl(hw, 126, 128) + Shr(low, 2)))
            == (TWO128 + hw) * TWO128 + low
    ensures (Shl(hw, 126, 128) + Shr(low, 2)) % Pow2(j - 2) == 0
    ensures Shl(hw, 126, 128) + Shr(low, 2) < TWO128
  {
    var b := hw % 4;
    var hi, lo, hq := Shl(hw, 126, 128), Shr(low, 2), Shr(hw, 2);
    assert Pow2(126) == TWO126 by {
      Pow2Consts();
    }
    assert hi == b * TWO126 by {
      ShlTop(hw);
    }
    assert hq == hw / 4 && lo == low / 4 by {
      Pow2Two();
    }
    assert 4 * lo == low by {
      QuarterOfMultiple(low, j);
    }
    assert hi % TWO126 == 0 by {
      MulDiv(b, TWO126);
    }
    assert TWO126 % TWO126 == 0;
    assert hw == 4 * hq + b by {
      DivModSplit(hw, 4);
    }
    assert (hi + lo) % Pow2(j - 2) == 0 by {
      TopFieldMultiple(b, j);
      QuarterOfMultiple(low, j);
      MulDiv(low / Pow2(j), Pow2(j - 2));
      ModAddMultiples(hi, lo, Pow2(j - 2));
    }
  }

  lemma TopFieldMultiple(b: nat, j: nat)
    requires 2 <= j <= 128
    ensures (b * TWO126) % Pow2(j - 2) == 0
  {
    var A, C := Pow2(128 - j), Pow2(j - 2);
    Pow2Add(j - 2, 128 - j);
    assert TWO126 == C * A by {
      Pow2Consts();
    }
    MultipleOfFactor(b, A, C);
  }

  lemma MultipleOfFactor(b: nat, A: nat, C: nat)
    requires C > 0
    ensures (b * (C * A)) % C == 0
  {
    MulAssoc(b, A, C);
    assert b * (C * A) == (b * A) * C;
    MulDiv(b * A, C);
  }

  lemma MulAssoc(b: int, A: int, C: int)
    ensures b * (A * C) == (b * A) * C
  {
  }

  lemma ModAddMultiples(u: nat, v: nat, C: nat)
    requires C > 0 && u % C == 0 && v % C == 0
    ensures (u + v) % C == 0
  {
    DivAddMul(u / C, v, C);
    assert u == (u / C) * C;
  }

  // ---------------------------------------------------------------------
  // The subnormal shift (lines 333-341)

  /**
   * Shifting hh:ll right by 2k bits, with the low bits of hh moving into ll,
   * divides the 256-bit value by 4^k exactly when the 2k bits leaving ll
   * are zero.
   */
  lemma SubnormalShiftExact(hh: nat, ll: nat, k: nat)
    requires 1 <= k <= 63 && hh < TWO128 && ll < TWO128
    requires ll % Pow2(2 * k) == 0
    ensures var hi := Shl(hh, 128 - 2 * k, 128);
      var lo := Shr(ll, 2 * k);
      && hi % Pow2(128 - 2 * k) == 0
      && lo < Pow2(128 - 2 * k)
      && hi + lo < TWO128
      && hh * TWO128 + ll == Pow2(2 * k) * (Shr(hh, 2 * k) * TWO128 + (hi + lo))
  {
    var P, Q := Pow2(2 * k), Pow2(128 - 2 * k);
    Pow2Split(2 * k, 128);
    ShlAsProduct(hh, P, Q, Pow2(128));
    assert Pow2(128) == TWO128 by {
      Pow2Consts();
    }
    ShiftFields(hh, ll, P, Q, TWO128, Shl(hh, 128 - 2 * k, 128), Shr(ll, 2 * k), Shr(hh, 2 * k));
  }

  lemma ShlAsProduct(a: nat, P: nat, Q: nat, W: nat)
    requires P > 0 && Q > 0 && W == P * Q
    ensures (a * Q) % W == (a % P) * Q
  {
    MulMod(a, Q, P);
  }

  /** The same split for any P * Q == M, on plain variables. */
  lemma ShiftFields(hh: nat, ll: nat, P: nat, Q: nat, M: nat, hi: nat, lo: nat, hq: nat)
    requires P > 0 && Q > 0 && P * Q == M && ll < M && ll % P == 0
    requires hi == (hh % P) * Q && lo == ll / P && hq == hh / P
    ensures hi % Q == 0
    ensures lo < Q
    ensures hi + lo < M
    ensures hh * M + ll == P * (hq * M + (hi + lo))
  {
    var hr := hh % P;
    MulDiv(hr, Q);
    DivUpperBound(ll, P, Q);
    FieldBound(hr, P, Q);
    DivModSplit(hh, P);
    DivModSplit(ll, P);
    ShiftAlgebra(hh, ll, P, Q, M, hq, hr, lo);
  }

  /** A field below P, scaled by Q, leaves room for Q more below P * Q. */
  lemma FieldBound(hr: nat, P: nat, Q: nat)
    requires hr < P
    ensures hr * Q + Q <= P * Q
  {
    MulLeMul(hr + 1, P, Q);
  }

  lemma ShiftAlgebra(hh: int, ll: int, P: int, Q: int, M: int, hq: int, hr: int, lo: int)
    requires P * Q == M && hh == hq * P + hr && ll == lo * P
    ensures P * (hq * M + (hr * Q + lo)) == hh * M + ll
  {
    assert P * (hq * M) == (hq * P) * M;
    assert P * (hr * Q) == hr * M;
  }

  lemma SquareOfProduct(t: int, P: int)
    ensures (t * P) * (t * P) == (t * t) * (P * P)
  {
  }

  /** floor(sqrt(n / 4^k)) == floor(sqrt(n)) / 2^k */
  lemma ISqrtShift(n: nat, k: nat)
    ensures ISqrt(Shr(n, 2 * k)) == Shr(ISqrt(n), k)
  {
    var q := Shr(ISqrt(n), k);
    var D := Pow4(k);
    FloorSqrtAtHolds(n, k);
    assert q * q <= n / D by {
      DivLowerBound(n, D, q * q);
    }
    assert n / D < (q + 1) * (q + 1) by {
      DivUpperBound(n, D, (q + 1) * (q + 1));
    }
    ISqrtUnique(n / D, q);
  }

  /** a <= b + 1 survives a right shift: a >> k <= (b >> k) + 1 */
  lemma ShrSucc(a: nat, b: nat, k: nat)
    requires a <= b + 1
    ensures Shr(a, k) <= Shr(b, k) + 1
  {
    var P := Pow2(k);
    DivMono(a, b + 1, P);
    DivBracket(b, P);
    assert b + 1 < (b / P + 2) * P;
    DivUpperBound(b + 1, P, b / P + 2);
  }

  /** A seed within one of floor(sqrt(hh)) stays within one after the shift. */
  lemma SeedShift(hh: nat, th: nat, k: nat)
    requires ISqrt(hh) <= th + 1 && th <= ISqrt(hh) + 1
    ensures ISqrt(Shr(hh, 2 * k)) <= Shr(th, k) + 1 && Shr(th, k) <= ISqrt(Shr(hh, 2 * k)) + 1
  {
    ISqrtShift(hh, k);
    ShrSucc(ISqrt(hh), th, k);
    ShrSucc(th, ISqrt(hh), k);
  }

  // ---------------------------------------------------------------------
  // The correction step (lines 343-357)

  lemma ISqrtBelow64(hh: nat)
    requires hh < TWO128
    ensures ISqrt(hh) < TWO64
  {
    ISqrtBounds(hh);
    if ISqrt(hh) >= TWO64 {
      SquareMono(TWO64, ISqrt(hh));
    }
  }

  /** A sum with its top bit at 126 or 127 has a 64-bit root with bit 63 set. */
  lemma ISqrtRange(hh: nat)
    requires TWO126 <= hh < TWO128
    ensures TWO63 <= ISqrt(hh) < TWO64
  {
    ISqrtBelow64(hh);
    assert TWO63 * TWO63 == TWO126;
    ISqrtAtLeast(hh, TWO63);
  }

  /** After a right shift by 2k >= 2 bits the root is below 2^63. */
  lemma ShiftedRootBelow(hh: nat, k: nat)
    requires 1 <= k && hh < TWO128
    ensures ISqrt(Shr(hh, 2 * k)) < TWO63
  {
    var s := ISqrt(hh);
    ISqrtShift(hh, k);
    ISqrtBelow64(hh);
    assert TWO64 <= TWO63 * Pow2(k) by {
      Pow2Mono(1, k);
      assert Pow2(1) == 2;
    }
    DivUpperBound(s, Pow2(k), TWO63);
  }

  /**
   * r = hh - th*th in 128-bit arithmetic, for a seed th within one of
   * s = floor(sqrt(hh)).  The top bit of r is set exactly when th = s + 1;
   * then r + 2th - 1 (again modulo 2^128) is hh - s^2.  Otherwise r >= 2th + 1
   * exactly when th = s - 1, and then r - (2th + 1) is hh - s^2.
   */
  lemma CorrectionStep(hh: nat, th: nat)
    requires hh < TWO128 && th <= TWO64
    requires ISqrt(hh) <= th + 1 && th <= ISqrt(hh) + 1
    ensures var s := ISqrt(hh);
      var r := (hh - (th * th) % TWO128) % TWO128;
      && (r / TWO127 != 0 ==> th == s + 1 && (r + 2 * th - 1) % TWO128 == hh - s * s)
      && (r / TWO127 == 0 && r >= 2 * th + 1 ==> th + 1 == s && r - (2 * th + 1) == hh - s * s)
      && (r / TWO127 == 0 && r < 2 * th + 1 ==> th == s && r == hh - s * s)
  {
    var s := ISqrt(hh);
    ISqrtBounds(hh);
    ISqrtBelow64(hh);
    if th == s + 1 {
      SeedTooLarge(hh, s);
    } else if th == s {
      SeedExact(hh, s);
    } else {
      SeedTooSmall(hh, th);
    }
  }

  lemma SquareSucc(a: int)
    ensures (a + 1) * (a + 1) == a * a + 2 * a + 1
  {
  }

  lemma SeedTooLarge(hh: nat, s: nat)
    requires s * s <= hh < (s + 1) * (s + 1) && s < TWO64 && hh < TWO128
    ensures var th := s + 1;
      var r := (hh - (th * th) % TWO128) % TWO128;
      r / TWO127 != 0 && (r + 2 * th - 1) % TWO128 == hh - s * s
  {
    var th := s + 1;
    SquareSucc(s);
    var t2 := th * th;
    if th == TWO64 {
      assert t2 == TWO128;
      assert s * s == TWO128 - 2 * TWO64 + 1;
    } else {
      SquareMono(th, TWO64 - 1);
      assert t2 < TWO128;
    }
  }

  lemma SeedExact(hh: nat, s: nat)
    requires s * s <= hh < (s + 1) * (s + 1) && s < TWO64
    ensures var r := (hh - (s * s) % TWO128) % TWO128;
      r / TWO127 == 0 && r < 2 * s + 1 && r == hh - s * s
  {
    SquareSucc(s);
    SquareMono(s, TWO64 - 1);
  }

  lemma SeedTooSmall(hh: nat, th: nat)
    requires (th + 1) * (th + 1) <= hh < (th + 2) * (th + 2) && th + 1 < TWO64
    ensures var r := (hh - (th * th) % TWO128) % TWO128;
      r / TWO127 == 0 && r >= 2 * th + 1 && r - (2 * th + 1) == hh - (th + 1) * (th + 1)
  {
    SquareSucc(th);
    SquareSucc(th + 1);
    assert (th + 2) * (th + 2) == (th + 1) * (th + 1) + 2 * (th + 1) + 1;
    SquareMono(th, TWO64 - 1);
    var t2 := th * th;
    assert t2 < TWO128;
    assert t2 % TWO128 == t2;
    assert hh - t2 < 4 * th + 4;
  }

  // ---------------------------------------------------------------------
  // Rounding decisions (lines 359-373)

  /**
   * With th = floor(sqrt(hh)) and r = hh - th^2, the test of line 370 is the
   * round-to-nearest-even decision for sqrt(hh + ll / 2^128), and r == 0 with
   * ll == 0 (line 360) is exactness.
   */
  lemma NearestDecision(hh: nat, ll: nat, th: nat)
    requires th * th <= hh < (th + 1) * (th + 1) && ll < TWO128
    ensures var r := hh - th * th;
      var N := hh * TWO128 + ll;
      && FloorSqrtAt(N, 64, th)
      && ((r > th || (r == th && (ll > TWO126 || (ll == TWO126 && th % 2 == 1))))
          <==> RoundsUp(N, 64, th, ToNearest))
      && ((r == 0 && ll == 0) <==> th * th * Pow4(64) == N)
  {
    var T := Pow4(64);
    assert T == TWO128 by {
      Pow2At128();
    }
    var t2 := th * th;
    var r := hh - t2;
    var N := hh * TWO128 + ll;
    assert FloorSqrtAt(N, 64, th) by {
      MulLeMul(t2, hh, T);
      MulLeMul(hh + 1, (th + 1) * (th + 1), T);
    }
    assert 4 * N - (2 * th + 1) * (2 * th + 1) * T == 4 * ((r - th) * T + ll - TWO126) by {
      MidpointGap(hh, ll, th, T);
    }
    SignOfScaled(r - th, ll, T, TWO126);
    assert N - t2 * T == r * T + ll;
    SignOfScaled(r, ll, T, 0);
  }

  /** 4N - (2th + 1)^2 T for N = hh * T + ll, regrouped around r - th. */
  lemma MidpointGap(hh: int, ll: int, th: int, T: int)
    ensures 4 * (hh * T + ll) - (2 * th + 1) * (2 * th + 1) * T
            == 4 * ((hh - th * th - th) * T + ll) - T
  {
  }

  /** u * T + l against Q for 0 <= l < T: the sign is that of u unless u == 0. */
  lemma SignOfScaled(u: int, l: int, T: int, Q: int)
    requires 0 <= l < T && 0 <= Q < T
    ensures u * T + l > Q <==> u > 0 || (u == 0 && l > Q)
    ensures u * T + l == Q <==> u == 0 && l == Q
  {
    if u >= 1 {
      MulLeMul(1, u, T);
    } else if u <= -1 {
      MulLeMul(1, -u, T);
    }
  }

  // ---------------------------------------------------------------------
  // The shortcut for a gap of at least 32 (lines 230-255)

  /** In the shortcut, |x| is the floor: y^2 is below one ulp of x^2. */
  lemma ShortcutFloor(mx: nat, my: nat, d: nat)
    requires TWO63 <= mx < TWO64 && my < TWO64 && d >= 32
    ensures FloorSqrtAt(mx * mx * Pow4(d) + my * my, d, mx)
  {
    Pow2Consts();
    var D := Pow4(d);
    Pow2Mono(64, 2 * d);
    assert D >= TWO64;
    assert my * my < TWO128 by {
      SquareMono(my, TWO64 - 1);
    }
    assert (2 * mx + 1) * D >= TWO128 by {
      MulLeMul(TWO64, 2 * mx + 1, D);
      MulLeMul(TWO64, D, TWO64);
    }
    assert (mx + 1) * (mx + 1) * D == mx * mx * D + (2 * mx + 1) * D;
  }

  /** 4 * my^2 == (4mx + 1) * 2^64 forces my to be a multiple of 2^31 ... */
  lemma {:induction false} SquareDivides(a: nat, n: nat)
    requires (a * a) % Pow2(2 * n) == 0
    ensures a % Pow2(n) == 0
  {
    if n > 0 {
      Pow2Add(2, 2 * n - 2);
      assert Pow2(2) == 4 by { assert Pow2(1) == 2; }
      assert Pow2(2 * n) == 4 * Pow2(2 * (n - 1));
      ModMod(a * a, 4, Pow2(2 * (n - 1)));
      assert (a * a) % 4 == 0;
      var b := a / 2;
      if a % 2 == 1 {
        OddSquare(b);
        assert false;
      }
      EvenSquare(b);
      MulMod(b * b, 4, Pow2(2 * (n - 1)));
      assert (b * b) % Pow2(2 * (n - 1)) == 0 by {
        assert (b * b * 4) % (Pow2(2 * (n - 1)) * 4) == ((b * b) % Pow2(2 * (n - 1))) * 4;
      }
      SquareDivides(b, n - 1);
      var c := b / Pow2(n - 1);
      assert a == (2 * c) * Pow2(n - 1);
      assert Pow2(n) == 2 * Pow2(n - 1);
      assert a == c * Pow2(n);
      MulDiv(c, Pow2(n));
    }
  }

  lemma OddSquare(b: int)
    ensures (2 * b + 1) * (2 * b + 1) == 4 * (b * b + b) + 1
  {
  }

  lemma EvenSquare(b: int)
    ensures (2 * b) * (2 * b) == 4 * (b * b)
  {
  }

  /** t^2 + t is even */
  lemma PronicEven(t: nat)
    ensures (t * t + t) % 2 == 0
  {
    var u := t / 2;
    if t % 2 == 0 {
      EvenSquare(u);
      assert t * t == (2 * u) * (2 * u);
    } else {
      OddSquare(u);
      assert t * t == (2 * u + 1) * (2 * u + 1);
    }
  }

  /**
   * ... and then mx = t^2 + t for an odd root 2t + 1, which is even: the
   * midpoint of line 238 never has an odd mx (the comment at lines 235-237).
   */
  lemma ShortcutTieEven(mx: nat, my: nat)
    requires 4 * (my * my) == (4 * mx + 1) * TWO64
    ensures mx % 2 == 0
  {
    assert my * my == (4 * mx + 1) * TWO62;
    assert (my * my) % Pow2(2 * 31) == 0 by {
      Pow2Consts();
      MulDiv(4 * mx + 1, TWO62);
    }
    SquareDivides(my, 31);
    var j := my / TWO31;
    assert my == j * TWO31 by {
      Pow2Consts();
      DivModSplit(my, TWO31);
    }
    assert j * j == 4 * mx + 1 by {
      SquareOfProduct(j, TWO31);
      MulCancel(j * j, 4 * mx + 1, TWO62);
    }
    OddRootPronic(j, mx);
  }

  /** j^2 == 4mx + 1 makes j odd, j = 2t + 1, and mx = t^2 + t even. */
  lemma OddRootPronic(j: nat, mx: nat)
    requires j * j == 4 * mx + 1
    ensures mx % 2 == 0
  {
    var t := j / 2;
    if j % 2 == 0 {
      assert j == 2 * t;
      EvenSquare(t);
      assert false;
    }
    assert j == 2 * t + 1;
    OddSquare(t);
    assert mx == t * t + t;
    PronicEven(t);
  }

  /**
   * Round to nearest in the shortcut goes up exactly when the gap is 32 and
   * my^2 = h * 2^64 + l exceeds mx * 2^64 + 2^62 (y^2 > m + 1/4 in ulps of
   * x); a larger gap never rounds up.
   */
  lemma ShortcutNearest(mx: nat, my: nat, d: nat)
    requires TWO63 <= mx < TWO64 && my < TWO64 && d >= 32
    ensures var yy := my * my;
      RoundsUp(mx * mx * Pow4(d) + yy, d, mx, ToNearest)
      <==> (d == 32 && (yy / TWO64 > mx || (yy / TWO64 == mx && yy % TWO64 > TWO62)))
  {
    var D := Pow4(d);
    var yy := my * my;
    assert yy < TWO128 by {
      SquareMono(my, TWO64 - 1);
    }
    ExpandMidpoint(mx, D);
    if d == 32 {
      assert D == TWO64 by {
        Pow2Consts();
      }
      DivModSplit(yy, TWO64);
      HighLowCompare(mx, yy, yy / TWO64, yy % TWO64);
      if 4 * yy == (4 * mx + 1) * TWO64 {
        ShortcutTieEven(mx, my);
      }
    } else {
      assert (4 * mx + 1) * D >= 4 * TWO128 by {
        Pow2Mono(66, 2 * d);
        assert Pow2(66) == 4 * TWO64 by {
          Pow2Add(2, 64);
          Pow2Consts();
          Pow2Two();
        }
        MulLeMul(TWO64, 4 * mx + 1, D);
        MulLeMul(4 * TWO64, D, TWO64);
      }
    }
  }

  /** The midpoint square (2m + 1)^2 * D split as 4 * m^2 * D plus the rest. */
  lemma ExpandMidpoint(m: nat, D: nat)
    ensures (2 * m + 1) * (2 * m + 1) * D == 4 * (m * m * D) + (4 * m + 1) * D
  {
    assert (2 * m + 1) * (2 * m + 1) == 4 * (m * m) + (4 * m + 1);
  }

  /** 4 * (h * 2^64 + l) > (4m + 1) * 2^64 read on the high and low words. */
  lemma HighLowCompare(m: nat, yy: nat, h: nat, l: nat)
    requires yy == h * TWO64 + l && l < TWO64
    ensures 4 * yy > (4 * m + 1) * TWO64 <==> (h > m || (h == m && l > TWO62))
  {
  }

  /** With y nonzero the shortcut is never exact: x^2 < x^2 + y^2. */
  lemma ShortcutInexact(mx: nat, my: nat, d: nat)
    requires my > 0
    ensures mx * mx * Pow4(d) < mx * mx * Pow4(d) + my * my
  {
    MulLeMul(1, my, my);
  }
}
