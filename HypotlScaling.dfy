/*
 * How the exact value sqrt(x^2 + y^2) travels through the stages of
 * cr_hypotl (binary80/hypot/hypotl.c).  After normalisation an operand is
 * m * 2^(e - 63) with 2^63 <= m < 2^64, that is m * 2^E units of 2^-16445
 * divided by 2^63, where E = e + 16445.  With S = SumSq(x, y) the stages
 * keep S * 4^127 == 4^E * (hh * 2^128 + ll), and at the end
 * S * 4^64 == 4^G * (hh * 2^128 + ll) on the grid G of the result.
 */
module HypotlScaling {
  import opened Words
  import opened Ext80
  import opened SqrtRounding
  import opened HypotlSpec
  import opened HypotlLemmas

  lemma Pow4Add(a: nat, b: nat)
    ensures Pow4(a + b) == Pow4(a) * Pow4(b)
  {
    Pow2Add(2 * a, 2 * b);
  }

  // ---------------------------------------------------------------------
  // Operands (lines 162-215)

  /** A normal encoding is m * 2^(b - 16383 - 63): Mag(v) * 2^63 == m * 2^(b + 62). */
  lemma NormalScale(v: Bits80)
    requires BiasedExp(v) >= 1
    ensures Mag(v) * TWO63 == v.m * Pow2(BiasedExp(v) + 62)
  {
    var b := BiasedExp(v);
    Pow2Add(b - 1, 63);
    Pow2At63();
    MulAssoc(v.m, Pow2(b - 1), TWO63);
  }

  lemma SquareScaled(a: nat, P: nat, c: nat, Q: nat)
    requires a * P == c * Q
    ensures (a * a) * (P * P) == (c * c) * (Q * Q)
  {
    SquareOfProduct(a, P);
    SquareOfProduct(c, Q);
  }

  /**
   * Two operands Mx = mx * 2^Ex / 2^63 and My = my * 2^Ey / 2^63 with
   * Ey <= Ex: the sum of their squares is 4^Ey * (mx^2 * 4^d + my^2) / 4^63
   * for the exponent gap d = Ex - Ey.
   */
  lemma SumScale(Mx: nat, My: nat, mx: nat, my: nat, Ex: nat, Ey: nat)
    requires Mx * TWO63 == mx * Pow2(Ex) && My * TWO63 == my * Pow2(Ey) && Ey <= Ex
    ensures (Mx * Mx + My * My) * Pow4(63) == Pow4(Ey) * (mx * mx * Pow4(Ex - Ey) + my * my)
  {
    var F := Pow4(63);
    assert F == TWO63 * TWO63 by {
      Pow4Split(63);
      Pow2At63();
    }
    assert (Mx * Mx) * F == (mx * mx) * Pow4(Ex) by {
      SquareScaled(Mx, TWO63, mx, Pow2(Ex));
      Pow4Split(Ex);
    }
    assert (My * My) * F == (my * my) * Pow4(Ey) by {
      SquareScaled(My, TWO63, my, Pow2(Ey));
      Pow4Split(Ey);
    }
    Pow4Add(Ey, Ex - Ey);
    SumScaleAlg(Mx * Mx, My * My, mx * mx, my * my, F, Pow4(Ey), Pow4(Ex - Ey));
  }

  lemma SumScaleAlg(X: nat, Y: nat, x2: nat, y2: nat, F: nat, A: nat, B: nat)
    requires X * F == x2 * (A * B) && Y * F == y2 * A
    ensures (X + Y) * F == A * (x2 * B + y2)
  {
  }

  /** u * F == v * F with F > 0 cancels, after a chain of regroupings. */
  lemma CancelAlg(S: nat, W: nat, F: nat, D: nat, A: nat, B: nat)
    requires F > 0 && S * F == A * W && A * D == B * F
    ensures S * D == B * W
  {
    assert (S * D) * F == (B * W) * F by {
      calc {
        (S * D) * F;
        == (S * F) * D;
        == (A * W) * D;
        == (A * D) * W;
        == (B * F) * W;
        == (B * W) * F;
      }
    }
    MulCancel(S * D, B * W, F);
  }

  /**
   * The shortcut (lines 230-255): with S * 4^63 == 4^Ey * W and
   * W = mx^2 * 4^d + my^2, the value sqrt(W) is read on the grid 2^d and
   * S on the grid of x, 2^(Ex - 63).
   */
  lemma ShortcutScale(S: nat, W: nat, d: nat, Ex: nat)
    requires d <= Ex && Ex >= 63
    requires S * Pow4(63) == Pow4(Ex - d) * W
    ensures S * Pow4(d) == Pow4(Ex - 63) * W
  {
    TwoSplits(Ex, d, 63);
    CancelAlg(S, W, Pow4(63), Pow4(d), Pow4(Ex - d), Pow4(Ex - 63));
  }

  lemma TwoSplits(e: nat, a: nat, b: nat)
    requires a <= e && b <= e
    ensures Pow4(e - a) * Pow4(a) == Pow4(e - b) * Pow4(b)
  {
    Pow4Add(e - a, a);
    Pow4Add(e - b, b);
  }

  // ---------------------------------------------------------------------
  // The sum hh:ll and its exponent (lines 257-269)

  /** xx * 2^128 + yy * 2^(128 - 2d) == 4^(64 - d) * (xx * 4^d + yy) */
  lemma SumWords(xx: nat, yy: nat, d: nat)
    requires d <= 64
    ensures xx * TWO128 + yy * Pow2(128 - 2 * d) == Pow4(64 - d) * (xx * Pow4(d) + yy)
  {
    assert Pow4(64 - d) * Pow4(d) == TWO128 by {
      SplitPow4(64, d);
      Pow2At128();
    }
    assert Pow4(64 - d) == Pow2(128 - 2 * d) by {
      DoubleExp(64, d);
    }
    DistribAlg(xx, yy, Pow4(64 - d), Pow4(d), TWO128);
  }

  lemma SplitPow4(k: nat, d: nat)
    requires d <= k
    ensures Pow4(k - d) * Pow4(d) == Pow2(2 * k)
  {
    Pow4Add(k - d, d);
  }

  lemma DoubleExp(k: nat, d: nat)
    requires d <= k
    ensures Pow4(k - d) == Pow2(2 * k - 2 * d)
  {
    var j := 2 * (k - d);
    assert j == 2 * k - 2 * d;
    assert Pow4(k - d) == Pow2(j);
  }

  lemma DistribAlg(xx: nat, yy: nat, P: nat, D: nat, T: nat)
    requires P * D == T
    ensures xx * T + yy * P == P * (xx * D + yy)
  {
  }

  /**
   * Once the sum N = hh * 2^128 + ll holds 4^(64 - d) * W / 4^c (c the
   * carry), S * 4^127 == 4^(Ey + d + c) * N: the exponent of the sum is
   * that of x, plus the carry.
   */
  lemma SumInvariant(S: nat, W: int, N: int, d: nat, Ey: nat, c: nat)
    requires d <= 64
    requires S * Pow4(63) == Pow4(Ey) * W
    requires N * Pow4(c) == Pow4(64 - d) * W
    ensures S * Pow4(127) == Pow4(Ey + d + c) * N
  {
    ExponentShuffle(Ey, d, c, 64);
    Pow4Add(63, 64);
    InvAlg(S, W, N, Pow4(63), Pow4(64), Pow4(c), Pow4(Ey), Pow4(Ey + d + c), Pow4(64 - d));
  }

  lemma ExponentShuffle(e: nat, d: nat, c: nat, k: nat)
    requires d <= k
    ensures (Pow4(e) * Pow4(k)) * Pow4(c) == Pow4(e + d + c) * Pow4(k - d)
  {
    Pow4Add(e, k);
    Pow4Add(e + k, c);
    Pow4Add(e + d + c, k - d);
    assert (e + d + c) + (k - d) == e + k + c;
  }

  lemma InvAlg(S: nat, W: int, N: int, F: nat, E: nat, C: nat, A: nat, B: nat, D: nat)
    requires C > 0 && S * F == A * W && N * C == D * W && (A * E) * C == B * D
    ensures S * (F * E) == B * N
  {
    assert (S * (F * E)) * C == (B * N) * C by {
      calc {
        (S * (F * E)) * C;
        == ((S * F) * E) * C;
        == ((A * W) * E) * C;
        == ((A * E) * C) * W;
        == (B * D) * W;
        == B * (D * W);
        == B * (N * C);
        == (B * N) * C;
      }
    }
    MulCancel(S * (F * E), B * N, C);
  }

  /** A normal result (x_exp >= -0x3ffe): S * 4^64 == 4^(E - 63) * N. */
  lemma NormalInvariant(S: nat, N: nat, E: nat)
    requires E >= 63 && S * Pow4(127) == Pow4(E) * N
    ensures S * Pow4(64) == Pow4(E - 63) * N
  {
    ExponentSwap(E, 63, 64);
    CancelAlg(S, N, Pow4(127), Pow4(64), Pow4(E), Pow4(E - 63));
  }

  lemma ExponentSwap(e: nat, a: nat, b: nat)
    requires a <= e
    ensures Pow4(e) * Pow4(b) == Pow4(e - a) * Pow4(a + b)
  {
    Pow4Add(e, b);
    Pow4Add(e - a, a + b);
    assert e + b == (e - a) + (a + b);
  }

  /**
   * A subnormal result (lines 333-341): after dividing N by 4^k with
   * E + k == 63 the value sits on the grid of the subnormals,
   * S * 4^64 == N'.
   */
  lemma ShiftInvariant(S: nat, N: nat, N2: nat, k: nat, E: nat)
    requires E + k == 63 && S * Pow4(127) == Pow4(E) * N && N == Pow4(k) * N2
    ensures S * Pow4(64) == N2
  {
    assert S * Pow4(127) == Pow4(63) * N2 by {
      Pow4Add(E, k);
      MulAssoc(Pow4(E), Pow4(k), N2);
    }
    Pow4Add(63, 64);
    CancelAlg(S, N2, Pow4(127), Pow4(64), Pow4(63), 1);
  }

  /** Divisibility by a power of two passes to every smaller power. */
  lemma MultipleOfSmallerPower(n: nat, a: nat, b: nat)
    requires a <= b && n % Pow2(b) == 0
    ensures n % Pow2(a) == 0
  {
    Pow2Split(a, b);
    MultipleOfFactor(n / Pow2(b), Pow2(b - a), Pow2(a));
    assert n == (n / Pow2(b)) * (Pow2(a) * Pow2(b - a));
  }

  // ---------------------------------------------------------------------
  // Overflow (lines 271-283)

  /**
   * x_exp >= 0x4000 after the sum (line 274): sqrt(S) >= 2^E with
   * E >= 0x4000 + 16445, beyond every finite value, so the correctly
   * rounded result is the overflow value of the mode.
   */
  lemma SureOverflow(S: nat, N: nat, E: nat, mode: RoundingMode)
    requires E >= 0x4000 + 16445
    requires S * Pow4(127) == Pow4(E) * N && N >= TWO126 * TWO128
    ensures RoundedSqrt(S, mode, OverflowValue(mode), true)
  {
    assert S >= Pow4(E) by {
      var F := Pow4(127);
      assert F == TWO126 * TWO128 by {
        Pow2Add(126, 128);
        Pow2At126();
        Pow2At128();
      }
      MulLeMul(F, N, Pow4(E));
      MulCancel(Pow4(E), S, F);
    }
    RootAtLeast(S, E);
    var G := UlpExp(S);
    var q := RoundSqrtAt(S, G, mode);
    assert G >= 0x7ffe && q >= TWO63 by {
      GridAtLeast(S, E);
    }
    PastTopBinade(q, G);
  }

  /** S >= 4^E gives floor(sqrt(S)) >= 2^E. */
  lemma RootAtLeast(S: nat, E: nat)
    requires S >= Pow4(E)
    ensures ISqrt(S) >= Pow2(E)
  {
    var s := ISqrt(S);
    ISqrtBounds(S);
    Pow4Split(E);
    SquareLtRoot(Pow2(E), s + 1);
  }

  /** A root of at least 2^E, E >= 64, lies on a grid of at least E - 63. */
  lemma GridExpAtLeast(S: nat, E: nat)
    requires E >= 64 && ISqrt(S) >= Pow2(E)
    ensures UlpExp(S) + 63 >= E
  {
    assert ISqrt(S) >= TWO64 by {
      Pow2Mono(64, E);
      Pow2At64();
    }
    Pow2Order(E, UlpExp(S) + 64);
  }

  /** sqrt(S) >= 2^E puts the grid at 2^(E - 63) or coarser, with at least 2^63 steps. */
  lemma GridAtLeast(S: nat, E: nat)
    requires E >= 64 && ISqrt(S) >= Pow2(E)
    ensures UlpExp(S) + 63 >= E && Shr(ISqrt(S), UlpExp(S)) >= TWO63
  {
    GridExpAtLeast(S, E);
    var s := ISqrt(S);
    var G := UlpExp(S);
    assert s >= TWO64 by {
      Pow2Mono(64, E);
      Pow2At64();
    }
    assert Pow2(G + 63) <= s;
    QuotientAtLeast(s, G);
  }

  lemma QuotientAtLeast(s: nat, G: nat)
    requires Pow2(G + 63) <= s
    ensures Shr(s, G) >= TWO63
  {
    Pow2Add(63, G);
    assert 63 + G == G + 63;
    DivLowerBound(s, Pow2(G), Pow2(63));
    Pow2At63();
  }

  lemma PastTopBinade(q: nat, G: nat)
    requires q >= TWO63 && G >= 0x7ffe
    ensures q * Pow2(G) > MaxFiniteMag()
  {
    var P := Pow2(0x7ffd);
    Pow2Mono(0x7ffe, G);
    assert Pow2(0x7ffe) == 2 * P;
    MulLeMul(TWO63, q, Pow2(G));
    MulLeMul(2 * P, Pow2(G), TWO63);
    assert TWO63 * (2 * P) == TWO64 * P;
    MulLtMul(TWO64 - 1, TWO64, P);
  }

  /**
   * x_exp == 0x3fff after the sum: under the test of line 281 as it is
   * evidently intended, sqrt(hh + ll / 2^128) >= 2^64 - 1/2, and the
   * correctly rounded result is the overflow value of the mode (+Inf for
   * to nearest and upward, the largest finite value otherwise).
   */
  lemma OverflowBoundary(S: nat, hh: nat, ll: nat, mode: RoundingMode)
    requires hh < TWO128 && ll < TWO128 && Overflows(hh, ll)
    requires S * Pow4(64) == Pow4(0x7ffd) * (hh * TWO128 + ll)
    ensures RoundedSqrt(S, mode, OverflowValue(mode), true)
  {
    var th := TWO64 - 1;
    TopBinadeRounding(S, hh, ll, 0x7ffd, mode);
    var up := RoundsUp(S, 0x7ffd, th, mode);
    RoundedEncoding(S, 0x7ffd, th, 0x7ffe, mode, up, OverflowValue(mode), true);
  }

  /**
   * The test of line 281 as written: with hh == HT and 0 < ll < 2^126 it
   * reports an overflow, yet sqrt(hh + ll / 2^128) is below the midpoint
   * 2^64 - 1/2 and the value rounded to nearest is the largest finite
   * value, not +Inf.
   */
  lemma OverflowTestTooEager(S: nat, ll: nat)
    requires 0 < ll < LT
    requires S * Pow4(64) == Pow4(0x7ffd) * (HT * TWO128 + ll)
    ensures OverflowsAsWritten(HT, ll) && !Overflows(HT, ll)
    ensures RoundedSqrt(S, ToNearest, Huge, true)
    ensures !RoundedSqrt(S, ToNearest, OverflowValue(ToNearest), true)
  {
    TopBinadeRounding(S, HT, ll, 0x7ffd, ToNearest);
    RoundedEncoding(S, 0x7ffd, TWO64 - 1, 0x7ffe, ToNearest, false, Huge, true);
  }

  /**
   * When hh >= HT (the sum is in the last ulp below 2^128), the floor of
   * the root is 2^64 - 1 and it is not exact; rounding to nearest goes up
   * exactly when the intended overflow test holds, and upward always.
   */
  lemma TopBinadeRounding(S: nat, hh: nat, ll: nat, G: nat, mode: RoundingMode)
    requires HT <= hh < TWO128 && ll < TWO128
    requires S * Pow4(64) == Pow4(G) * (hh * TWO128 + ll)
    ensures var th := TWO64 - 1;
      && FloorSqrtAt(S, G, th) && th * th * Pow4(G) != S
      && (RoundsUp(S, G, th, mode) <==> mode == Upward || (mode == ToNearest && Overflows(hh, ll)))
  {
    var th := TWO64 - 1;
    var N := hh * TWO128 + ll;
    TopBinadeWords(hh, ll, mode);
    Rescale(S, G, N, 64, th, mode);
    CompareScaled(S, G, N, 64, th * th);
  }

  /** TopBinadeRounding read on hh:ll itself, on the grid 2^64. */
  lemma TopBinadeWords(hh: nat, ll: nat, mode: RoundingMode)
    requires HT <= hh < TWO128 && ll < TWO128
    ensures var th := TWO64 - 1;
      var N := hh * TWO128 + ll;
      && FloorSqrtAt(N, 64, th) && th * th * Pow4(64) != N
      && (RoundsUp(N, 64, th, mode) <==> mode == Upward || (mode == ToNearest && Overflows(hh, ll)))
  {
    var th := TWO64 - 1;
    assert th * th == HT - th && (th + 1) * (th + 1) == TWO128;
    WordsDecision(hh, ll, th, mode);
    TopNearest(hh, ll);
  }

  /** The test of line 370 for th = 2^64 - 1 is the intended overflow test, and r > 0. */
  lemma TopNearest(hh: nat, ll: nat)
    requires HT <= hh < TWO128
    ensures var th := TWO64 - 1;
      var r := hh - th * th;
      && r != 0
      && ((r > th || (r == th && (ll > TWO126 || (ll == TWO126 && th % 2 == 1)))) <==> Overflows(hh, ll))
  {
    var th := TWO64 - 1;
    assert th * th == HT - th;
    assert th % 2 == 1;
  }

  // ---------------------------------------------------------------------
  // The rounding decisions, moved from the words to the result grid

  /**
   * The shortcut (lines 230-255): |x| * 2^0 is the floor on the grid of x,
   * the result is never exact, and the mode rounds up when it is upward,
   * or to nearest with the test of line 243 true.
   */
  lemma ShortcutDecision(S: nat, G: nat, mx: nat, my: nat, d: nat, mode: RoundingMode)
    requires TWO63 <= mx < TWO64 && 0 < my < TWO64 && d >= 32
    requires S * Pow4(d) == Pow4(G) * (mx * mx * Pow4(d) + my * my)
    ensures FloorSqrtAt(S, G, mx) && mx * mx * Pow4(G) != S
    ensures var yy := my * my;
      var bump := d == 32 && (yy / TWO64 > mx || (yy / TWO64 == mx && yy % TWO64 > TWO62));
      RoundsUp(S, G, mx, mode) <==> (mode == Upward || (mode == ToNearest && bump))
  {
    var W := mx * mx * Pow4(d) + my * my;
    ShortcutFloor(mx, my, d);
    ShortcutNearest(mx, my, d);
    ShortcutInexact(mx, my, d);
    Rescale(S, G, W, d, mx, mode);
    CompareScaled(S, G, W, d, mx * mx);
  }

  /**
   * The general path (lines 358-386): with th = floor(sqrt(hh)) and
   * r = hh - th^2, th is the floor on the grid of the result, the result
   * is exact when r == 0 and ll == 0, and the mode rounds up when the
   * result is not exact and it is upward, or to nearest with the test of
   * line 370 true.
   */
  lemma GridDecision(S: nat, G: nat, hh: nat, ll: nat, th: nat, mode: RoundingMode)
    requires th * th <= hh < (th + 1) * (th + 1) && ll < TWO128
    requires S * Pow4(64) == Pow4(G) * (hh * TWO128 + ll)
    ensures FloorSqrtAt(S, G, th)
    ensures (hh - th * th == 0 && ll == 0) <==> th * th * Pow4(G) == S
    ensures var r := hh - th * th;
      var exact := r == 0 && ll == 0;
      var nearestUp := r > th || (r == th && (ll > TWO126 || (ll == TWO126 && th % 2 == 1)));
      RoundsUp(S, G, th, mode) <==> (!exact && (mode == Upward || (mode == ToNearest && nearestUp)))
  {
    var N := hh * TWO128 + ll;
    WordsDecision(hh, ll, th, mode);
    Rescale(S, G, N, 64, th, mode);
    CompareScaled(S, G, N, 64, th * th);
  }

  /** GridDecision on the words themselves, on the grid 2^64. */
  lemma WordsDecision(hh: nat, ll: nat, th: nat, mode: RoundingMode)
    requires th * th <= hh < (th + 1) * (th + 1) && ll < TWO128
    ensures FloorSqrtAt(hh * TWO128 + ll, 64, th)
    ensures (hh - th * th == 0 && ll == 0) <==> th * th * Pow4(64) == hh * TWO128 + ll
    ensures var r := hh - th * th;
      var exact := r == 0 && ll == 0;
      var nearestUp := r > th || (r == th && (ll > TWO126 || (ll == TWO126 && th % 2 == 1)));
      RoundsUp(hh * TWO128 + ll, 64, th, mode) <==> (!exact && (mode == Upward || (mode == ToNearest && nearestUp)))
  {
    NearestDecision(hh, ll, th);
  }

  // ---------------------------------------------------------------------
  // A zero operand (lines 194-204)

  /** hypot(x, 0) is |x| exactly: x with its sign bit cleared. */
  lemma ZeroOperand(x: Bits80, y: Bits80, mode: RoundingMode)
    requires Canonical(x) && BiasedExp(x) != EXP_INF_NAN && IsZero(y)
    ensures RoundedSqrt(SumSq(x, y), mode, Bits80(x.m, BiasedExp(x)), false)
  {
    var b, G := BiasedExp(x), ScaleExp(x);
    var m: nat := x.m;
    var P := Pow4(G);
    assert Mag(y) == 0;
    GridSquare(m, G);
    var S := SumSq(x, y);
    assert S == m * m * P;
    SquareLtScaled(m, m + 1, P);
    SquareLtScaled(2 * m, 2 * m + 1, P);
    DoubleSquare(m, P);
    RoundedEncoding(S, G, m, b, mode, false, Bits80(x.m, b), false);
  }
}
