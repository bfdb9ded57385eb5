/*
 * Correct rounding of a square root on a binary grid, stated on integers.
 *
 * For a natural S and a grid exponent G, the candidates are the multiples
 * q * 2^G.  FloorSqrtAt(S, G, q) says q * 2^G <= sqrt(S) < (q + 1) * 2^G,
 * and RoundsUp says when a rounding mode picks (q + 1) * 2^G instead, with
 * every comparison done on squares so that no real number is needed.  The
 * binary80 hypotenuse is specified with these: its exact value is sqrt(S)
 * for S = |x|^2 + |y|^2 in units of 2^-16445, and UlpExp(S) is the grid of
 * the binade that sqrt(S) falls in.
 */
module SqrtRounding {
  import opened Words
  import opened Ext80

  /** 4^G, the square of the grid step 2^G */
  function Pow4(G: nat): nat {
    Pow2(2 * G)
  }

  /** q * 2^G <= sqrt(S) < (q + 1) * 2^G */
  predicate FloorSqrtAt(S: nat, G: nat, q: nat) {
    q * q * Pow4(G) <= S < (q + 1) * (q + 1) * Pow4(G)
  }

  /**
   * Whether the rounded value is (q + 1) * 2^G rather than q * 2^G, where
   * q * 2^G <= sqrt(S).  To nearest: sqrt(S) above the midpoint
   * (q + 1/2) * 2^G, or on it with q odd (ties to even, section 4.3.1 of
   * IEEE 754-2019).  Upward: sqrt(S) not on the grid.  Toward zero and
   * downward (the value is nonnegative): never.
   */
  predicate RoundsUp(S: nat, G: nat, q: nat, mode: RoundingMode) {
    match mode
    case ToNearest =>
      4 * S > (2 * q + 1) * (2 * q + 1) * Pow4(G)
      || (4 * S == (2 * q + 1) * (2 * q + 1) * Pow4(G) && q % 2 == 1)
    case Upward => q * q * Pow4(G) < S
    case TowardZero => false
    case Downward => false
  }

  /** sqrt(S) rounded onto the grid of step 2^G, as a multiple of 2^G. */
  function RoundSqrtAt(S: nat, G: nat, mode: RoundingMode): nat {
    var q := Shr(ISqrt(S), G);
    if RoundsUp(S, G, q, mode) then q + 1 else q
  }

  /** floor(log2(n)) */
  function Log2(n: nat): (r: nat)
    requires n >= 1
    ensures Pow2(r) <= n < Pow2(r + 1)
  {
    if n == 1 then 0 else
      var r' := Log2(n / 2);
      r' + 1
  }

  lemma Log2Unique(n: nat, t: nat)
    requires Pow2(t) <= n < Pow2(t + 1)
    ensures Log2(n) == t
  {
    var r := Log2(n);
    if r < t {
      Pow2Mono(r + 1, t);
    } else if t < r {
      Pow2Mono(t + 1, r);
    }
  }

  /**
   * The grid exponent of a binary80 result near sqrt(S): 0 (the subnormal
   * grid, which is also that of the lowest normal binade) while
   * sqrt(S) < 2^64 units, and otherwise such that sqrt(S) lies in
   * [2^(63 + G), 2^(64 + G)), where a 64-bit significand has step 2^G.
   */
  function UlpExp(S: nat): (G: nat)
    ensures ISqrt(S) < TWO64 ==> G == 0
    ensures ISqrt(S) >= TWO64 ==> G >= 1 && Pow2(G + 63) <= ISqrt(S) < Pow2(G + 64)
  {
    var s := ISqrt(S);
    if s < TWO64 then 0 else
      Pow2Consts();
      var t := Log2(s);
      assert t >= 64 by {
        if t < 64 {
          Pow2Mono(t + 1, 64);
        }
      }
      t - 63
  }

  // ---------------------------------------------------------------------
  // Facts about the specification

  /** u <= v, u < v and u == v are unchanged by a positive factor. */
  lemma MulCancel(u: nat, v: nat, c: nat)
    requires c > 0
    ensures u <= v <==> u * c <= v * c
    ensures u == v <==> u * c == v * c
  {
    if u <= v {
      MulLeMul(u, v, c);
    } else {
      MulLeMul(v + 1, u, c);
    }
    if v <= u {
      MulLeMul(v, u, c);
    } else {
      MulLeMul(u + 1, v, c);
    }
  }

  /** A threshold T scaled by 4^G compares with S as T scaled by 4^a with W. */
  lemma CompareScaled(S: nat, G: nat, W: nat, a: nat, T: nat)
    requires S * Pow4(a) == Pow4(G) * W
    ensures T * Pow4(G) <= S <==> T * Pow4(a) <= W
    ensures T * Pow4(G) == S <==> T * Pow4(a) == W
  {
    var A, B := Pow4(a), Pow4(G);
    MulCancel(T * B, S, A);
    assert T * B * A == (T * A) * B;
    assert S * A == W * B;
    MulCancel(T * A, W, B);
  }

  /**
   * If S * 4^a == 4^G * W then sqrt(S) / 2^G == sqrt(W) / 2^a, so the floor
   * and every rounding decision agree.
   */
  lemma Rescale(S: nat, G: nat, W: nat, a: nat, q: nat, mode: RoundingMode)
    requires S * Pow4(a) == Pow4(G) * W
    ensures FloorSqrtAt(S, G, q) <==> FloorSqrtAt(W, a, q)
    ensures RoundsUp(S, G, q, mode) <==> RoundsUp(W, a, q, mode)
  {
    var A, B := Pow4(a), Pow4(G);
    var t0, t1, t2 := q * q, (q + 1) * (q + 1), (2 * q + 1) * (2 * q + 1);
    CompareScaled(S, G, W, a, t0);
    CompareScaled(S, G, W, a, t1);
    assert (4 * S) * A == B * (4 * W);
    CompareScaled(4 * S, G, 4 * W, a, t2);
  }

  lemma Pow4Split(G: nat)
    ensures Pow4(G) == Pow2(G) * Pow2(G)
  {
    Pow2Add(G, G);
  }

  /** (q * P)^2 == q^2 * 4^G for P == 2^G */
  lemma GridSquare(q: nat, G: nat)
    ensures (q * Pow2(G)) * (q * Pow2(G)) == q * q * Pow4(G)
  {
    var P := Pow2(G);
    Pow4Split(G);
    assert (q * P) * (q * P) == (q * q) * (P * P);
  }

  /** The floor on the grid is the integer square root shifted right by G. */
  lemma FloorSqrtAtIsQuotient(S: nat, G: nat, q: nat)
    requires FloorSqrtAt(S, G, q)
    ensures Shr(ISqrt(S), G) == q
  {
    var P := Pow2(G);
    var s := ISqrt(S);
    ISqrtBounds(S);
    GridSquare(q, G);
    GridSquare(q + 1, G);
    var lo, hi := q * P, (q + 1) * P;
    assert hi == lo + P;
    if s < lo {
      SquareMono(s + 1, lo);
    }
    if s >= hi {
      SquareMono(hi, s);
    }
    DivModUnique(s, P, q, s - lo);
  }

  /** ... and that quotient does satisfy FloorSqrtAt. */
  lemma FloorSqrtAtHolds(S: nat, G: nat)
    ensures FloorSqrtAt(S, G, Shr(ISqrt(S), G))
  {
    var P := Pow2(G);
    var s := ISqrt(S);
    var q := Shr(s, G);
    ISqrtBounds(S);
    GridSquare(q, G);
    GridSquare(q + 1, G);
    var lo, hi := q * P, (q + 1) * P;
    DivBracket(s, P);
    SquareMono(lo, s);
    SquareMono(s + 1, hi);
  }

  /** The squares that RoundsUp compares, next to each other on the grid. */
  lemma NeighbourSquares(q: nat, B: nat)
    requires B > 0
    ensures 4 * (q * q * B) == (2 * q) * (2 * q) * B
    ensures 4 * ((q + 1) * (q + 1) * B) == (2 * q + 2) * (2 * q + 2) * B
    ensures (2 * q) * (2 * q) * B <= (2 * q + 1) * (2 * q + 1) * B
    ensures (2 * q + 1) * (2 * q + 1) * B <= (2 * q + 2) * (2 * q + 2) * B
    ensures (2 * q + 2) * (2 * q + 2) * B < (2 * q + 3) * (2 * q + 3) * B
    ensures q > 0 ==> (2 * q - 1) * (2 * q - 1) * B < (2 * q) * (2 * q) * B
    ensures q > 0 ==> (q - 1) * (q - 1) * B < q * q * B
  {
    DoubleSquare(q, B);
    DoubleSquare(q + 1, B);
    SquareLtScaled(2 * q, 2 * q + 1, B);
    SquareLtScaled(2 * q + 1, 2 * q + 2, B);
    SquareLtScaled(2 * q + 2, 2 * q + 3, B);
    if q > 0 {
      SquareLtScaled(2 * q - 1, 2 * q, B);
      SquareLtScaled(q - 1, q, B);
    }
  }

  /** 4 * (t^2 * B) == (2t)^2 * B */
  lemma DoubleSquare(t: nat, B: nat)
    ensures 4 * (t * t * B) == (2 * t) * (2 * t) * B
  {
    assert (2 * t) * (2 * t) == 4 * (t * t);
    FourTimes(t * t, B);
  }

  lemma FourTimes(t: nat, B: nat)
    ensures 4 * (t * B) == (4 * t) * B
  {
  }

  /** u < v implies u^2 * B < v^2 * B for B > 0 */
  lemma SquareLtScaled(u: nat, v: nat, B: nat)
    requires u < v && B > 0
    ensures u * u * B < v * v * B
  {
    MulLeMul(u, v, u);
    MulLtMul(u, v, v);
    MulLtMul(u * u, v * v, B);
  }

  /**
   * Toward zero and downward, r = RoundSqrtAt(S, G, mode) makes r * 2^G the
   * largest grid point not above sqrt(S).
   */
  lemma RoundSqrtAtDown(S: nat, G: nat, mode: RoundingMode)
    requires mode == TowardZero || mode == Downward
    ensures var r := RoundSqrtAt(S, G, mode);
      r * r * Pow4(G) <= S < (r + 1) * (r + 1) * Pow4(G)
  {
    FloorSqrtAtHolds(S, G);
  }

  /** Upward, r * 2^G is the smallest grid point not below sqrt(S). */
  lemma RoundSqrtAtUp(S: nat, G: nat)
    ensures var r := RoundSqrtAt(S, G, Upward);
      S <= r * r * Pow4(G) && (r == 0 || (r - 1) * (r - 1) * Pow4(G) < S)
  {
    var q := Shr(ISqrt(S), G);
    FloorSqrtAtHolds(S, G);
    NeighbourSquares(q, Pow4(G));
  }

  /**
   * To nearest, r * 2^G is within half a grid step of sqrt(S), and when
   * sqrt(S) is exactly half-way between two grid points r is even.
   */
  lemma RoundSqrtAtNearest(S: nat, G: nat)
    ensures var r := RoundSqrtAt(S, G, ToNearest);
      && 4 * S <= (2 * r + 1) * (2 * r + 1) * Pow4(G)
      && (r == 0 || (2 * r - 1) * (2 * r - 1) * Pow4(G) <= 4 * S)
      && (4 * S == (2 * r + 1) * (2 * r + 1) * Pow4(G) ==> r % 2 == 0)
      && (r > 0 && 4 * S == (2 * r - 1) * (2 * r - 1) * Pow4(G) ==> r % 2 == 0)
  {
    var q := Shr(ISqrt(S), G);
    FloorSqrtAtHolds(S, G);
    NeighbourSquares(q, Pow4(G));
    var r := RoundSqrtAt(S, G, ToNearest);
    if r == q + 1 {
      assert 2 * r - 1 == 2 * q + 1 && 2 * r + 1 == 2 * q + 3;
    } else {
      assert r == q;
    }
  }

  /** A square on the grid rounds to itself in every mode. */
  lemma RoundExact(S: nat, G: nat, q: nat, mode: RoundingMode)
    requires S == q * q * Pow4(G)
    ensures RoundSqrtAt(S, G, mode) == q
  {
    var B := Pow4(G);
    SquareLtScaled(q, q + 1, B);
    SquareLtScaled(2 * q, 2 * q + 1, B);
    DoubleSquare(q, B);
    FloorSqrtAtIsQuotient(S, G, q);
  }

  /**
   * A floor th with 64 significant bits (or any floor below 2^64 on the
   * grid of step 1) pins the grid: UlpExp(S) is that G.
   */
  lemma GridOfFloor(S: nat, G: nat, th: nat)
    requires FloorSqrtAt(S, G, th)
    requires (G >= 1 && TWO63 <= th < TWO64) || (G == 0 && th < TWO64)
    ensures UlpExp(S) == G
  {
    var s, P := ISqrt(S), Pow2(G);
    assert th * P <= s < (th + 1) * P by {
      FloorSqrtAtIsQuotient(S, G, th);
      DivBracket(s, P);
    }
    if G == 0 {
      assert P == 1;
    } else {
      assert Pow2(G + 63) <= s by {
        assert Pow2(G + 63) == P * TWO63 by {
          Pow2Add(G, 63);
          Pow2At63();
        }
        MulLeMul(TWO63, th, P);
      }
      assert s < Pow2(G + 64) by {
        assert Pow2(G + 64) == P * TWO64 by {
          Pow2Add(G, 64);
          Pow2At64();
        }
        MulLeMul(th + 1, TWO64, P);
      }
      UlpExpUnique(S, G);
    }
  }

  /** UlpExp(S) is the only G >= 1 with 2^(G + 63) <= sqrt(S) < 2^(G + 64). */
  lemma UlpExpUnique(S: nat, G: nat)
    requires G >= 1 && Pow2(G + 63) <= ISqrt(S) < Pow2(G + 64)
    ensures UlpExp(S) == G
  {
    assert ISqrt(S) >= TWO64 by {
      Pow2Mono(64, G + 63);
      Pow2Mid();
    }
    Log2Unique(ISqrt(S), G + 63);
  }
}
