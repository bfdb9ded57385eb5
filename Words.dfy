/*
 * Unsigned machine words as mathematical integers.
 *
 * The C sources work on uint64_t and unsigned __int128 values with shifts,
 * masks and wrapping additions.  Here a w-bit word is a nat below 2^w, a left
 * shift by s is a multiplication by Pow2(s) followed by a reduction modulo
 * 2^w, a right shift is a division by Pow2(s), and a mask with 2^j - 1 is a
 * remainder modulo Pow2(j).  This module holds the powers of two, the
 * division and remainder facts the other modules need, and the two integer
 * helpers the sources rely on: count-leading-zeros and the integer square
 * root.
 */
module Words {

  const TWO15: nat := 0x8000
  const TWO16: nat := 0x1_0000
  const TWO31: nat := 0x8000_0000
  const TWO32: nat := 0x1_0000_0000
  const TWO62: nat := 0x4000_0000_0000_0000
  const TWO63: nat := 0x8000_0000_0000_0000
  const TWO64: nat := 0x1_0000_0000_0000_0000
  const TWO126: nat := 0x4000_0000_0000_0000_0000_0000_0000_0000
  const TWO127: nat := 0x8000_0000_0000_0000_0000_0000_0000_0000
  const TWO128: nat := 0x1_0000_0000_0000_0000_0000_0000_0000_0000

  type u64 = x: nat | x < TWO64
  type u128 = x: nat | x < TWO128

  /** 2^n */
  function Pow2(n: nat): (r: nat)
    ensures r >= 1
  {
    if n == 0 then 1 else 2 * Pow2(n - 1)
  }

  lemma {:induction false} Pow2Add(a: nat, b: nat)
    ensures Pow2(a + b) == Pow2(a) * Pow2(b)
  {
    if a > 0 {
      Pow2Add(a - 1, b);
      calc {
        Pow2(a + b);
        2 * Pow2(a - 1 + b);
        2 * (Pow2(a - 1) * Pow2(b));
        (2 * Pow2(a - 1)) * Pow2(b);
      }
    }
  }

  lemma {:induction false} Pow2Strict(a: nat, b: nat)
    requires a < b
    ensures Pow2(a) < Pow2(b)
  {
    if b > a + 1 {
      Pow2Strict(a, b - 1);
    }
  }

  lemma Pow2Mono(a: nat, b: nat)
    requires a <= b
    ensures Pow2(a) <= Pow2(b)
  {
    if a < b {
      Pow2Strict(a, b);
    }
  }

  /** Pow2 is strictly increasing, so it reflects the order. */
  lemma Pow2Order(a: nat, b: nat)
    requires Pow2(a) < Pow2(b)
    ensures a < b
  {
    if b <= a {
      Pow2Mono(b, a);
    }
  }

  lemma Pow2Small()
    ensures Pow2(4) == 16 && Pow2(8) == 256 && Pow2(16) == TWO16
  {
    assert Pow2(2) == 4 by { assert Pow2(1) == 2; }
    Pow2Add(2, 2);
    Pow2Add(4, 4);
    Pow2Add(8, 8);
  }

  lemma Pow2Mid()
    ensures Pow2(32) == TWO32 && Pow2(64) == TWO64
  {
    Pow2Small();
    Pow2Add(16, 16);
    Pow2Add(32, 32);
  }

  /** 2^j * 2^(w - j) == 2^w */
  lemma Pow2Split(j: nat, w: nat)
    requires j <= w
    ensures Pow2(j) * Pow2(w - j) == Pow2(w)
  {
    Pow2Add(j, w - j);
  }

  /** The powers of two the sources spell as hexadecimal constants. */
  lemma Pow2Consts()
    ensures Pow2(15) == TWO15 && Pow2(16) == TWO16
    ensures Pow2(31) == TWO31 && Pow2(32) == TWO32
    ensures Pow2(62) == TWO62 && Pow2(63) == TWO63 && Pow2(64) == TWO64
    ensures Pow2(126) == TWO126 && Pow2(127) == TWO127 && Pow2(128) == TWO128
  {
    Pow2Small();
    Pow2Mid();
    Pow2Add(64, 64);
    assert Pow2(16) == 2 * Pow2(15);
    assert Pow2(32) == 2 * Pow2(31);
    assert Pow2(64) == 2 * Pow2(63);
    assert Pow2(63) == 2 * Pow2(62);
    assert Pow2(128) == 2 * Pow2(127);
    assert Pow2(127) == 2 * Pow2(126);
  }

  lemma Pow2At63()
    ensures Pow2(63) == TWO63
  {
    Pow2Consts();
  }

  lemma Pow2At64()
    ensures Pow2(64) == TWO64
  {
    Pow2Mid();
  }

  lemma Pow2At126()
    ensures Pow2(126) == TWO126
  {
    Pow2Consts();
  }

  lemma Pow2At127()
    ensures Pow2(127) == TWO127
  {
    Pow2Consts();
  }

  lemma Pow2At128()
    ensures Pow2(128) == TWO128
  {
    Pow2Consts();
  }

  // ---------------------------------------------------------------------
  // Division and remainder by a positive divisor

  lemma MulLeMul(a: int, b: int, c: int)
    requires 0 <= a <= b && 0 <= c
    ensures a * c <= b * c
  {
  }

  lemma MulLtMul(a: int, b: int, c: int)
    requires 0 <= a < b && 0 < c
    ensures a * c < b * c
  {
    MulLeMul(a + 1, b, c);
    assert (a + 1) * c == a * c + c;
  }

  /** n / d is the multiple of d just below n. */
  /** n is its quotient times d plus its remainder. */
  lemma DivModSplit(n: int, d: int)
    requires d > 0
    ensures n == (n / d) * d + n % d
  {
  }

  lemma DivBracket(n: int, d: int)
    requires d > 0
    ensures (n / d) * d <= n < (n / d + 1) * d
  {
    assert n == (n / d) * d + n % d;
    assert (n / d + 1) * d == (n / d) * d + d;
  }

  lemma DivModUnique(n: int, d: int, q: int, r: int)
    requires d > 0 && 0 <= r < d && n == q * d + r
    ensures n / d == q && n % d == r
  {
    var q', r' := n / d, n % d;
    assert n == q' * d + r';
    if q' < q {
      MulLeMul(q' + 1, q, d);
      assert false;
    } else if q < q' {
      MulLeMul(q + 1, q', d);
      assert false;
    }
  }

  lemma DivLowerBound(n: int, d: int, q: int)
    requires d > 0 && q * d <= n
    ensures q <= n / d
  {
    if n / d < q {
      MulLeMul(n / d + 1, q, d);
    }
  }

  lemma DivUpperBound(n: int, d: int, q: int)
    requires d > 0 && n < q * d
    ensures n / d < q
  {
    if q <= n / d {
      MulLeMul(q, n / d, d);
    }
  }

  /** Floor division is monotone in the dividend. */
  lemma DivMono(a: int, b: int, d: int)
    requires d > 0 && a <= b
    ensures a / d <= b / d
  {
    DivLowerBound(b, d, a / d);
  }

  lemma MulDiv(a: int, d: int)
    requires d > 0
    ensures (a * d) / d == a && (a * d) % d == 0
  {
    DivModUnique(a * d, d, a, 0);
  }

  /** Adding a multiple of d passes through the division. */
  lemma DivAddMul(a: int, b: int, d: int)
    requires d > 0
    ensures (a * d + b) / d == a + b / d
    ensures (a * d + b) % d == b % d
  {
    DivModUnique(a * d + b, d, a + b / d, b % d);
  }

  /** The nested quotient-remainder decomposition flattened. */
  lemma NestedDecomposition(n: int, a: int, b: int, q: int, r: int, q2: int, r2: int)
    requires a > 0 && b > 0
    requires n == q * a + r && 0 <= r < a
    requires q == q2 * b + r2 && 0 <= r2 < b
    ensures n == q2 * (a * b) + (r2 * a + r)
    ensures 0 <= r2 * a + r < a * b
  {
    assert q * a == q2 * (a * b) + r2 * a;
    MulLeMul(r2 + 1, b, a);
    MulLeMul(0, r2, a);
  }

  /** (n / a) / b == n / (a * b) */
  lemma DivDiv(n: int, a: int, b: int)
    requires a > 0 && b > 0
    ensures (n / a) / b == n / (a * b)
    ensures (n / a) % b == (n % (a * b)) / a
  {
    var q, r := n / a, n % a;
    var q2, r2 := q / b, q % b;
    NestedDecomposition(n, a, b, q, r, q2, r2);
    DivModUnique(n, a * b, q2, r2 * a + r);
    DivAddMul(r2, r, a);
  }

  /** (n % (a * b)) % a == n % a */
  lemma ModMod(n: int, a: int, b: int)
    requires a > 0 && b > 0
    ensures (n % (a * b)) % a == n % a
  {
    var q := n / (a * b);
    assert n == (q * b) * a + n % (a * b);
    DivAddMul(q * b, n % (a * b), a);
  }

  /** (a * b) % (c * b) == (a % c) * b */
  lemma MulMod(a: int, b: int, c: int)
    requires b > 0 && c > 0
    ensures (a * b) % (c * b) == (a % c) * b
    ensures (a * b) / (c * b) == a / c
  {
    var q, r := a / c, a % c;
    assert a * b == q * (c * b) + r * b;
    MulLeMul(r + 1, c, b);
    DivModUnique(a * b, c * b, q, r * b);
  }

  // ---------------------------------------------------------------------
  // Shifts on words

  /** a * 2^j, keeping the low w bits: the C `(a << j)` on a w-bit word. */
  function Shl(a: nat, j: nat, w: nat): (r: nat)
    ensures r < Pow2(w)
  {
    (a * Pow2(j)) % Pow2(w)
  }

  /** The C `(a >> j)` on an unsigned word. */
  function Shr(a: nat, j: nat): (r: nat)
    ensures r <= a
  {
    DivMono(0, a, Pow2(j));
    DivUpperBound(a, Pow2(j), a + 1);
    a / Pow2(j)
  }

  /**
   * A conversion to a 32-bit signed int that keeps the low 32 bits in two's
   * complement (what GCC and Clang do for an out-of-range value).
   */
  function ToInt32(w: int): (r: int)
    ensures -0x8000_0000 <= r < TWO31
    ensures (r - w) % TWO32 == 0
  {
    var t: int := w % TWO32;
    DivModSplit(w, TWO32);
    if t >= TWO31 then t - TWO32 else t
  }

  /**
   * `hi | lo` when hi has no bit below bit j and lo has none from bit j up:
   * the two bit fields are disjoint, so the OR is their sum.
   */
  function DisjointOr(hi: nat, lo: nat, j: nat): nat
    requires hi % Pow2(j) == 0 && lo < Pow2(j)
  {
    hi + lo
  }

  /**
   * Count leading zeros of a nonzero 64-bit word (`__builtin_clzll`):
   * the shift that brings the top set bit to bit 63.
   */
  function Clz64(m: nat): (k: nat)
    requires 0 < m < TWO64
    ensures k < 64
    ensures TWO63 <= m * Pow2(k) < TWO64
    ensures k == 0 <==> m >= TWO63
    decreases TWO64 - m
  {
    if m >= TWO63 then
      0
    else
      var k' := Clz64(2 * m);
      Clz64Step(m, k');
      k' + 1
  }

  lemma Clz64Step(m: nat, k: nat)
    requires 0 < m < TWO63 && k < 64
    requires TWO63 <= (2 * m) * Pow2(k) < TWO64
    ensures k + 1 < 64
    ensures TWO63 <= m * Pow2(k + 1) < TWO64
  {
    assert m * Pow2(k + 1) == (2 * m) * Pow2(k);
    if k == 63 {
      assert Pow2(63) == TWO63 by {
        Pow2Consts();
      }
      MulLeMul(2, 2 * m, TWO63);
      assert false;
    }
  }

  /** A larger significand has no more leading zeros. */
  lemma Clz64Mono(a: nat, b: nat)
    requires 0 < a <= b < TWO64
    ensures Clz64(b) <= Clz64(a)
  {
    var ka, kb := Clz64(a), Clz64(b);
    var pa, pb := Pow2(ka), Pow2(kb);
    assert a * pb <= b * pb by {
      MulLeMul(a, b, pb);
    }
    assert Pow2(ka + 1) == 2 * pa;
    if 2 * pa <= pb {
      assert (2 * pa) * a == 2 * (a * pa);
      MulLeMul(2 * pa, pb, a);
      assert false;
    }
    Pow2Order(kb, ka + 1);
  }

  // ---------------------------------------------------------------------
  // Integer square root

  /** floor(sqrt(n)); ISqrtBounds states that it is. */
  function ISqrt(n: nat): (r: nat)
    decreases n
  {
    if n < 4 then
      (if n == 0 then 0 else 1)
    else
      var h := 2 * ISqrt(n / 4);
      if (h + 1) * (h + 1) <= n then h + 1 else h
  }

  /** One step of ISqrt: doubling the root of n / 4 brackets the root of n. */
  lemma ISqrtStep(n: nat, s: nat)
    requires s * s <= n / 4 < (s + 1) * (s + 1)
    ensures (2 * s) * (2 * s) <= n < (2 * s + 2) * (2 * s + 2)
  {
    assert (2 * s) * (2 * s) == 4 * (s * s);
    assert (2 * s + 2) * (2 * s + 2) == 4 * ((s + 1) * (s + 1));
  }

  lemma {:induction false} ISqrtBounds(n: nat)
    ensures ISqrt(n) * ISqrt(n) <= n < (ISqrt(n) + 1) * (ISqrt(n) + 1)
    decreases n
  {
    if n >= 4 {
      var s := ISqrt(n / 4);
      ISqrtBounds(n / 4);
      ISqrtStep(n, s);
      var h := 2 * s;
      if (h + 1) * (h + 1) <= n {
        assert ISqrt(n) == h + 1;
      } else {
        assert ISqrt(n) == h;
      }
    }
  }

  lemma SquareMono(a: int, b: int)
    requires 0 <= a <= b
    ensures a * a <= b * b
  {
    MulLeMul(a, b, a);
    MulLeMul(a, b, b);
  }

  /** Squaring reflects the order on naturals. */
  lemma SquareLtRoot(a: nat, b: nat)
    requires a * a < b * b
    ensures a < b
  {
    if b <= a {
      SquareMono(b, a);
    }
  }

  /** The square-root floor is unique: any r with r^2 <= n < (r+1)^2 is ISqrt(n). */
  lemma ISqrtUnique(n: nat, r: nat)
    requires r * r <= n < (r + 1) * (r + 1)
    ensures r == ISqrt(n)
  {
    var s := ISqrt(n);
    ISqrtBounds(n);
    if r < s {
      SquareMono(r + 1, s);
    } else if s < r {
      SquareMono(s + 1, r);
    }
  }

  /** Any a with a^2 <= n is at most the square-root floor of n. */
  lemma ISqrtAtLeast(n: nat, a: nat)
    requires a * a <= n
    ensures a <= ISqrt(n)
  {
    ISqrtBounds(n);
    SquareLtRoot(a, ISqrt(n) + 1);
  }
}
