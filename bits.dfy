/** Powers of two, floor-log2 and the arithmetic facts about them that the
    size-class and hash-map models share.  Java's `x << n`, `x >> n` and
    `x & ((1 << n) - 1)` on non-negative ints are written `x * Pow2(n)`,
    `x / Pow2(n)` and `x % Pow2(n)`. */
module Bits {

  /** 2 to the power n. */
  function Pow2(n: nat): (r: nat)
    ensures r >= 1
  {
    if n == 0 then 1 else 2 * Pow2(n - 1)
  }

  /** Floor of log2: the position of the highest set bit of a positive int
      (the `log2` helper of the allocator's thread cache). */
  function Log2(x: nat): (r: nat)
    requires x >= 1
    ensures Pow2(r) <= x < Pow2(r + 1)
  {
    if x == 1 then 0 else 1 + Log2(x / 2)
  }

  predicate IsPow2(x: int) {
    x >= 1 && Pow2(Log2(x)) == x
  }

  lemma Pow2Succ(n: nat)
    ensures Pow2(n + 1) == 2 * Pow2(n)
  {
  }

  lemma {:induction false} Pow2Add(a: nat, b: nat)
    ensures Pow2(a + b) == Pow2(a) * Pow2(b)
  {
    if a > 0 {
      Pow2Add(a - 1, b);
      assert Pow2(a + b) == 2 * Pow2(a - 1 + b);
    }
  }

  lemma {:induction false} Pow2Monotone(a: nat, b: nat)
    requires a <= b
    ensures Pow2(a) <= Pow2(b)
  {
    if a < b {
      Pow2Monotone(a, b - 1);
    }
  }

  lemma Pow2StrictMonotone(a: nat, b: nat)
    requires a < b
    ensures Pow2(a) < Pow2(b)
  {
    Pow2Monotone(a + 1, b);
  }

  /** Log2 is the unique exponent bracketing x. */
  lemma Log2Unique(x: nat, n: nat)
    requires Pow2(n) <= x < Pow2(n + 1)
    ensures Log2(x) == n
  {
    var l := Log2(x);
    if l < n {
      Pow2Monotone(l + 1, n);
    } else if l > n {
      Pow2Monotone(n + 1, l);
    }
  }

  lemma Log2Pow2(n: nat)
    ensures Log2(Pow2(n)) == n
  {
    Pow2StrictMonotone(n, n + 1);
    Log2Unique(Pow2(n), n);
  }

  lemma Pow2IsPow2(n: nat)
    ensures IsPow2(Pow2(n))
  {
    Log2Pow2(n);
  }

  /** A power of two other than 1 is even. */
  lemma Pow2Even(x: int)
    requires IsPow2(x) && x >= 2
    ensures x % 2 == 0
  {
    Pow2Succ(Log2(x) - 1);
  }

  /** Doubling a power of two gives the next power of two. */
  lemma Pow2Double(x: int)
    requires IsPow2(x)
    ensures IsPow2(2 * x) && Log2(2 * x) == Log2(x) + 1
  {
    Pow2Succ(Log2(x));
    Log2Pow2(Log2(x) + 1);
  }

  /** Euclidean division is determined by any quotient/remainder pair. */
  lemma DivModUnique(a: int, m: int, q: int, r: int)
    requires m > 0 && 0 <= r < m && a == m * q + r
    ensures a / m == q && a % m == r
  {
    var q', r' := a / m, a % m;
    assert m * (q - q') == r' - r;
    MulZero(m, q - q');
  }

  /** The quotient brackets the dividend. */
  lemma DivRange(a: int, m: int)
    requires m > 0
    ensures m * (a / m) <= a < m * (a / m + 1)
  {
    var q, r := a / m, a % m;
    assert a == m * q + r;
    assert m * (q + 1) == m * q + m;
  }

  lemma MulZero(m: int, d: int)
    requires m > 0 && -m < m * d < m
    ensures d == 0
  {
    if d >= 1 {
      MulMonotone(m, 1, d);
    } else if d <= -1 {
      MulMonotone(m, d, -1);
    }
  }

  lemma MulMonotone(m: nat, a: int, b: int)
    requires a <= b
    ensures m * a <= m * b
  {
    assert m * b - m * a == m * (b - a);
  }

  lemma DivNonNegative(a: int, m: int)
    requires a >= 0 && m >= 1
    ensures a / m >= 0
  {
  }

  lemma MulStrict(m: int, a: int, b: int)
    requires m >= 1 && a < b
    ensures m * a < m * b
  {
    MulMonotone(m, a + 1, b);
  }

  lemma MulModZero(c: int, m: int)
    requires m > 0
    ensures (c * m) % m == 0 && (c * m) / m == c
  {
    DivModUnique(c * m, m, c, 0);
  }

  /** A multiple of 2^f is a multiple of every smaller power of two. */
  lemma Pow2MultipleMod(c: nat, e: nat, f: nat)
    requires e <= f
    ensures (c * Pow2(f)) % Pow2(e) == 0
  {
    Pow2Add(e, f - e);
    MulRegroup(c, Pow2(e), Pow2(f - e));
    MulModZero(c * Pow2(f - e), Pow2(e));
  }

  lemma Pow2Div(e: nat, f: nat)
    requires e <= f
    ensures Pow2(f) / Pow2(e) == Pow2(f - e) && Pow2(f) % Pow2(e) == 0
  {
    Pow2Add(e, f - e);
    assert Pow2(f) == Pow2(f - e) * Pow2(e);
    MulModZero(Pow2(f - e), Pow2(e));
  }

  lemma Pow2Values()
    ensures Pow2(1) == 2 && Pow2(2) == 4 && Pow2(3) == 8 && Pow2(4) == 16
    ensures Pow2(5) == 32 && Pow2(6) == 64 && Pow2(12) == 4096
  {
  }

  /** 2^30 is the largest power of two a Java int holds; 2^31 is one past
      the largest int. */
  lemma Pow2IntRange()
    ensures Pow2(30) == 0x4000_0000 && Pow2(31) == 0x8000_0000
  {
    Pow2Values();
    Pow2Add(12, 12);
    assert Pow2(24) == 4096 * 4096;
    Pow2Add(24, 6);
    assert Pow2(30) == 0x100_0000 * 64;
    Pow2Succ(30);
  }

  /** Sums and multiples of multiples of m are multiples of m. */
  lemma ModSum(x: int, y: int, m: int)
    requires m > 0 && x % m == 0 && y % m == 0
    ensures (x + y) % m == 0
  {
    var a, b := x / m, y / m;
    assert x + y == m * (a + b);
    DivModUnique(x + y, m, a + b, 0);
  }

  lemma ModScale(c: int, x: int, m: int)
    requires m > 0 && x % m == 0
    ensures (c * x) % m == 0
  {
    var a := x / m;
    assert x == m * a;
    MulRegroup(c, a, m);
    DivModUnique(c * x, m, c * a, 0);
  }

  lemma MulRegroup(c: int, x: int, y: int)
    ensures c * (x * y) == (c * y) * x
  {
  }

  /** For powers of two, one divides the other. */
  lemma Pow2Divides(a: int, b: int)
    requires IsPow2(a) && IsPow2(b) && a <= b
    ensures b % a == 0
  {
    var e, f := Log2(a), Log2(b);
    if e > f {
      Pow2StrictMonotone(f, e);
    }
    Pow2Div(e, f);
  }

  /** Adding a multiple of m does not change the remainder modulo m. */
  lemma ModAddMultiple(x: int, c: int, m: int)
    requires m > 0
    ensures (x + c * m) % m == x % m && (x + c * m) / m == x / m + c
  {
    DivModUnique(x + c * m, m, x / m + c, x % m);
  }

  /** Adding what is missing to the next multiple of m gives a multiple of m. */
  lemma NextMultiple(x: int, m: int)
    requires m >= 1
    ensures (x + (m - x % m)) % m == 0
  {
    DivModUnique(x + (m - x % m), m, x / m + 1, 0);
  }

  /** A multiple of m less than m above s cannot pass a multiple of m that
      is at least s. */
  lemma MultipleBelow(r: int, b: int, s: int, m: int)
    requires m >= 1 && r % m == 0 && b % m == 0 && s <= b && r < s + m
    ensures r <= b
  {
    var q1, q2 := r / m, b / m;
    assert r == m * q1 && b == m * q2;
    if q1 > q2 {
      MulMonotone(m, q2 + 1, q1);
    } else {
      MulMonotone(m, q1, q2);
    }
  }

  /** Divisibility is transitive. */
  lemma ModTransitive(x: int, m: int, k: int)
    requires m > 0 && k > 0 && x % (m * k) == 0
    ensures x % m == 0
  {
    var c := x / (m * k);
    assert x == (m * k) * c;
    assert x == (k * c) * m;
    MulModZero(k * c, m);
  }
}
