/** Powers of two and bitwise AND on naturals: the arithmetic behind the
    map's `mask = capacity - 1` and every `x & mask` in pkg/rhh/rhh.go. */
module Bits {

  /** `n` is 2^k for some k >= 0. */
  predicate IsPow2(n: int)
    decreases if n < 1 then 0 else n
  {
    n == 1 || (n >= 2 && n % 2 == 0 && IsPow2(n / 2))
  }

  /** Bitwise AND of two naturals, bit by bit from the least significant one
      (Go's `&` on uint64 operands). */
  function And(a: nat, b: nat): (r: nat)
    ensures r <= a && r <= b
    decreases a
  {
    if a == 0 || b == 0 then 0
    else 2 * And(a / 2, b / 2) + (if a % 2 == 1 && b % 2 == 1 then 1 else 0)
  }

  /** Doubling a power of two gives a power of two. */
  lemma DoubleIsPow2(n: int)
    requires IsPow2(n)
    ensures IsPow2(2 * n)
  {
    assert (2 * n) / 2 == n;
  }

  /** A positive multiple of `m` is at least `m`. */
  lemma MultipleAtLeast(d: int, m: int)
    requires d >= 1 && m > 0
    ensures d * m >= m
  {
  }

  /** Division with remainder is unique. */
  lemma ModUnique(a: int, m: int, q: int, r: int)
    requires m > 0 && 0 <= r < m && a == q * m + r
    ensures a % m == r
  {
    var q', r' := a / m, a % m;
    assert a == q' * m + r';
    assert (q - q') * m == r' - r;
    if q' < q {
      MultipleAtLeast(q - q', m);
      assert false;
    } else if q < q' {
      MultipleAtLeast(q' - q, m);
      assert false;
    }
  }

  /** Halving both the dividend and a power-of-two divisor. */
  lemma HalvedMod(a: nat, h: int)
    requires h >= 1
    ensures 2 * ((a / 2) % h) + a % 2 == a % (2 * h)
  {
    var q, r := (a / 2) / h, (a / 2) % h;
    assert a / 2 == q * h + r;
    assert a == q * (2 * h) + (2 * r + a % 2);
    ModUnique(a, 2 * h, q, 2 * r + a % 2);
  }

  /** Masking with `m - 1` keeps the remainder modulo a power of two `m`:
      `x & (m - 1) == x % m`. */
  lemma {:induction false} AndLowMask(a: nat, m: int)
    requires IsPow2(m)
    ensures And(a, m - 1) == a % m
    decreases m
  {
    if m == 1 {
    } else if a == 0 {
    } else {
      var h := m / 2;
      assert m == 2 * h;
      assert (m - 1) / 2 == h - 1 && (m - 1) % 2 == 1;
      AndLowMask(a / 2, h);
      assert And(a, m - 1) == 2 * ((a / 2) % h) + a % 2;
      HalvedMod(a, h);
    }
  }

  /** Two distinct powers of two are at least a factor of two apart. */
  lemma {:induction false} PowersAreSpaced(a: int, b: int)
    requires IsPow2(a) && IsPow2(b) && a < b
    ensures 2 * a <= b
    decreases b
  {
    if a != 1 {
      PowersAreSpaced(a / 2, b / 2);
    }
  }
}
