/** Powers of two and remainders, kept apart from the modules that use them. */
module Arith {

  function Pow2(k: nat): (r: nat)
    ensures r >= 1
  {
    if k == 0 then 1 else 2 * Pow2(k - 1)
  }

  lemma {:induction false} Pow2Sum(a: nat, b: nat)
    ensures Pow2(a + b) == Pow2(a) * Pow2(b)
  {
    if a > 0 {
      Pow2Sum(a - 1, b);
      Assoc(2, Pow2(a - 1), Pow2(b));
    }
  }

  lemma Pow2Small()
    ensures Pow2(0) == 1 && Pow2(1) == 2 && Pow2(2) == 4 && Pow2(3) == 8
    ensures Pow2(4) == 16 && Pow2(5) == 32 && Pow2(6) == 64 && Pow2(7) == 128 && Pow2(8) == 256
  {
    assert Pow2(3) == 8;
    assert Pow2(5) == 32;
    assert Pow2(7) == 128;
  }

  lemma Pow2Byte(n: nat)
    requires n > 0
    ensures Pow2(8 * n) == 256 * Pow2(8 * (n - 1))
  {
    Pow2Small();
    Pow2Sum(8, 8 * (n - 1));
  }

  lemma Assoc(a: int, b: int, c: int)
    ensures (a * b) * c == a * (b * c)
  {
  }

  lemma MulAtLeast(d: int, m: int)
    requires d >= 1 && m >= 0
    ensures d * m >= m
  {
  }

  lemma Distribute(a: int, b: int, m: int)
    ensures (a - b) * m == a * m - b * m
    ensures (a + b) * m == a * m + b * m
  {
  }

  /** Quotient and remainder are determined by x == q * m + r with 0 <= r < m. */
  lemma ModUnique(x: int, m: int, q: int, r: int)
    requires 0 <= r < m && x == q * m + r
    ensures x % m == r && x / m == q
  {
    var q', r' := x / m, x % m;
    assert x == q' * m + r';
    if q > q' {
      MulAtLeast(q - q', m);
      Distribute(q, q', m);
    } else if q < q' {
      MulAtLeast(q' - q, m);
      Distribute(q', q, m);
    }
  }

  lemma SmallMod(x: nat, m: nat)
    requires x < m
    ensures x % m == x
  {
  }

  /** Splits a remainder by t * s at a low part below t. */
  lemma ModSplit(hi: nat, lo: nat, s: nat, t: nat)
    requires lo < t && s > 0
    ensures t * s > 0 && (t * hi + lo) % (t * s) == t * (hi % s) + lo
  {
    var q, r := hi / s, hi % s;
    assert hi == q * s + r;
    Distribute(q * s, r, t);
    Assoc(q, s, t);
    MulAtLeast(s - r, t);
    Distribute(s, r, t);
    MulAtLeast(s, t);
    assert 0 <= r * t;
    ModUnique(t * hi + lo, t * s, q, r * t + lo);
  }

  /** Multiples of the modulus do not change a remainder. */
  lemma ModBelow(hi: nat, lo: nat, s: nat, k: nat)
    requires s > 0
    ensures ((k * s) * hi + lo) % s == lo % s
  {
    var q, r := lo / s, lo % s;
    assert lo == q * s + r;
    Assoc(hi, k, s);
    Distribute(hi * k, q, s);
    ModUnique((k * s) * hi + lo, s, hi * k + q, r);
  }

  /** A remainder by 2 * s, one bit at a time. */
  lemma ModHalf(x: nat, s: nat)
    requires s > 0
    ensures x % (2 * s) == 2 * ((x / 2) % s) + x % 2
  {
    ModSplit(x / 2, x % 2, s, 2);
  }

  /** Rounding down to a multiple of size is the same for x and y exactly when y is in x's block. */
  lemma SameBlock(x: nat, y: nat, size: nat)
    requires size > 0
    ensures y - y % size == x - x % size <==> x - x % size <= y < x - x % size + size
  {
    var q := x / size;
    assert x - x % size == q * size;
    if q * size <= y < q * size + size {
      ModUnique(y, size, q, y - q * size);
    }
  }

  /** Rounding down to a multiple of s leaves a multiple of s. */
  lemma RoundDown(x: nat, s: nat)
    requires s > 0
    ensures x % s <= x && (x - x % s) % s == 0
  {
    var q := x / s;
    assert x - x % s == q * s;
    ModUnique(x - x % s, s, q, 0);
  }

  /** A value below k * s, rounded down to a multiple of s, leaves room for s more. */
  lemma RoundDownRoom(x: nat, s: nat, k: nat)
    requires s > 0 && x < k * s
    ensures x - x % s + s <= k * s
  {
    var q := x / s;
    assert x - x % s == q * s;
    if q >= k {
      MulAtLeast(q - k + 1, s);
      Distribute(q + 1, k, s);
      Distribute(q, 1, s);
    } else {
      MulAtLeast(k - q, s);
      Distribute(k, q, s);
    }
  }
}
