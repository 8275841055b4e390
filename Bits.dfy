/** Powers of two and the bitwise AND of non-negative integers, defined
    arithmetically digit by binary digit, so that masking can be related to
    the remainder operation. */
module Bits {

  /** n is 1, 2, 4, 8, ... */
  predicate IsPowerOfTwo(n: int)
    decreases if n > 0 then n else 0
  {
    n == 1 || (n > 1 && n % 2 == 0 && IsPowerOfTwo(n / 2))
  }

  /** Bitwise AND of two non-negative integers: the lowest bit of the result is
      the product of the lowest bits, the remaining bits are the AND of the
      remaining bits. */
  function BitAnd(a: nat, b: nat): (r: nat)
    ensures r <= a && r <= b
  {
    if a == 0 || b == 0 then 0
    else 2 * BitAnd(a / 2, b / 2) + (a % 2) * (b % 2)
  }

  /** Splitting off the lowest binary digit of a remainder by an even modulus. */
  lemma ModEven(a: nat, h: nat)
    requires h >= 1
    ensures a % (2 * h) == 2 * ((a / 2) % h) + a % 2
  {
    var q, s := (a / 2) / h, (a / 2) % h;
    assert a / 2 == h * q + s;
    assert a == (2 * h) * q + (2 * s + a % 2);
    assert 0 <= 2 * s + a % 2 < 2 * h;
    DivModUnique(a, 2 * h, q, 2 * s + a % 2);
  }

  /** Quotient and remainder are determined by the division equation. */
  lemma DivModUnique(a: int, d: int, q: int, s: int)
    requires d > 0 && a == d * q + s && 0 <= s < d
    ensures a / d == q && a % d == s
  {
    var q', s' := a / d, a % d;
    assert d * (q' - q) == s - s';
    if q' != q {
      MulMono(d, 1, if q' > q then q' - q else q - q');
    }
  }

  lemma MulMono(d: int, x: int, y: int)
    requires d > 0 && x <= y
    ensures d * x <= d * y
  {
    assert d * y - d * x == d * (y - x);
  }

  /** Masking with n - 1, for n a power of two, keeps the bits below n: it is
      the remainder by n. */
  lemma {:induction false} BitAndLowMask(a: nat, n: int)
    requires IsPowerOfTwo(n)
    ensures BitAnd(a, n - 1) == a % n
    decreases n
  {
    if n == 1 {
    } else if a == 0 {
    } else {
      var h := n / 2;
      BitAndLowMask(a / 2, h);
      assert (n - 1) / 2 == h - 1 && (n - 1) % 2 == 1;
      ModEven(a, h);
    }
  }

  /** A power of two divides every larger power of two. */
  lemma {:induction false} PowerOfTwoDivides(n: int, m: int)
    requires IsPowerOfTwo(n) && IsPowerOfTwo(m) && n <= m
    ensures m % n == 0
    decreases n
  {
    if n > 1 {
      PowerOfTwoDivides(n / 2, m / 2);
      var q := (m / 2) / (n / 2);
      assert m / 2 == (n / 2) * q;
      assert m == n * q;
      DivModUnique(m, n, q, 0);
    }
  }

  /** Adding a multiple of the modulus does not change the remainder. */
  lemma ModAddMultiple(x: int, n: int, k: int)
    requires n > 0
    ensures (x + n * k) % n == x % n
  {
    var q, s := x / n, x % n;
    assert x + n * k == n * (q + k) + s;
    DivModUnique(x + n * k, n, q + k, s);
  }
}
