/** The C# `int` type: 32-bit two's complement, with the wrap-around of
    `Interlocked.Increment` and the bitwise `&` operator written out. */
module Int32 {
  import opened Bits

  const MIN: int := -0x8000_0000
  const MAX: int := 0x7fff_ffff
  /** 2^32, the number of distinct `int` values. */
  const MODULUS: int := 0x1_0000_0000

  newtype int32 = x: int | -0x8000_0000 <= x < 0x8000_0000

  /** `Interlocked.Increment`: adds one, wrapping from `int.MaxValue` to
      `int.MinValue`. The result is the only `int` congruent to x + 1
      modulo 2^32. */
  function Increment(x: int32): (r: int32)
    ensures (r as int - x as int - 1) % MODULUS == 0
    ensures x as int < MAX ==> r as int == x as int + 1
  {
    if x == 0x7fff_ffff then -0x8000_0000 else x + 1
  }

  /** The 32-bit pattern of x read as an unsigned number. */
  function ToBits(x: int32): (u: nat)
    ensures u < MODULUS && (u - x as int) % MODULUS == 0
  {
    if x < 0 then x as int + MODULUS else x as int
  }

  /** The `int` whose 32-bit pattern is u. */
  function FromBits(u: nat): (x: int32)
    requires u < MODULUS
    ensures ToBits(x) == u
  {
    if u <= MAX then u as int32 else (u - MODULUS) as int32
  }

  /** The C# `&` operator on two `int` values. Masking with a non-negative
      value keeps only bits of that value, so the result lies between 0 and
      it; the same holds for a non-negative left operand. */
  function And(x: int32, y: int32): (r: int32)
    ensures 0 <= y ==> 0 <= r <= y
    ensures 0 <= x ==> 0 <= r <= x
  {
    FromBits(BitAnd(ToBits(x), ToBits(y)))
  }

  /** Masking with n - 1, n a power of two no larger than 256, gives the
      Euclidean remainder of x by n: a value in [0, n) even when x is
      negative. */
  lemma AndLowMask(x: int32, n: int)
    requires IsPowerOfTwo(n) && n <= 256
    ensures And(x, (n - 1) as int32) as int == x as int % n
    ensures 0 <= And(x, (n - 1) as int32) as int < n
  {
    var u := ToBits(x);
    var m := ToBits((n - 1) as int32);
    assert m == n - 1;
    BitAndLowMask(u, n);
    var b := BitAnd(u, m);
    assert b == u % n;
    assert And(x, (n - 1) as int32) == FromBits(b);
    assert FromBits(b) as int == b;
    WrapCongruent(u, x as int, n);
  }

  /** Every power of two up to 256 divides 2^32. */
  lemma ModulusMultipleOf(n: int)
    requires IsPowerOfTwo(n) && n <= 256
    ensures n > 0 && MODULUS % n == 0
  {
    assert IsPowerOfTwo(256);
    PowerOfTwoDivides(n, 256);
    var j := 256 / n;
    assert 256 == n * j;
    assert MODULUS == (n * j) * 0x100_0000;
    assert MODULUS == n * (j * 0x100_0000);
    DivModUnique(MODULUS, n, j * 0x100_0000, 0);
  }

  /** Values that differ by 0 or 2^32 (the same 32-bit pattern) have the same
      remainder by any power of two up to 256. */
  lemma WrapCongruent(a: int, b: int, n: int)
    requires IsPowerOfTwo(n) && n <= 256
    requires a == b || a == b + MODULUS
    ensures a % n == b % n
  {
    ModulusMultipleOf(n);
    var j := MODULUS / n;
    assert MODULUS == n * j;
    ModAddMultiple(b, n, if a == b then 0 else j);
  }
}
