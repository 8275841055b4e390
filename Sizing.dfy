/** The sizing policy of the context pool: how many sub-pools a machine gets
    (`CalculatePoolCount`) and how a total budget is split across them (the
    `MaxPooled` setter). */
module Sizing {
  import opened Bits

  /** The pool counts the policy can produce: 2, 4, 8, ..., 256. */
  predicate IsPoolCount(n: int)
  {
    IsPowerOfTwo(n) && 2 <= n <= 256
  }

  /** `CalculatePoolCount`, with `Environment.ProcessorCount` passed in.
      The result is the smallest power of two that is at least twice the
      processor count, capped at 256 (and 2 when there is at most one
      processor). */
  function CalculatePoolCount(processors: int): (r: int)
    ensures IsPoolCount(r)
    ensures r == 256 || 2 * processors <= r
    ensures r == 2 || r < 4 * processors
  {
    if processors > 64 then 256
    else if processors > 32 then 128
    else if processors > 16 then 64
    else if processors > 8 then 32
    else if processors > 4 then 16
    else if processors > 2 then 8
    else if processors > 1 then 4
    else 2
  }

  /** The powers of two up to 256, listed. */
  lemma {:induction false} PowersOfTwoUpTo256(n: int)
    requires IsPowerOfTwo(n) && n <= 256
    ensures n in {1, 2, 4, 8, 16, 32, 64, 128, 256}
    decreases n
  {
    if n > 1 {
      PowersOfTwoUpTo256(n / 2);
    }
  }

  /** The three postconditions of CalculatePoolCount determine its result:
      any pool count meeting them is the one the policy picks. */
  lemma PoolCountDetermined(processors: int, n: int)
    requires IsPoolCount(n)
    requires n == 256 || 2 * processors <= n
    requires n == 2 || n < 4 * processors
    ensures n == CalculatePoolCount(processors)
  {
    PowersOfTwoUpTo256(n);
  }

  /** More processors never mean fewer pools. */
  lemma PoolCountMonotonic(p: int, q: int)
    requires p <= q
    ensures CalculatePoolCount(p) <= CalculatePoolCount(q)
  {
  }

  /** Sample machine sizes. */
  lemma PoolCountExamples()
    ensures CalculatePoolCount(0) == 2 && CalculatePoolCount(1) == 2
    ensures CalculatePoolCount(5) == 16 && CalculatePoolCount(8) == 16
    ensures CalculatePoolCount(64) == 128 && CalculatePoolCount(65) == 256
    ensures CalculatePoolCount(100) == 256
  {
  }

  /** The per-pool capacity the `MaxPooled` setter computes for a budget of
      `value` contexts: `Math.Ceiling(value / (double)poolCount)`, raised to 1
      when that is 0 for a positive budget. It is the ceiling of
      value / poolCount: the least capacity whose poolCount pools hold the
      whole budget. */
  function PerPoolCapacity(value: int, poolCount: int): (r: int)
    requires value >= 0 && poolCount >= 1
    ensures 0 <= r <= value
    ensures r == 0 <==> value == 0
    ensures value <= r * poolCount
    ensures (r - 1) * poolCount < value
  {
    var ceiling := CeilingDiv(value, poolCount);
    if ceiling == 0 && value > 0 then 1 else ceiling
  }

  /** Integer ceiling of value / d. */
  function CeilingDiv(value: int, d: int): (c: int)
    requires value >= 0 && d >= 1
    ensures 0 <= c <= value
    ensures value <= c * d && (c - 1) * d < value
  {
    CeilingDivBounds(value, d);
    (value + d - 1) / d
  }

  lemma CeilingDivBounds(value: int, d: int)
    requires value >= 0 && d >= 1
    ensures var c := (value + d - 1) / d;
      0 <= c <= value && value <= c * d && (c - 1) * d < value
  {
    var c, s := (value + d - 1) / d, (value + d - 1) % d;
    assert value + d - 1 == d * c + s && 0 <= s < d;
    assert (c - 1) * d == d * c - d;
    assert c >= 0;
    if value > 0 && c > value {
      MulMono(value, 1, d);
      MulMono(d, value, c - 1);
    }
  }

  /** The raise-to-1 branch of the setter never fires: the ceiling of a
      positive budget is already at least 1. */
  lemma FloorOfOneRedundant(value: int, poolCount: int)
    requires value > 0 && poolCount >= 1
    ensures CeilingDiv(value, poolCount) >= 1
  {
  }
}
