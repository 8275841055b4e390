/** Shard selection of `RentPool` and `ReturnPool`: each increments its own
    counter and masks the new value with `poolCount - 1` to pick a sub-pool. */
module ShardSelection {
  import opened Bits
  import opened Int32
  import opened Sizing

  /** `counter & poolMask`, the index of the sub-pool that a counter value
      selects: the counter's remainder modulo the pool count, in range even
      for negative (wrapped) counters. */
  function ShardIndex(counter: int32, poolMask: int32): (i: int)
    requires IsPoolCount(poolMask as int + 1)
    ensures 0 <= i <= poolMask as int
    ensures i == counter as int % (poolMask as int + 1)
  {
    AndLowMask(counter, poolMask as int + 1);
    And(counter, poolMask) as int
  }

  /** The counter after k increments. */
  function Advance(counter: int32, k: nat): int32
  {
    if k == 0 then counter else Increment(Advance(counter, k - 1))
  }

  /** Wrapping never disturbs the remainder by a pool count, since every
      pool count divides 2^32. */
  lemma IncrementModulo(x: int32, n: int)
    requires IsPoolCount(n)
    ensures Increment(x) as int % n == (x as int + 1) % n
  {
    WrapCongruent(x as int + 1, Increment(x) as int, n);
  }

  /** k increments move the counter k steps on, modulo a pool count. */
  lemma {:induction false} AdvanceModulo(counter: int32, k: nat, poolCount: int)
    requires IsPoolCount(poolCount)
    ensures Advance(counter, k) as int % poolCount == (counter as int + k) % poolCount
  {
    if k > 0 {
      var prev := Advance(counter, k - 1);
      AdvanceModulo(counter, k - 1, poolCount);
      IncrementModulo(prev, poolCount);
      ModSumLeft(prev as int, counter as int + k - 1, 1, poolCount);
    }
  }

  /** Equal remainders stay equal after adding the same amount. */
  lemma ModSumLeft(a: int, b: int, c: int, n: int)
    requires n > 0 && a % n == b % n
    ensures (a + c) % n == (b + c) % n
  {
    var d := a / n - b / n;
    assert a == b + n * d;
    ModAddMultiple(b + c, n, d);
  }

  /** The sub-pool indices chosen by `count` consecutive selections that
      start from the counter value `counter`. */
  function Selections(counter: int32, count: nat, poolMask: int32): (s: seq<int>)
    requires IsPoolCount(poolMask as int + 1)
    ensures |s| == count
  {
    if count == 0 then []
    else Selections(counter, count - 1, poolMask) + [ShardIndex(Advance(counter, count), poolMask)]
  }

  /** The i-th selection is counter + i + 1 modulo the pool count. */
  lemma {:induction false} SelectionAt(counter: int32, count: nat, poolMask: int32, i: nat)
    requires IsPoolCount(poolMask as int + 1) && i < count
    ensures Selections(counter, count, poolMask)[i] == (counter as int + i + 1) % (poolMask as int + 1)
  {
    if i == count - 1 {
      AdvanceModulo(counter, count, poolMask as int + 1);
    } else {
      SelectionAt(counter, count - 1, poolMask, i);
    }
  }

  /** Round robin: poolCount consecutive selections, from any counter value,
      visit every sub-pool exactly once. */
  lemma RoundRobin(counter: int32, poolMask: int32)
    requires IsPoolCount(poolMask as int + 1)
    ensures var n := poolMask as int + 1;
      var s := Selections(counter, n, poolMask);
      (forall k :: 0 <= k < n ==> k in s) &&
      (forall i, j :: 0 <= i < j < n ==> s[i] != s[j])
  {
    var n := poolMask as int + 1;
    forall k | 0 <= k < n
      ensures k in Selections(counter, n, poolMask)
    {
      SelectionReaches(counter, poolMask, k);
    }
    forall i, j | 0 <= i < j < n
      ensures Selections(counter, n, poolMask)[i] != Selections(counter, n, poolMask)[j]
    {
      SelectionsDiffer(counter, poolMask, i, j);
    }
  }

  /** Sub-pool k is among the first poolCount selections. */
  lemma SelectionReaches(counter: int32, poolMask: int32, k: int)
    requires IsPoolCount(poolMask as int + 1) && 0 <= k <= poolMask as int
    ensures k in Selections(counter, poolMask as int + 1, poolMask)
  {
    var n := poolMask as int + 1;
    var c := counter as int + 1;
    var i := (k - c) % n;
    assert 0 <= i < n;
    SelectionAt(counter, n, poolMask, i);
    ShiftBack(k, c, n);
    assert counter as int + i + 1 == c + i;
    assert Selections(counter, n, poolMask)[i] == k;
  }

  /** No sub-pool is selected twice among the first poolCount selections. */
  lemma SelectionsDiffer(counter: int32, poolMask: int32, i: int, j: int)
    requires IsPoolCount(poolMask as int + 1) && 0 <= i < j <= poolMask as int
    ensures var s := Selections(counter, poolMask as int + 1, poolMask); s[i] != s[j]
  {
    var n := poolMask as int + 1;
    SelectionAt(counter, n, poolMask, i);
    SelectionAt(counter, n, poolMask, j);
    DistinctBelowModulus(counter as int + i + 1, counter as int + j + 1, n);
  }

  /** Every residue k is reached from offset c by the step (k - c) % n. */
  lemma ShiftBack(k: int, c: int, n: int)
    requires 0 <= k < n
    ensures (c + (k - c) % n) % n == k
  {
    var q, r := (k - c) / n, (k - c) % n;
    assert k - c == n * q + r;
    assert c + r == k + n * (-q);
    ModAddMultiple(k, n, -q);
    DivModUnique(k, n, 0, k);
  }

  /** Two integers less than n apart have different remainders by n. */
  lemma DistinctBelowModulus(a: int, b: int, n: int)
    requires n > 0 && a < b < a + n
    ensures a % n != b % n
  {
    if a % n == b % n {
      var d := b / n - a / n;
      assert b - a == n * d;
      if d <= 0 {
        MulMono(n, d, 0);
      } else {
        MulMono(n, 1, d);
      }
    }
  }
}
