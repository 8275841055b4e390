/** `PooledHttpContextFactory`: hands out request contexts, recycling them
    through a fixed, power-of-two number of bounded sub-pools. Rents and
    returns each pick a sub-pool round robin with a counter of their own; a
    budget of 0 pooled contexts bypasses the sub-pools altogether. */
module Factory {
  import opened Wrappers
  import opened Int32
  import opened Sizing
  import opened ShardSelection
  import opened NumberParsing
  import opened Components

  /** `ArgumentOutOfRangeException`, naming the offending parameter. */
  datatype FactoryError = ArgumentOutOfRange(paramName: string)

  /** `GetPooledCount`: the pool budget configured under
      "hosting.maxPooledContexts" (None when the key is absent, C#'s null).
      Absent, empty, unparseable and out-of-range text gives 0, and so does
      a negative number; a positive number is taken as it is. */
  function GetPooledCount(countString: Option<string>): (r: int32)
    ensures 0 <= r
    ensures countString == None || countString == Some("") ==> r == 0
    ensures r != 0 ==> countString.Some? && ParseInt32(countString.value) == Some(r)
    ensures countString.Some? && countString.value != [] ==>
      match ParseInt32(countString.value)
      case Some(n) => r == if n > 0 then n else 0
      case None => r == 0
  {
    if countString == None || countString.value == "" then 0
    else
      match ParseInt32(countString.value)
      case Some(count) => if count > 0 then count else 0
      case None => 0
  }

  /** A configured budget written in decimal, with any surrounding white
      space, is read back as itself when positive and as 0 otherwise. */
  lemma GetPooledCountOfNumeral(n: int32, before: string, after: string)
    requires AllWhite(before) && AllWhite(after)
    ensures GetPooledCount(Some(before + Format(n) + after)) == if n > 0 then n else 0
  {
    ParseFormat(n, before, after);
  }

  /** A budget above int.MaxValue does not wrap around: it disables pooling. */
  lemma GetPooledCountOfOverflow(before: string, sign: string, ds: string, after: string)
    requires AllWhite(before) && AllWhite(after) && (sign == "" || sign == "+")
    requires ds != [] && AllDigits(ds) && DigitsValue(ds) > MAX
    ensures GetPooledCount(Some(before + sign + ds + after)) == 0
  {
    ParseRejectsOverflow(before, sign, ds, after);
  }

  /** Text without a digit disables pooling. */
  lemma GetPooledCountOfGarbage(s: string)
    requires forall i :: 0 <= i < |s| ==> !IsDigit(s[i])
    ensures GetPooledCount(Some(s)) == 0
  {
  }

  class PooledHttpContextFactory {
    /** `_poolCount`, fixed from the processor count. */
    const poolCount: int
    /** `_poolMask`. */
    const poolMask: int32
    /** The values held by the padded `_rentPoolIndex` and `_returnPoolIndex`. */
    var rentPoolIndex: int32
    var returnPoolIndex: int32
    /** `_pools`; its entries stay null until a positive budget is set. */
    var pools: array<ComponentPool?>
    /** `_maxPooled` and `_maxPerPool`. */
    var maxPooled: int32
    var maxPerPool: int32

    /** The sub-pools currently installed: exactly those in the non-null
        slots of `pools`. */
    ghost var Shards: set<ComponentPool>

    /** The contexts currently held by the installed sub-pools. */
    ghost function Pooled(): set<HttpContext>
      reads this`Shards, Shards
    {
      set p, c | p in Shards && c in p.Items :: c
    }

    /** The shape of the factory, apart from what the sub-pools hold: the
        pool count is a power of two between 2 and 256 and the mask is one
        less; `Shards` is exactly the set of installed sub-pools, no two
        slots sharing one; the per-pool capacity is the budget's share; and
        whenever pooling is on, every slot holds a sub-pool of that
        capacity. */
    ghost predicate Layout()
      reads this`pools, this`Shards, this`maxPooled, this`maxPerPool, pools
    {
      && IsPoolCount(poolCount)
      && poolMask as int == poolCount - 1
      && pools.Length == poolCount
      && (forall i :: 0 <= i < pools.Length && pools[i] != null ==> pools[i] in Shards)
      && (forall p :: p in Shards ==> p in pools[..])
      && (forall i, j :: 0 <= i < j < pools.Length && pools[i] != null ==> pools[i] != pools[j])
      && 0 <= maxPooled
      && maxPerPool as int == PerPoolCapacity(maxPooled as int, poolCount)
      && (maxPooled > 0 ==>
            forall i :: 0 <= i < pools.Length ==>
              pools[i] != null && pools[i].Capacity == maxPerPool as int)
    }

    /** The layout holds and every installed sub-pool, whatever the
        budget, keeps its own bound. */
    ghost predicate Valid()
      reads this, pools, Shards
    {
      && Layout()
      && (forall i :: 0 <= i < pools.Length && pools[i] != null ==> pools[i].Valid())
    }

    /** The constructor: the pool count comes from the processor count, the
        array starts with null slots, and the configured budget is set
        through `MaxPooled`, which cannot fail because GetPooledCount is
        never negative. */
    constructor (processorCount: int, maxPooledContexts: Option<string>)
      ensures Valid() && fresh(pools) && fresh(Shards) && Pooled() == {}
      ensures poolCount == CalculatePoolCount(processorCount)
      ensures rentPoolIndex == 0 && returnPoolIndex == 0
      ensures maxPooled == GetPooledCount(maxPooledContexts)
      ensures maxPooled == 0 ==> forall i :: 0 <= i < pools.Length ==> pools[i] == null
      ensures maxPooled > 0 ==> forall i :: 0 <= i < pools.Length ==> pools[i] != null && pools[i].Items == multiset{}
      ensures forall i, j :: 0 <= i < j < pools.Length && pools[i] != null ==> pools[i] != pools[j]
    {
      poolCount := CalculatePoolCount(processorCount);
      poolMask := (CalculatePoolCount(processorCount) - 1) as int32;
      rentPoolIndex, returnPoolIndex := 0, 0;
      pools := new ComponentPool?[CalculatePoolCount(processorCount)](_ => null);
      maxPooled, maxPerPool := 0, 0;
      Shards := {};
      new;
      var outcome := SetMaxPooled(GetPooledCount(maxPooledContexts));
      assert outcome == Pass;
    }

    /** The `MaxPooled` setter. A negative budget is refused and changes
        nothing; the current budget changes nothing; any other budget
        installs a fresh array of empty sub-pools sized by PerPoolCapacity.
        The counters are never touched. */
    method SetMaxPooled(value: int32) returns (outcome: Outcome<FactoryError>)
      requires Valid()
      modifies this
      ensures Valid()
      ensures rentPoolIndex == old(rentPoolIndex) && returnPoolIndex == old(returnPoolIndex)
      ensures value < 0 ==> outcome == Fail(ArgumentOutOfRange("MaxPooled")) && unchanged(this)
      ensures value == old(maxPooled) ==> outcome == Pass && unchanged(this)
      ensures 0 <= value && value != old(maxPooled) ==>
        && outcome == Pass
        && maxPooled == value
        && maxPerPool as int == PerPoolCapacity(value as int, poolCount)
        && fresh(pools) && pools.Length == poolCount && fresh(Shards)
        && (forall i :: 0 <= i < poolCount ==>
              pools[i] != null && fresh(pools[i]) &&
              pools[i].Capacity == maxPerPool as int && pools[i].Items == multiset{})
        && (forall i, j :: 0 <= i < j < poolCount ==> pools[i] != pools[j])
    {
      if value < 0 {
        return Fail(ArgumentOutOfRange("MaxPooled"));
      }
      if value != maxPooled {
        var perPool := PerPoolCapacity(value as int, poolCount);
        pools := CreatePools(poolCount, perPool);
        Shards := set i | 0 <= i < pools.Length :: pools[i];
        maxPooled := value;
        maxPerPool := perPool as int32;
      }
      return Pass;
    }

    /** `CreatePools`: a new array whose every slot holds its own new, empty
        sub-pool of the given capacity. */
    static method CreatePools(poolCount: int, maxPerPool: int) returns (pools: array<ComponentPool?>)
      requires 0 <= poolCount && 0 <= maxPerPool
      ensures fresh(pools) && pools.Length == poolCount
      ensures forall i :: 0 <= i < poolCount ==>
        pools[i] != null && fresh(pools[i]) && pools[i].Valid() &&
        pools[i].Capacity == maxPerPool && pools[i].Items == multiset{}
      ensures forall i, j :: 0 <= i < j < poolCount ==> pools[i] != pools[j]
    {
      pools := new ComponentPool?[poolCount];
      for i := 0 to poolCount
        invariant forall k :: 0 <= k < i ==>
          pools[k] != null && fresh(pools[k]) && pools[k].Valid() &&
          pools[k].Capacity == maxPerPool && pools[k].Items == multiset{}
        invariant forall k, l :: 0 <= k < l < i ==> pools[k] != pools[l]
      {
        pools[i] := new ComponentPool(maxPerPool);
      }
    }

    /** `RentPool`: advances the rent counter and selects the sub-pool at the
        new counter value modulo the pool count. */
    method RentPool() returns (pool: ComponentPool?)
      requires Valid()
      modifies this`rentPoolIndex
      ensures Valid()
      ensures rentPoolIndex == Increment(old(rentPoolIndex))
      ensures pool == pools[rentPoolIndex as int % poolCount]
    {
      rentPoolIndex := Increment(rentPoolIndex);
      pool := pools[ShardIndex(rentPoolIndex, poolMask)];
    }

    /** `ReturnPool`: the same selection with the return counter. */
    method ReturnPool() returns (pool: ComponentPool?)
      requires Valid()
      modifies this`returnPoolIndex
      ensures Valid()
      ensures returnPoolIndex == Increment(old(returnPoolIndex))
      ensures pool == pools[returnPoolIndex as int % poolCount]
    {
      returnPoolIndex := Increment(returnPoolIndex);
      pool := pools[ShardIndex(returnPoolIndex, poolMask)];
    }

    /** `RentPool.TryRent(out httpContext)`: advances the rent counter and
        takes a context out of the selected sub-pool, failing exactly when
        that sub-pool is empty. */
    method TryRentFromPool() returns (ok: bool, rented: HttpContext?)
      requires Valid() && maxPooled > 0
      modifies this`rentPoolIndex, Shards
      ensures Valid() && Pooled() <= old(Pooled())
      ensures rentPoolIndex == Increment(old(rentPoolIndex))
      ensures var pool := pools[rentPoolIndex as int % poolCount];
        && pool != null
        && ok == (old(pool.Items) != multiset{})
        && (ok ==> rented != null && rented.IsPooled && rented in old(pool.Items) && rented in old(Pooled()) &&
                   pool.Items == old(pool.Items) - multiset{rented})
        && (!ok ==> pool.Items == old(pool.Items))
        && (forall p :: p in old(Shards) && p != pool ==> p.Items == old(p.Items))
    {
      var pool := RentPool();
      assert pool != null && pool in old(Shards);
      ok, rented := pool.TryRent();
      assert pool == pools[rentPoolIndex as int % poolCount];
      if ok {
        assert rented in old(Pooled()) by {
          assert rented in old(pool.Items);
        }
      }
      assert forall i :: 0 <= i < pools.Length && pools[i] != pool ==> pools[i].Valid();
      forall c | c in Pooled()
        ensures c in old(Pooled())
      {
        var p :| p in Shards && c in p.Items;
        assert c in old(p.Items);
      }
    }

    /** `Create`: with pooling off, a new context and nothing else changes.
        With pooling on, the rent counter advances and the selected sub-pool
        gives up a context, which is re-initialised with the features, or,
        when that sub-pool is empty, a new context is made. */
    method Create(features: FeatureCollection) returns (context: HttpContext)
      requires Valid()
      modifies this, Shards, Pooled()
      ensures Valid()
      ensures pools == old(pools) && maxPooled == old(maxPooled) && maxPerPool == old(maxPerPool)
      ensures returnPoolIndex == old(returnPoolIndex) && Shards == old(Shards)
      ensures Pooled() <= old(Pooled())
      ensures context.IsPooled && context.Features == Some(features)
      ensures forall c :: c in old(Pooled()) && c != context ==> c.Features == old(c.Features)
      ensures maxPooled == 0 ==>
        && fresh(context)
        && rentPoolIndex == old(rentPoolIndex)
        && (forall p :: p in old(Shards) ==> p.Items == old(p.Items))
      ensures maxPooled > 0 ==>
        && rentPoolIndex == Increment(old(rentPoolIndex))
        && var pool := pools[rentPoolIndex as int % poolCount];
        && pool != null
        && (old(pool.Items) == multiset{} ==> fresh(context) && pool.Items == multiset{})
        && (old(pool.Items) != multiset{} ==>
              context in old(pool.Items) && pool.Items == old(pool.Items) - multiset{context})
        && (forall p :: p in old(Shards) && p != pool ==> p.Items == old(p.Items))
    {
      if maxPooled == 0 {
        context := new HttpContext(features);
      } else {
        context := RentOrConstruct(features);
      }
    }

    /** The pooling-on path of `Create`: rent from the selected sub-pool and
        re-initialise what it gives up, or make a new context when it is
        empty. */
    method RentOrConstruct(features: FeatureCollection) returns (context: HttpContext)
      requires Valid() && maxPooled > 0
      modifies this`rentPoolIndex, Shards, Pooled()`Features
      ensures Valid()
      ensures Shards == old(Shards) && Pooled() <= old(Pooled())
      ensures context.IsPooled && context.Features == Some(features)
      ensures forall c :: c in old(Pooled()) && c != context ==> c.Features == old(c.Features)
      ensures rentPoolIndex == Increment(old(rentPoolIndex))
      ensures var pool := pools[rentPoolIndex as int % poolCount];
        && pool != null
        && (old(pool.Items) == multiset{} ==> fresh(context) && pool.Items == multiset{})
        && (old(pool.Items) != multiset{} ==>
              context in old(pool.Items) && pool.Items == old(pool.Items) - multiset{context})
        && (forall p :: p in old(Shards) && p != pool ==> p.Items == old(p.Items))
    {
      var ok, rented := TryRentFromPool();
      ghost var pool := pools[rentPoolIndex as int % poolCount];
      if ok {
        rented.Initialize(features);
        context := rented;
      } else {
        context := new HttpContext(features);
      }
      assert pool == pools[rentPoolIndex as int % poolCount];
    }

    /** `Dispose`: with pooling off, or for a null context or one that is
        not a pooled one, nothing at all happens. Otherwise the context is uninitialised,
        the return counter advances, and the selected sub-pool keeps the
        context if it has room. */
    method Dispose(context: HttpContext?)
      requires Valid()
      modifies this, Shards, context
      ensures Valid()
      ensures pools == old(pools) && maxPooled == old(maxPooled) && maxPerPool == old(maxPerPool)
      ensures rentPoolIndex == old(rentPoolIndex) && Shards == old(Shards)
      ensures context == null ==> Pooled() <= old(Pooled())
      ensures context != null ==> Pooled() <= old(Pooled()) + {context}
      ensures maxPooled == 0 || context == null || !context.IsPooled ==>
        && unchanged(this)
        && (context != null ==> unchanged(context))
        && (forall p :: p in old(Shards) ==> p.Items == old(p.Items))
      ensures maxPooled > 0 && context != null && context.IsPooled ==>
        && context.Features == None
        && returnPoolIndex == Increment(old(returnPoolIndex))
        && var pool := pools[returnPoolIndex as int % poolCount];
        && pool != null
        && pool.Items == (if |old(pool.Items)| < maxPerPool as int
                          then old(pool.Items) + multiset{context} else old(pool.Items))
        && (forall p :: p in old(Shards) && p != pool ==> p.Items == old(p.Items))
    {
      if maxPooled > 0 {
        if context != null && context.IsPooled {
          context.Uninitialize();
          var pool := ReturnPool();
          pool.Return(context);
          forall c | c in Pooled()
            ensures c in old(Pooled()) + {context}
          {
            var p :| p in Shards && c in p.Items;
            assert c in old(p.Items) || c == context;
          }
        }
      }
    }
  }
}
