# Pooled HTTP context factory, modelled in Dafny

This project models `PooledHttpContextFactory`, the `IHttpContextFactory` of the
PooledKestrel test application. It recycles per-request `HttpContext` objects
through a fixed, power-of-two number of bounded sub-pools (`ComponentPool`s):

- **Sizing.** The pool count follows from the processor count
  (`CalculatePoolCount`). The per-pool capacity is the ceiling of the budget
  divided by the pool count, raised to 1 for a positive budget (the `MaxPooled`
  setter).
- **Configuration.** `GetPooledCount` turns the "hosting.maxPooledContexts"
  setting into a budget: 0 unless it is a positive 32-bit decimal numeral.
- **Shard selection.** `RentPool` and `ReturnPool` each increment their own
  32-bit counter, which wraps around, and mask the new value with
  `poolCount - 1`.
- **Factory.** The `MaxPooled` setter rejects negative budgets, does nothing
  for the current budget, and otherwise installs a new array of empty
  sub-pools (`CreatePools`). `Create` and `Dispose` bypass the sub-pools when
  the budget is 0. Otherwise `Create` rents, falling back to a new context,
  and `Dispose` uninitialises and returns `PooledHttpContext` instances only.

Modules, one per file:

- `Wrappers`: `Option` and `Outcome`.
- `Bits`: powers of two, and bitwise AND on naturals defined bit by bit.
- `Int32`: the C# `int`, with `Interlocked.Increment`'s wrap-around and the
  two's-complement `&`.
- `Sizing`: the pool count and the per-pool capacity.
- `ShardSelection`: the masked index and round-robin coverage.
- `NumberParsing`: `int.TryParse` with `NumberStyles.Integer` and the
  invariant culture, together with its inverse, the decimal rendering.
- `Components`: the two collaborators, modelled at their interface.
  `HttpContext` covers `PooledHttpContext` through an `IsPooled` flag.
  `ComponentPool` is a bounded bag.
- `Factory`: `GetPooledCount` and the class `PooledHttpContextFactory`.

The factory is a class whose methods update its fields in place:

- `pools` is an `array`. Its slots are null until a positive budget is set.
- A ghost footprint `Shards` holds exactly the installed sub-pools, and
  `Pooled()` holds the contexts they keep.
- `Valid()` is the invariant every method keeps. Its `Layout()` part says
  that `Shards` is exactly the set of sub-pools in the slots, that no two
  slots share a sub-pool, and that whenever the budget is positive every slot
  holds a sub-pool whose capacity is the per-pool capacity. The rest says
  that every installed sub-pool keeps its own bound at any budget, including
  the capacity-0 sub-pools installed when the budget is set to zero.

The C# exception becomes an `Outcome` result.

Two details of the code shape the model:

- The counters are 32-bit `int`s that wrap to negative values. The mask
  still lands in range because `&` with `poolCount - 1` is the Euclidean
  remainder (`Int32.AndLowMask`).
- A negative budget is representable and raises an error that changes
  nothing (`SetMaxPooled`).

## Model

| member | source | states |
|---|---|---|
| Sizing.CalculatePoolCount | testapp/PooledKestrel/PooledHttpContextFactory.cs:133-145 | the pool count is a power of two from 2 to 256; it is at least twice the processor count unless it is 256, and below four times the processor count unless it is 2 |
| Sizing.PoolCountDetermined | testapp/PooledKestrel/PooledHttpContextFactory.cs:133-145 | those three properties single out the threshold table's answer: any n satisfying them is CalculatePoolCount(processors) |
| Sizing.PoolCountMonotonic | testapp/PooledKestrel/PooledHttpContextFactory.cs:133-145 | more processors never give fewer pools |
| Sizing.PoolCountExamples | testapp/PooledKestrel/PooledHttpContextFactory.cs:137-144 | 0 or 1 processors give 2 pools, 5 and 8 give 16, 64 gives 128, 65 and 100 give 256 |
| Sizing.PerPoolCapacity | testapp/PooledKestrel/PooledHttpContextFactory.cs:35-39 | the per-pool capacity is the least c with budget <= c * poolCount; it is 0 exactly when the budget is 0, and never more than the budget |
| Sizing.CeilingDiv | testapp/PooledKestrel/PooledHttpContextFactory.cs:35 | `Math.Ceiling(value / (double)poolCount)` as integer arithmetic: c * d covers the value and (c - 1) * d falls short of it |
| Sizing.FloorOfOneRedundant | testapp/PooledKestrel/PooledHttpContextFactory.cs:36-39 | the ceiling of a positive budget is already at least 1, so the raise-to-1 branch never changes the result |
| Bits.BitAndLowMask | testapp/PooledKestrel/PooledHttpContextFactory.cs:109 | for a power of two n, a & (n - 1) on naturals is a % n |
| Int32.Increment | testapp/PooledKestrel/PooledHttpContextFactory.cs:109 | `Interlocked.Increment` gives the int congruent to x + 1 modulo 2^32, which is x + 1 below int.MaxValue |
| Int32.And | testapp/PooledKestrel/PooledHttpContextFactory.cs:109 | the C# `&` on two ints, through their 32-bit patterns: with a non-negative operand the result lies between 0 and that operand |
| Int32.AndLowMask | testapp/PooledKestrel/PooledHttpContextFactory.cs:109 | masking an int, negative or not, with poolCount - 1 gives its Euclidean remainder by poolCount, in [0, poolCount) |
| ShardSelection.ShardIndex | testapp/PooledKestrel/PooledHttpContextFactory.cs:109-118 | the selected slot is in [0, poolCount) and equals the counter modulo poolCount |
| ShardSelection.IncrementModulo | testapp/PooledKestrel/PooledHttpContextFactory.cs:109-118 | wrapping from int.MaxValue to int.MinValue does not disturb the counter modulo poolCount |
| ShardSelection.AdvanceModulo | testapp/PooledKestrel/PooledHttpContextFactory.cs:109-118 | after k increments the counter modulo poolCount is (start + k) modulo poolCount, across any number of wrap-arounds |
| ShardSelection.SelectionAt | testapp/PooledKestrel/PooledHttpContextFactory.cs:109-118 | the i-th of consecutive selections picks slot (start + i + 1) modulo poolCount |
| ShardSelection.RoundRobin | testapp/PooledKestrel/PooledHttpContextFactory.cs:109-118 | poolCount consecutive selections from any counter value visit every sub-pool exactly once |
| NumberParsing.ParseFormat | testapp/PooledKestrel/PooledHttpContextFactory.cs:96 | parsing the decimal rendering of any int, with any surrounding white space, gives that int back |
| NumberParsing.ParseRejectsOverflow | testapp/PooledKestrel/PooledHttpContextFactory.cs:96 | a numeral above int.MaxValue, unsigned or with a plus sign and with any surrounding white space, fails to parse instead of wrapping |
| NumberParsing.ParseInt32 | testapp/PooledKestrel/PooledHttpContextFactory.cs:96 | `int.TryParse` with `NumberStyles.Integer`: a successful parse needs a decimal digit in the text, and a negative result needs a minus sign in it |
| Factory.GetPooledCount | testapp/PooledKestrel/PooledHttpContextFactory.cs:88-102 | the budget is never negative. A missing or empty setting gives 0, a failed parse gives 0, and a parsed value gives itself when positive and 0 otherwise. A nonzero budget is always the parse of the setting |
| Factory.GetPooledCountOfNumeral | testapp/PooledKestrel/PooledHttpContextFactory.cs:88-102 | a setting holding a decimal int, with any surrounding white space, gives that int when positive and 0 otherwise |
| Factory.GetPooledCountOfOverflow | testapp/PooledKestrel/PooledHttpContextFactory.cs:96-101 | a setting holding a numeral above int.MaxValue, unsigned or with a plus sign and with any surrounding white space, disables pooling |
| Factory.GetPooledCountOfGarbage | testapp/PooledKestrel/PooledHttpContextFactory.cs:96-101 | a setting with no digits disables pooling |
| Factory.PooledHttpContextFactory.constructor | testapp/PooledKestrel/PooledHttpContextFactory.cs:49-52 | both counters start at 0, no context is pooled yet, and the budget is GetPooledCount of the setting, which the setter always accepts. A zero budget leaves every slot null; a positive one installs empty sub-pools in every slot, no two of them the same |
| Factory.PooledHttpContextFactory.SetMaxPooled | testapp/PooledKestrel/PooledHttpContextFactory.cs:30-46 | a negative value fails with ArgumentOutOfRange("MaxPooled") and changes nothing. The current value changes nothing. Any other value sets the budget and the PerPoolCapacity share, and installs a fresh array of fresh, pairwise distinct, empty sub-pools of that capacity. The counters are never touched, and Valid() is kept |
| Factory.PooledHttpContextFactory.CreatePools | testapp/PooledKestrel/PooledHttpContextFactory.cs:122-131 | a fresh array of length poolCount; each slot holds its own fresh, empty sub-pool of the given capacity, and no two slots share one |
| Factory.PooledHttpContextFactory.RentPool | testapp/PooledKestrel/PooledHttpContextFactory.cs:104-111 | only the rent counter changes: it is incremented with wrap-around, and the selected sub-pool is the slot at the new counter modulo poolCount |
| Factory.PooledHttpContextFactory.ReturnPool | testapp/PooledKestrel/PooledHttpContextFactory.cs:113-120 | the same with the return counter alone |
| Factory.PooledHttpContextFactory.TryRentFromPool | testapp/PooledKestrel/PooledHttpContextFactory.cs:63 | advances the rent counter, then takes one context out of the selected sub-pool. It fails exactly when that sub-pool is empty, every other sub-pool is unchanged, and no context joins the pooled set |
| Factory.PooledHttpContextFactory.Create | testapp/PooledKestrel/PooledHttpContextFactory.cs:54-73 | the result is a pooled context initialised with the features. With a zero budget it is new, and neither the counters nor any sub-pool change. Otherwise the rent counter advances: a non-empty selected sub-pool gives up one of its own contexts, and an empty one leads to a new context. The return counter, the configuration and every other pooled context are unchanged |
| Factory.PooledHttpContextFactory.RentOrConstruct | testapp/PooledKestrel/PooledHttpContextFactory.cs:61-72 | the pooling-on path of Create: the rent counter advances; a non-empty selected sub-pool gives up one of its own contexts, re-initialised with the features, and an empty one leads to a new context; every other sub-pool and pooled context is unchanged |
| Factory.PooledHttpContextFactory.Dispose | testapp/PooledKestrel/PooledHttpContextFactory.cs:75-86 | with a zero budget, or for a null context or one that is not a PooledHttpContext, neither the factory nor the context changes. Otherwise the context is uninitialised and the return counter advances. The selected sub-pool keeps the context if it is below capacity; no other sub-pool and not the rent counter changes |
| Components.ComponentPool.constructor | testapp/PooledKestrel/PooledHttpContextFactory.cs:127 | a new sub-pool is empty and has the given capacity |
| Components.ComponentPool.TryRent | testapp/PooledKestrel/PooledHttpContextFactory.cs:63 | succeeds exactly when the bag is non-empty, and then removes and returns one of its contexts; only the bag's contents change |
| Components.ComponentPool.Return | testapp/PooledKestrel/PooledHttpContextFactory.cs:83 | adds the context while below capacity, and otherwise discards it; the count never exceeds the capacity |
| Components.HttpContext.constructor | testapp/PooledKestrel/PooledHttpContextFactory.cs:58 | `new PooledHttpContext(features)` is a pooled context initialised with the features |
| Components.HttpContext.Foreign | testapp/PooledKestrel/PooledHttpContextFactory.cs:79-80 | a context of another implementation, which the `as PooledHttpContext` test rejects |
| Components.HttpContext.Initialize | testapp/PooledKestrel/PooledHttpContextFactory.cs:65 | the context now carries the new features, and nothing but its features changes |
| Components.HttpContext.Uninitialize | testapp/PooledKestrel/PooledHttpContextFactory.cs:82 | the context no longer carries any features, and nothing but its features changes |

## Left out

- testapp/PooledKestrel/Startup.cs is not part of this model. It covers dependency-injection registration, host construction, configuration loading and the response write, which are framework wiring and I/O.
- Concurrency: `Interlocked.Increment`, `Interlocked.Exchange` and `Volatile.Read` are modelled as plain sequential reads and writes. Races between a resize and in-flight rents and returns are not modelled.
- `CacheLinePadded<int>`: only the integer it holds is modelled, not the padding against false sharing.
- `Environment.ProcessorCount` is a constructor parameter. In the source `_poolCount` is a static field shared by all instances; here it is a constant of each instance.
- Sizing.CeilingDiv: `Math.Ceiling` on a `double` is modelled as the integer ceiling. The division is exact in `double` because the divisor is a power of two no larger than 256 and the budget is below 2^31.
- `ComponentPool<T>` is modelled as a bounded multiset. Its internal storage and its own thread safety are not shown in the source.
- `PooledHttpContext.Initialize`/`Uninitialize` are modelled only through the features a context carries. The rest of a context's per-request state is not modelled.
- The `as PooledHttpContext` type test is an `IsPooled` flag fixed at construction, not a subclass.
- NumberParsing.ParseInt32 accepts white space, one sign, then decimal digits. It does not model `int.TryParse`'s acceptance of trailing NUL characters.
- Factory.PooledHttpContextFactory.Valid does not require pooled contexts to be uninitialised. Nothing in the source stops a caller from disposing a context twice or from disposing one still in use.
- Factory.PooledHttpContextFactory.SetMaxPooled: the replaced array and the contexts in its sub-pools are simply no longer reachable from the factory. Their reclamation is not modelled.
- A multi-step client scenario (fill, drain, refill, with identity-equal reuse) is not proved as a whole; only the effect of each single call is stated.
