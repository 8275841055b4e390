/** The two collaborators of the factory, at their interface: the request
    context it hands out and the bounded bag (`ComponentPool`) each of its
    sub-pools is. */
module Components {
  import opened Wrappers

  /** The per-request features a context is initialised with; only their
      identity matters here. */
  datatype FeatureCollection = FeatureCollection(id: nat)

  /** An `HttpContext`. IsPooled says whether the object is a
      `PooledHttpContext`, the only kind the factory creates and recycles;
      Features is the collection it was last initialised with, None once it
      has been uninitialised. */
  class HttpContext {
    const IsPooled: bool
    var Features: Option<FeatureCollection>

    /** `new PooledHttpContext(featureCollection)`. */
    constructor (features: FeatureCollection)
      ensures IsPooled && Features == Some(features)
    {
      IsPooled := true;
      Features := Some(features);
    }

    /** A context of some other implementation, which callers may hand to
        `Dispose`. */
    constructor Foreign(features: FeatureCollection)
      ensures !IsPooled && Features == Some(features)
    {
      IsPooled := false;
      Features := Some(features);
    }

    /** `PooledHttpContext.Initialize`: the context now serves a request with
        these features. */
    method Initialize(features: FeatureCollection)
      modifies this`Features
      ensures Features == Some(features)
    {
      Features := Some(features);
    }

    /** `PooledHttpContext.Uninitialize`: all per-request state is dropped. */
    method Uninitialize()
      modifies this`Features
      ensures Features == None
    {
      Features := None;
    }
  }

  /** `ComponentPool<PooledHttpContext>`: a bag of pooled contexts that never
      holds more than its capacity. */
  class ComponentPool {
    const Capacity: nat
    var Items: multiset<HttpContext>

    ghost predicate Valid()
      reads this
    {
      |Items| <= Capacity && forall c :: c in Items ==> c.IsPooled
    }

    constructor (capacity: nat)
      ensures Valid() && Capacity == capacity && Items == multiset{}
    {
      Capacity := capacity;
      Items := multiset{};
    }

    /** `TryRent`: takes some context out of the bag, and fails exactly when
        the bag is empty. */
    method TryRent() returns (ok: bool, item: HttpContext?)
      requires Valid()
      modifies this`Items
      ensures Valid()
      ensures ok == (old(Items) != multiset{})
      ensures ok ==> item != null && item in old(Items) && item.IsPooled
                     && Items == old(Items) - multiset{item}
      ensures !ok ==> item == null && Items == old(Items)
    {
      if Items == multiset{} {
        ok, item := false, null;
      } else {
        var c :| c in Items;
        Items := Items - multiset{c};
        ok, item := true, c;
      }
    }

    /** `Return`: keeps the context while there is room, discards it once
        the bag is full. */
    method Return(item: HttpContext)
      requires Valid() && item.IsPooled
      modifies this`Items
      ensures Valid()
      ensures Items == if |old(Items)| < Capacity then old(Items) + multiset{item} else old(Items)
    {
      if |Items| < Capacity {
        Items := Items + multiset{item};
      }
    }
  }
}
