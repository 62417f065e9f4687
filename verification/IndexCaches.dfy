/** Move-only handles over the cache: who holds an entry, and when its deleter runs. */
module IndexCaches {
  import opened LruHandles
  import opened HandleTables
  import opened LruSpec
  import opened LruRuns
  import opened LruStability
  import opened ShardedCaches

  class IndexCacheHandle {
    var cache: ShardedLRUCache?
    var handle: LRUHandle?

    constructor ()
      ensures cache == null && handle == null
    {
      cache, handle := null, null;
    }

    /** Both move operations are this exchange. */
    method Swap(other: IndexCacheHandle)
      modifies this, other
      ensures cache == old(other.cache) && handle == old(other.handle)
      ensures other.cache == old(cache) && other.handle == old(handle)
    {
      cache, other.cache := other.cache, cache;
      handle, other.handle := other.handle, handle;
    }

    constructor Of(cache: ShardedLRUCache, handle: LRUHandle)
      ensures this.cache == cache && this.handle == handle
    {
      this.cache, this.handle := cache, handle;
    }
  }

  type Holding = map<IndexCacheHandle, LRUHandle>

  ghost function Holders(held: Holding, e: LRUHandle): set<IndexCacheHandle> {
    set h | h in held && held[h] == e
  }

  /** In shard i, the outstanding handles of every admitted entry are exactly its holders, and an
      admitted entry that is no longer live has had its deleter called. */
  ghost predicate Tracked(s: LruState, i: nat, held: Holding, admitted: set<LRUHandle>) {
    && s.pins.Keys <= admitted
    && forall e :: e in admitted && ShardOf(e.hash) == i ==>
         Outstanding(s, e) == |Holders(held, e)| && (e in s.pins || e in s.freed)
  }

  lemma TrackedEmpty(capacity: nat, i: nat)
    ensures Tracked(Empty(capacity), i, map[], {})
  {
  }

  lemma TrackedStep(s: LruState, op: Op, i: nat, held: Holding, held': Holding, admitted: set<LRUHandle>)
    requires Safe(s) && Allowed(s, op) && Tracked(s, i, held, admitted)
    requires op.DoInsert? ==> op.entry !in admitted && Holders(held, op.entry) == {}
    requires forall e: LRUHandle :: ShardOf(e.hash) == i ==> |Holders(held', e)| == |Holders(held, e)| + Gain(s, op, e)
    ensures Tracked(Step(s, op), i, held', admitted + Newcomers(op))
  {
    StepNewcomers(s, op);
    StepAccounted(s, op);
    forall e | e in admitted + Newcomers(op) && ShardOf(e.hash) == i
      ensures Outstanding(Step(s, op), e) == |Holders(held', e)|
    {
      StepOutstanding(s, op, e);
    }
    if op.DoInsert? {
      StepOutstanding(s, op, op.entry);
    }
  }

  /** What moving between two handles does: they exchange what they hold. */
  ghost function Moved(held: Holding, a: IndexCacheHandle, b: IndexCacheHandle): Holding {
    var rest := held - {a, b};
    var withA := if b in held then rest[a := held[b]] else rest;
    if a in held then withA[b := held[a]] else withA
  }

  lemma MovedEntries(held: Holding, a: IndexCacheHandle, b: IndexCacheHandle)
    ensures a in Moved(held, a, b) <==> b in held
    ensures b in Moved(held, a, b) <==> a in held
    ensures b in held ==> Moved(held, a, b)[a] == held[b]
    ensures a in held ==> Moved(held, a, b)[b] == held[a]
    ensures forall h :: h in Moved(held, a, b) && h != a && h != b ==> h in held && Moved(held, a, b)[h] == held[h]
  {
  }

  lemma MovedHolders(held: Holding, a: IndexCacheHandle, b: IndexCacheHandle, e: LRUHandle)
    ensures |Holders(Moved(held, a, b), e)| == |Holders(held, e)|
  {
    var rest := held - {a, b};
    if a == b {
      assert Moved(held, a, b) == held;
    } else {
      assert held - {a} - {b} == rest;
      if a in held {
        DropHolder(held, a);
      } else {
        assert held - {a} == held;
      }
      if b in held {
        DropHolder(held - {a}, b);
        AddHolder(rest, a, held[b]);
      } else {
        assert held - {a} - {b} == held - {a};
      }
      if a in held {
        AddHolder(if b in held then rest[a := held[b]] else rest, b, held[a]);
      }
    }
  }

  lemma AddHolder(held: Holding, h: IndexCacheHandle, e: LRUHandle)
    requires h !in held
    ensures forall x :: |Holders(held[h := e], x)| == |Holders(held, x)| + if x == e then 1 else 0
  {
    forall x
      ensures |Holders(held[h := e], x)| == |Holders(held, x)| + if x == e then 1 else 0
    {
      AddHolderAt(held, h, e, x);
    }
  }

  lemma AddHolderAt(held: Holding, h: IndexCacheHandle, e: LRUHandle, x: LRUHandle)
    requires h !in held
    ensures |Holders(held[h := e], x)| == |Holders(held, x)| + if x == e then 1 else 0
  {
    assert Holders(held[h := e], x) == Holders(held, x) + if x == e then {h} else {};
  }

  lemma DropHolder(held: Holding, h: IndexCacheHandle)
    requires h in held
    ensures forall x :: |Holders(held - {h}, x)| == |Holders(held, x)| - if x == held[h] then 1 else 0
  {
    AddHolder(held - {h}, h, held[h]);
    assert (held - {h})[h := held[h]] == held;
  }

  lemma TrackedElsewhere(s: LruState, i: nat, held: Holding, held': Holding, admitted: set<LRUHandle>, newcomers: set<LRUHandle>)
    requires Tracked(s, i, held, admitted)
    requires forall e: LRUHandle :: ShardOf(e.hash) == i ==> |Holders(held', e)| == |Holders(held, e)|
    requires forall e :: e in newcomers ==> ShardOf(e.hash) != i
    ensures Tracked(s, i, held', admitted + newcomers)
  {
  }

  lemma ReleaseKeepsTracked(s: LruState, other: LruState, i: nat, held: Holding, h: IndexCacheHandle, admitted: set<LRUHandle>)
    requires i < NUM_SHARDS && Safe(s) && Tracked(s, i, held, admitted) && Tracked(other, 1 - i, held, admitted)
    requires h in held && held[h] in admitted && ShardOf(held[h].hash) == i
    ensures Allowed(s, DoRelease(held[h])) && Tracked(LruSpec.Release(s, held[h]), i, held - {h}, admitted)
    ensures Tracked(other, 1 - i, held - {h}, admitted)
  {
    var e := held[h];
    assert h in Holders(held, e);
    DropHolder(held, h);
    assert admitted + {} == admitted;
    TrackedStep(s, DoRelease(e), i, held, held - {h}, admitted);
    TrackedElsewhere(other, 1 - i, held, held - {h}, admitted, {});
  }

  lemma LookupKeepsTracked(s: LruState, other: LruState, i: nat, id: EntryId, held: Holding, admitted: set<LRUHandle>)
    requires i < NUM_SHARDS && Safe(s) && Tracked(s, i, held, admitted) && Tracked(other, 1 - i, held, admitted)
    requires !Matches(s.cached, id)
    ensures Tracked(LruSpec.Lookup(s, id), i, held, admitted)
  {
    assert admitted + {} == admitted;
    TrackedStep(s, DoLookup(id), i, held, held, admitted);
  }

  lemma CapacityKeepsTracked(s: LruState, capacity: nat, i: nat, held: Holding, admitted: set<LRUHandle>)
    requires Safe(s) && Tracked(s, i, held, admitted)
    ensures Tracked(LruSpec.SetCapacity(s, capacity), i, held, admitted)
  {
    assert admitted + {} == admitted;
    TrackedStep(s, DoSetCapacity(capacity), i, held, held, admitted);
  }

  lemma CachedAdmitted(s: LruState, i: nat, id: EntryId, held: Holding, admitted: set<LRUHandle>)
    requires Inv(s) && Tracked(s, i, held, admitted) && Matches(s.cached, id)
    ensures Found(s.cached, id, Match(s.cached, id)) && Match(s.cached, id) in admitted
  {
  }

  lemma FoundInSafe(s: LruState, id: EntryId, e: LRUHandle?)
    requires Safe(s) && Found(s.cached, id, e)
    ensures s.cached <= s.pins.Keys
    ensures if e == null then !Matches(s.cached, id) else Matches(s.cached, id) && Match(s.cached, id) == e
  {
    FoundMatch(s.cached, id, e);
  }

  lemma LookupAddsHolder(s: LruState, other: LruState, i: nat, id: EntryId, held: Holding, h: IndexCacheHandle, admitted: set<LRUHandle>)
    requires i < NUM_SHARDS && Safe(s) && Tracked(s, i, held, admitted) && Tracked(other, 1 - i, held, admitted)
    requires ShardOf(id.1) == i && Matches(s.cached, id) && h !in held
    ensures var e := Match(s.cached, id);
      && e in admitted
      && Tracked(LruSpec.Lookup(s, id), i, held[h := e], admitted) && Tracked(other, 1 - i, held[h := e], admitted)
  {
    hide Tracked, LruSpec.Lookup;
    var e := Match(s.cached, id);
    AddHolder(held, h, e);
    CachedAdmitted(s, i, id, held, admitted);
    assert admitted + {} == admitted;
    TrackedStep(s, DoLookup(id), i, held, held[h := e], admitted);
    TrackedElsewhere(other, 1 - i, held, held[h := e], admitted, {});
  }

  lemma InsertAddsHolder(s: LruState, other: LruState, i: nat, e: LRUHandle, held: Holding, h: IndexCacheHandle, admitted: set<LRUHandle>)
    requires i < NUM_SHARDS && Safe(s) && Tracked(s, i, held, admitted) && Tracked(other, 1 - i, held, admitted)
    requires ShardOf(e.hash) == i && e !in s.pins && e !in s.freed && e !in admitted && h !in held
    requires forall x :: x in held ==> held[x] in admitted
    ensures Tracked(LruSpec.Insert(s, e), i, held[h := e], admitted + {e})
    ensures Tracked(other, 1 - i, held[h := e], admitted + {e})
  {
    hide Tracked, LruSpec.Insert, Inv;
    AddHolder(held, h, e);
    assert Holders(held, e) == {};
    TrackedStep(s, DoInsert(e), i, held, held[h := e], admitted);
    TrackedElsewhere(other, 1 - i, held, held[h := e], admitted, {e});
  }

  /** Assigning from a temporary and destroying it is replacing what h holds. */
  lemma MoveIn(held: Holding, h: IndexCacheHandle, temporary: IndexCacheHandle, e: LRUHandle)
    requires temporary !in held && h != temporary
    ensures Moved(held[temporary := e], h, temporary) - {temporary} == held[h := e]
  {
  }

  // ---- what happens to a shard ----

  /** Shard i after a handle has given back what it holds. */
  ghost function Returned(s: LruState, i: nat, held: Holding, h: IndexCacheHandle): LruState {
    if h in held && ShardOf(held[h].hash) == i && Allowed(s, DoRelease(held[h])) then LruSpec.Release(s, held[h]) else s
  }

  ghost function InsertedInto(s: LruState, i: nat, e: LRUHandle): LruState {
    if ShardOf(e.hash) == i then LruSpec.Insert(s, e) else s
  }

  ghost function LookedUp(s: LruState, i: nat, id: EntryId): LruState {
    if ShardOf(id.1) == i && s.cached <= s.pins.Keys then LruSpec.Lookup(s, id) else s
  }

  /** An entry that was just inserted is found under its id, also after another has been given back. */
  lemma InsertedIsFound(s: LruState, i: nat, e: LRUHandle, held: Holding, h: IndexCacheHandle)
    requires Safe(s) && e !in s.pins && e !in s.freed && ShardOf(e.hash) == i && (h in held ==> held[h] != e)
    ensures Found(Returned(InsertedInto(s, i, e), i, held, h).cached, e.Id(), e)
  {
  }

  /** An entry that a lookup has found is found again, also after the handle has given back what it held before. */
  lemma HitStaysFound(s: LruState, i: nat, id: EntryId, held: Holding, h: IndexCacheHandle)
    requires Safe(s) && Matches(s.cached, id) && ShardOf(id.1) == i
    ensures Found(Returned(LookedUp(s, i, id), i, held, h).cached, id, Match(s.cached, id))
  {
    var e, s1 := Match(s.cached, id), LookedUp(s, i, id);
    assert Found(s.cached, id, e);
    LookupIs(s, id, e);
    LookupSafe(s, id);
    if h in held && ShardOf(held[h].hash) == i && Allowed(s1, DoRelease(held[h])) {
      ReleaseCases(s1, held[h]);
      StepCached(s1, DoRelease(held[h]), e);
    }
  }

  class IndexCache {
    const cache: ShardedLRUCache
    ghost var held: Holding
    ghost var admitted: set<LRUHandle>

    /** A handle is either registered with what it holds, or empty. */
    ghost predicate Known(h: IndexCacheHandle)
      reads `held, h
    {
      h in held || (h.cache == null && h.handle == null)
    }

    ghost predicate HandlesMatch()
      reads `held, held.Keys
    {
      forall h :: h in held ==> h.handle == held[h] && h.cache == cache
    }

    ghost predicate Valid()
      reads `held, `admitted, held.Keys, cache, cache.Repr
    {
      && cache.Valid() && this !in cache.Repr && HandlesMatch()
      && (forall h :: h in held ==> h !in cache.Repr && held[h] in admitted)
      && Tracked(cache.State(0), 0, held, admitted) && Tracked(cache.State(1), 1, held, admitted)
    }

    constructor (cache: ShardedLRUCache)
      ensures this.cache == cache && held == map[] && admitted == {}
    {
      this.cache := cache;
      held, admitted := map[], {};
    }

    /** An index cache owns a new cache of the given capacity. */
    static method Create(capacity: nat, hashOf: CacheKey -> Hash) returns (indexCache: IndexCache)
      ensures indexCache.Valid() && fresh(indexCache) && fresh(indexCache.cache) && fresh(indexCache.cache.Repr)
      ensures indexCache.cache.hashOf == hashOf && indexCache.held == map[] && indexCache.admitted == {}
    {
      hide ShardedLRUCache.Valid, Tracked;
      TrackedEmpty(PerShard(capacity), 0);
      TrackedEmpty(PerShard(capacity), 1);
      var cache := new ShardedLRUCache(capacity, hashOf);
      indexCache := new IndexCache(cache);
    }

    /** The destructor: gives back what the handle holds. */
    method Destroy(h: IndexCacheHandle)
      requires Valid() && Known(h)
      modifies `held, cache.Repr
      ensures Valid() && held == old(held) - {h}
      ensures fresh(cache.Repr - old(cache.Repr))
      ensures cache.State(0) == Returned(old(cache.State(0)), 0, old(held), h)
      ensures cache.State(1) == Returned(old(cache.State(1)), 1, old(held), h)
    {
      hide ShardedLRUCache.Valid, ShardedLRUCache.State, Tracked, Inv, LruSpec.Release;
      if h.handle != null {
        var e := h.handle;
        ReleaseTracked(h);
        cache.Release(e);
        held := held - {h};
      } else {
        assert h !in held;
        assert held - {h} == held;
      }
    }

    lemma ReleaseTracked(h: IndexCacheHandle)
      requires Valid() && h in held
      ensures var e := held[h];
        var i := ShardOf(e.hash);
        && Allowed(cache.State(i), DoRelease(e)) && Inv(cache.State(i))
        && Tracked(LruSpec.Release(cache.State(i), e), i, held - {h}, admitted)
        && Tracked(cache.State(1 - i), 1 - i, held - {h}, admitted)
    {
      hide ShardedLRUCache.Valid, Tracked;
      var i := ShardOf(held[h].hash);
      cache.ShardSafe(i);
      ReleaseKeepsTracked(cache.State(i), cache.State(1 - i), i, held, h, admitted);
    }

    /** Move assignment: the two handles exchange their contents. */
    method MoveAssign(a: IndexCacheHandle, b: IndexCacheHandle)
      requires Valid() && Known(a) && Known(b)
      requires a !in cache.Repr && b !in cache.Repr
      modifies `held, a, b
      ensures Valid() && Known(a) && Known(b) && held == Moved(old(held), a, b)
      ensures cache.State(0) == old(cache.State(0)) && cache.State(1) == old(cache.State(1))
    {
      hide ShardedLRUCache.Valid, Tracked, Moved, ShardedLRUCache.State;
      MoveTracked(a, b);
      MovedEntries(held, a, b);
      a.Swap(b);
      held := Moved(held, a, b);
    }

    /** Move construction: a new handle exchanges its emptiness for what the other one holds. */
    method MoveConstruct(other: IndexCacheHandle) returns (h: IndexCacheHandle)
      requires Valid() && Known(other) && other !in cache.Repr
      modifies `held, other
      ensures Valid() && fresh(h) && Known(h) && Known(other) && other !in held
      ensures held == if other in old(held) then old(held)[h := old(held)[other]] - {other} else old(held)
    {
      hide ShardedLRUCache.Valid, Tracked, ShardedLRUCache.State;
      h := new IndexCacheHandle();
      assert h !in held;
      MoveAssign(h, other);
      assert held == if other in old(held) then old(held)[h := old(held)[other]] - {other} else old(held);
    }

    lemma MoveTracked(a: IndexCacheHandle, b: IndexCacheHandle)
      requires Valid()
      ensures Tracked(cache.State(0), 0, Moved(held, a, b), admitted)
      ensures Tracked(cache.State(1), 1, Moved(held, a, b), admitted)
    {
      forall e
        ensures |Holders(Moved(held, a, b), e)| == |Holders(held, e)|
      {
        MovedHolders(held, a, b, e);
      }
      assert admitted + {} == admitted;
      TrackedElsewhere(cache.State(0), 0, held, Moved(held, a, b), admitted, {});
      TrackedElsewhere(cache.State(1), 1, held, Moved(held, a, b), admitted, {});
    }

    /** Looks the key up and wraps what the cache hands out in a temporary handle. */
    method LookupTemporary(key: CacheKey) returns (temporary: IndexCacheHandle?)
      requires Valid()
      modifies `held, cache.Repr
      ensures Valid() && fresh(cache.Repr - old(cache.Repr))
      ensures (temporary != null) == Matches(old(CachedFor(key)), (key, cache.hashOf(key)))
      ensures temporary == null ==> held == old(held)
      ensures temporary != null ==> fresh(temporary) && temporary !in cache.Repr && temporary in held
      ensures temporary != null ==>
        held == old(held)[temporary := Match(old(CachedFor(key)), (key, cache.hashOf(key)))]
      ensures cache.State(0) == LookedUp(old(cache.State(0)), 0, (key, cache.hashOf(key)))
      ensures cache.State(1) == LookedUp(old(cache.State(1)), 1, (key, cache.hashOf(key)))
    {
      hide ShardedLRUCache.Valid, ShardedLRUCache.State, Tracked, LruSpec.Lookup, Safe, Found;
      ghost var i, id := ShardOf(cache.hashOf(key)), (key, cache.hashOf(key));
      ghost var s, other := cache.State(i), cache.State(1 - i);
      cache.ShardSafe(i);
      var e := cache.Lookup(key);
      FoundInSafe(s, id, e);
      if e == null {
        LookupKeepsTracked(s, other, i, id, held, admitted);
        temporary := null;
      } else {
        temporary := new IndexCacheHandle.Of(cache, e);
        LookupAddsHolder(s, other, i, id, held, temporary, admitted);
        held := held[temporary := e];
      }
    }

    ghost function CachedFor(key: CacheKey): set<LRUHandle>
      requires cache.Valid()
      reads cache, cache.Repr
    {
      cache.State(ShardOf(cache.hashOf(key))).cached
    }

    method Lookup(key: CacheKey, h: IndexCacheHandle) returns (found: bool)
      requires Valid() && Known(h) && h !in cache.Repr
      modifies `held, cache.Repr, h
      ensures Valid() && Known(h) && fresh(cache.Repr - old(cache.Repr))
      ensures found == Matches(old(CachedFor(key)), (key, cache.hashOf(key)))
      ensures held == if found then old(held)[h := Match(old(CachedFor(key)), (key, cache.hashOf(key)))] else old(held)
      ensures var id := (key, cache.hashOf(key));
        if found then
          && cache.State(0) == Returned(LookedUp(old(cache.State(0)), 0, id), 0, old(held), h)
          && cache.State(1) == Returned(LookedUp(old(cache.State(1)), 1, id), 1, old(held), h)
        else cache.State(0) == LookedUp(old(cache.State(0)), 0, id) && cache.State(1) == LookedUp(old(cache.State(1)), 1, id)
      ensures found ==> h in held && Found(CachedFor(key), (key, cache.hashOf(key)), held[h])
    {
      hide ShardedLRUCache.Valid, Tracked, Moved, ShardedLRUCache.State, LookedUp, Safe, Found;
      ghost var i, id := ShardOf(cache.hashOf(key)), (key, cache.hashOf(key));
      ghost var before := cache.State(i);
      cache.ShardSafe(i);
      var temporary := LookupTemporary(key);
      found := temporary != null;
      if found {
        MovedEntries(held, h, temporary);
        HitStaysFound(before, i, id, old(held), h);
        MoveIn(old(held), h, temporary, held[temporary]);
        MoveAssign(h, temporary);
        Destroy(temporary);
      }
    }

    /** Inserts an index and wraps what the cache hands out in a temporary handle. */
    method InsertTemporary(key: CacheKey, value: int, size: nat) returns (temporary: IndexCacheHandle, e: LRUHandle)
      requires Valid()
      modifies `held, `admitted, cache.Repr
      ensures Valid() && fresh(cache.Repr - old(cache.Repr))
      ensures fresh(e) && e.key == key && e.value == value && e.charge == size && e.priority == NORMAL
      ensures admitted == old(admitted) + {e}
      ensures fresh(temporary) && temporary !in cache.Repr && held == old(held)[temporary := e]
      ensures cache.State(0) == InsertedInto(old(cache.State(0)), 0, e) && cache.State(1) == InsertedInto(old(cache.State(1)), 1, e)
      ensures e.hash == cache.hashOf(key)
      ensures var before := old(cache.State(ShardOf(cache.hashOf(key)))); e !in before.pins && e !in before.freed
    {
      hide ShardedLRUCache.Valid, ShardedLRUCache.State, Tracked, LruSpec.Insert, Inv, Safe;
      ghost var i := ShardOf(cache.hashOf(key));
      ghost var s, other := cache.State(i), cache.State(1 - i);
      cache.ShardSafe(i);
      e := cache.Insert(key, value, size, NORMAL);
      temporary := new IndexCacheHandle.Of(cache, e);
      InsertAddsHolder(s, other, i, e, held, temporary, admitted);
      held, admitted := held[temporary := e], admitted + {e};
    }

    /** Caches an index under a key; whatever h held before is given back. */
    method Insert(key: CacheKey, value: int, size: nat, h: IndexCacheHandle) returns (ghost e: LRUHandle)
      requires Valid() && Known(h) && h !in cache.Repr
      modifies `held, `admitted, cache.Repr, h
      ensures Valid() && Known(h) && fresh(cache.Repr - old(cache.Repr))
      ensures fresh(e) && e.key == key && e.value == value && e.charge == size && e.priority == NORMAL
      ensures held == old(held)[h := e] && admitted == old(admitted) + {e} && e.hash == cache.hashOf(key)
      ensures cache.State(0) == Returned(InsertedInto(old(cache.State(0)), 0, e), 0, old(held), h)
      ensures cache.State(1) == Returned(InsertedInto(old(cache.State(1)), 1, e), 1, old(held), h)
      ensures Found(CachedFor(key), (key, cache.hashOf(key)), e)
    {
      hide ShardedLRUCache.Valid, Tracked, Moved, ShardedLRUCache.State, InsertedInto, Safe, Found;
      ghost var i := ShardOf(cache.hashOf(key));
      ghost var before := cache.State(i);
      cache.ShardSafe(i);
      var temporary, entry := InsertTemporary(key, value, size);
      e := entry;
      MovedEntries(held, h, temporary);
      InsertedIsFound(before, i, e, old(held), h);
      MoveIn(old(held), h, temporary, e);
      MoveAssign(h, temporary);
      Destroy(temporary);
    }

    /** Changing the capacity may evict entries, but never one that a handle holds. */
    method SetCapacity(capacity: nat)
      requires Valid()
      modifies cache.Repr
      ensures Valid() && cache.capacity == capacity && fresh(cache.Repr - old(cache.Repr))
      ensures cache.State(0) == LruSpec.SetCapacity(old(cache.State(0)), PerShard(capacity))
      ensures cache.State(1) == LruSpec.SetCapacity(old(cache.State(1)), PerShard(capacity))
    {
      hide ShardedLRUCache.Valid, Tracked, Safe, LruSpec.SetCapacity;
      CapacityTracked(PerShard(capacity));
      cache.SetCapacity(capacity);
    }

    method AdjustCapacity(delta: int, minCapacity: nat) returns (ok: bool)
      requires Valid()
      modifies cache.Repr
      ensures Valid() && fresh(cache.Repr - old(cache.Repr))
      ensures ok == (old(cache.capacity) + delta >= minCapacity)
      ensures if ok then
          && cache.capacity == old(cache.capacity) + delta
          && cache.State(0) == LruSpec.SetCapacity(old(cache.State(0)), PerShard(cache.capacity))
          && cache.State(1) == LruSpec.SetCapacity(old(cache.State(1)), PerShard(cache.capacity))
        else
          && cache.capacity == old(cache.capacity)
          && cache.State(0) == old(cache.State(0)) && cache.State(1) == old(cache.State(1))
    {
      hide ShardedLRUCache.Valid, Tracked, Safe, LruSpec.SetCapacity;
      if cache.capacity + delta >= minCapacity {
        CapacityTracked(PerShard(cache.capacity + delta));
      }
      ok := cache.AdjustCapacity(delta, minCapacity);
    }

    lemma CapacityTracked(perShard: nat)
      requires Valid()
      ensures Tracked(LruSpec.SetCapacity(cache.State(0), perShard), 0, held, admitted)
      ensures Tracked(LruSpec.SetCapacity(cache.State(1), perShard), 1, held, admitted)
    {
      hide ShardedLRUCache.Valid, Tracked, Safe, LruSpec.SetCapacity;
      cache.ShardSafe(0);
      cache.ShardSafe(1);
      CapacityKeepsTracked(cache.State(0), perShard, 0, held, admitted);
      CapacityKeepsTracked(cache.State(1), perShard, 1, held, admitted);
    }

    // ---- what the wrapper is for ----

    /** A deleter never runs while a live handle points at the entry. */
    lemma HeldIsAlive(h: IndexCacheHandle)
      requires Valid() && h in held
      ensures var s := cache.State(ShardOf(h.handle.hash)); h.handle in s.pins && h.handle !in s.freed
    {
      cache.ShardSafe(ShardOf(held[h].hash));
      assert h in Holders(held, held[h]);
    }

    /** A deleter runs at most once, and has run exactly when the entry is neither cached nor held. */
    lemma FreedExactlyWhenUnreachable(e: LRUHandle)
      requires Valid() && e in admitted
      ensures var s := cache.State(ShardOf(e.hash));
        && NoDuplicates(s.freed)
        && (e in s.freed <==> e !in s.cached && forall h :: h in held ==> h.handle != e)
    {
      var s := cache.State(ShardOf(e.hash));
      cache.ShardSafe(ShardOf(e.hash));
      if e !in s.freed && e !in s.cached {
        var h :| h in Holders(held, e);
        assert h.handle == e;
      }
      forall h | h in held && h.handle == e
        ensures e !in s.freed
      {
        HeldIsAlive(h);
      }
    }
  }
}
