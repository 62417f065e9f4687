/** The cache proper: two shards, chosen by the top bit of the hash. */
module ShardedCaches {
  import opened LruHandles
  import opened HandleTables
  import opened LruSpec
  import opened LruRuns
  import opened LruCaches

  const NUM_SHARDS: nat := 2

  /** hash >> 31: one bit chooses between two shards. */
  function ShardOf(hash: Hash): (i: nat)
    ensures i < NUM_SHARDS && (i == 0 <==> hash < 0x8000_0000)
  {
    hash / 0x8000_0000
  }

  function PerShard(capacity: nat): nat {
    (capacity + (NUM_SHARDS - 1)) / NUM_SHARDS
  }

  /** Every live or dead entry of shard i has a hash that leads to shard i. */
  ghost predicate Owned(s: LruState, i: nat) {
    && (forall e :: e in s.pins ==> ShardOf(e.hash) == i)
    && (forall e :: e in s.freed ==> ShardOf(e.hash) == i)
  }

  lemma StepOwned(s: LruState, op: Op, i: nat)
    requires Safe(s) && Allowed(s, op) && Owned(s, i)
    requires op.DoInsert? ==> ShardOf(op.entry.hash) == i
    ensures Owned(Step(s, op), i) && Step(s, op).pins.Keys <= s.pins.Keys + Newcomers(op)
  {
    StepNewcomers(s, op);
  }

  class ShardedLRUCache {
    const shard0: LRUCache
    const shard1: LRUCache
    const hashOf: CacheKey -> Hash
    var capacity: nat
    ghost var Repr: set<object>

    function Shard(i: nat): LRUCache
      requires i < NUM_SHARDS
    {
      if i == 0 then shard0 else shard1
    }

    ghost function Footprint(): set<object>
      reads shard0, shard0.table, shard1, shard1.table
    {
      {this} + shard0.Footprint() + shard1.Footprint()
    }

    ghost function Abs(i: nat): LruState
      requires i < NUM_SHARDS
      reads Shard(i), Shard(i).table
    {
      Shard(i).Abs()
    }

    ghost predicate ShardValid(i: nat)
      requires i < NUM_SHARDS
      reads Shard(i), Shard(i).table, Shard(i).Footprint()
    {
      Shard(i).Valid() && Owned(Shard(i).Abs(), i)
    }

    ghost predicate Intact()
      reads shard0, shard0.table, shard0.Footprint(), shard1, shard1.table, shard1.Footprint()
    {
      && shard0.Footprint() !! shard1.Footprint()
      && this !in shard0.Footprint() && this !in shard1.Footprint()
      && ShardValid(0) && ShardValid(1)
    }

    ghost predicate Valid()
      reads this, Repr
    {
      && this in Repr && shard0 in Repr && shard0.table in Repr && shard1 in Repr && shard1.table in Repr
      && Footprint() <= Repr && Intact()
    }

    /** What shard i means. */
    ghost function State(i: nat): LruState
      requires i < NUM_SHARDS && Valid()
      reads this, Repr
    {
      Shard(i).Abs()
    }

    lemma Parts(i: nat)
      requires i < NUM_SHARDS && Valid()
      ensures ShardValid(0) && ShardValid(1) && Shard(i).Footprint() <= Repr && Shard(1 - i).Footprint() <= Repr
      ensures Shard(i).Footprint() !! Shard(1 - i).Footprint() && this !in Shard(i).Footprint()
      ensures Shard(i).Footprint() != Shard(1 - i).Footprint()
    {
      assert Shard(i) in Shard(i).Footprint();
    }

    lemma ShardSafe(i: nat)
      requires i < NUM_SHARDS && Valid()
      ensures Safe(State(i)) && Owned(State(i), i)
    {
    }

    /** Work on one shard, in its own memory and in new memory, keeps the two apart. */
    twostate lemma StillApart(i: nat)
      requires i < NUM_SHARDS && old(Intact())
      requires ShardValid(0) && ShardValid(1)
      requires Shard(1 - i).Footprint() == old(Shard(1 - i).Footprint())
      requires fresh(Shard(i).Footprint() - old(Shard(i).Footprint()))
      ensures Intact() && fresh(Footprint() - old(Footprint()))
    {
      hide LRUCache.Valid, Owned;
    }

    ghost method Absorb()
      requires Intact()
      modifies `Repr
      ensures Valid() && Repr == old(Repr) + Footprint()
      ensures State(0) == Abs(0) && State(1) == Abs(1)
    {
      Repr := Repr + Footprint();
    }

    method Lookup(key: CacheKey) returns (e: LRUHandle?)
      requires Valid()
      modifies Repr
      ensures Valid() && fresh(Repr - old(Repr))
      ensures var i, id := ShardOf(hashOf(key)), (key, hashOf(key));
        && State(i) == LruSpec.Lookup(old(State(i)), id) && State(1 - i) == old(State(1 - i))
        && Found(old(State(i)).cached, id, e)
    {
      hide LRUCache.Valid, Owned, ShardedLRUCache.Intact;
      var hash := hashOf(key);
      var i := ShardOf(hash);
      Parts(i);
      e := LookupIn(i, key, hash);
      StillApart(i);
      Absorb();
    }

    method LookupIn(i: nat, key: CacheKey, hash: Hash) returns (e: LRUHandle?)
      requires i < NUM_SHARDS && ShardValid(i)
      modifies Shard(i).Footprint()
      ensures ShardValid(i) && fresh(Shard(i).Footprint() - old(Shard(i).Footprint()))
      ensures Abs(i) == LruSpec.Lookup(old(Abs(i)), (key, hash)) && Found(old(Abs(i)).cached, (key, hash), e)
    {
      hide LRUCache.Represents, Safe, Owned;
      StepOwned(Abs(i), DoLookup((key, hash)), i);
      e := Shard(i).Lookup(key, hash);
    }

    method Insert(key: CacheKey, value: int, charge: nat, priority: CachePriority) returns (e: LRUHandle)
      requires Valid()
      modifies Repr
      ensures Valid() && fresh(Repr - old(Repr))
      ensures fresh(e) && e.Id() == (key, hashOf(key)) && e.value == value && e.charge == charge && e.priority == priority
      ensures var i := ShardOf(hashOf(key));
        State(i) == LruSpec.Insert(old(State(i)), e) && State(1 - i) == old(State(1 - i))
      ensures var before := old(State(ShardOf(hashOf(key)))); e !in before.pins && e !in before.freed
    {
      hide LRUCache.Valid, Owned, ShardedLRUCache.Intact;
      var hash := hashOf(key);
      var i := ShardOf(hash);
      Parts(i);
      e := InsertIn(i, key, hash, value, charge, priority);
      StillApart(i);
      Absorb();
    }

    method InsertIn(i: nat, key: CacheKey, hash: Hash, value: int, charge: nat, priority: CachePriority)
      returns (e: LRUHandle)
      requires i < NUM_SHARDS && ShardValid(i) && ShardOf(hash) == i
      modifies Shard(i).Footprint()
      ensures ShardValid(i) && fresh(Shard(i).Footprint() - old(Shard(i).Footprint()))
      ensures fresh(e) && e.Id() == (key, hash) && e.value == value && e.charge == charge && e.priority == priority
      ensures Abs(i) == LruSpec.Insert(old(Abs(i)), e)
    {
      hide LRUCache.Represents, Safe, Owned;
      ghost var s := Abs(i);
      e := Shard(i).Insert(key, hash, value, charge, priority);
      StepOwned(s, DoInsert(e), i);
    }

    /** Whoever holds an entry gives it back to the shard that owns it. */
    method Release(e: LRUHandle)
      requires Valid() && e in State(ShardOf(e.hash)).pins && State(ShardOf(e.hash)).pins[e] > 0
      modifies Repr
      ensures Valid() && fresh(Repr - old(Repr))
      ensures var i := ShardOf(e.hash);
        State(i) == LruSpec.Release(old(State(i)), e) && State(1 - i) == old(State(1 - i))
    {
      hide LRUCache.Valid, Owned, ShardedLRUCache.Intact;
      var i := ShardOf(e.hash);
      Parts(i);
      ReleaseIn(i, e);
      StillApart(i);
      Absorb();
    }

    method ReleaseIn(i: nat, e: LRUHandle)
      requires i < NUM_SHARDS && ShardValid(i) && e in Abs(i).pins && Abs(i).pins[e] > 0
      modifies Shard(i).Footprint()
      ensures ShardValid(i) && fresh(Shard(i).Footprint() - old(Shard(i).Footprint()))
      ensures Abs(i) == LruSpec.Release(old(Abs(i)), e)
    {
      hide LRUCache.Represents, Safe, Owned;
      StepOwned(Abs(i), DoRelease(e), i);
      Shard(i).Release(e);
    }

    method Erase(key: CacheKey)
      requires Valid()
      modifies Repr
      ensures Valid() && fresh(Repr - old(Repr))
      ensures var i, id := ShardOf(hashOf(key)), (key, hashOf(key));
        State(i) == LruSpec.Erase(old(State(i)), id) && State(1 - i) == old(State(1 - i))
    {
      hide LRUCache.Valid, Owned, ShardedLRUCache.Intact;
      var hash := hashOf(key);
      var i := ShardOf(hash);
      Parts(i);
      EraseIn(i, key, hash);
      StillApart(i);
      Absorb();
    }

    method EraseIn(i: nat, key: CacheKey, hash: Hash)
      requires i < NUM_SHARDS && ShardValid(i)
      modifies Shard(i).Footprint()
      ensures ShardValid(i) && fresh(Shard(i).Footprint() - old(Shard(i).Footprint()))
      ensures Abs(i) == LruSpec.Erase(old(Abs(i)), (key, hash))
    {
      hide LRUCache.Represents, Safe, Owned;
      StepOwned(Abs(i), DoErase((key, hash)), i);
      Shard(i).Erase(key, hash);
    }

    method SetShardCapacity(i: nat, capacity: nat)
      requires i < NUM_SHARDS && Valid()
      modifies Repr
      ensures Valid() && fresh(Repr - old(Repr))
      ensures State(i) == LruSpec.SetCapacity(old(State(i)), capacity) && State(1 - i) == old(State(1 - i))
    {
      hide LRUCache.Valid, Owned, ShardedLRUCache.Intact, LruSpec.SetCapacity;
      Parts(i);
      SetCapacityIn(i, capacity);
      StillApart(i);
      Absorb();
    }

    method SetCapacityIn(i: nat, capacity: nat)
      requires i < NUM_SHARDS && ShardValid(i)
      modifies Shard(i).Footprint()
      ensures ShardValid(i) && fresh(Shard(i).Footprint() - old(Shard(i).Footprint()))
      ensures Abs(i) == LruSpec.SetCapacity(old(Abs(i)), capacity)
    {
      hide LRUCache.Represents, Safe, Owned;
      StepOwned(Abs(i), DoSetCapacity(capacity), i);
      Shard(i).SetCapacity(capacity);
    }

    method SetCapacity(capacity: nat)
      requires Valid()
      modifies Repr
      ensures Valid() && fresh(Repr - old(Repr)) && this.capacity == capacity
      ensures State(0) == LruSpec.SetCapacity(old(State(0)), PerShard(capacity))
      ensures State(1) == LruSpec.SetCapacity(old(State(1)), PerShard(capacity))
    {
      hide ShardedLRUCache.ShardValid, LruSpec.SetCapacity;
      SetShardCapacities(PerShard(capacity));
      this.capacity := capacity;
    }

    method SetShardCapacities(perShard: nat)
      requires Valid()
      modifies Repr
      ensures Valid() && fresh(Repr - old(Repr))
      ensures State(0) == LruSpec.SetCapacity(old(State(0)), perShard)
      ensures State(1) == LruSpec.SetCapacity(old(State(1)), perShard)
    {
      hide ShardedLRUCache.ShardValid, ShardedLRUCache.State, ShardedLRUCache.Valid, LruSpec.SetCapacity;
      SetShardCapacity(0, perShard);
      SetShardCapacity(1, perShard);
    }

    /** Refuses to go below minCapacity; otherwise moves the capacity by delta. */
    method AdjustCapacity(delta: int, minCapacity: nat) returns (ok: bool)
      requires Valid()
      modifies Repr
      ensures Valid() && fresh(Repr - old(Repr))
      ensures ok == (old(capacity) + delta >= minCapacity)
      ensures if ok then
          && capacity == old(capacity) + delta
          && State(0) == LruSpec.SetCapacity(old(State(0)), PerShard(capacity))
          && State(1) == LruSpec.SetCapacity(old(State(1)), PerShard(capacity))
        else capacity == old(capacity) && State(0) == old(State(0)) && State(1) == old(State(1))
    {
      var newCapacity := capacity + delta;
      if newCapacity < minCapacity {
        return false;
      }
      SetCapacity(newCapacity);
      ok := true;
    }

    method PruneShard(i: nat) returns (count: nat)
      requires i < NUM_SHARDS && Valid()
      modifies Repr
      ensures Valid() && fresh(Repr - old(Repr)) && capacity == old(capacity)
      ensures State(i) == LruSpec.Prune(old(State(i))) && State(1 - i) == old(State(1 - i))
      ensures count == |old(State(i)).order|
    {
      hide LRUCache.Valid, Owned, ShardedLRUCache.Intact;
      Parts(i);
      count := PruneIn(i);
      StillApart(i);
      Absorb();
    }

    method PruneIn(i: nat) returns (count: nat)
      requires i < NUM_SHARDS && ShardValid(i)
      modifies Shard(i).Footprint()
      ensures ShardValid(i) && fresh(Shard(i).Footprint() - old(Shard(i).Footprint()))
      ensures Abs(i) == LruSpec.Prune(old(Abs(i))) && count == |old(Abs(i)).order|
    {
      hide LRUCache.Represents, Safe, Owned;
      StepOwned(Abs(i), DoPrune, i);
      count := Shard(i).Prune();
    }

    method Prune() returns (count: nat)
      requires Valid()
      modifies Repr
      ensures Valid() && fresh(Repr - old(Repr)) && capacity == old(capacity)
      ensures State(0) == LruSpec.Prune(old(State(0))) && State(1) == LruSpec.Prune(old(State(1)))
      ensures count == |old(State(0)).order| + |old(State(1)).order|
    {
      hide ShardedLRUCache.Valid, LruSpec.Prune;
      var first := PruneShard(0);
      var second := PruneShard(1);
      count := first + second;
    }

    method MemoryUsage() returns (usage: int)
      requires Valid()
      ensures usage == Charges(State(0).pins.Keys) + Charges(State(1).pins.Keys)
    {
      usage := shard0.usage + shard1.usage;
    }

    static method NewShard(capacity: nat) returns (shard: LRUCache)
      ensures shard.Valid() && shard.Abs() == Empty(capacity) && fresh(shard.Footprint())
    {
      hide LRUCache.Represents, Safe;
      EmptySafe(capacity);
      shard := new LRUCache();
      shard.SetCapacity(capacity);
    }

    constructor (capacity: nat, hashOf: CacheKey -> Hash)
      ensures Valid() && fresh(Repr)
      ensures this.hashOf == hashOf && this.capacity == capacity
      ensures State(0) == State(1) == Empty(PerShard(capacity))
    {
      hide LRUCache.Valid;
      var first := NewShard(PerShard(capacity));
      var second := NewShard(PerShard(capacity));
      this.hashOf, this.capacity := hashOf, capacity;
      shard0, shard1 := first, second;
      Repr := {this} + first.Footprint() + second.Footprint();
    }
  }

  /** The split never takes capacity away, and rounds up by less than one unit per shard. */
  lemma SplitCapacity(capacity: nat)
    ensures capacity <= NUM_SHARDS * PerShard(capacity) < capacity + NUM_SHARDS
  {
  }

  /** Over the whole cache too, only entries somebody holds can exceed the capacity. */
  lemma TotalWithinCapacity(s0: LruState, s1: LruState, capacity: nat)
    requires Safe(s0) && Safe(s1) && s0.capacity == s1.capacity == PerShard(capacity)
    ensures Charges(s0.pins.Keys) + Charges(s1.pins.Keys) < capacity + NUM_SHARDS || s0.order == [] || s1.order == []
  {
    SplitCapacity(capacity);
  }
}
