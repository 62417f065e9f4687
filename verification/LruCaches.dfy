/** One shard of the cache: a hash table, a circular list and reference counts, refining LruSpec. */
module LruCaches {
  import opened LruHandles
  import opened HandleTables
  import opened LruLists
  import opened LruSpec
  import opened LruRuns

  class LRUCache {
    var capacity: nat
    var usage: int
    const lru: LRUHandle
    const table: HandleTable
    var lookupCount: nat
    var hitCount: nat
    ghost var order: seq<LRUHandle>
    ghost var pins: map<LRUHandle, nat>
    ghost var freed: seq<LRUHandle>

    ghost function Abs(): LruState
      reads this, table
    {
      LruState(capacity, usage, table.nodes, order, pins, freed, lookupCount, hitCount)
    }

    /** The reference counts and the flags are what the ghost state says. */
    ghost predicate Counted()
      reads `pins, table`nodes, pins.Keys`refs, pins.Keys`inCache
    {
      forall e :: e in pins ==>
        e.inCache == (e in table.nodes) && e.refs == pins[e] + if e in table.nodes then 1 else 0
    }

    /** The circle runs through order, and every other live entry is on no list. */
    ghost predicate Listed()
      reads `order, `pins, lru`next, lru`prev, pins.Keys`next, pins.Keys`prev
    {
      && lru !in pins && (forall e :: e in order ==> e in pins)
      && Ring(lru, order)
      && (forall e :: e in pins && e !in order ==> e.next == null && e.prev == null)
    }

    ghost predicate Represents()
      reads `order, `pins, table, table.list, lru, pins.Keys
    {
      table.nodes <= pins.Keys && table.Valid() && Counted() && Listed()
    }

    /** Everything the shard may touch. */
    ghost function Footprint(): set<object>
      reads this, table
    {
      {this, table, table.list, lru} + pins.Keys
    }

    ghost predicate Valid()
      reads this, table, table.list, lru, pins.Keys
    {
      Represents() && Safe(Abs())
    }

    constructor ()
      ensures Valid() && Abs() == Empty(0)
      ensures fresh(table) && fresh(table.list) && fresh(lru)
    {
      capacity, usage, lookupCount, hitCount := 0, 0, 0, 0;
      order, pins, freed := [], map[], [];
      table := new HandleTable();
      lru := new LRUHandle("", 0, 0, 0, NORMAL);
      new;
      lru.next, lru.prev := lru, lru;
    }

    /** Drops one reference. */
    method Unref(e: LRUHandle) returns (last: bool)
      requires e.refs > 0
      modifies e`refs
      ensures e.refs == old(e.refs) - 1 && last == (e.refs == 0)
    {
      e.refs := e.refs - 1;
      last := e.refs == 0;
    }

    /** Takes a live entry off the list. */
    method Unlist(e: LRUHandle, ghost k: nat)
      requires Listed() && k < |order| && order[k] == e
      modifies `order, lru`next, lru`prev, pins.Keys`next, pins.Keys`prev
      ensures Listed() && Abs() == old(Abs()).(order := old(order)[..k] + old(order)[k + 1..])
    {
      LruRemove(e, lru, order, k);
      order := order[..k] + order[k + 1..];
    }

    /** The counts and flags of every live entry other than e. */
    ghost predicate CountedBut(e: LRUHandle?)
      reads `pins, table`nodes, pins.Keys`refs, pins.Keys`inCache
    {
      forall x :: x in pins && x != e ==>
        x.inCache == (x in table.nodes) && x.refs == pins[x] + if x in table.nodes then 1 else 0
    }

    /** The shard is consistent but for e, which is out of the table with its flag and count unchanged. */
    ghost predicate Pending(e: LRUHandle?)
      reads `order, `pins, table, table.list, lru, pins.Keys
    {
      && table.nodes <= pins.Keys && table.Valid() && CountedBut(e) && Listed()
      && (e != null ==> e in pins && e !in table.nodes && e.refs == pins[e] + 1)
    }

    /** Takes a cached entry out of the hash table, leaving its count and flag to the caller. */
    method Untable(e: LRUHandle)
      requires Represents() && e in table.nodes
      modifies table, table.list, pins.Keys`nextHash
      ensures Abs() == old(Abs()).(cached := old(table.nodes) - {e})
      ensures table.Valid() && table.list == old(table.list)
      ensures CountedBut(e) && Listed() && e.refs == old(e.refs) && e.inCache == old(e.inCache)
    {
      assert CountedBut(e);
      var removed := table.Remove(e.key, e.hash);
      assert removed == e;
    }

    /** The last reference goes: the entry is no longer live. */
    method Drop(e: LRUHandle)
      requires table.Valid() && table.nodes <= pins.Keys && Listed() && CountedBut(e)
      requires e in pins && e !in table.nodes && e !in order && e.refs == 1
      modifies `usage, `pins, e`refs, e`inCache
      ensures Represents() && Abs() == old(Abs()).(usage := old(usage) - e.charge, pins := old(pins) - {e})
    {
      hide HandleTable.Valid;
      e.inCache := false;
      var last := Unref(e);
      usage := usage - e.charge;
      pins := pins - {e};
    }

    method EvictOneEntry(e: LRUHandle, ghost k: nat)
      requires Represents() && k < |order| && order[k] == e
      requires e in table.nodes && pins[e] == 0
      modifies this, table, table.list, lru, pins.Keys
      ensures Represents() && Abs() == DropAt(old(Abs()), k)
      ensures table.list == old(table.list)
    {
      hide HandleTable.Valid;
      Unlist(e, k);
      Untable(e);
      Drop(e);
    }

    /** What following a next pointer from position p of the circle finds. */
    lemma NextInRing(p: nat)
      requires Listed() && p <= |order|
      ensures RingAt(lru, order, p).next == if p < |order| then order[p] else lru
      ensures p < |order| ==> order[p] != lru
    {
      assert RingAt(lru, order, p).next == RingAt(lru, order, p + 1);
    }

    /** One eviction inside either pass. */
    method EvictNext(e: LRUHandle, ghost p: nat, charge: nat, ghost s: LruState, ghost gone: seq<LRUHandle>)
      requires Represents() && Evicting(s, charge, gone, Abs())
      requires p < |order| && order[p] == e && gone + [e] <= Candidates(s.order)
      requires usage + charge > capacity
      modifies this, table, table.list, lru, pins.Keys
      ensures Represents() && Evicting(s, charge, gone + [e], Abs())
      ensures order == old(order)[..p] + old(order)[p + 1..] && capacity == old(capacity)
      ensures table.list == old(table.list) && pins.Keys <= old(pins.Keys)
    {
      EvictingNext(s, charge, gone, Abs(), p);
      ListedEntry(Abs(), p);
      EvictOneEntry(e, p);
    }

    /** The first pass stands at cur, after the first j entries of the list it started from. */
    ghost predicate FirstPass(s: LruState, charge: nat, deleted: seq<LRUHandle>, j: nat, cur: LRUHandle)
      reads this, table, table.list, lru, pins.Keys, cur
    {
      && Represents() && Evicting(s, charge, deleted, Abs())
      && Scanned(s.order, j, deleted, order)
      && var p := |OfPriority(s.order[..j], DURABLE)|;
         p <= |order| && cur == RingAt(lru, order, p) && cur.next == if p < |order| then order[p] else lru
    }

    /** One turn of the first pass: steps over a DURABLE entry, evicts a NORMAL one. */
    method FirstPassStep(cur: LRUHandle, charge: nat, deleted: seq<LRUHandle>, ghost s: LruState, ghost j: nat)
      returns (cur': LRUHandle, deleted': seq<LRUHandle>)
      requires FirstPass(s, charge, deleted, j, cur) && usage + charge > capacity && cur.next != lru
      modifies this, table, table.list, lru, pins.Keys
      ensures j < |s.order| && FirstPass(s, charge, deleted', j + 1, cur')
      ensures table.list == old(table.list) && pins.Keys <= old(pins.Keys)
    {
      ScanStep(s.order, j, deleted, order);
      ghost var p := |OfPriority(s.order[..j], DURABLE)|;
      var e := cur.next;
      if e.priority == DURABLE {
        NextInRing(p + 1);
        cur', deleted' := cur.next, deleted;
      } else {
        EvictNext(e, p, charge, s, deleted);
        NextInRing(p);
        cur', deleted' := cur, deleted + [e];
      }
    }

    /** The first pass: NORMAL entries, oldest first, stepping over DURABLE ones. */
    method EvictNormal(charge: nat) returns (deleted: seq<LRUHandle>)
      requires Represents() && Inv(Abs())
      modifies this, table, table.list, lru, pins.Keys
      ensures Represents() && Evicting(old(Abs()), charge, deleted, Abs())
      ensures usage + charge > capacity ==>
        deleted == OfPriority(old(order), NORMAL) && order == OfPriority(old(order), DURABLE)
      ensures table.list == old(table.list) && pins.Keys <= old(pins.Keys)
    {
      ghost var s := Abs();
      var cur;
      ghost var j;
      cur, deleted, j := FirstPassLoop(charge);
      if usage + charge > capacity {
        ScanStops(s.order, j, deleted, order);
      }
    }

    method FirstPassLoop(charge: nat) returns (cur: LRUHandle, deleted: seq<LRUHandle>, ghost j: nat)
      requires Represents() && Inv(Abs())
      modifies this, table, table.list, lru, pins.Keys
      ensures FirstPass(old(Abs()), charge, deleted, j, cur)
      ensures usage + charge > capacity ==> cur.next == lru
      ensures table.list == old(table.list) && pins.Keys <= old(pins.Keys)
    {
      hide HandleTable.Valid;
      ghost var s := Abs();
      EvictingStart(s, charge);
      NextInRing(0);
      cur, deleted, j := lru, [], 0;
      while usage + charge > capacity && cur.next != lru
        invariant FirstPass(s, charge, deleted, j, cur)
        invariant table.list == old(table.list) && pins.Keys <= old(pins.Keys)
        decreases |s.order| - j
      {
        cur, deleted := FirstPassStep(cur, charge, deleted, s, j);
        j := j + 1;
      }
    }

    /** The second pass has given up deleted after gone; what is left is DURABLE. */
    ghost predicate SecondPass(s: LruState, charge: nat, gone: seq<LRUHandle>)
      reads this, table, table.list, lru, pins.Keys
    {
      && Represents() && Evicting(s, charge, gone, Abs())
      && (usage + charge > capacity ==> gone + order == Candidates(s.order) && AllDurable(order))
      && lru.next == if order != [] then order[0] else lru
    }

    method SecondPassStep(charge: nat, ghost s: LruState, ghost gone: seq<LRUHandle>) returns (e: LRUHandle)
      requires SecondPass(s, charge, gone) && usage + charge > capacity && lru.next != lru
      modifies this, table, table.list, lru, pins.Keys
      ensures SecondPass(s, charge, gone + [e]) && |order| < |old(order)|
      ensures e.priority == DURABLE
      ensures table.list == old(table.list) && pins.Keys <= old(pins.Keys)
    {
      e := lru.next;
      TailStep(gone, order, Candidates(s.order));
      EvictNext(e, 0, charge, s, gone);
      NextInRing(0);
    }

    /** The second pass: whatever is left, which by then is DURABLE. */
    method EvictDurable(charge: nat, deleted: seq<LRUHandle>, ghost s: LruState) returns (deleted': seq<LRUHandle>)
      requires Represents() && Evicting(s, charge, deleted, Abs())
      requires usage + charge > capacity ==>
        deleted == OfPriority(s.order, NORMAL) && order == OfPriority(s.order, DURABLE)
      modifies this, table, table.list, lru, pins.Keys
      ensures Represents() && Evicting(s, charge, deleted', Abs())
      ensures usage + charge > capacity ==> deleted' == Candidates(s.order)
      ensures table.list == old(table.list) && pins.Keys <= old(pins.Keys)
    {
      deleted' := deleted;
      NextInRing(0);
      InOfPriority(s.order, DURABLE);
      while usage + charge > capacity && lru.next != lru
        invariant SecondPass(s, charge, deleted')
        invariant table.list == old(table.list) && pins.Keys <= old(pins.Keys)
        decreases |order|
      {
        var e := SecondPassStep(charge, s, deleted');
        assert e.priority == DURABLE;
        deleted' := deleted' + [e];
      }
      NextInRing(0);
    }

    /** Two passes over the list, until charge more fits or nothing is left. */
    method EvictFromLru(charge: nat) returns (deleted: seq<LRUHandle>)
      requires Represents() && Inv(Abs())
      modifies this, table, table.list, lru, pins.Keys
      ensures Represents() && deleted == Victims(old(Abs()), charge)
      ensures Abs() == Evict(old(Abs()), deleted)
      ensures table.list == old(table.list) && pins.Keys <= old(pins.Keys)
    {
      ghost var s := Abs();
      deleted := EvictNormal(charge);
      deleted := EvictDurable(charge, deleted, s);
      EvictingDone(s, charge, deleted, Abs());
    }

    /** An entry that has left the table: its flag goes, and so does the cache's own reference. */
    method Retire(e: LRUHandle) returns (last: bool)
      requires Pending(e) && (e in order <==> pins[e] == 0)
      modifies `usage, `pins, `order, lru`next, lru`prev, pins.Keys`next, pins.Keys`prev, e`refs, e`inCache
      ensures Represents() && last == (e in old(order)) && Abs() == Retired(old(Abs()), e)
    {
      hide HandleTable.Valid;
      last := e.refs == 1;
      if last {
        ghost var k :| 0 <= k < |order| && order[k] == e;
        RetireAt(Abs(), k);
        Unlist(e, k);
        Drop(e);
      } else {
        e.inCache := false;
        var zero := Unref(e);
      }
    }

    /** The deleters run, once the lock is released. */
    method Free(entries: seq<LRUHandle>)
      modifies `freed
      ensures Abs() == Freed(old(Abs()), entries)
    {
      freed := freed + entries;
    }

    method SetCapacity(capacity: nat)
      requires Valid()
      modifies this, table, table.list, lru, pins.Keys
      ensures Valid() && Abs() == LruSpec.SetCapacity(old(Abs()), capacity)
      ensures fresh(Footprint() - old(Footprint()))
    {
      hide Inv, HandleTable.Valid, Represents;
      StepNewcomers(Abs(), DoSetCapacity(capacity));
      SetCapacitySafe(Abs(), capacity);
      InvIgnores(Abs(), capacity, lookupCount);
      this.capacity := capacity;
      var deleted := EvictFromLru(0);
      Free(deleted);
    }

    method Lookup(key: CacheKey, hash: Hash) returns (e: LRUHandle?)
      requires Valid()
      modifies this, table, table.list, lru, pins.Keys
      ensures Valid() && Abs() == LruSpec.Lookup(old(Abs()), (key, hash))
      ensures Found(old(table.nodes), (key, hash), e) && fresh(Footprint() - old(Footprint()))
    {
      hide Inv, HandleTable.Valid;
      StepNewcomers(Abs(), DoLookup((key, hash)));
      ghost var s := Abs();
      LookupSafe(s, (key, hash));
      InvIgnores(s, capacity, lookupCount + 1);
      lookupCount := lookupCount + 1;
      e := table.Lookup(key, hash);
      FoundMatch(table.nodes, (key, hash), e);
      if e != null {
        Take(e);
      }
      assert Abs() == LruSpec.Lookup(s, (key, hash));
    }

    /** Hands out one more reference to a cached entry, which is then no longer evictable. */
    method Take(e: LRUHandle)
      requires Represents() && Inv(Abs()) && e in table.nodes
      modifies `hitCount, `order, `pins, lru`next, lru`prev, pins.Keys`next, pins.Keys`prev, e`refs
      ensures Represents() && Abs() == Pinned(old(Abs()), e).(hits := old(hitCount) + 1)
    {
      hide Inv, HandleTable.Valid, Ring;
      CachedRefs(e);
      Detach(e);
      Pin(e);
      hitCount := hitCount + 1;
    }

    lemma CachedRefs(e: LRUHandle)
      requires Represents() && Inv(Abs()) && e in table.nodes
      ensures e in pins && (e.refs == 1 <==> e in order)
    {
    }

    /** Takes an entry whose only reference is the cache's own off the list. */
    method Detach(e: LRUHandle)
      requires Listed() && e in pins && (e.refs == 1 <==> e in order)
      modifies `order, lru`next, lru`prev, pins.Keys`next, pins.Keys`prev
      ensures Listed() && Abs() == old(Abs()).(order := Without(old(order), [e]))
    {
      if e.refs == 1 {
        ghost var k :| 0 <= k < |order| && order[k] == e;
        WithoutOne(order, k);
        Unlist(e, k);
      } else {
        WithoutNone(order, [e]);
      }
    }

    /** Counts one more reference, handed out. */
    method Pin(e: LRUHandle)
      requires Represents() && e in pins
      modifies `pins, e`refs
      ensures Represents() && Abs() == old(Abs()).(pins := old(pins)[e := old(pins)[e] + 1])
    {
      hide HandleTable.Valid;
      e.refs := e.refs + 1;
      pins := pins[e := pins[e] + 1];
    }

    /** Counts one reference less. */
    method Unpin(e: LRUHandle) returns (last: bool)
      requires Represents() && e in pins && pins[e] > 0
      modifies `pins, e`refs
      ensures Represents() && Abs() == old(Abs()).(pins := old(pins)[e := old(pins)[e] - 1])
      ensures last == (e.refs == 0) && e.inCache == old(e.inCache)
    {
      hide HandleTable.Valid, Ring;
      last := Unref(e);
      pins := pins[e := pins[e] - 1];
    }

    /** An entry without references is no longer live. */
    method Bury(e: LRUHandle)
      requires Represents() && e in pins && e !in table.nodes && e !in order
      modifies `usage, `pins
      ensures Represents() && Abs() == old(Abs()).(usage := old(usage) - e.charge, pins := old(pins) - {e})
    {
      usage := usage - e.charge;
      pins := pins - {e};
    }

    /** Puts a live entry at the newest end of the list. */
    method Relist(e: LRUHandle)
      requires Listed() && e in pins && e !in order
      modifies `order, lru`next, lru`prev, pins.Keys`next, pins.Keys`prev
      ensures Listed() && Abs() == old(Abs()).(order := old(order) + [e])
    {
      LruAppend(lru, e, order);
      order := order + [e];
    }

    method Release(e: LRUHandle?)
      requires Valid() && (e != null ==> e in pins && pins[e] > 0)
      modifies this, table, table.list, lru, pins.Keys
      ensures Valid() && Abs() == if e == null then old(Abs()) else LruSpec.Release(old(Abs()), e)
      ensures fresh(Footprint() - old(Footprint()))
    {
      if e != null {
        StepNewcomers(Abs(), DoRelease(e));
        ReleaseSafe(Abs(), e);
        ReleaseHandle(e);
      }
    }

    method ReleaseHandle(e: LRUHandle)
      requires Represents() && Inv(Abs()) && e in pins && pins[e] > 0
      modifies this, table, table.list, lru, pins.Keys
      ensures Represents() && Abs() == LruSpec.Release(old(Abs()), e)
      ensures table.list == old(table.list)
    {
      hide Inv, HandleTable.Valid;
      ReleaseCases(Abs(), e);
      var last := Unpin(e);
      if last {
        Bury(e);
        Free([e]);
      } else if e.inCache && e.refs == 1 {
        ReleaseIdle(e);
      }
    }

    /** Only the cache refers to e now: it becomes evictable, or goes at once if the cache is too full. */
    method ReleaseIdle(e: LRUHandle)
      requires Represents() && e in table.nodes && e !in order && e.refs == 1
      modifies this, table, table.list, lru, pins.Keys
      ensures Represents() && table.list == old(table.list)
      ensures Abs() == if old(usage) > capacity then
          old(Abs()).(cached := old(table.nodes) - {e}, usage := old(usage) - e.charge,
                      pins := old(pins) - {e}, freed := old(freed) + [e])
        else old(Abs()).(order := old(order) + [e])
    {
      if usage > capacity {
        Untable(e);
        Drop(e);
        Free([e]);
      } else {
        Relist(e);
      }
    }

    method Erase(key: CacheKey, hash: Hash)
      requires Valid()
      modifies this, table, table.list, lru, pins.Keys
      ensures Valid() && Abs() == LruSpec.Erase(old(Abs()), (key, hash))
      ensures fresh(Footprint() - old(Footprint()))
    {
      hide Inv;
      StepNewcomers(Abs(), DoErase((key, hash)));
      EraseSafe(Abs(), (key, hash));
      EraseEntry(key, hash);
    }

    method EraseEntry(key: CacheKey, hash: Hash)
      requires Represents() && Inv(Abs())
      modifies this, table, table.list, lru, pins.Keys
      ensures Represents() && Abs() == LruSpec.Erase(old(Abs()), (key, hash))
      ensures table.list == old(table.list)
    {
      hide Inv;
      ghost var s := Abs();
      var e := TakeOut(key, hash);
      EraseIs(s, (key, hash), e);
      var dead := RetireDisplaced(e);
      Free(dead);
    }

    /** Removes whatever entry the table has under a key, leaving its count and flag to the caller. */
    method TakeOut(key: CacheKey, hash: Hash) returns (e: LRUHandle?)
      requires Represents()
      modifies table, table.list, pins.Keys`nextHash
      ensures Found(old(table.nodes), (key, hash), e) && Pending(e) && table.list == old(table.list)
      ensures Abs() == old(Abs()).(cached := Minus(old(table.nodes), e))
    {
      e := table.Remove(key, hash);
    }

    method Prune() returns (count: nat)
      requires Valid()
      modifies this, table, table.list, lru, pins.Keys
      ensures Valid() && Abs() == LruSpec.Prune(old(Abs())) && count == |old(order)|
      ensures fresh(Footprint() - old(Footprint()))
    {
      hide Inv;
      StepNewcomers(Abs(), DoPrune);
      PruneSafe(Abs());
      var deleted := PruneAll();
      Free(deleted);
      count := |deleted|;
    }

    method PruneAll() returns (deleted: seq<LRUHandle>)
      requires Represents() && Inv(Abs())
      modifies this, table, table.list, lru, pins.Keys
      ensures Represents() && deleted == old(order) && Abs() == Evict(old(Abs()), deleted)
      ensures table.list == old(table.list)
    {
      ghost var s := Abs();
      PruneStart(s);
      NextInRing(0);
      deleted := [];
      while lru.next != lru
        invariant PrunePass(s, deleted)
        invariant table.list == old(table.list) && pins.Keys <= old(pins.Keys)
        decreases |order|
      {
        var e := PruneStep(s, deleted);
        deleted := deleted + [e];
      }
      NextInRing(0);
      assert deleted + [] == deleted;
    }

    ghost predicate PrunePass(s: LruState, deleted: seq<LRUHandle>)
      reads this, table, table.list, lru, pins.Keys
    {
      Represents() && Pruning(s, deleted, Abs()) && lru.next == if order != [] then order[0] else lru
    }

    method PruneStep(ghost s: LruState, ghost deleted: seq<LRUHandle>) returns (e: LRUHandle)
      requires PrunePass(s, deleted) && lru.next != lru
      modifies this, table, table.list, lru, pins.Keys
      ensures PrunePass(s, deleted + [e]) && |order| < |old(order)|
      ensures table.list == old(table.list) && pins.Keys <= old(pins.Keys)
    {
      e := lru.next;
      PruneNext(s, deleted, Abs());
      ListedEntry(Abs(), 0);
      EvictOneEntry(e, 0);
      NextInRing(0);
    }

    /** Puts a new entry into the table, leaving an entry it displaces to the caller. */
    method IntoTable(e: LRUHandle) returns (displaced: LRUHandle?)
      requires Represents() && e !in pins && e != lru
      modifies table, table.list, pins.Keys`nextHash, e`nextHash
      ensures Found(old(table.nodes), e.Id(), displaced) && table.nodes == Swapped(old(table.nodes), displaced, e)
      ensures table.Valid() && Listed() && CountedBut(displaced)
      ensures displaced != null ==> displaced in pins && displaced.refs == pins[displaced] + 1
      ensures table.list == old(table.list) || fresh(table.list)
    {
      displaced := table.Insert(e);
    }

    /** The new entry becomes live, held once. */
    method Account(e: LRUHandle, ghost displaced: LRUHandle?)
      requires Listed() && CountedBut(displaced) && e !in pins && e in table.nodes && e != lru
      requires e.refs == 2 && e.inCache && e.next == null && e.prev == null
      modifies `usage, `pins
      ensures Listed() && CountedBut(displaced)
      ensures usage == old(usage) + e.charge && pins == old(pins)[e := 1]
    {
      usage := usage + e.charge;
      pins := pins[e := 1];
    }

    method Enter(e: LRUHandle) returns (displaced: LRUHandle?)
      requires Represents() && e !in pins && e != lru
      requires e.refs == 2 && e.inCache && e.next == null && e.prev == null
      modifies `usage, `pins, table, table.list, pins.Keys`nextHash, e`nextHash
      ensures Found(old(table.nodes), e.Id(), displaced) && Pending(displaced)
      ensures Abs() == Entered(old(Abs()), e, displaced)
      ensures table.list == old(table.list) || fresh(table.list)
    {
      hide HandleTable.Valid, Ring, Found;
      displaced := IntoTable(e);
      Account(e, displaced);
    }

    method RetireDisplaced(e: LRUHandle?) returns (dead: seq<LRUHandle>)
      requires Pending(e) && (e != null ==> (e in order <==> pins[e] == 0))
      modifies `usage, `pins, `order, lru`next, lru`prev, pins.Keys`next, pins.Keys`prev, pins.Keys`refs, pins.Keys`inCache
      ensures Represents() && Abs() == RetireAny(old(Abs()), e) && dead == DeadAfter(old(Abs()), e)
    {
      dead := [];
      if e != null {
        var last := Retire(e);
        if last {
          dead := [e];
        }
      }
    }

    method Insert(key: CacheKey, hash: Hash, value: int, charge: nat, priority: CachePriority)
      returns (e: LRUHandle)
      requires Valid()
      modifies this, table, table.list, lru, pins.Keys
      ensures Valid() && fresh(e) && Abs() == LruSpec.Insert(old(Abs()), e)
      ensures e.Id() == (key, hash) && e.value == value && e.charge == charge && e.priority == priority
      ensures fresh(Footprint() - old(Footprint()))
    {
      hide Inv;
      ghost var s := Abs();
      e := new LRUHandle(key, hash, value, charge, priority);
      InsertSafe(s, e);
      StepNewcomers(s, DoInsert(e));
      InsertEntry(e);
    }

    method InsertEntry(e: LRUHandle)
      requires Represents() && Inv(Abs()) && e !in pins && e != lru
      requires e.refs == 2 && e.inCache && e.next == null && e.prev == null
      modifies this, table, table.list, lru, pins.Keys, e
      ensures Represents() && Abs() == LruSpec.Insert(old(Abs()), e)
      ensures table.list == old(table.list) || fresh(table.list)
    {
      hide Inv, LRUCache.Represents, LRUCache.Pending;
      ghost var s := Abs();
      var deleted, displaced := EvictAndEnter(e);
      InsertIs(s, e, displaced);
      FinishInsert(displaced, deleted);
    }

    method FinishInsert(displaced: LRUHandle?, deleted: seq<LRUHandle>)
      requires Pending(displaced) && (displaced != null ==> (displaced in order <==> pins[displaced] == 0))
      modifies `usage, `pins, `order, `freed, lru`next, lru`prev, pins.Keys`next, pins.Keys`prev, pins.Keys`refs, pins.Keys`inCache
      ensures Represents()
      ensures Abs() == Freed(RetireAny(old(Abs()), displaced), deleted + DeadAfter(old(Abs()), displaced))
    {
      var dead := RetireDisplaced(displaced);
      Free(deleted + dead);
    }

    method EvictAndEnter(e: LRUHandle) returns (deleted: seq<LRUHandle>, displaced: LRUHandle?)
      requires Represents() && Inv(Abs()) && e !in pins && e != lru
      requires e.refs == 2 && e.inCache && e.next == null && e.prev == null
      modifies this, table, table.list, lru, pins.Keys, e`nextHash
      ensures deleted == Victims(old(Abs()), e.charge)
      ensures Abs() == Entered(Evict(old(Abs()), deleted), e, displaced)
      ensures Found(Evict(old(Abs()), deleted).cached, e.Id(), displaced)
      ensures Pending(displaced)
      ensures table.list == old(table.list) || fresh(table.list)
    {
      hide Inv;
      deleted := EvictFromLru(e.charge);
      displaced := Enter(e);
    }
  }
}
