/** What stays in a shard: exactly which operations take an entry out of the cache, and that it is found until then. */
module LruStability {
  import opened LruHandles
  import opened HandleTables
  import opened LruSpec
  import opened LruRuns

  /** A lookup changes nothing but the counters and, on a hit, the references to the entry found: it is pinned once
      more and taken off the list. */
  lemma LookupIs(s: LruState, id: EntryId, e: LRUHandle?)
    requires Inv(s) && Found(s.cached, id, e)
    ensures var s' := Lookup(s, id);
      && s'.cached == s.cached && s'.usage == s.usage && s'.freed == s.freed && s'.capacity == s.capacity
      && s'.lookups == s.lookups + 1
      && (if e == null then s'.hits == s.hits && s'.pins == s.pins && s'.order == s.order
          else s'.hits == s.hits + 1 && s'.pins == s.pins[e := s.pins[e] + 1] && e !in s'.order
               && (forall x :: x in s.order && x != e ==> x in s'.order)
               && (forall x :: x in s'.order ==> x in s.order))
  {
    FoundMatch(s.cached, id, e);
    if e != null {
      InWithout(s.order, [e]);
    }
  }

  /** Setting the capacity gives up the shortest run of idle entries after which the usage fits, and nothing else. */
  lemma SetCapacityIs(s: LruState, capacity: nat) returns (gone: seq<LRUHandle>)
    requires Inv(s)
    ensures var s' := SetCapacity(s, capacity);
      && s'.capacity == capacity && s'.usage == s.usage - ChargeOf(gone) && s'.freed == s.freed + gone
      && s'.cached == s.cached - Elems(gone) && s'.pins == s.pins - Elems(gone)
      && s'.lookups == s.lookups && s'.hits == s.hits
    ensures NoDuplicates(gone) && (forall e :: e in gone ==> e in s.order) && gone <= Candidates(s.order)
    ensures forall j :: 0 <= j < |gone| ==> s.usage - ChargeOf(gone[..j]) > capacity
    ensures s.usage <= capacity ==> gone == [] && SetCapacity(s, capacity).order == s.order
  {
    gone := TakesLeast(s.(capacity := capacity), 0);
    if gone == [] {
      WithoutNone(s.order, gone);
    }
  }

  /** Making room gives up nothing once the charge fits. */
  lemma TakesLeast(s: LruState, charge: nat) returns (gone: seq<LRUHandle>)
    requires NoDuplicates(s.order)
    ensures gone == Victims(s, charge) && gone <= Candidates(s.order)
    ensures NoDuplicates(gone) && forall e :: e in gone ==> e in s.order
    ensures forall j :: 0 <= j < |gone| ==> s.usage - ChargeOf(gone[..j]) + charge > s.capacity
  {
    gone := Victims(s, charge);
    VictimsInList(s, charge);
    var cs := Candidates(s.order);
    var k := Needed(cs, s.usage, charge, s.capacity);
    NeededIsLeast(cs, s.usage, charge, s.capacity);
    assert forall j :: 0 <= j < k ==> gone[..j] == cs[..j];
  }

  /** Inserting gives up the shortest run of idle entries that makes room, then an entry under the same id, and holds
      the new entry once. */
  lemma InsertTakesLeast(s: LruState, e: LRUHandle) returns (gone: seq<LRUHandle>)
    requires Inv(s) && e !in s.pins
    ensures NoDuplicates(gone) && (forall x :: x in gone ==> x in s.order) && gone <= Candidates(s.order)
    ensures forall j :: 0 <= j < |gone| ==> s.usage - ChargeOf(gone[..j]) + e.charge > s.capacity
    ensures s.freed + gone <= Insert(s, e).freed
    ensures var s' := Insert(s, e);
      && Found(s'.cached, e.Id(), e) && s'.pins.Keys >= s'.cached && e in s'.pins && s'.pins[e] == 1
      && (forall x :: x in s.cached ==> (x in s'.cached <==> x !in gone && x.Id() != e.Id()))
      && (forall x :: x in s'.cached ==> x in s.cached || x == e)
  {
    gone := TakesLeast(s, e.charge);
    var s1 := MakeRoom(s, e.charge);
    MakeRoomSafe(s, e.charge);
    EraseCached(s1, e.Id());
    EraseKeeps(s1, e.Id());
  }

  lemma EraseCached(s: LruState, id: EntryId)
    requires Inv(s)
    ensures forall x :: x in s.cached ==> (x in Erase(s, id).cached <==> x.Id() != id)
    ensures forall x :: x in Erase(s, id).cached ==> x in s.cached
    ensures Erase(s, id).capacity == s.capacity
  {
    if Matches(s.cached, id) {
      var e := Match(s.cached, id);
      assert forall x :: x in s.cached && x.Id() == id ==> x == e;
    }
  }

  /** The operations that may take an entry out of the cache: an erasure or an insertion under its id, an insertion or
      a capacity change that needs room while it is idle, a prune while it is idle, and its last release while the
      usage is above the capacity. */
  ghost predicate MayLeave(s: LruState, op: Op, e: LRUHandle)
    requires e in s.pins
  {
    match op
    case DoErase(id) => e.Id() == id
    case DoInsert(n) => e.Id() == n.Id() || (s.pins[e] == 0 && s.usage + n.charge > s.capacity)
    case DoSetCapacity(capacity) => s.pins[e] == 0 && s.usage > capacity
    case DoPrune => s.pins[e] == 0
    case DoRelease(h) => h == e && s.pins[e] == 1 && s.usage > s.capacity
    case DoLookup(_) => false
  }

  /** Nothing else takes a cached entry out, and only inserting an entry brings it in. */
  lemma StepCached(s: LruState, op: Op, e: LRUHandle)
    requires Safe(s) && Allowed(s, op)
    ensures e in s.cached && !MayLeave(s, op, e) ==> e in Step(s, op).cached
    ensures e in Step(s, op).cached ==> e in s.cached || op == DoInsert(e)
    ensures op == DoInsert(e) ==> e in Step(s, op).cached
  {
    match op
    case DoInsert(n) =>
      var gone := InsertTakesLeast(s, n);
      assert gone != [] ==> gone[..0] == [];
    case DoErase(id) => EraseCached(s, id);
    case DoSetCapacity(capacity) =>
      var gone := SetCapacityIs(s, capacity);
    case DoPrune =>
    case DoLookup(id) =>
    case DoRelease(h) => ReleaseCases(s, h);
  }

  /** The erasures, prunes and releases that may take an entry out do. */
  lemma StepLeaves(s: LruState, op: Op, e: LRUHandle)
    requires Safe(s) && Allowed(s, op) && e in s.cached && MayLeave(s, op, e)
    requires op.DoErase? || op.DoPrune? || op.DoRelease? || (op.DoInsert? && op.entry.Id() == e.Id())
    ensures e !in Step(s, op).cached
  {
    match op
    case DoInsert(n) => var gone := InsertTakesLeast(s, n);
    case DoErase(id) => EraseCached(s, id);
    case DoPrune =>
    case DoRelease(h) => ReleaseCases(s, h);
  }

  /** Only a capacity change changes the capacity; every lookup is counted, and so is every hit. */
  lemma StepCounts(s: LruState, op: Op)
    requires Safe(s) && Allowed(s, op)
    ensures Step(s, op).capacity == if op.DoSetCapacity? then op.capacity else s.capacity
    ensures Step(s, op).lookups == s.lookups + if op.DoLookup? then 1 else 0
    ensures Step(s, op).hits == s.hits + if op.DoLookup? && exists e :: e in s.cached && e.Id() == op.id then 1 else 0
  {
  }

  ghost predicate NeverLeaves(s: LruState, ops: seq<Op>, e: LRUHandle)
    requires Inv(s)
    decreases ops
  {
    ops == []
    || (Allowed(s, ops[0]) && (e in s.pins ==> !MayLeave(s, ops[0], e))
        && (Inv(Step(s, ops[0])) ==> NeverLeaves(Step(s, ops[0]), ops[1..], e)))
  }

  /** Over every run: a cached entry is found under its id until an operation comes that may take it out. */
  lemma {:induction false} StaysFound(s: LruState, ops: seq<Op>, s': LruState, e: LRUHandle)
    requires Safe(s) && Runs(s, ops, s') && e in s.cached && NeverLeaves(s, ops, e)
    ensures Found(s'.cached, e.Id(), e)
    decreases ops
  {
    if ops != [] {
      StepCached(s, ops[0], e);
      StepSafe(s, ops[0]);
      StaysFound(Step(s, ops[0]), ops[1..], s', e);
    }
  }
}
