/** What every run of shard operations keeps. */
module LruRuns {
  import opened LruHandles
  import opened HandleTables
  import opened LruSpec

  datatype Op =
    | DoInsert(entry: LRUHandle)
    | DoLookup(id: EntryId)
    | DoRelease(handle: LRUHandle)
    | DoErase(id: EntryId)
    | DoPrune
    | DoSetCapacity(capacity: nat)

  /** What the interface asks of its callers: a new entry is new, and a handle is released only while
      it is outstanding. */
  ghost predicate Allowed(s: LruState, op: Op) {
    match op
    case DoInsert(e) => e !in s.pins && e !in s.freed
    case DoRelease(e) => e in s.pins && s.pins[e] > 0
    case _ => true
  }

  ghost function Step(s: LruState, op: Op): LruState
    requires Inv(s) && Allowed(s, op)
  {
    match op
    case DoInsert(e) => Insert(s, e)
    case DoLookup(id) => Lookup(s, id)
    case DoRelease(e) => Release(s, e)
    case DoErase(id) => Erase(s, id)
    case DoPrune => Prune(s)
    case DoSetCapacity(capacity) => SetCapacity(s, capacity)
  }

  /** s' is reached from s by performing ops in order, each allowed when it is performed. */
  ghost predicate Runs(s: LruState, ops: seq<Op>, s': LruState)
    decreases ops
  {
    if ops == [] then s == s'
    else Inv(s) && Allowed(s, ops[0]) && Runs(Step(s, ops[0]), ops[1..], s')
  }

  ghost predicate Safe(s: LruState) {
    Inv(s) && WithinCapacity(s)
  }

  lemma MakeRoomSafe(s: LruState, charge: nat)
    requires Inv(s)
    ensures Inv(MakeRoom(s, charge))
    ensures MakeRoom(s, charge).usage + charge <= s.capacity || MakeRoom(s, charge).order == []
  {
    VictimsInList(s, charge);
    EvictMakesRoom(s, charge);
    EvictKeepsInv(s, Victims(s, charge));
  }

  lemma EraseKeeps(s: LruState, id: EntryId)
    requires Inv(s)
    ensures Inv(Erase(s, id))
    ensures forall e :: e in Erase(s, id).cached ==> e.Id() != id
    ensures Erase(s, id).usage <= s.usage && (s.order == [] ==> Erase(s, id).order == [])
    ensures forall e :: e in Erase(s, id).pins || e in Erase(s, id).freed ==> e in s.pins || e in s.freed
    ensures forall e :: e in Erase(s, id).pins ==> e in s.pins
  {
    if Matches(s.cached, id) && Match(s.cached, id) in s.order {
      EvictKeepsInv(s, [Match(s.cached, id)]);
    }
  }

  lemma AdmitKeeps(s: LruState, e: LRUHandle)
    requires Inv(s) && e !in s.pins && e !in s.freed
    requires forall x :: x in s.cached ==> x.Id() != e.Id()
    ensures Inv(Admit(s, e))
  {
    assert Admit(s, e).pins.Keys - {e} == s.pins.Keys;
    ChargesRemove(Admit(s, e).pins.Keys, e);
  }

  lemma InsertSafe(s: LruState, e: LRUHandle)
    requires Safe(s) && e !in s.pins && e !in s.freed
    ensures Safe(Insert(s, e))
  {
    var s1 := MakeRoom(s, e.charge);
    MakeRoomSafe(s, e.charge);
    VictimsInList(s, e.charge);
    assert forall x :: x in s1.pins || x in s1.freed ==> x in s.pins || x in s.freed;
    EraseKeeps(s1, e.Id());
    AdmitKeeps(Erase(s1, e.Id()), e);
  }

  lemma LookupSafe(s: LruState, id: EntryId)
    requires Safe(s)
    ensures Safe(Lookup(s, id))
  {
    if Matches(s.cached, id) {
      var e := Match(s.cached, id);
      InWithout(s.order, [e]);
      assert Lookup(s, id).pins.Keys == s.pins.Keys;
    }
  }

  lemma ReleaseSafe(s: LruState, e: LRUHandle)
    requires Safe(s) && e in s.pins && s.pins[e] > 0
    ensures Safe(Release(s, e))
  {
    var s' := Release(s, e);
    if s.pins[e] > 1 || (e in s.cached && s.usage <= s.capacity) {
      assert s'.pins.Keys == s.pins.Keys;
    } else {
      assert s'.pins.Keys == s.pins.Keys - {e};
      ChargesRemove(s.pins.Keys, e);
    }
  }

  lemma EraseSafe(s: LruState, id: EntryId)
    requires Safe(s)
    ensures Safe(Erase(s, id))
  {
    EraseKeeps(s, id);
  }

  lemma PruneSafe(s: LruState)
    requires Safe(s)
    ensures Safe(Prune(s)) && Prune(s).order == []
  {
    EvictKeepsInv(s, s.order);
    InWithout(s.order, s.order);
    HasElement(Prune(s).order);
  }

  lemma SetCapacitySafe(s: LruState, capacity: nat)
    requires Safe(s)
    ensures Safe(SetCapacity(s, capacity))
  {
    MakeRoomSafe(s.(capacity := capacity), 0);
  }

  lemma EmptySafe(capacity: nat)
    ensures Safe(Empty(capacity)) && SetCapacity(Empty(0), capacity) == Empty(capacity)
  {
    WithoutNone([], []);
    assert Elems([]) == {};
  }

  lemma StepSafe(s: LruState, op: Op)
    requires Safe(s) && Allowed(s, op)
    ensures Safe(Step(s, op))
  {
    match op
    case DoInsert(e) => InsertSafe(s, e);
    case DoLookup(id) => LookupSafe(s, id);
    case DoRelease(e) => ReleaseSafe(s, e);
    case DoErase(id) => EraseSafe(s, id);
    case DoPrune => PruneSafe(s);
    case DoSetCapacity(capacity) => SetCapacitySafe(s, capacity);
  }

  /** Over every run: the bookkeeping stays exact and only held entries can exceed the capacity. */
  lemma {:induction false} RunSafe(s: LruState, ops: seq<Op>, s': LruState)
    requires Safe(s) && Runs(s, ops, s')
    ensures Safe(s')
    decreases ops
  {
    if ops != [] {
      StepSafe(s, ops[0]);
      RunSafe(Step(s, ops[0]), ops[1..], s');
    }
  }

  /** Nothing live is lost: what leaves the live entries is in the deleter log. */
  ghost predicate Accounted(s: LruState, s': LruState) {
    s.freed <= s'.freed && forall e :: e in s.pins ==> e in s'.pins || e in s'.freed
  }

  lemma InsertAccounted(s: LruState, e: LRUHandle)
    requires Safe(s) && e !in s.pins
    ensures Accounted(s, Insert(s, e))
  {
    var s1 := MakeRoom(s, e.charge);
    assert Accounted(s, s1);
    assert Accounted(s1, Erase(s1, e.Id()));
  }

  lemma StepAccounted(s: LruState, op: Op)
    requires Safe(s) && Allowed(s, op)
    ensures Accounted(s, Step(s, op))
  {
    match op
    case DoInsert(e) => InsertAccounted(s, e);
    case DoRelease(e) => assert Accounted(s, Release(s, e));
    case DoErase(id) => assert Accounted(s, Erase(s, id));
    case _ =>
  }

  /** Over every run: an entry that is neither cached nor held any more has had its deleter called,
      exactly once, and an entry that is still cached or held has not. */
  lemma {:induction false} RunFreesOnce(s: LruState, ops: seq<Op>, s': LruState)
    requires Safe(s) && Runs(s, ops, s')
    ensures s.freed <= s'.freed && NoDuplicates(s'.freed)
    ensures forall e :: e in s'.pins ==> e !in s'.freed
    ensures forall e :: e in s.pins && e !in s'.pins ==> e in s'.freed
    ensures forall i :: 0 <= i < |ops| && ops[i].DoInsert? ==>
      ops[i].entry in s'.pins || ops[i].entry in s'.freed
    decreases ops
  {
    RunSafe(s, ops, s');
    if ops != [] {
      StepSafe(s, ops[0]);
      StepAccounted(s, ops[0]);
      RunFreesOnce(Step(s, ops[0]), ops[1..], s');
      forall i | 0 <= i < |ops| && ops[i].DoInsert?
        ensures ops[i].entry in s'.pins || ops[i].entry in s'.freed
      {
        if i > 0 {
          assert ops[i] == ops[1..][i - 1];
        }
      }
    }
  }

  /** Only insertion brings a new entry in: whatever is live or freed afterwards was there before. */
  ghost predicate NoNewcomers(s: LruState, s': LruState, newcomers: set<LRUHandle>) {
    && (forall e :: e in s'.pins ==> e in s.pins || e in newcomers)
    && (forall e :: e in s'.freed ==> e in s.pins || e in s.freed)
  }

  ghost function Newcomers(op: Op): set<LRUHandle> {
    if op.DoInsert? then {op.entry} else {}
  }

  lemma StepNewcomers(s: LruState, op: Op)
    requires Safe(s) && Allowed(s, op)
    ensures NoNewcomers(s, Step(s, op), Newcomers(op))
  {
    match op
    case DoInsert(e) => InsertNewcomers(s, e);
    case DoErase(id) => EraseKeeps(s, id);
    case DoSetCapacity(capacity) => VictimsInList(s.(capacity := capacity), 0);
    case DoPrune =>
    case DoLookup(id) =>
    case DoRelease(e) =>
  }

  lemma InsertNewcomers(s: LruState, e: LRUHandle)
    requires Safe(s) && e !in s.pins && e !in s.freed
    ensures NoNewcomers(s, Insert(s, e), {e})
  {
    var s1 := MakeRoom(s, e.charge);
    MakeRoomSafe(s, e.charge);
    VictimsInList(s, e.charge);
    assert NoNewcomers(s, s1, {});
    EraseKeeps(s1, e.Id());
    assert NoNewcomers(s1, Erase(s1, e.Id()), {});
  }

  // ---- outstanding handles ----

  /** How many handles to e are out. */
  ghost function Outstanding(s: LruState, e: LRUHandle): nat {
    if e in s.pins then s.pins[e] else 0
  }

  /** Whether an operation hands out a handle to e, or takes one back. */
  ghost function Gain(s: LruState, op: Op, e: LRUHandle): int {
    match op
    case DoInsert(entry) => if e == entry then 1 else 0
    case DoLookup(id) => if e in s.cached && e.Id() == id then 1 else 0
    case DoRelease(handle) => if e == handle then -1 else 0
    case _ => 0
  }

  /** The reference count of an entry follows the handles given out and taken back, and nothing else:
      eviction, erasure, pruning and displacement never touch an entry that somebody holds. */
  lemma StepOutstanding(s: LruState, op: Op, e: LRUHandle)
    requires Safe(s) && Allowed(s, op)
    ensures Outstanding(Step(s, op), e) == Outstanding(s, e) + Gain(s, op, e)
  {
    match op
    case DoInsert(entry) => InsertOutstanding(s, entry, e);
    case DoLookup(id) =>
    case DoRelease(handle) => ReleaseCases(s, handle);
    case DoErase(id) => EraseOutstanding(s, id, e);
    case DoPrune =>
    case DoSetCapacity(capacity) => VictimsInList(s.(capacity := capacity), 0);
  }

  lemma EraseOutstanding(s: LruState, id: EntryId, e: LRUHandle)
    requires Inv(s)
    ensures Outstanding(Erase(s, id), e) == Outstanding(s, e)
  {
  }

  lemma InsertOutstanding(s: LruState, entry: LRUHandle, e: LRUHandle)
    requires Safe(s) && entry !in s.pins
    ensures Outstanding(Insert(s, entry), e) == Outstanding(s, e) + if e == entry then 1 else 0
  {
    var s1 := MakeRoom(s, entry.charge);
    MakeRoomSafe(s, entry.charge);
    VictimsInList(s, entry.charge);
    assert Outstanding(s1, e) == Outstanding(s, e);
    EraseOutstanding(s1, entry.Id(), e);
    EraseKeeps(s1, entry.Id());
  }
}
