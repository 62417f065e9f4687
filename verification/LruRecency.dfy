/** Why the list is least recently used first: over every run its order is the order of the last releases. */
module LruRecency {
  import opened LruHandles
  import opened HandleTables
  import opened LruSpec
  import opened LruRuns

  /** x stands ahead of y. */
  ghost predicate Ahead(order: seq<LRUHandle>, x: LRUHandle, y: LRUHandle) {
    exists i, j :: 0 <= i < j < |order| && order[i] == x && order[j] == y
  }

  /** Whether what is listed afterwards was listed before, in the same order. */
  ghost predicate KeepsOrder(order: seq<LRUHandle>, order': seq<LRUHandle>) {
    forall x, y :: x in order' && y in order' && x != y ==>
      x in order && y in order && (Ahead(order', x, y) <==> Ahead(order, x, y))
  }

  lemma WithoutKeepsOrder(order: seq<LRUHandle>, gone: seq<LRUHandle>)
    requires NoDuplicates(order)
    ensures KeepsOrder(order, Without(order, gone))
  {
    InWithout(order, gone);
    forall x, y | x in Without(order, gone) && y in Without(order, gone) && x != y
      ensures Ahead(Without(order, gone), x, y) <==> Ahead(order, x, y)
    {
      Survive(order, gone, x, y);
      Survive(order, gone, y, x);
      OneWay(order, x, y);
      OneWay(Without(order, gone), x, y);
    }
  }

  lemma Survive(order: seq<LRUHandle>, gone: seq<LRUHandle>, x: LRUHandle, y: LRUHandle)
    requires NoDuplicates(order) && x !in gone && y !in gone
    ensures Ahead(order, x, y) ==> Ahead(Without(order, gone), x, y)
  {
    if Ahead(order, x, y) {
      var i, j :| 0 <= i < j < |order| && order[i] == x && order[j] == y;
      var a, b := SurvivorsKeepOrder(order, gone, i, j);
    }
  }

  /** Of two listed entries exactly one is ahead of the other. */
  lemma OneWay(order: seq<LRUHandle>, x: LRUHandle, y: LRUHandle)
    requires NoDuplicates(order) && x in order && y in order && x != y
    ensures Ahead(order, x, y) <==> !Ahead(order, y, x)
  {
    var i :| 0 <= i < |order| && order[i] == x;
    var j :| 0 <= j < |order| && order[j] == y;
    assert i < j || j < i;
  }

  /** One operation: an entry comes into the list only when it is released, at the newest end; the others keep their
      order. */
  lemma StepOrder(s: LruState, op: Op, x: LRUHandle, y: LRUHandle)
    requires Safe(s) && Allowed(s, op)
    requires x in Step(s, op).order && y in Step(s, op).order && x != y
    ensures op != DoRelease(x) ==> x in s.order
    ensures op == DoRelease(y) ==> Ahead(Step(s, op).order, x, y)
    ensures op != DoRelease(x) && op != DoRelease(y) ==> (Ahead(Step(s, op).order, x, y) <==> Ahead(s.order, x, y))
  {
    match op
    case DoRelease(h) => ReleaseOrder(s, h, x, y);
    case _ =>
      OthersKeepOrder(s, op);
  }

  lemma ReleaseOrder(s: LruState, h: LRUHandle, x: LRUHandle, y: LRUHandle)
    requires Safe(s) && h in s.pins && s.pins[h] > 0
    requires x in Release(s, h).order && y in Release(s, h).order && x != y
    ensures x != h ==> x in s.order
    ensures y == h ==> Ahead(Release(s, h).order, x, y)
    ensures x != h && y != h ==> (Ahead(Release(s, h).order, x, y) <==> Ahead(s.order, x, y))
  {
    ReleaseCases(s, h);
    var order' := Release(s, h).order;
    if order' == s.order + [h] {
      if y == h {
        var i :| 0 <= i < |order'| && order'[i] == x;
        assert order'[|s.order|] == y;
      } else if x != h {
        Appended(s.order, h, x, y);
      }
    }
  }

  lemma Appended(order: seq<LRUHandle>, h: LRUHandle, x: LRUHandle, y: LRUHandle)
    requires y != h
    ensures Ahead(order + [h], x, y) <==> Ahead(order, x, y)
  {
    if Ahead(order, x, y) {
      var i, j :| 0 <= i < j < |order| && order[i] == x && order[j] == y;
      assert (order + [h])[i] == x && (order + [h])[j] == y;
    }
  }

  lemma OthersKeepOrder(s: LruState, op: Op)
    requires Safe(s) && Allowed(s, op) && !op.DoRelease?
    ensures KeepsOrder(s.order, Step(s, op).order)
  {
    match op
    case DoInsert(e) => InsertKeepsOrder(s, e);
    case DoLookup(id) =>
      if Matches(s.cached, id) {
        WithoutKeepsOrder(s.order, [Match(s.cached, id)]);
      }
    case DoErase(id) => EraseKeepsOrder(s, id);
    case DoPrune => InWithout(s.order, s.order);
    case DoSetCapacity(capacity) => WithoutKeepsOrder(s.order, Victims(s.(capacity := capacity), 0));
  }

  lemma InsertKeepsOrder(s: LruState, e: LRUHandle)
    requires Safe(s)
    ensures KeepsOrder(s.order, Insert(s, e).order)
  {
    var s1 := MakeRoom(s, e.charge);
    MakeRoomSafe(s, e.charge);
    WithoutKeepsOrder(s.order, Victims(s, e.charge));
    EraseKeepsOrder(s1, e.Id());
    assert s1.order == Without(s.order, Victims(s, e.charge)) && Insert(s, e).order == Erase(s1, e.Id()).order;
    hide *;
    OrderTwice(s.order, s1.order, Erase(s1, e.Id()).order);
  }

  lemma OrderTwice(a: seq<LRUHandle>, b: seq<LRUHandle>, c: seq<LRUHandle>)
    requires KeepsOrder(a, b) && KeepsOrder(b, c)
    ensures KeepsOrder(a, c)
  {
  }

  lemma EraseKeepsOrder(s: LruState, id: EntryId)
    requires Inv(s)
    ensures KeepsOrder(s.order, Erase(s, id).order)
  {
    if Matches(s.cached, id) {
      WithoutKeepsOrder(s.order, [Match(s.cached, id)]);
    }
  }

  /** The number of the last release of an entry in a run, counted from 1; 0 if there is none. */
  function LastRelease(ops: seq<Op>, e: LRUHandle): nat {
    if ops == [] then 0
    else if ops[|ops| - 1] == DoRelease(e) then |ops|
    else LastRelease(ops[..|ops| - 1], e)
  }

  lemma {:induction false} LastReleaseFront(ops: seq<Op>, e: LRUHandle)
    requires ops != []
    ensures LastRelease(ops, e)
         == if LastRelease(ops[1..], e) > 0 then LastRelease(ops[1..], e) + 1
            else if ops[0] == DoRelease(e) then 1 else 0
  {
    var last := |ops| - 1;
    if last > 0 && ops[last] != DoRelease(e) {
      LastReleaseFront(ops[..last], e);
      assert ops[1..][..last - 1] == ops[..last][1..];
    }
  }

  lemma {:induction false} LastReleaseUnique(ops: seq<Op>, x: LRUHandle, y: LRUHandle)
    requires x != y
    ensures LastRelease(ops, x) <= |ops|
    ensures LastRelease(ops, x) > 0 ==> LastRelease(ops, x) != LastRelease(ops, y)
  {
    if ops != [] {
      LastReleaseUnique(ops[..|ops| - 1], x, y);
      LastReleaseUnique(ops[..|ops| - 1], y, x);
    }
  }

  /** Over every run: of two listed entries, the one whose last release came earlier stands ahead; two that were not
      released in the run were both listed at its start, in the same order. */
  lemma {:induction false} RunOrder(s: LruState, ops: seq<Op>, s': LruState, x: LRUHandle, y: LRUHandle)
    requires Safe(s) && Runs(s, ops, s') && x in s'.order && y in s'.order && x != y
    ensures LastRelease(ops, x) < LastRelease(ops, y) ==> Ahead(s'.order, x, y)
    ensures LastRelease(ops, x) == LastRelease(ops, y) ==>
      x in s.order && y in s.order && (Ahead(s'.order, x, y) <==> Ahead(s.order, x, y))
    decreases ops
  {
    if ops != [] {
      var s1 := Step(s, ops[0]);
      StepSafe(s, ops[0]);
      RunOrder(s1, ops[1..], s', x, y);
      LastReleaseFront(ops, x);
      LastReleaseFront(ops, y);
      LastReleaseUnique(ops[1..], x, y);
      hide Step, Allowed, LastRelease, Ahead, Inv, WithinCapacity;
      if LastRelease(ops[1..], x) == LastRelease(ops[1..], y) {
        StepOrder(s, ops[0], x, y);
        StepOrder(s, ops[0], y, x);
      }
    }
  }

  /** From an empty list on, making room gives up an entry only together with every listed one of the same priority
      that was last released before it. */
  lemma LeastRecentlyReleased(s: LruState, ops: seq<Op>, s': LruState, charge: nat, x: LRUHandle, y: LRUHandle)
    requires Safe(s) && s.order == [] && Runs(s, ops, s')
    requires x in s'.order && y in s'.order && x != y && x.priority == y.priority
    ensures LastRelease(ops, x) != LastRelease(ops, y)
    ensures y in Victims(s', charge) && LastRelease(ops, x) < LastRelease(ops, y) ==> x in Victims(s', charge)
  {
    RunSafe(s, ops, s');
    RunOrder(s, ops, s', x, y);
    if y in Victims(s', charge) && LastRelease(ops, x) < LastRelease(ops, y) {
      var i, j :| 0 <= i < j < |s'.order| && s'.order[i] == x && s'.order[j] == y;
      OldestFirst(s', charge, i, j);
    }
  }
}
