/** What one LRU shard means, apart from its pointers, and what every run of its operations keeps. */
module LruSpec {
  import opened LruHandles
  import opened HandleTables

  /** order lists the evictable entries, oldest first; pins maps each live entry to the number of
      handles to it that were given out and not yet released; freed logs the deleter calls. */
  datatype LruState = LruState(
    capacity: nat, usage: int, cached: set<LRUHandle>, order: seq<LRUHandle>,
    pins: map<LRUHandle, nat>, freed: seq<LRUHandle>, lookups: nat, hits: nat)

  ghost function Empty(capacity: nat): LruState {
    LruState(capacity, 0, {}, [], map[], [], 0, 0)
  }

  ghost function Charges(es: set<LRUHandle>): nat {
    if es == {} then 0 else var e :| e in es; e.charge + Charges(es - {e})
  }

  ghost function ChargeOf(es: seq<LRUHandle>): nat {
    if es == [] then 0 else es[0].charge + ChargeOf(es[1..])
  }

  /** The documented protocol: an entry is live exactly while it is cached or somebody holds it, and
      it is in the list exactly while it is cached and nobody holds it. */
  ghost predicate Inv(s: LruState) {
    && UniqueIds(s.cached) && s.cached <= s.pins.Keys
    && NoDuplicates(s.order)
    && (forall e :: e in s.order ==> e in s.cached && s.pins[e] == 0)
    && (forall e :: e in s.cached && s.pins[e] == 0 ==> e in s.order)
    && (forall e :: e in s.pins ==> e in s.cached || s.pins[e] > 0)
    && s.usage == Charges(s.pins.Keys)
    && NoDuplicates(s.freed)
    && (forall e :: e in s.freed ==> e !in s.pins)
  }

  /** Only entries somebody holds can keep the usage above the capacity. */
  ghost predicate WithinCapacity(s: LruState) {
    s.usage <= s.capacity || s.order == []
  }

  ghost predicate Matches(cached: set<LRUHandle>, id: EntryId) {
    exists e :: e in cached && e.Id() == id
  }

  ghost function Match(cached: set<LRUHandle>, id: EntryId): (e: LRUHandle)
    requires Matches(cached, id)
    ensures e in cached && e.Id() == id
  {
    var e :| e in cached && e.Id() == id; e
  }

  // ---- eviction ----

  function OfPriority(es: seq<LRUHandle>, p: CachePriority): seq<LRUHandle> {
    if es == [] then []
    else (if es[0].priority == p then [es[0]] else []) + OfPriority(es[1..], p)
  }

  predicate AllDurable(es: seq<LRUHandle>) {
    forall e :: e in es ==> e.priority == DURABLE
  }

  /** The order in which entries may be given up: NORMAL ones oldest first, then DURABLE ones. */
  function Candidates(order: seq<LRUHandle>): seq<LRUHandle> {
    OfPriority(order, NORMAL) + OfPriority(order, DURABLE)
  }

  /** How many candidates have to go before charge more fits, or all of them. */
  function Needed(cs: seq<LRUHandle>, usage: int, charge: nat, capacity: nat): (k: nat)
    ensures k <= |cs|
  {
    if usage + charge <= capacity || cs == [] then 0
    else 1 + Needed(cs[1..], usage - cs[0].charge, charge, capacity)
  }

  function Victims(s: LruState, charge: nat): seq<LRUHandle> {
    var cs := Candidates(s.order);
    cs[..Needed(cs, s.usage, charge, s.capacity)]
  }

  function Without(es: seq<LRUHandle>, gone: seq<LRUHandle>): seq<LRUHandle> {
    if es == [] then []
    else (if es[0] in gone then [] else [es[0]]) + Without(es[1..], gone)
  }

  /** Everything about the shard that changes when the entries of gone are given up. */
  ghost function Evict(s: LruState, gone: seq<LRUHandle>): LruState {
    var dead := Elems(gone);
    s.(usage := s.usage - ChargeOf(gone), cached := s.cached - dead,
       order := Without(s.order, gone), pins := s.pins - dead)
  }

  ghost function Freed(s: LruState, es: seq<LRUHandle>): LruState {
    s.(freed := s.freed + es)
  }

  // ---- the operations ----

  /** Gives up candidates until charge more fits. */
  ghost function MakeRoom(s: LruState, charge: nat): LruState {
    Freed(Evict(s, Victims(s, charge)), Victims(s, charge))
  }

  ghost function SetCapacity(s: LruState, capacity: nat): LruState {
    MakeRoom(s.(capacity := capacity), 0)
  }

  /** The entry under id that dies at once when another takes its place: a cached one nobody holds. */
  ghost function Displaced(s: LruState, id: EntryId): seq<LRUHandle> {
    if Matches(s.cached, id) && Match(s.cached, id) in s.order then [Match(s.cached, id)] else []
  }

  /** Takes the entry under id out of the cache; it dies if nobody holds it. */
  ghost function Displace(s: LruState, id: EntryId): LruState {
    if !Matches(s.cached, id) then s
    else if Match(s.cached, id) in s.order then Evict(s, [Match(s.cached, id)])
    else s.(cached := s.cached - {Match(s.cached, id)})
  }

  ghost function Erase(s: LruState, id: EntryId): LruState {
    Freed(Displace(s, id), Displaced(s, id))
  }

  /** A new entry comes in, cached and held once. */
  ghost function Admit(s: LruState, e: LRUHandle): LruState {
    s.(usage := s.usage + e.charge, cached := s.cached + {e}, pins := s.pins[e := 1])
  }

  ghost function Insert(s: LruState, e: LRUHandle): LruState {
    Admit(Erase(MakeRoom(s, e.charge), e.Id()), e)
  }

  /** One more reference to a cached entry is handed out. */
  ghost function Pinned(s: LruState, e: LRUHandle): LruState
    requires e in s.pins
  {
    s.(order := Without(s.order, [e]), pins := s.pins[e := s.pins[e] + 1])
  }

  ghost function Lookup(s: LruState, id: EntryId): LruState
    requires s.cached <= s.pins.Keys
  {
    var s1 := s.(lookups := s.lookups + 1);
    if !Matches(s.cached, id) then s1
    else
      var e := Match(s.cached, id);
      Pinned(s1, e).(hits := s.hits + 1)
  }

  ghost function Release(s: LruState, e: LRUHandle): LruState
    requires e in s.pins && s.pins[e] > 0
  {
    var s1 := s.(pins := s.pins[e := s.pins[e] - 1]);
    if s.pins[e] > 1 then s1
    else if e in s.cached && s.usage <= s.capacity then s1.(order := s.order + [e])
    else Freed(s.(usage := s.usage - e.charge, cached := s.cached - {e}, pins := s.pins - {e}), [e])
  }

  ghost function Prune(s: LruState): LruState {
    Freed(Evict(s, s.order), s.order)
  }

  lemma FoundMatch(cached: set<LRUHandle>, id: EntryId, e: LRUHandle?)
    requires UniqueIds(cached) && Found(cached, id, e)
    ensures if e == null then !Matches(cached, id) else Matches(cached, id) && Match(cached, id) == e
  {
  }

  // ---- sums of charges ----

  lemma {:induction false} ChargesRemove(es: set<LRUHandle>, e: LRUHandle)
    requires e in es
    ensures Charges(es) == e.charge + Charges(es - {e})
  {
    var x :| x in es && Charges(es) == x.charge + Charges(es - {x});
    if x != e {
      ChargesRemove(es - {x}, e);
      ChargesRemove(es - {e}, x);
      assert es - {x} - {e} == es - {e} - {x};
    }
  }

  lemma {:induction false} ChargesWithout(es: set<LRUHandle>, gone: seq<LRUHandle>)
    requires NoDuplicates(gone) && forall e :: e in gone ==> e in es
    ensures Charges(es - Elems(gone)) == Charges(es) - ChargeOf(gone)
  {
    if gone == [] {
      assert es - Elems(gone) == es;
    } else {
      ChargesRemove(es, gone[0]);
      ChargesWithout(es - {gone[0]}, gone[1..]);
      assert es - Elems(gone) == es - {gone[0]} - Elems(gone[1..]);
    }
  }

  lemma {:induction false} ChargeOfAppend(a: seq<LRUHandle>, b: seq<LRUHandle>)
    ensures ChargeOf(a + b) == ChargeOf(a) + ChargeOf(b)
  {
    if a == [] {
      assert a + b == b;
    } else {
      assert (a + b)[1..] == a[1..] + b;
      ChargeOfAppend(a[1..], b);
    }
  }

  lemma InvIgnores(s: LruState, capacity: nat, lookups: nat)
    requires Inv(s)
    ensures Inv(s.(capacity := capacity, lookups := lookups))
  {
  }

  // ---- what filtering keeps ----

  lemma {:induction false} InOfPriority(es: seq<LRUHandle>, p: CachePriority)
    requires NoDuplicates(es)
    ensures NoDuplicates(OfPriority(es, p))
    ensures forall e :: e in OfPriority(es, p) ==> e in es && e.priority == p
    ensures forall e :: e in es && e.priority == p ==> e in OfPriority(es, p)
  {
    if es != [] {
      InOfPriority(es[1..], p);
      assert es[0] !in es[1..];
      assert forall e :: e in es <==> e == es[0] || e in es[1..];
    }
  }

  lemma {:induction false} InWithout(es: seq<LRUHandle>, gone: seq<LRUHandle>)
    requires NoDuplicates(es)
    ensures NoDuplicates(Without(es, gone))
    ensures forall e :: e in Without(es, gone) ==> e in es && e !in gone
    ensures forall e :: e in es && e !in gone ==> e in Without(es, gone)
  {
    if es != [] {
      InWithout(es[1..], gone);
      assert es[0] !in es[1..];
      assert forall e :: e in es <==> e == es[0] || e in es[1..];
    }
  }

  lemma {:induction false} WithoutOne(es: seq<LRUHandle>, k: nat)
    requires NoDuplicates(es) && k < |es|
    ensures Without(es, [es[k]]) == es[..k] + es[k + 1..]
  {
    var e, rest := es[k], es[1..];
    if k == 0 {
      WithoutNone(rest, [e]);
      assert Without(es, [e]) == rest == es[..0] + es[1..];
    } else {
      WithoutOne(rest, k - 1);
      assert Without(es, [e]) == [es[0]] + Without(rest, [e]);
      assert [es[0]] + (rest[..k - 1] + rest[k..]) == es[..k] + es[k + 1..];
    }
  }

  lemma {:induction false} WithoutNone(es: seq<LRUHandle>, gone: seq<LRUHandle>)
    requires forall e :: e in es ==> e !in gone
    ensures Without(es, gone) == es
  {
    if es != [] {
      WithoutNone(es[1..], gone);
    }
  }

  lemma InCandidates(order: seq<LRUHandle>)
    requires NoDuplicates(order)
    ensures NoDuplicates(Candidates(order))
    ensures forall e :: e in Candidates(order) ==> e in order
    ensures forall e :: e in order ==> e in Candidates(order)
  {
    InOfPriority(order, NORMAL);
    InOfPriority(order, DURABLE);
    ConcatNoDuplicates(OfPriority(order, NORMAL), OfPriority(order, DURABLE));
  }

  lemma ConcatNoDuplicates(a: seq<LRUHandle>, b: seq<LRUHandle>)
    requires NoDuplicates(a) && NoDuplicates(b) && forall e :: e in a ==> e !in b
    ensures NoDuplicates(a + b)
  {
    forall i, j | 0 <= i < j < |a + b|
      ensures (a + b)[i] != (a + b)[j]
    {
      assert i < |a| ==> (a + b)[i] in a;
    }
  }

  // ---- eviction ----

  /** Eviction takes the shortest run of candidates that makes room. */
  lemma {:induction false} NeededIsLeast(cs: seq<LRUHandle>, usage: int, charge: nat, capacity: nat)
    ensures var k := Needed(cs, usage, charge, capacity);
      && (k < |cs| ==> usage - ChargeOf(cs[..k]) + charge <= capacity)
      && (forall j :: 0 <= j < k ==> usage - ChargeOf(cs[..j]) + charge > capacity)
  {
    var k := Needed(cs, usage, charge, capacity);
    if k > 0 {
      var rest := cs[1..];
      NeededIsLeast(rest, usage - cs[0].charge, charge, capacity);
      assert forall j :: 0 < j <= |cs| ==> cs[..j][0] == cs[0] && cs[..j][1..] == rest[..j - 1];
      forall j | 0 <= j < k
        ensures usage - ChargeOf(cs[..j]) + charge > capacity
      {
        if j > 0 {
          assert usage - cs[0].charge - ChargeOf(rest[..j - 1]) + charge > capacity;
        }
      }
    }
  }

  lemma EvictKeepsInv(s: LruState, gone: seq<LRUHandle>)
    requires Inv(s) && NoDuplicates(gone) && forall e :: e in gone ==> e in s.order
    ensures Inv(Evict(s, gone)) && Inv(Freed(Evict(s, gone), gone))
  {
    InWithout(s.order, gone);
    ChargesWithout(s.pins.Keys, gone);
    assert Evict(s, gone).pins.Keys == s.pins.Keys - Elems(gone);
    assert forall e :: e in gone ==> e in s.pins;
    ConcatNoDuplicates(s.freed, gone);
  }

  /** The entry at position k of the list dies. */
  ghost function DropAt(s: LruState, k: nat): LruState
    requires k < |s.order|
  {
    var e := s.order[k];
    s.(usage := s.usage - e.charge, cached := s.cached - {e},
       order := s.order[..k] + s.order[k + 1..], pins := s.pins - {e})
  }

  /** What becomes of an entry once the table has let go of it: it dies if nobody holds it. */
  ghost function Retired(s: LruState, e: LRUHandle): LruState {
    if e !in s.order then s
    else s.(usage := s.usage - e.charge, order := Without(s.order, [e]), pins := s.pins - {e})
  }

  lemma RetireAt(s: LruState, k: nat)
    requires NoDuplicates(s.order) && k < |s.order|
    ensures var e := s.order[k];
      Retired(s, e) == s.(usage := s.usage - e.charge, order := s.order[..k] + s.order[k + 1..], pins := s.pins - {e})
  {
    WithoutOne(s.order, k);
  }

  /** The three things that can happen when a handle is given back. */
  lemma ReleaseCases(s: LruState, e: LRUHandle)
    requires Inv(s) && e in s.pins && s.pins[e] > 0
    ensures e !in s.order && s.cached <= s.pins.Keys
    ensures var s1 := s.(pins := s.pins[e := s.pins[e] - 1]);
      if s.pins[e] > 1 then Release(s, e) == s1
      else if e !in s.cached then
        Release(s, e) == s1.(usage := s1.usage - e.charge, pins := s1.pins - {e}, freed := s1.freed + [e])
      else if s.usage > s.capacity then
        Release(s, e) == s1.(cached := s1.cached - {e}, usage := s1.usage - e.charge,
                             pins := s1.pins - {e}, freed := s1.freed + [e])
      else Release(s, e) == s1.(order := s1.order + [e])
  {
    assert s.pins[e := s.pins[e] - 1] - {e} == s.pins - {e};
    assert e !in s.cached ==> s.cached - {e} == s.cached;
  }

  lemma DisplaceIsRetire(s: LruState, e: LRUHandle)
    requires Inv(s) && e in s.cached
    ensures Displace(s, e.Id()) == Retired(s.(cached := s.cached - {e}), e)
    ensures Displaced(s, e.Id()) == if e in s.order then [e] else []
  {
    FoundMatch(s.cached, e.Id(), e);
    assert Elems([e]) == {e} && ChargeOf([e]) == e.charge;
  }

  lemma ListedEntry(s: LruState, k: nat)
    requires Inv(s) && k < |s.order|
    ensures s.order[k] in s.cached && s.order[k] in s.pins && s.pins[s.order[k]] == 0
  {
  }

  /** The same for an entry that may not be there, and whose deleter to call. */
  ghost function RetireAny(s: LruState, e: LRUHandle?): LruState {
    if e == null then s else Retired(s, e)
  }

  ghost function DeadAfter(s: LruState, e: LRUHandle?): seq<LRUHandle> {
    if e != null && e in s.order then [e] else []
  }

  /** What the code does to erase an entry: out of the table, then off the list, then the deleter. */
  lemma EraseIs(s: LruState, id: EntryId, e: LRUHandle?)
    requires Inv(s) && Found(s.cached, id, e)
    ensures e != null ==> e in s.pins && (e in s.order <==> s.pins[e] == 0)
    ensures var s1 := s.(cached := Minus(s.cached, e));
      Erase(s, id) == Freed(RetireAny(s1, e), DeadAfter(s1, e))
  {
    FoundMatch(s.cached, id, e);
    if e != null {
      DisplaceIsRetire(s, e);
    }
  }

  /** The state between the table's insertion and what happens to the displaced entry. */
  ghost function Entered(s: LruState, e: LRUHandle, displaced: LRUHandle?): LruState {
    s.(usage := s.usage + e.charge, cached := Swapped(s.cached, displaced, e), pins := s.pins[e := 1])
  }

  /** What the code does to insert an entry, step by step, is what Insert says. */
  lemma InsertIs(s: LruState, e: LRUHandle, displaced: LRUHandle?)
    requires Inv(s) && e !in s.pins
    requires Found(Evict(s, Victims(s, e.charge)).cached, e.Id(), displaced)
    ensures var gone := Victims(s, e.charge);
      var s2 := Entered(Evict(s, gone), e, displaced);
      && (displaced != null ==> displaced in s2.pins && (displaced in s2.order <==> s2.pins[displaced] == 0))
      && Insert(s, e) == Freed(RetireAny(s2, displaced), gone + DeadAfter(s2, displaced))
  {
    var gone := Victims(s, e.charge);
    hide Inv;
    VictimsInList(s, e.charge);
    EvictKeepsInv(s, gone);
    EnterThenRetire(Freed(Evict(s, gone), gone), e, displaced);
  }

  lemma EnterThenRetire(s: LruState, e: LRUHandle, displaced: LRUHandle?)
    requires Inv(s) && e !in s.pins && Found(s.cached, e.Id(), displaced)
    ensures var s1 := Entered(s, e, displaced);
      && (displaced != null ==> displaced in s1.pins && (displaced in s1.order <==> s1.pins[displaced] == 0))
      && Admit(Erase(s, e.Id()), e) == Freed(RetireAny(s1, displaced), DeadAfter(s1, displaced))
  {
    FoundMatch(s.cached, e.Id(), displaced);
    if displaced != null {
      DisplaceIsRetire(s, displaced);
      assert (s.pins - {displaced})[e := 1] == s.pins[e := 1] - {displaced};
    }
  }

  lemma EvictOne(s: LruState, k: nat)
    requires Inv(s) && k < |s.order|
    ensures DropAt(s, k) == Evict(s, [s.order[k]]) && Inv(DropAt(s, k))
  {
    var e := s.order[k];
    assert Elems([e]) == {e} && ChargeOf([e]) == e.charge;
    WithoutOne(s.order, k);
    EvictKeepsInv(s, [e]);
  }

  lemma HasElement(es: seq<LRUHandle>)
    ensures es != [] ==> exists e :: e in es
  {
    if es != [] {
      assert es[0] in es;
    }
  }

  lemma VictimsInList(s: LruState, charge: nat)
    requires NoDuplicates(s.order)
    ensures NoDuplicates(Victims(s, charge)) && forall e :: e in Victims(s, charge) ==> e in s.order
  {
    InCandidates(s.order);
    var cs := Candidates(s.order);
    assert forall e :: e in Victims(s, charge) ==> e in cs;
  }

  /** After eviction the charge fits, or nothing evictable is left. */
  lemma EvictMakesRoom(s: LruState, charge: nat)
    requires NoDuplicates(s.order)
    ensures var s1 := Evict(s, Victims(s, charge));
      s1.usage + charge <= s1.capacity || s1.order == []
  {
    var cs := Candidates(s.order);
    NeededIsLeast(cs, s.usage, charge, s.capacity);
    InCandidates(s.order);
    InWithout(s.order, Victims(s, charge));
    if Needed(cs, s.usage, charge, s.capacity) == |cs| {
      assert Victims(s, charge) == cs;
      HasElement(Without(s.order, cs));
    }
  }

  /** A DURABLE entry goes only when no NORMAL one stays, and eviction never goes on once it fits. */
  lemma DurableLast(s: LruState, charge: nat, d: LRUHandle)
    requires NoDuplicates(s.order) && d in Victims(s, charge) && d.priority == DURABLE
    ensures forall e :: e in Evict(s, Victims(s, charge)).order ==> e.priority == DURABLE
  {
    InOfPriority(s.order, NORMAL);
    InOfPriority(s.order, DURABLE);
    InWithout(s.order, Victims(s, charge));
    var cs := Candidates(s.order);
    PrefixBeyond(OfPriority(s.order, NORMAL), OfPriority(s.order, DURABLE),
                 Needed(cs, s.usage, charge, s.capacity), d);
  }

  /** Among entries of the same priority the older one always goes first. */
  lemma OldestFirst(s: LruState, charge: nat, i: nat, j: nat)
    requires NoDuplicates(s.order) && i < j < |s.order| && s.order[i].priority == s.order[j].priority
    requires s.order[j] in Victims(s, charge)
    ensures s.order[i] in Victims(s, charge)
  {
    hide Needed, Candidates, NoDuplicates;
    var head, tail := OlderAhead(s.order, i, j);
    PrefixBeyond(head, tail, Needed(Candidates(s.order), s.usage, charge, s.capacity), s.order[j]);
  }

  /** The candidates split between two entries of the same priority. */
  lemma OlderAhead(order: seq<LRUHandle>, i: nat, j: nat) returns (head: seq<LRUHandle>, tail: seq<LRUHandle>)
    requires NoDuplicates(order) && i < j < |order| && order[i].priority == order[j].priority
    ensures Candidates(order) == head + tail && order[i] in head && order[j] !in head
  {
    hide OfPriority;
    var p := order[j].priority;
    assert order == order[..j] + order[j..];
    OfPriorityAppend(order[..j], order[j..], p);
    InOfPriority(order[..j], p);
    assert order[..j][i] == order[i];
    head, tail := OfPriority(order[..j], p), OfPriority(order[j..], p);
    if p == NORMAL {
      tail := tail + OfPriority(order, DURABLE);
    } else {
      InOfPriority(order, NORMAL);
      head := OfPriority(order, NORMAL) + head;
    }
  }

  /** Entries that are not given up keep their relative order. */
  lemma SurvivorsKeepOrder(order: seq<LRUHandle>, gone: seq<LRUHandle>, i: nat, j: nat) returns (a: nat, b: nat)
    requires NoDuplicates(order) && i < j < |order| && order[i] !in gone && order[j] !in gone
    ensures a < b < |Without(order, gone)|
    ensures Without(order, gone)[a] == order[i] && Without(order, gone)[b] == order[j]
  {
    assert order == order[..j] + order[j..];
    WithoutAppend(order[..j], order[j..], gone);
    InWithout(order[..j], gone);
    InWithout(order[j..], gone);
    assert order[..j][i] == order[i] && order[j..][0] == order[j];
    var front, back := Without(order[..j], gone), Without(order[j..], gone);
    a :| 0 <= a < |front| && front[a] == order[i];
    var k :| 0 <= k < |back| && back[k] == order[j];
    b := |front| + k;
  }

  lemma {:induction false} WithoutAppend(a: seq<LRUHandle>, b: seq<LRUHandle>, gone: seq<LRUHandle>)
    ensures Without(a + b, gone) == Without(a, gone) + Without(b, gone)
  {
    if a == [] {
      assert a + b == b;
    } else {
      assert (a + b)[1..] == a[1..] + b;
      WithoutAppend(a[1..], b, gone);
    }
  }

  lemma PrefixBeyond(a: seq<LRUHandle>, b: seq<LRUHandle>, n: nat, d: LRUHandle)
    requires n <= |a + b| && d in (a + b)[..n] && d !in a
    ensures forall e :: e in a ==> e in (a + b)[..n]
  {
    var c := (a + b)[..n];
    assert forall i :: 0 <= i < |a| && i < n ==> c[i] == a[i] && a[i] in a;
    assert n > |a|;
    forall e | e in a
      ensures e in c
    {
      var i :| 0 <= i < |a| && a[i] == e;
      assert c[i] == e;
    }
  }

  // ---- what the two eviction loops do, step by step ----

  lemma {:induction false} OfPriorityAppend(a: seq<LRUHandle>, b: seq<LRUHandle>, p: CachePriority)
    ensures OfPriority(a + b, p) == OfPriority(a, p) + OfPriority(b, p)
  {
    if a == [] {
      assert a + b == b;
    } else {
      assert (a + b)[1..] == a[1..] + b;
      OfPriorityAppend(a[1..], b, p);
      var h := if a[0].priority == p then [a[0]] else [];
      assert OfPriority(a, p) == h + OfPriority(a[1..], p);
      assert h + (OfPriority(a[1..], p) + OfPriority(b, p)) == h + OfPriority(a[1..], p) + OfPriority(b, p);
    }
  }

  lemma OfPriorityNext(es: seq<LRUHandle>, j: nat, p: CachePriority)
    requires j < |es|
    ensures OfPriority(es[..j + 1], p) == OfPriority(es[..j], p) + if es[j].priority == p then [es[j]] else []
    ensures OfPriority(es[..j], p) <= OfPriority(es, p)
  {
    assert es[..j + 1] == es[..j] + [es[j]];
    OfPriorityAppend(es[..j], [es[j]], p);
    assert es == es[..j] + es[j..];
    OfPriorityAppend(es[..j], es[j..], p);
  }

  lemma {:induction false} WithoutTwice(es: seq<LRUHandle>, a: seq<LRUHandle>, e: LRUHandle)
    ensures Without(Without(es, a), [e]) == Without(es, a + [e])
  {
    if es != [] {
      WithoutTwice(es[1..], a, e);
      assert es[0] in a + [e] <==> es[0] in a || es[0] == e;
      assert es[0] in [e] <==> es[0] == e;
      var rest := Without(es[1..], a);
      assert ([es[0]] + rest)[1..] == rest && [] + rest == rest;
    }
  }

  /** Giving up one more entry after gone is giving up gone and that entry. */
  lemma EvictMore(s: LruState, gone: seq<LRUHandle>, k: nat)
    requires Inv(s) && NoDuplicates(gone) && forall e :: e in gone ==> e in s.order
    requires k < |Evict(s, gone).order|
    ensures var e := Evict(s, gone).order[k];
      && DropAt(Evict(s, gone), k) == Evict(s, gone + [e])
      && NoDuplicates(gone + [e]) && (forall x :: x in gone + [e] ==> x in s.order)
  {
    var s1 := Evict(s, gone);
    var e := s1.order[k];
    EvictKeepsInv(s, gone);
    EvictOne(s1, k);
    InWithout(s.order, gone);
    ConcatNoDuplicates(gone, [e]);
    EvictTwice(s, gone, e);
  }

  lemma EvictTwice(s: LruState, gone: seq<LRUHandle>, e: LRUHandle)
    ensures Evict(Evict(s, gone), [e]) == Evict(s, gone + [e])
  {
    WithoutTwice(s.order, gone, e);
    ChargeOfAppend(gone, [e]);
    assert Elems(gone + [e]) == Elems(gone) + Elems([e]);
    assert s.cached - Elems(gone) - Elems([e]) == s.cached - Elems(gone + [e]);
    assert s.pins - Elems(gone) - Elems([e]) == s.pins - Elems(gone + [e]);
  }

  /** The state of eviction after gone has been given up: what is still needed comes from the rest. */
  ghost predicate Evicting(s: LruState, charge: nat, gone: seq<LRUHandle>, now: LruState) {
    var cs := Candidates(s.order);
    && Inv(s) && now == Evict(s, gone) && Inv(now)
    && gone <= cs
    && Needed(cs, s.usage, charge, s.capacity) == |gone| + Needed(cs[|gone|..], now.usage, charge, s.capacity)
  }

  lemma EvictingStart(s: LruState, charge: nat)
    requires Inv(s)
    ensures Evicting(s, charge, [], s)
  {
    WithoutNone(s.order, []);
    EvictKeepsInv(s, []);
    assert s.cached - Elems([]) == s.cached && s.pins - Elems([]) == s.pins;
    assert Candidates(s.order)[0..] == Candidates(s.order);
  }

  lemma EvictingNext(s: LruState, charge: nat, gone: seq<LRUHandle>, now: LruState, k: nat)
    requires Evicting(s, charge, gone, now) && k < |now.order|
    requires gone + [now.order[k]] <= Candidates(s.order)
    requires now.usage + charge > now.capacity
    ensures Evicting(s, charge, gone + [now.order[k]], DropAt(now, k))
  {
    hide Needed;
    PrefixOfCandidates(s, gone);
    EvictMore(s, gone, k);
    EvictOne(now, k);
    NeededStep(Candidates(s.order), gone, now.order[k], now.usage, charge, s.capacity);
  }

  lemma PrefixOfCandidates(s: LruState, gone: seq<LRUHandle>)
    requires NoDuplicates(s.order) && gone <= Candidates(s.order)
    ensures NoDuplicates(gone) && forall e :: e in gone ==> e in s.order
  {
    InCandidates(s.order);
  }

  lemma NeededStep(cs: seq<LRUHandle>, gone: seq<LRUHandle>, e: LRUHandle, usage: int, charge: nat, capacity: nat)
    requires gone + [e] <= cs && usage + charge > capacity
    ensures Needed(cs[|gone|..], usage, charge, capacity)
         == 1 + Needed(cs[|gone + [e]|..], usage - e.charge, charge, capacity)
  {
    var n := |gone|;
    assert cs[n] == (gone + [e])[n] == e;
    assert cs[n..][1..] == cs[n + 1..];
  }

  /** Eviction that stops once it fits, or with nothing left, has given up exactly the victims. */
  lemma EvictingDone(s: LruState, charge: nat, gone: seq<LRUHandle>, now: LruState)
    requires Evicting(s, charge, gone, now)
    requires now.usage + charge <= now.capacity || gone == Candidates(s.order)
    ensures gone == Victims(s, charge) && now == Evict(s, Victims(s, charge))
  {
    assert Candidates(s.order)[..|gone|] == gone;
  }

  /** Phase one has looked at the first j entries: the NORMAL ones among them are gone. */
  ghost predicate Scanned(order: seq<LRUHandle>, j: nat, gone: seq<LRUHandle>, now: seq<LRUHandle>) {
    && j <= |order|
    && gone == OfPriority(order[..j], NORMAL)
    && now == OfPriority(order[..j], DURABLE) + order[j..]
  }

  lemma ScanDurable(order: seq<LRUHandle>, j: nat, gone: seq<LRUHandle>, now: seq<LRUHandle>)
    requires Scanned(order, j, gone, now) && j < |order| && order[j].priority == DURABLE
    ensures ScannedTo(order, j + 1, gone, now, |OfPriority(order[..j], DURABLE)| + 1)
  {
    OfPriorityNext(order, j, NORMAL);
    OfPriorityNext(order, j, DURABLE);
    SpliceOut(OfPriority(order[..j], DURABLE), order[j], order[j + 1..]);
    assert order[j..] == [order[j]] + order[j + 1..];
  }

  lemma ScanNormal(order: seq<LRUHandle>, j: nat, gone: seq<LRUHandle>, now: seq<LRUHandle>)
    requires Scanned(order, j, gone, now) && j < |order| && order[j].priority == NORMAL
    ensures var p := |OfPriority(order[..j], DURABLE)|;
      p < |now| && ScannedTo(order, j + 1, gone + [order[j]], now[..p] + now[p + 1..], p)
  {
    OfPriorityNext(order, j, NORMAL);
    OfPriorityNext(order, j, DURABLE);
    SpliceOut(OfPriority(order[..j], DURABLE), order[j], order[j + 1..]);
    assert order[j..] == [order[j]] + order[j + 1..];
  }

  lemma ScanStep(order: seq<LRUHandle>, j: nat, gone: seq<LRUHandle>, now: seq<LRUHandle>)
    requires Scanned(order, j, gone, now) && j < |order|
    ensures var p := |OfPriority(order[..j], DURABLE)|;
      && p < |now| && now[p] == order[j]
      && (if order[j].priority == DURABLE then ScannedTo(order, j + 1, gone, now, p + 1)
          else gone + [order[j]] <= Candidates(order)
               && ScannedTo(order, j + 1, gone + [order[j]], now[..p] + now[p + 1..], p))
  {
    if order[j].priority == DURABLE {
      ScanDurable(order, j, gone, now);
    } else {
      ScanNormal(order, j, gone, now);
      NormalsPrefix(order, j + 1);
    }
  }

  ghost predicate ScannedTo(order: seq<LRUHandle>, j: nat, gone: seq<LRUHandle>, now: seq<LRUHandle>, p: nat) {
    Scanned(order, j, gone, now) && |OfPriority(order[..j], DURABLE)| == p
  }

  lemma SpliceOut(d: seq<LRUHandle>, e: LRUHandle, rest: seq<LRUHandle>)
    ensures var now := d + ([e] + rest);
      && now[|d|] == e && now == (d + [e]) + rest
      && now[..|d|] + now[|d| + 1..] == d + rest
  {
  }

  lemma NormalsPrefix(order: seq<LRUHandle>, j: nat)
    requires j <= |order|
    ensures OfPriority(order[..j], NORMAL) <= Candidates(order)
  {
    assert order == order[..j] + order[j..];
    OfPriorityAppend(order[..j], order[j..], NORMAL);
  }

  lemma TailStep(gone: seq<LRUHandle>, rest: seq<LRUHandle>, cs: seq<LRUHandle>)
    requires gone + rest == cs && rest != []
    ensures var gone', rest' := gone + [rest[0]], rest[..0] + rest[1..];
      gone' <= cs && gone' + rest' == cs && |rest'| < |rest|
  {
    assert gone + [rest[0]] + (rest[..0] + rest[1..]) == gone + rest;
  }

  /** The first pass ends at the end of the list only after looking at all of it. */
  lemma ScanStops(order: seq<LRUHandle>, j: nat, gone: seq<LRUHandle>, now: seq<LRUHandle>)
    requires Scanned(order, j, gone, now) && |OfPriority(order[..j], DURABLE)| == |now|
    ensures gone == OfPriority(order, NORMAL) && now == OfPriority(order, DURABLE)
  {
    assert j == |order|;
    assert order[..j] == order && order[j..] == [];
  }

  /** Pruning has given up gone, the oldest entries, so far. */
  ghost predicate Pruning(s: LruState, gone: seq<LRUHandle>, now: LruState) {
    Inv(s) && now == Evict(s, gone) && Inv(now) && gone + now.order == s.order
  }

  lemma PruneStart(s: LruState)
    requires Inv(s)
    ensures Pruning(s, [], s)
  {
    EvictingStart(s, 0);
  }

  lemma PruneNext(s: LruState, gone: seq<LRUHandle>, now: LruState)
    requires Pruning(s, gone, now) && now.order != []
    ensures Pruning(s, gone + [now.order[0]], DropAt(now, 0))
  {
    assert forall e :: e in gone ==> e in s.order;
    assert forall i :: 0 <= i < |gone| ==> s.order[i] == gone[i];
    EvictMore(s, gone, 0);
    EvictOne(now, 0);
    TailStep(gone, now.order, s.order);
  }
}
