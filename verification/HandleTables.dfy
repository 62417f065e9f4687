/** The intrusive chained hash table of the cache, refining a finite map from entry ids to entries. */
module HandleTables {
  import opened LruHandles
  import opened Bits

  /** A pointer to a pointer in a chain: a bucket head, or the nextHash field of a node. */
  datatype Slot = Bucket(index: nat) | After(node: LRUHandle)

  type Chain = seq<LRUHandle>

  /** The bucket index the code computes by masking. */
  function BucketOf(hash: Hash, length: nat): (b: nat)
    requires PowerOfTwo(length)
    ensures b < length
  {
    MaskIsMod(hash, length);
    BitAnd(hash, length - 1)
  }

  /** The chain of nodes that starts at head is exactly c, ending in null: it has no cycle. */
  ghost predicate Linked(head: LRUHandle?, c: Chain)
    reads c`nextHash
  {
    && head == NodeAt(c, 0)
    && forall i {:trigger c[i].nextHash} :: 0 <= i < |c| ==> c[i].nextHash == NodeAt(c, i + 1)
  }

  ghost predicate NoDuplicates(c: Chain) {
    forall i, j :: 0 <= i < j < |c| ==> c[i] != c[j]
  }

  ghost function Elems(c: Chain): set<LRUHandle> {
    set e | e in c
  }

  /** The chain holds exactly the nodes whose hash falls in bucket b, each once. */
  ghost predicate Homed(c: Chain, b: nat, length: nat, nodes: set<LRUHandle>)
    requires PowerOfTwo(length)
  {
    && NoDuplicates(c)
    && (forall e :: e in c ==> e in nodes && BucketOf(e.hash, length) == b)
    && (forall e :: e in nodes && BucketOf(e.hash, length) == b ==> e in c)
  }

  ghost predicate UniqueIds(nodes: set<LRUHandle>) {
    forall e, f :: e in nodes && f in nodes && e.Id() == f.Id() ==> e == f
  }

  /** e is the node under id, or null when there is none. */
  ghost predicate Found(nodes: set<LRUHandle>, id: EntryId, e: LRUHandle?) {
    if e == null then forall n :: n in nodes ==> n.Id() != id else e in nodes && e.Id() == id
  }

  /** Every node is in the chain of its bucket, and nothing else is in any chain. */
  ghost predicate AllHomed(chains: seq<Chain>, nodes: set<LRUHandle>) {
    PowerOfTwo(|chains|) && forall b :: 0 <= b < |chains| ==> Homed(chains[b], b, |chains|, nodes)
  }

  /** The heads in list lead through exactly the given chains. */
  ghost predicate AllLinked(list: array<LRUHandle?>, chains: seq<Chain>, nodes: set<LRUHandle>)
    requires AllHomed(chains, nodes)
    reads list, nodes`nextHash
  {
    |chains| == list.Length && forall b :: 0 <= b < |chains| ==> Linked(list[b], chains[b])
  }

  ghost predicate Built(list: array<LRUHandle?>, chains: seq<Chain>, nodes: set<LRUHandle>)
    reads list, nodes`nextHash
  {
    AllHomed(chains, nodes) && AllLinked(list, chains, nodes)
  }

  class HandleTable {
    var length: nat
    var elems: nat
    var list: array<LRUHandle?>
    ghost var chains: seq<Chain>
    ghost var nodes: set<LRUHandle>

    /** The structural invariant, without the bound on the load. */
    ghost predicate Structured()
      reads this, list, nodes`nextHash
    {
      && length == list.Length
      && Built(list, chains, nodes)
      && UniqueIds(nodes)
      && elems == |nodes|
    }

    ghost predicate Valid()
      reads this, list, nodes`nextHash
    {
      Structured() && elems <= length
    }

    constructor ()
      ensures Valid() && nodes == {} && fresh(list)
    {
      length, elems := 4, 0;
      list := new LRUHandle?[4](_ => null);
      chains := seq(4, _ => []);
      nodes := {};
    }

    method FindPointer(key: CacheKey, hash: Hash) returns (slot: Slot, ghost b: nat, ghost i: nat)
      requires Structured()
      ensures b < length && b == BucketOf(hash, length) && i <= |chains[b]|
      ensures slot == if i == 0 then Bucket(b) else After(chains[b][i - 1])
      ensures i < |chains[b]| ==> chains[b][i].Id() == (key, hash)
      ensures i == |chains[b]| ==> forall e :: e in nodes ==> e.Id() != (key, hash)
      ensures (slot.Bucket? ==> slot.index < list.Length) && (slot.After? ==> slot.node in nodes)
      ensures Found(nodes, (key, hash), Deref(slot))
    {
      b := BucketOf(hash, length);
      i := 0;
      slot := Bucket(BitAnd(hash, length - 1));
      var cur := list[slot.index];
      while cur != null && (cur.hash != hash || key != cur.key)
        invariant i <= |chains[b]| && cur == NodeAt(chains[b], i)
        invariant slot == if i == 0 then Bucket(b) else After(chains[b][i - 1])
        invariant forall j :: 0 <= j < i ==> chains[b][j].Id() != (key, hash)
        decreases |chains[b]| - i
      {
        slot := After(cur);
        cur := cur.nextHash;
        i := i + 1;
      }
    }

    function Deref(slot: Slot): LRUHandle?
      requires slot.Bucket? ==> slot.index < list.Length
      reads this, list, (if slot.After? then {slot.node} else {})`nextHash
    {
      if slot.Bucket? then list[slot.index] else slot.node.nextHash
    }

    /** *slot = h: chain b keeps its first i nodes and continues with tail; the others are untouched. */
    method Store(slot: Slot, h: LRUHandle?, ghost b: nat, ghost i: nat, ghost tail: Chain)
      requires Built(list, chains, nodes)
      requires b < |chains| && i <= |chains[b]|
      requires slot == if i == 0 then Bucket(b) else After(chains[b][i - 1])
      requires Linked(h, tail)
      requires i > 0 ==> chains[b][i - 1] !in tail && Spliceable(b, i)
      modifies list, (if slot.After? then {slot.node} else {})`nextHash
      ensures forall c :: 0 <= c < |chains| && c != b ==> Linked(list[c], chains[c])
      ensures Linked(list[b], chains[b][..i] + tail)
    {
      if slot.Bucket? {
        list[slot.index] := h;
      } else {
        slot.node.nextHash := h;
      }
    }

    /** The node before position i of chain b occurs nowhere else in the table. */
    ghost predicate Spliceable(b: nat, i: nat)
      requires b < |chains| && 0 < i <= |chains[b]|
      reads this
    {
      && (forall k :: 0 <= k < |chains| && k != b ==> chains[b][i - 1] !in chains[k])
      && chains[b][i - 1] !in chains[b][i..] && chains[b][i - 1] !in chains[b][..i - 1]
    }

    lemma SpliceFrame(b: nat, i: nat)
      requires AllHomed(chains, nodes) && b < |chains| && i <= |chains[b]|
      ensures i > 0 ==> Spliceable(b, i)
    {
      if i > 0 {
        assert chains[b][i - 1] in chains[b];
      }
    }

    method Lookup(key: CacheKey, hash: Hash) returns (e: LRUHandle?)
      requires Valid()
      ensures Found(nodes, (key, hash), e)
    {
      var slot, b, i := FindPointer(key, hash);
      e := Deref(slot);
      assert e == NodeAt(chains[b], i);
    }

    method Insert(h: LRUHandle) returns (displaced: LRUHandle?)
      requires Valid() && h !in nodes
      modifies this, list, nodes`nextHash, h`nextHash
      ensures Valid() && (list == old(list) || fresh(list))
      ensures Found(old(nodes), h.Id(), displaced) && nodes == Swapped(old(nodes), displaced, h)
    {
      var slot, b, i := FindPointer(h.key, h.hash);
      displaced := Deref(slot);
      SwappedFacts(nodes, displaced, h);
      Link(slot, h, displaced, b, i);
      if displaced == null {
        Grow();
      }
    }

    /** Counts the node just linked, and rehashes once there are more entries than buckets. */
    method Grow()
      requires length == list.Length && Built(list, chains, nodes) && UniqueIds(nodes)
      requires elems + 1 == |nodes| && elems <= length
      modifies this, nodes`nextHash
      ensures Valid() && nodes == old(nodes) && (list == old(list) || fresh(list))
    {
      elems := elems + 1;
      if elems > length {
        Resize();
      }
    }

    /** Prepares a node that is not in the table yet to be followed by the rest of a chain. */
    method SetNext(h: LRUHandle, next: LRUHandle?, ghost rest: Chain)
      requires Built(list, chains, nodes) && h !in nodes
      requires Linked(next, rest) && h !in rest
      modifies h`nextHash
      ensures Built(list, chains, nodes) && Linked(h, [h] + rest)
    {
      assert forall b :: 0 <= b < |chains| ==> h !in chains[b];
      h.nextHash := next;
    }

    /** Puts h at position i of its chain, in the place of displaced or past the end. */
    method Link(slot: Slot, h: LRUHandle, displaced: LRUHandle?, ghost b: nat, ghost i: nat)
      requires Built(list, chains, nodes) && h !in nodes
      requires b < |chains| && b == BucketOf(h.hash, |chains|) && i <= |chains[b]|
      requires slot == if i == 0 then Bucket(b) else After(chains[b][i - 1])
      requires displaced == NodeAt(chains[b], i)
      modifies `chains, `nodes, list, nodes`nextHash, h`nextHash
      ensures Built(list, chains, nodes)
      ensures nodes == Swapped(old(nodes), displaced, h)
    {
      var next := if displaced == null then null else displaced.nextHash;
      ghost var rest := Rest(chains[b], i, displaced);
      ghost var chains', nodes' := chains[b := chains[b][..i] + ([h] + rest)], Swapped(nodes, displaced, h);
      LinkFacts(h, displaced, next, b, i);
      SetNext(h, next, rest);
      Store(slot, h, b, i, [h] + rest);
      Relinked(list, chains, b, chains[b][..i] + ([h] + rest), nodes');
      chains, nodes := chains', nodes';
    }

    lemma LinkFacts(h: LRUHandle, displaced: LRUHandle?, next: LRUHandle?, b: nat, i: nat)
      requires Built(list, chains, nodes) && h !in nodes
      requires b < |chains| && b == BucketOf(h.hash, |chains|) && i <= |chains[b]|
      requires displaced == NodeAt(chains[b], i)
      requires next == if displaced == null then null else displaced.nextHash
      ensures var rest := Rest(chains[b], i, displaced);
        && Linked(next, rest) && h !in rest
        && (i > 0 ==> chains[b][i - 1] !in [h] + rest && Spliceable(b, i))
        && AllHomed(chains[b := chains[b][..i] + ([h] + rest)], Swapped(nodes, displaced, h))
    {
      HomedAfterPut(chains, b, i, h, displaced, nodes);
      SpliceFrame(b, i);
      assert forall e :: e in chains[b] ==> e != h;
    }

    method Remove(key: CacheKey, hash: Hash) returns (e: LRUHandle?)
      requires Valid()
      modifies this, list, nodes`nextHash
      ensures Valid() && list == old(list)
      ensures Found(old(nodes), (key, hash), e) && nodes == Minus(old(nodes), e)
    {
      var slot, b, i := FindPointer(key, hash);
      e := Deref(slot);
      if e != null {
        assert e in chains[b] && |nodes - {e}| < |nodes|;
        Unlink(slot, e, b, i);
        elems := elems - 1;
      }
    }

    /** Takes the node at position i out of its chain. */
    method Unlink(slot: Slot, e: LRUHandle, ghost b: nat, ghost i: nat)
      requires Built(list, chains, nodes)
      requires b < |chains| && i < |chains[b]| && e == chains[b][i]
      requires slot == if i == 0 then Bucket(b) else After(chains[b][i - 1])
      modifies `chains, `nodes, list, nodes`nextHash
      ensures Built(list, chains, nodes) && nodes == old(nodes) - {e}
    {
      ghost var tail := chains[b][i + 1..];
      HomedAfterRemove(chains, b, i, nodes);
      SpliceFrame(b, i);
      Store(slot, e.nextHash, b, i, tail);
      Relinked(list, chains, b, chains[b][..i] + tail, nodes - {e});
      chains, nodes := chains[b := chains[b][..i] + tail], nodes - {e};
    }

    /** The smallest length from 4, 8, 16, ... that holds elems entries. */
    static method GrownLength(elems: nat) returns (newLength: nat)
      ensures PowerOfTwo(newLength) && newLength >= 4 && newLength >= elems
      ensures newLength > 4 ==> newLength < 2 * elems
    {
      newLength := 4;
      assert PowerOfTwo(2);
      while newLength < elems
        invariant PowerOfTwo(newLength) && newLength >= 4
        invariant newLength > 4 ==> newLength < 2 * elems
        decreases elems - newLength
      {
        DoublePower(newLength);
        newLength := newLength * 2;
      }
    }

    /** Moves every node into a list of at least elems buckets. */
    method Resize()
      requires Structured()
      modifies this, nodes`nextHash
      ensures Valid() && fresh(list) && nodes == old(nodes)
    {
      var newLength := GrownLength(elems);
      var newList := new LRUHandle?[newLength](_ => null);
      ghost var newChains;
      var count;
      count, newChains := Rehash(newList);
      assert count == elems;
      list, chains, length := newList, newChains, newLength;
    }

    /** moved holds exactly the nodes of the buckets below i. */
    ghost predicate MovedBelow(i: nat, moved: set<LRUHandle>)
      requires PowerOfTwo(length)
      reads this
    {
      && moved <= nodes
      && (forall e :: e in moved ==> BucketOf(e.hash, length) < i)
      && (forall e :: e in nodes && BucketOf(e.hash, length) < i ==> e in moved)
    }

    lemma LaterChainsApart(i: nat, moved: set<LRUHandle>)
      requires AllHomed(chains, nodes) && |chains| == length && i < length && MovedBelow(i, moved)
      ensures forall b, e :: i < b < length && e in chains[b] ==> e !in moved && e !in chains[i]
      ensures NoDuplicates(chains[i]) && forall e :: e in chains[i] ==> e !in moved
    {
      assert Homed(chains[i], i, length, nodes);
    }

    lemma MovedNext(i: nat, moved: set<LRUHandle>)
      requires AllHomed(chains, nodes) && |chains| == length && i < length && MovedBelow(i, moved)
      ensures MovedBelow(i + 1, moved + Elems(chains[i]))
    {
      assert Homed(chains[i], i, length, nodes);
    }

    /** The rehashing loop: empties the old chains bucket by bucket, and counts what it moved. */
    method Rehash(newList: array<LRUHandle?>) returns (count: nat, ghost newChains: seq<Chain>)
      requires Built(list, chains, nodes) && length == list.Length
      requires newList != list && PowerOfTwo(newList.Length)
      requires forall b :: 0 <= b < newList.Length ==> newList[b] == null
      modifies newList, nodes`nextHash
      ensures Built(newList, newChains, nodes) && count == |nodes|
    {
      newChains := seq(newList.Length, _ => []);
      ghost var moved: set<LRUHandle> := {};
      count := 0;
      var i := 0;
      while i < length
        invariant i <= length && count == |moved| && MovedBelow(i, moved)
        invariant Built(newList, newChains, moved)
        invariant StillLinked(i)
      {
        var n;
        n, newChains, moved := RehashBucket(i, newList, newChains, moved);
        count := count + n;
        i := i + 1;
      }
      assert moved == nodes;
    }

    /** The chains from bucket i on are as they were before rehashing. */
    ghost predicate StillLinked(i: nat)
      requires AllHomed(chains, nodes) && |chains| == list.Length
      reads this, list, nodes`nextHash
    {
      forall b :: i <= b < |chains| ==> Linked(list[b], chains[b])
    }

    method RehashBucket(i: nat, newList: array<LRUHandle?>, ghost newChains: seq<Chain>, ghost moved: set<LRUHandle>)
      returns (n: nat, ghost newChains': seq<Chain>, ghost moved': set<LRUHandle>)
      requires AllHomed(chains, nodes) && |chains| == length == list.Length && i < length
      requires Built(newList, newChains, moved) && newList != list
      requires MovedBelow(i, moved) && StillLinked(i)
      modifies newList, nodes`nextHash
      ensures Built(newList, newChains', moved') && |moved'| == |moved| + n
      ensures MovedBelow(i + 1, moved') && StillLinked(i + 1)
    {
      hide PowerOfTwo, BitAnd;
      LaterChainsApart(i, moved);
      MovedNext(i, moved);
      n, newChains', moved' := MoveChain(list[i], newList, chains[i], newChains, moved);
    }

    /** Pushes the nodes of one chain onto the fronts of the new chains. */
    static method MoveChain(head: LRUHandle?, list: array<LRUHandle?>, ghost c: Chain,
                            ghost chains: seq<Chain>, ghost moved: set<LRUHandle>)
      returns (count: nat, ghost chains': seq<Chain>, ghost moved': set<LRUHandle>)
      requires Built(list, chains, moved)
      requires Linked(head, c) && NoDuplicates(c) && forall e :: e in c ==> e !in moved
      modifies list, c`nextHash, moved`nextHash
      ensures moved' == moved + Elems(c)
      ensures Built(list, chains', moved') && |moved'| == |moved| + count
    {
      chains', moved', count := chains, moved, 0;
      var h := head;
      while h != null
        invariant count <= |c| && h == NodeAt(c, count)
        invariant forall k :: count <= k < |c| ==> c[k].nextHash == NodeAt(c, k + 1)
        invariant moved <= moved' <= moved + Elems(c) && |moved'| == |moved| + count
        invariant forall k :: 0 <= k < |c| ==> (c[k] in moved' <==> k < count)
        invariant Built(list, chains', moved')
        decreases |c| - count
      {
        var next := h.nextHash;
        chains' := PushFront(h, list, chains', moved');
        moved' := moved' + {h};
        h := next;
        count := count + 1;
      }
    }

    /** One step of rehashing: h becomes the head of its new chain. */
    static method PushFront(h: LRUHandle, list: array<LRUHandle?>, ghost chains: seq<Chain>, ghost moved: set<LRUHandle>)
      returns (ghost chains': seq<Chain>)
      requires Built(list, chains, moved) && h !in moved
      modifies list, h`nextHash
      ensures Built(list, chains', moved + {h})
    {
      var b := BucketOf(h.hash, list.Length);
      chains' := chains[b := [h] + chains[b]];
      PushFacts(h, b, chains, moved);
      h.nextHash := list[b];
      list[b] := h;
      Relinked(list, chains, b, [h] + chains[b], moved + {h});
    }
  }

  lemma PushFacts(h: LRUHandle, b: nat, chains: seq<Chain>, nodes: set<LRUHandle>)
    requires AllHomed(chains, nodes) && h !in nodes && b == BucketOf(h.hash, |chains|)
    ensures AllHomed(chains[b := [h] + chains[b]], nodes + {h})
    ensures forall k :: 0 <= k < |chains| ==> h !in chains[k]
  {
    HomedAfterPut(chains, b, 0, h, null, nodes);
    assert chains[b][..0] + ([h] + Rest(chains[b], 0, null)) == [h] + chains[b];
  }

  /** What follows position i of a chain, where displaced stands unless it is null. */
  ghost function Rest(c: Chain, i: nat, displaced: LRUHandle?): Chain
    requires i <= |c| && (displaced != null ==> i < |c|)
  {
    if displaced == null then c[i..] else c[i + 1..]
  }

  ghost function Minus(nodes: set<LRUHandle>, e: LRUHandle?): set<LRUHandle> {
    if e == null then nodes else nodes - {e}
  }

  ghost function Swapped(nodes: set<LRUHandle>, displaced: LRUHandle?, h: LRUHandle): set<LRUHandle> {
    Minus(nodes, displaced) + {h}
  }

  /** A table whose chain b was relinked as c, and no other chain touched, is linked again. */
  lemma Relinked(list: array<LRUHandle?>, chains: seq<Chain>, b: nat, c: Chain, nodes: set<LRUHandle>)
    requires b < |chains| == list.Length && AllHomed(chains[b := c], nodes)
    requires forall k :: 0 <= k < |chains| && k != b ==> Linked(list[k], chains[k])
    requires Linked(list[b], c)
    ensures AllLinked(list, chains[b := c], nodes)
  {
  }

  lemma SwappedFacts(nodes: set<LRUHandle>, displaced: LRUHandle?, h: LRUHandle)
    requires UniqueIds(nodes) && h !in nodes
    requires Found(nodes, h.Id(), displaced)
    ensures UniqueIds(Swapped(nodes, displaced, h))
    ensures |Swapped(nodes, displaced, h)| == if displaced == null then |nodes| + 1 else |nodes|
  {
  }

  lemma HomedAfterPut(chains: seq<Chain>, b: nat, i: nat, h: LRUHandle, displaced: LRUHandle?, nodes: set<LRUHandle>)
    requires AllHomed(chains, nodes)
    requires b == BucketOf(h.hash, |chains|) && h !in nodes && i <= |chains[b]|
    requires displaced != null ==> i < |chains[b]| && chains[b][i] == displaced
    ensures AllHomed(chains[b := chains[b][..i] + ([h] + Rest(chains[b], i, displaced))], Swapped(nodes, displaced, h))
  {
    var c, c' := chains[b], chains[b][..i] + ([h] + Rest(chains[b], i, displaced));
    forall x | x in c && x != displaced
      ensures x in c'
    {
      var k :| 0 <= k < |c| && c[k] == x;
      assert x == if k < i then c'[k] else if displaced == null then c'[k + 1] else c'[k];
    }
    assert c'[i] == h;
    assert NoDuplicates(c');
  }

  lemma HomedAfterRemove(chains: seq<Chain>, b: nat, i: nat, nodes: set<LRUHandle>)
    requires AllHomed(chains, nodes)
    requires b < |chains| && i < |chains[b]|
    ensures AllHomed(chains[b := chains[b][..i] + chains[b][i + 1..]], nodes - {chains[b][i]})
  {
    var c, e := chains[b], chains[b][i];
    var c' := c[..i] + c[i + 1..];
    forall x | x in c && x != e
      ensures x in c'
    {
      var k :| 0 <= k < |c| && c[k] == x;
      assert x == if k < i then c'[k] else c'[k - 1];
    }
  }

  // ---- the table refines a finite map ----

  /** The finite map from ids to entries that the table represents. */
  ghost function View(nodes: set<LRUHandle>): map<EntryId, LRUHandle>
    requires UniqueIds(nodes)
  {
    map e | e in nodes :: e.Id() := e
  }

  lemma FoundInView(nodes: set<LRUHandle>, id: EntryId, e: LRUHandle?)
    requires UniqueIds(nodes)
    ensures Found(nodes, id, e) <==> (if e == null then id !in View(nodes) else id in View(nodes) && View(nodes)[id] == e)
  {
  }

  /** What Insert does to the map, whether or not it displaces an entry. */
  lemma SwappedView(nodes: set<LRUHandle>, displaced: LRUHandle?, h: LRUHandle)
    requires UniqueIds(nodes) && h !in nodes && Found(nodes, h.Id(), displaced)
    ensures UniqueIds(Swapped(nodes, displaced, h))
    ensures View(Swapped(nodes, displaced, h)) == View(nodes)[h.Id() := h]
  {
    SwappedFacts(nodes, displaced, h);
  }

  /** What Remove does to the map. */
  lemma RemovedView(nodes: set<LRUHandle>, id: EntryId, e: LRUHandle?)
    requires UniqueIds(nodes) && Found(nodes, id, e)
    ensures View(Minus(nodes, e)) == View(nodes) - {id}
  {
  }

  /** elems, which counts nodes, is the size of the map. */
  lemma {:induction false} ViewSize(nodes: set<LRUHandle>)
    requires UniqueIds(nodes)
    ensures |View(nodes)| == |nodes|
  {
    if nodes != {} {
      var e :| e in nodes;
      ViewSize(nodes - {e});
      RemovedView(nodes, e.Id(), e);
      FoundInView(nodes, e.Id(), e);
      assert (View(nodes) - {e.Id()}).Keys == View(nodes).Keys - {e.Id()};
    }
  }
}
