/** The circular doubly linked list of evictable entries, from the oldest to the newest. */
module LruLists {
  import opened LruHandles

  /** Position i of the circle: the dummy head at both ends, the entries in between. */
  function RingAt(head: LRUHandle, order: seq<LRUHandle>, i: nat): LRUHandle
    requires i <= |order| + 1
  {
    if i == 0 || i == |order| + 1 then head else order[i - 1]
  }

  /** The links around head visit exactly order, forwards and backwards. */
  ghost predicate Ring(head: LRUHandle, order: seq<LRUHandle>)
    reads head`next, head`prev, order`next, order`prev
  {
    && head !in order
    && (forall i, j :: 0 <= i < j < |order| ==> order[i] != order[j])
    && (forall i {:trigger RingAt(head, order, i).next} ::
          0 <= i <= |order| ==> RingAt(head, order, i).next == RingAt(head, order, i + 1))
    && (forall i {:trigger RingAt(head, order, i).prev} ::
          0 < i <= |order| + 1 ==> RingAt(head, order, i).prev == RingAt(head, order, i - 1))
  }

  /** Takes the entry at position k out; its own links become null. */
  method LruRemove(e: LRUHandle, ghost head: LRUHandle, ghost order: seq<LRUHandle>, ghost k: nat)
    requires Ring(head, order) && k < |order| && order[k] == e
    modifies head`next, head`prev, order`next, order`prev
    ensures Ring(head, order[..k] + order[k + 1..])
    ensures e.next == null && e.prev == null
  {
    ghost var before, after := RingAt(head, order, k), RingAt(head, order, k + 2);
    assert RingAt(head, order, k + 1) == e && e.prev == before && e.next == after;
    ghost var order' := order[..k] + order[k + 1..];
    assert forall i :: 0 <= i <= |order'| + 1 ==>
      RingAt(head, order', i) == RingAt(head, order, if i <= k then i else i + 1);
    e.next.prev := e.prev;
    e.prev.next := e.next;
    e.prev, e.next := null, null;
  }

  /** Puts e just before the dummy head: the newest place. */
  method LruAppend(list: LRUHandle, e: LRUHandle, ghost order: seq<LRUHandle>)
    requires Ring(list, order) && e != list && e !in order
    modifies list`next, list`prev, order`next, order`prev, e`next, e`prev
    ensures Ring(list, order + [e])
  {
    ghost var last := RingAt(list, order, |order|);
    assert RingAt(list, order, |order| + 1) == list && list.prev == last;
    ghost var order' := order + [e];
    assert forall i :: 0 <= i <= |order| ==> RingAt(list, order', i) == RingAt(list, order, i);
    e.next := list;
    e.prev := list.prev;
    e.prev.next := e;
    e.next.prev := e;
  }
}
