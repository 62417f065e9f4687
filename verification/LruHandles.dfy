/** The cache entry and the key/hash vocabulary shared by the hash table and the LRU list. */
module LruHandles {

  /** The bytes a key slice refers to. */
  type CacheKey = string

  /** The 32-bit hash of a key. */
  type Hash = h: nat | h < 0x1_0000_0000

  /** What the table compares: an entry matches when both its key and its hash match. */
  type EntryId = (CacheKey, Hash)

  datatype CachePriority = NORMAL | DURABLE

  /** A cache entry. Its key, hash, charge and priority never change after insertion. */
  class LRUHandle {
    const key: CacheKey
    const hash: Hash
    const value: int
    const charge: nat
    const priority: CachePriority
    var nextHash: LRUHandle?
    var next: LRUHandle?
    var prev: LRUHandle?
    var inCache: bool
    var refs: nat

    constructor (key: CacheKey, hash: Hash, value: int, charge: nat, priority: CachePriority)
      ensures this.key == key && this.hash == hash && this.value == value
      ensures this.charge == charge && this.priority == priority
      ensures next == null && prev == null && inCache && refs == 2
    {
      this.key, this.hash, this.value := key, hash, value;
      this.charge, this.priority := charge, priority;
      nextHash, next, prev := null, null, null;
      inCache, refs := true, 2;
    }

    function Id(): EntryId {
      (key, hash)
    }
  }

  /** The node at position i of a chain, or null one past its end. */
  function NodeAt(c: seq<LRUHandle>, i: nat): LRUHandle?
    requires i <= |c|
  {
    if i < |c| then c[i] else null
  }
}
