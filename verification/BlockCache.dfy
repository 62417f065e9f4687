/** Inverted lists read from a file in aligned blocks and kept in a cache. */
module BlockCache {
  import opened Wrappers

  type Byte = b: int | 0 <= b < 256

  const BLOCK_SIZE: nat := 4096
  const ID_SIZE: nat := 8
  const TWO_64: nat := 0x1_0000_0000_0000_0000
  const INVALID_OFFSET: nat := TWO_64 - 1

  // ---- cache keys ----

  function DigitChar(d: nat): char
    requires d < 10
  {
    "0123456789"[d]
  }

  /** The decimal representation of a number. */
  function ToString(n: nat): (s: string)
    ensures s != []
  {
    if n < 10 then [DigitChar(n)] else ToString(n / 10) + [DigitChar(n % 10)]
  }

  lemma {:induction false} ToStringInjective(m: nat, n: nat)
    requires ToString(m) == ToString(n)
    ensures m == n
  {
    var s, t := ToString(m), ToString(n);
    assert s[|s| - 1] == DigitChar(m % 10) && t[|t| - 1] == DigitChar(n % 10);
    if m >= 10 && n >= 10 {
      assert ToString(m / 10) == s[..|s| - 1] && ToString(n / 10) == t[..|t| - 1];
      ToStringInjective(m / 10, n / 10);
    }
  }

  lemma KeysDistinct(prefix: string, i: nat, j: nat)
    requires prefix + ToString(i) == prefix + ToString(j)
    ensures i == j
  {
    assert (prefix + ToString(i))[|prefix|..] == ToString(i) && (prefix + ToString(j))[|prefix|..] == ToString(j);
    ToStringInjective(i, j);
  }

  // ---- layout ----

  /** Where a list starts in the file and how many entries it has. */
  datatype List = List(offset: nat, size: nat, capacity: nat)

  function EntrySize(codeSize: nat): nat {
    ID_SIZE + codeSize
  }

  /** The bytes a list takes. */
  function Bytes(size: nat, codeSize: nat): nat {
    size * EntrySize(codeSize)
  }

  /** The lists lie one after the other from an offset. */
  ghost predicate Tiles(lists: seq<List>, sizes: seq<nat>, codeSize: nat, start: nat, end: nat)
    requires |lists| <= |sizes|
  {
    (forall i :: 0 <= i < |lists| ==> lists[i].size == lists[i].capacity == sizes[i])
    && (forall i :: 0 < i < |lists| ==>
          lists[i].offset == lists[i - 1].offset + Bytes(lists[i - 1].size, codeSize))
    && (if lists == [] then end == start
        else lists[0].offset == start && end == lists[|lists| - 1].offset + Bytes(lists[|lists| - 1].size, codeSize))
  }

  lemma TilesNone(sizes: seq<nat>, codeSize: nat, start: nat)
    ensures Tiles([], sizes, codeSize, start, start) && OffsetOf(start, sizes, codeSize, 0) == start
  {
  }

  lemma TilesStep(lists: seq<List>, sizes: seq<nat>, codeSize: nat, start: nat, o: nat)
    requires |lists| < |sizes| && Tiles(lists, sizes, codeSize, start, o)
    ensures var size := sizes[|lists|];
            Tiles(lists + [List(o, size, size)], sizes, codeSize, start, o + Bytes(size, codeSize))
    ensures OffsetOf(start, sizes, codeSize, |lists| + 1)
         == OffsetOf(start, sizes, codeSize, |lists|) + Bytes(sizes[|lists|], codeSize)
  {
    hide Bytes;
  }

  /** No gap and no overlap: each byte from the start to the end belongs to exactly one list. */
  lemma {:induction false} TilesCover(lists: seq<List>, sizes: seq<nat>, codeSize: nat, start: nat, end: nat, o: nat)
    returns (l: nat)
    requires |lists| <= |sizes| && Tiles(lists, sizes, codeSize, start, end) && start <= o < end
    ensures l < |lists| && InList(lists, codeSize, l, o)
    ensures forall k :: 0 <= k < |lists| && InList(lists, codeSize, k, o) ==> k == l
  {
    var rest := lists[..|lists| - 1];
    var last := lists[|lists| - 1];
    assert forall k :: 0 <= k < |rest| ==> rest[k] == lists[k];
    if o >= last.offset {
      l := |lists| - 1;
      forall k | 0 <= k < |rest|
        ensures !InList(lists, codeSize, k, o)
      {
        ExtentsOrdered(lists, sizes, codeSize, start, end, k, |lists| - 1);
      }
    } else {
      l := TilesCover(rest, sizes, codeSize, start, last.offset, o);
      forall k | 0 <= k < |rest| && InList(lists, codeSize, k, o)
        ensures k == l
      {
        assert InList(rest, codeSize, k, o);
      }
    }
  }

  predicate InList(lists: seq<List>, codeSize: nat, l: nat, o: nat)
    requires l < |lists|
  {
    lists[l].offset <= o < lists[l].offset + Bytes(lists[l].size, codeSize)
  }

  /** Where list l starts when the lists are laid out from an offset. */
  function OffsetOf(start: nat, sizes: seq<nat>, codeSize: nat, l: nat): nat
    requires l <= |sizes|
  {
    if l == 0 then start else OffsetOf(start, sizes, codeSize, l - 1) + Bytes(sizes[l - 1], codeSize)
  }

  lemma EntryIsLong(size: nat, codeSize: nat)
    requires size > 0
    ensures Bytes(size, codeSize) >= ID_SIZE
  {
    assert size * EntrySize(codeSize) == EntrySize(codeSize) + (size - 1) * EntrySize(codeSize);
  }

  lemma {:induction false} ExtentsOrdered(lists: seq<List>, sizes: seq<nat>, codeSize: nat, start: nat, end: nat, i: nat, j: nat)
    requires |lists| <= |sizes| && Tiles(lists, sizes, codeSize, start, end) && i < j < |lists|
    ensures lists[i].offset + Bytes(lists[i].size, codeSize) <= lists[j].offset
    decreases j
  {
    if i < j - 1 {
      ExtentsOrdered(lists, sizes, codeSize, start, end, i, j - 1);
    }
  }

  // ---- alignment ----

  function AlignedOffset(offset: nat): nat {
    offset / BLOCK_SIZE * BLOCK_SIZE
  }

  lemma Aligned(offset: nat)
    ensures AlignedOffset(offset) <= offset
  {
  }

  function AlignedSize(difference: nat, bytes: nat): nat {
    (difference + bytes + BLOCK_SIZE - 1) / BLOCK_SIZE * BLOCK_SIZE
  }

  function Min(a: nat, b: nat): nat {
    if a < b then a else b
  }

  /** Subtraction of unsigned 64-bit numbers. */
  function SubtractSize(a: nat, b: nat): nat {
    if b <= a then a - b else (a - b) % TWO_64
  }

  /** The block read for a list starts and ends on block boundaries, covers the list, and is less than two blocks longer. */
  lemma BlockCovers(offset: nat, bytes: nat)
    ensures var start, n := AlignedOffset(offset), AlignedSize(offset - AlignedOffset(offset), bytes);
            start % BLOCK_SIZE == 0 && n % BLOCK_SIZE == 0 && start <= offset < start + BLOCK_SIZE
            && offset + bytes <= start + n < offset + bytes + 2 * BLOCK_SIZE
  {
  }

  // ---- the cached lists ----

  /** Buffer contents: a byte read from the file, or whatever the allocation left. */
  type Cell = Option<Byte>

  /** What reading n bytes from a file at an offset leaves in a fresh buffer of n bytes. */
  function Filled(file: seq<Byte>, start: nat, n: nat): (buffer: seq<Cell>)
    ensures |buffer| == n
  {
    seq(n, i requires 0 <= i < n => if start + i < |file| then Some(file[start + i]) else None)
  }

  function Initialized(bytes: seq<Byte>): (cells: seq<Cell>)
    ensures |cells| == |bytes|
  {
    seq(|bytes|, i requires 0 <= i < |bytes| => Some(bytes[i]))
  }

  /** The part of a filled buffer that lies inside the file is the file's bytes. */
  lemma FilledIs(file: seq<Byte>, start: nat, n: nat, from: nat, to: nat)
    requires start <= from <= to <= start + n && to <= |file|
    ensures Filled(file, start, n)[from - start..to - start] == Initialized(file[from..to])
  {
  }

  /** A part that reaches beyond the file has cells that were never read. */
  lemma FilledBeyond(file: seq<Byte>, start: nat, n: nat, from: nat, to: nat)
    requires start <= from < to <= start + n && |file| < to
    ensures None in Filled(file, start, n)[from - start..to - start]
  {
    assert Filled(file, start, n)[from - start..to - start][to - 1 - from] == None;
  }

  /** The buffer read for a list of some size at an offset. */
  function BlockAt(file: seq<Byte>, offset: nat, bytes: nat): seq<Cell> {
    Filled(file, AlignedOffset(offset), AlignedSize(offset - AlignedOffset(offset), bytes))
  }

  class BlockCacheInvertedLists {
    const file: seq<Byte>
    const prefix: string
    const codeSize: nat
    const lists: seq<List>
    const offsetDifference: seq<nat>
    var cached: map<string, seq<Cell>>
    var handles: map<nat, seq<Cell>>

    function Key(l: nat): string {
      prefix + ToString(l)
    }

    ghost predicate Laid() {
      |offsetDifference| == |lists|
      && forall l :: 0 <= l < |lists| ==>
        lists[l].capacity == lists[l].size && offsetDifference[l] == lists[l].offset - AlignedOffset(lists[l].offset)
    }

    /** The buffer for a list. It depends on the file and the layout alone. */
    function BufferOf(l: nat): seq<Cell>
      requires l < |lists| && l < |offsetDifference|
    {
      Filled(file, AlignedOffset(lists[l].offset), AlignedSize(offsetDifference[l], Bytes(lists[l].size, codeSize)))
    }

    /** Every entry this reader finds under its own keys is the buffer of that list, and a list whose handle is
        held stays cached. */
    ghost predicate Valid()
      reads this
    {
      Laid()
      && (forall l :: 0 <= l < |lists| && Key(l) in cached ==> cached[Key(l)] == BufferOf(l))
      && (forall l :: l in handles ==> l < |lists| && Key(l) in cached && handles[l] == BufferOf(l))
    }

    /** Lays the lists out from where the reader stands. The end is where it resumes. The cache may already hold lists
        of the file, read before. */
    constructor (file: seq<Byte>, start: nat, codeSize: nat, sizes: seq<nat>, prefix: string, cached: map<string, seq<Cell>>)
      requires forall l :: 0 <= l < |sizes| && prefix + ToString(l) in cached ==>
        cached[prefix + ToString(l)] == BlockAt(file, OffsetOf(start, sizes, codeSize, l), Bytes(sizes[l], codeSize))
      ensures Valid() && this.file == file && this.codeSize == codeSize && this.prefix == prefix
      ensures |lists| == |sizes| && handles == map[] && this.cached == cached
      ensures exists end :: Tiles(lists, sizes, codeSize, start, end)
    {
      var ls, diffs := LayOut(start, codeSize, sizes);
      this.file, this.codeSize, this.prefix := file, codeSize, prefix;
      lists, offsetDifference := ls, diffs;
      this.cached, handles := cached, map[];
      new;
      hide Bytes, AlignedOffset, AlignedSize, Filled, OffsetOf, ToString, Tiles;
      forall l | 0 <= l < |lists| && Key(l) in this.cached
        ensures this.cached[Key(l)] == BufferOf(l)
      {
        assert Key(l) == prefix + ToString(l);
      }
    }

    /** The layout loop. */
    static method LayOut(start: nat, codeSize: nat, sizes: seq<nat>) returns (lists: seq<List>, differences: seq<nat>)
      ensures |lists| == |differences| == |sizes| && exists end :: Tiles(lists, sizes, codeSize, start, end)
      ensures forall l :: 0 <= l < |lists| ==>
        lists[l] == List(OffsetOf(start, sizes, codeSize, l), sizes[l], sizes[l])
        && differences[l] == lists[l].offset - AlignedOffset(lists[l].offset)
    {
      hide Bytes, AlignedOffset, Tiles, OffsetOf;
      TilesNone(sizes, codeSize, start);
      var o: nat := start;
      lists, differences := [], [];
      var i := 0;
      while i < |sizes|
        invariant 0 <= i <= |sizes| && |lists| == |differences| == i
        invariant Tiles(lists, sizes, codeSize, start, o) && o == OffsetOf(start, sizes, codeSize, i)
        invariant forall l :: 0 <= l < i ==>
          lists[l] == List(OffsetOf(start, sizes, codeSize, l), sizes[l], sizes[l])
          && differences[l] == lists[l].offset - AlignedOffset(lists[l].offset)
      {
        Aligned(o);
        TilesStep(lists, sizes, codeSize, start, o);
        lists := lists + [List(o, sizes[i], sizes[i])];
        differences := differences + [o - AlignedOffset(o)];
        o := o + Bytes(sizes[i], codeSize);
        i := i + 1;
      }
    }

    /** Whether reading the block of a list gives as many bytes as the reader expects. */
    predicate ReadsAsExpected(l: nat)
      requires l < |lists| && l < |offsetDifference|
    {
      var start := AlignedOffset(lists[l].offset);
      var n := AlignedSize(offsetDifference[l], Bytes(lists[l].size, codeSize));
      (if start <= |file| then Min(|file| - start, n) else 0) == Min(SubtractSize(|file|, start), n)
    }

    /** The buffer of a list and where the list starts in it: from the cache, or read and put there. */
    method GetPtr(l: nat) returns (ok: bool, buffer: seq<Cell>, at: nat)
      requires Valid()
      modifies this
      ensures Valid() && (ok <==> l < |lists| && (Key(l) in old(cached) || ReadsAsExpected(l)))
      ensures ok ==> buffer == BufferOf(l) && at == offsetDifference[l]
      ensures ok ==> handles == old(handles)[l := BufferOf(l)] && cached == old(cached)[Key(l) := BufferOf(l)]
      ensures !ok ==> handles == old(handles) && cached == old(cached)
    {
      if l >= |lists| {
        return false, [], 0;
      }
      var key := Key(l);
      if key in cached {
        handles := handles[l := cached[key]];
        assert cached == cached[key := cached[key]];
        return true, cached[key], offsetDifference[l];
      }
      if !ReadsAsExpected(l) {
        return false, [], 0;
      }
      buffer, at, ok := BufferOf(l), offsetDifference[l], true;
      forall k | 0 <= k < |lists| && Key(k) == key
        ensures k == l
      {
        KeysDistinct(prefix, k, l);
      }
      cached := cached[key := buffer];
      handles := handles[l := buffer];
    }

    /** The codes of a list, and the ids behind them. Null for a list that was never laid out. */
    method GetCodes(l: nat) returns (ok: bool, codes: Option<seq<Cell>>)
      requires Valid() && l < |lists|
      modifies this
      ensures Valid() && (ok <==> lists[l].offset == INVALID_OFFSET || Key(l) in old(cached) || ReadsAsExpected(l))
      ensures ok ==> (codes.None? <==> lists[l].offset == INVALID_OFFSET)
      ensures ok && codes.Some? ==>
        offsetDifference[l] + CodeBytes(l) <= |BufferOf(l)| && l in handles && handles[l] == BufferOf(l)
        && codes.value == BufferOf(l)[offsetDifference[l]..offsetDifference[l] + CodeBytes(l)]
      ensures handles.Keys <= old(handles).Keys + {l}
    {
      if lists[l].offset == INVALID_OFFSET {
        return true, None;
      }
      var buffer, at;
      ok, buffer, at := GetPtr(l);
      PartsInBuffer(l);
      codes := if ok then Some(buffer[at..at + CodeBytes(l)]) else None;
    }

    method GetIds(l: nat) returns (ok: bool, ids: Option<seq<Cell>>)
      requires Valid() && l < |lists|
      modifies this
      ensures Valid() && (ok <==> lists[l].offset == INVALID_OFFSET || Key(l) in old(cached) || ReadsAsExpected(l))
      ensures ok ==> (ids.None? <==> lists[l].offset == INVALID_OFFSET)
      ensures ok && ids.Some? ==>
        offsetDifference[l] + CodeBytes(l) + IdBytes(l) <= |BufferOf(l)| && l in handles && handles[l] == BufferOf(l)
        && ids.value == BufferOf(l)[offsetDifference[l] + CodeBytes(l)..offsetDifference[l] + CodeBytes(l) + IdBytes(l)]
      ensures handles.Keys <= old(handles).Keys + {l}
    {
      if lists[l].offset == INVALID_OFFSET {
        return true, None;
      }
      var buffer, at;
      ok, buffer, at := GetPtr(l);
      PartsInBuffer(l);
      ids := if ok then Some(buffer[at + CodeBytes(l)..at + CodeBytes(l) + IdBytes(l)]) else None;
    }

    function CodeBytes(l: nat): nat
      requires l < |lists|
    {
      codeSize * lists[l].capacity
    }

    function IdBytes(l: nat): nat
      requires l < |lists|
    {
      ID_SIZE * lists[l].size
    }

    lemma PartsInBuffer(l: nat)
      requires Laid() && l < |lists|
      ensures CodeBytes(l) + IdBytes(l) == Bytes(lists[l].size, codeSize)
      ensures offsetDifference[l] + CodeBytes(l) + IdBytes(l) <= |BufferOf(l)|
    {
      assert Bytes(lists[l].size, codeSize) == ID_SIZE * lists[l].size + codeSize * lists[l].size;
      BlockCovers(lists[l].offset, Bytes(lists[l].size, codeSize));
    }

    /** Whether a list lies within the file. */
    predicate Fits(l: nat)
      requires l < |lists|
    {
      lists[l].offset + Bytes(lists[l].size, codeSize) <= |file|
    }

    /** For a list within the file, the codes and ids handed out, on a hit or a miss, are the file's own bytes:
        the codes first, the ids right behind them. */
    lemma PartsAreFileBytes(l: nat)
      requires Laid() && l < |lists| && Fits(l)
      ensures CodeBytes(l) + IdBytes(l) == Bytes(lists[l].size, codeSize)
      ensures var o, at := lists[l].offset, offsetDifference[l];
              at + CodeBytes(l) + IdBytes(l) <= |BufferOf(l)|
              && BufferOf(l)[at..at + CodeBytes(l)] == Initialized(file[o..o + CodeBytes(l)])
              && BufferOf(l)[at + CodeBytes(l)..at + CodeBytes(l) + IdBytes(l)]
              == Initialized(file[o + CodeBytes(l)..o + CodeBytes(l) + IdBytes(l)])
    {
      PartsInBuffer(l);
      Aligned(lists[l].offset);
      hide Bytes, AlignedOffset, AlignedSize, Filled, Initialized, CodeBytes, IdBytes;
      var o, start := lists[l].offset, AlignedOffset(lists[l].offset);
      FilledIs(file, start, |BufferOf(l)|, o, o + CodeBytes(l));
      FilledIs(file, start, |BufferOf(l)|, o + CodeBytes(l), o + CodeBytes(l) + IdBytes(l));
    }

    /** A list that reaches beyond the end of the file is handed out with cells that were never read, and the
        check on the number of bytes read does not notice unless its block starts beyond the end. */
    lemma TruncationUnnoticed(l: nat)
      requires Laid() && l < |lists| && AlignedOffset(lists[l].offset) < TWO_64
      ensures ReadsAsExpected(l) <==> AlignedOffset(lists[l].offset) <= |file| || |BufferOf(l)| == 0
      ensures offsetDifference[l] + Bytes(lists[l].size, codeSize) <= |BufferOf(l)|
      ensures None in BufferOf(l)[offsetDifference[l]..offsetDifference[l] + Bytes(lists[l].size, codeSize)]
         <==> lists[l].size > 0 && !Fits(l)
    {
      var o, bytes := lists[l].offset, Bytes(lists[l].size, codeSize);
      PartsInBuffer(l);
      if Fits(l) {
        FilledIs(file, AlignedOffset(o), |BufferOf(l)|, o, o + bytes);
      } else if lists[l].size > 0 {
        FilledBeyond(file, AlignedOffset(o), |BufferOf(l)|, o, o + bytes);
      }
    }

    /** A file that is one byte short of the end of a list: reading the list succeeds, and its last byte was never
        read. */
    lemma OneByteShort(l: nat)
      requires Laid() && l < |lists| && lists[l].size > 0
      requires |file| + 1 == lists[l].offset + Bytes(lists[l].size, codeSize)
      ensures ReadsAsExpected(l) && !Fits(l)
      ensures var end := offsetDifference[l] + CodeBytes(l) + IdBytes(l);
              0 < end <= |BufferOf(l)| && BufferOf(l)[end - 1] == None
    {
      PartsInBuffer(l);
      EntryIsLong(lists[l].size, codeSize);
    }

    /** The cache may drop any entry that no handle holds. */
    method Evict(key: string)
      requires Valid() && forall l :: l in handles ==> Key(l) != key
      modifies `cached
      ensures Valid() && cached == old(cached) - {key}
    {
      cached := cached - {key};
    }
  }

  /** Opening the lists of a file fails when the reader stands beyond its end. */
  method ReadArrayInvertedLists(file: seq<Byte>, start: nat, codeSize: nat, sizes: seq<nat>, prefix: string,
                                cached: map<string, seq<Cell>>)
    returns (r: Option<BlockCacheInvertedLists>)
    requires forall l :: 0 <= l < |sizes| && prefix + ToString(l) in cached ==>
      cached[prefix + ToString(l)] == BlockAt(file, OffsetOf(start, sizes, codeSize, l), Bytes(sizes[l], codeSize))
    ensures r.Some? <==> start <= |file|
    ensures r.Some? ==> fresh(r.value) && r.value.Valid() && |r.value.lists| == |sizes| && r.value.cached == cached
    ensures r.Some? ==> exists end :: Tiles(r.value.lists, sizes, codeSize, start, end)
  {
    if start > |file| {
      return None;
    }
    var lists := new BlockCacheInvertedLists(file, start, codeSize, sizes, prefix, cached);
    r := Some(lists);
  }
}
