/** Adding to the IVF-PQ index: parallel lists of ids, codes and reconstruction errors, filled in blocks. */
module IvfPqIndexes {
  import opened Vectors
  import opened ProductQuantizers
  import opened LookupTables
  import opened IvfPqSpec
  import opened Wrappers

  ghost predicate ValidInput(cfg: Config, x: seq<Vec>, xids: Option<seq<int>>, precomputed: Option<seq<int>>) {
    (forall i :: 0 <= i < |x| ==> |x[i]| == cfg.ivf.D())
    && (xids.Some? ==> |xids.value| == |x|)
    && (precomputed.Some? ==>
          |precomputed.value| == |x| && forall i :: 0 <= i < |x| ==> precomputed.value[i] < cfg.ivf.nlist)
  }

  /** The rows a call adds: assigned by the caller or by the first-level quantizer. */
  function Rows(cfg: Config, x: seq<Vec>, xids: Option<seq<int>>, precomputed: Option<seq<int>>): (rows: seq<Row>)
    requires cfg.Valid() && ValidInput(cfg, x, xids, precomputed)
    ensures |rows| == |x| && ValidRows(cfg, rows)
  {
    seq(|x|, i requires 0 <= i < |x| =>
      Row(x[i],
          if precomputed.Some? then precomputed.value[i] else cfg.assign(x[i]),
          if xids.Some? then Some(xids.value[i]) else None))
  }

  function Slice<T>(s: Option<seq<T>>, i: nat, j: nat): Option<seq<T>>
    requires i <= j && (s.Some? ==> j <= |s.value|)
  {
    if s.Some? then Some(s.value[i..j]) else None
  }

  lemma RowsSlice(cfg: Config, x: seq<Vec>, xids: Option<seq<int>>, precomputed: Option<seq<int>>, i: nat, j: nat)
    requires cfg.Valid() && ValidInput(cfg, x, xids, precomputed) && i <= j <= |x|
    ensures ValidInput(cfg, x[i..j], Slice(xids, i, j), Slice(precomputed, i, j))
    ensures Rows(cfg, x[i..j], Slice(xids, i, j), Slice(precomputed, i, j)) == Rows(cfg, x, xids, precomputed)[i..j]
  {
  }

  // ---- the optional output of second-level residuals ----

  ghost predicate SomeUnassigned(rows: seq<Row>) {
    exists i :: 0 <= i < |rows| && rows[i].key < 0
  }

  function Zeros(d: nat): Vec {
    seq(d, _ => 0.0)
  }

  /** Element k of a block's buffer after its first i rows. An unassigned row clears the block's first
      element, not its own. */
  ghost function ResidualAt(cfg: Config, rows: seq<Row>, i: nat, k: nat, before: Vec): Vec
    requires cfg.Valid() && ValidRows(cfg, rows) && i <= |rows| && k < |rows|
  {
    assert rows[k] in rows;
    if k == 0 && SomeUnassigned(rows[..i]) then Zeros(cfg.ivf.D())
    else if k < i && rows[k].key >= 0 then cfg.Residual2(rows[k].x, rows[k].key)
    else before
  }

  ghost predicate ResidualsOut(cfg: Config, rows: seq<Row>, i: nat, before: seq<Vec>, after: seq<Vec>)
    requires cfg.Valid() && ValidRows(cfg, rows) && i <= |rows| && |before| == |after| == |rows|
  {
    forall k :: 0 <= k < |rows| ==> after[k] == ResidualAt(cfg, rows, i, k, before[k])
  }

  /** The block's part of the whole buffer is as ResidualsOut says, and the rest is untouched. */
  ghost predicate BufferOut(cfg: Config, rows: seq<Row>, i: nat, at: nat, whole: seq<Vec>, current: seq<Vec>)
    requires cfg.Valid() && ValidRows(cfg, rows) && i <= |rows| && at + |rows| <= |whole|
  {
    var end := at + |rows|;
    |current| == |whole| && current[..at] == whole[..at] && current[end..] == whole[end..]
    && ResidualsOut(cfg, rows, i, whole[at..end], current[at..end])
  }

  lemma BufferOutStart(cfg: Config, rows: seq<Row>, at: nat, whole: seq<Vec>)
    requires cfg.Valid() && ValidRows(cfg, rows) && at + |rows| <= |whole|
    ensures BufferOut(cfg, rows, 0, at, whole, whole)
  {
  }

  lemma BufferOutStep(cfg: Config, rows: seq<Row>, i: nat, at: nat, whole: seq<Vec>, current: seq<Vec>, residual: Vec)
    requires cfg.Valid() && ValidRows(cfg, rows) && i < |rows| && at + |rows| <= |whole|
    requires BufferOut(cfg, rows, i, at, whole, current)
    requires rows[i].key >= 0 ==> ValidRow(cfg, rows[i]) && residual == cfg.Residual2(rows[i].x, rows[i].key)
    ensures |current| == |whole|
    ensures rows[i].key >= 0 ==> BufferOut(cfg, rows, i + 1, at, whole, current[at + i := residual])
    ensures rows[i].key < 0 ==> BufferOut(cfg, rows, i + 1, at, whole, current[at := Zeros(cfg.ivf.D())])
  {
    hide ResidualsOut, Config.Residual2;
    var end := at + |rows|;
    ResidualsOutStep(cfg, rows, i, whole[at..end], current[at..end], residual);
    assert current[at + i := residual][at..end] == current[at..end][i := residual];
    assert current[at := Zeros(cfg.ivf.D())][at..end] == current[at..end][0 := Zeros(cfg.ivf.D())];
  }

  lemma ResidualsOutStep(cfg: Config, rows: seq<Row>, i: nat, before: seq<Vec>, after: seq<Vec>, residual: Vec)
    requires cfg.Valid() && ValidRows(cfg, rows) && i < |rows| && |before| == |after| == |rows|
    requires ResidualsOut(cfg, rows, i, before, after)
    requires rows[i].key >= 0 ==> ValidRow(cfg, rows[i]) && residual == cfg.Residual2(rows[i].x, rows[i].key)
    ensures rows[i].key >= 0 ==> ResidualsOut(cfg, rows, i + 1, before, after[i := residual])
    ensures rows[i].key < 0 ==> ResidualsOut(cfg, rows, i + 1, before, after[0 := Zeros(cfg.ivf.D())])
  {
    hide Config.Residual2;
    UnassignedStep(rows, i);
  }

  lemma UnassignedStep(rows: seq<Row>, i: nat)
    requires i < |rows|
    ensures SomeUnassigned(rows[..i + 1]) <==> SomeUnassigned(rows[..i]) || rows[i].key < 0
  {
    assert forall k :: 0 <= k < i ==> rows[..i + 1][k] == rows[..i][k];
    assert rows[..i + 1][i] == rows[i];
  }

  // ---- the parallel lists ----

  ghost predicate SameShape(ids: seq<seq<int>>, codes: seq<seq<Code>>, errors: seq<seq<real>>, vectors: seq<seq<Vec>>) {
    |ids| == |codes| == |errors| == |vectors|
    && forall l :: 0 <= l < |ids| ==> |ids[l]| == |codes[l]| == |errors[l]| == |vectors[l]|
  }

  function ZipList(ids: seq<int>, codes: seq<Code>, errors: seq<real>, vectors: seq<Vec>): (items: seq<Item>)
    requires |ids| == |codes| == |errors| == |vectors|
    ensures |items| == |ids|
  {
    seq(|ids|, o requires 0 <= o < |ids| => Item(ids[o], codes[o], errors[o], vectors[o]))
  }

  ghost function Zip(ids: seq<seq<int>>, codes: seq<seq<Code>>, errors: seq<seq<real>>, vectors: seq<seq<Vec>>): (lists: seq<seq<Item>>)
    requires SameShape(ids, codes, errors, vectors)
    ensures |lists| == |ids|
  {
    seq(|ids|, l requires 0 <= l < |ids| => ZipList(ids[l], codes[l], errors[l], vectors[l]))
  }

  lemma ZipAppend(ids: seq<seq<int>>, codes: seq<seq<Code>>, errors: seq<seq<real>>, vectors: seq<seq<Vec>>, l: nat, e: Item)
    requires SameShape(ids, codes, errors, vectors) && l < |ids|
    ensures var ids', codes' := ids[l := ids[l] + [e.id]], codes[l := codes[l] + [e.code]];
            var errors', vectors' := errors[l := errors[l] + [e.error]], vectors[l := vectors[l] + [e.vector]];
            var old' := Zip(ids, codes, errors, vectors);
            SameShape(ids', codes', errors', vectors')
            && Zip(ids', codes', errors', vectors') == old'[l := old'[l] + [e]]
  {
    var items := ZipList(ids[l], codes[l], errors[l], vectors[l]);
    assert ZipList(ids[l] + [e.id], codes[l] + [e.code], errors[l] + [e.error], vectors[l] + [e.vector]) == items + [e];
  }

  class IndexIvfPq {
    const cfg: Config
    var isTrained: bool
    var ntotal: nat
    var ids: seq<seq<int>>
    var codes: seq<seq<Code>>
    var reconstructionErrors: seq<seq<real>>
    ghost var vectors: seq<seq<Vec>>

    ghost predicate Shaped()
      reads this
    {
      cfg.Valid() && |ids| == cfg.ivf.nlist && SameShape(ids, codes, reconstructionErrors, vectors)
    }

    ghost function Lists(): (lists: seq<seq<Item>>)
      requires Shaped()
      reads this
      ensures |lists| == cfg.ivf.nlist
    {
      Zip(ids, codes, reconstructionErrors, vectors)
    }

    ghost function Abs(): Index
      requires Shaped()
      reads this
    {
      Index(ntotal, Lists())
    }

    ghost predicate Valid()
      reads this
    {
      Shaped() && Aligned(cfg, Abs())
    }

    constructor (cfg: Config)
      requires cfg.Valid()
      ensures Valid() && this.cfg == cfg && !isTrained && Abs() == IvfPqSpec.Empty(cfg.ivf.nlist)
    {
      this.cfg := cfg;
      isTrained := false;
      ntotal := 0;
      ids := seq(cfg.ivf.nlist, _ => []);
      codes := seq(cfg.ivf.nlist, _ => []);
      reconstructionErrors := seq(cfg.ivf.nlist, _ => []);
      vectors := seq(cfg.ivf.nlist, _ => []);
    }

    lemma ListLength(l: nat)
      requires Shaped() && l < cfg.ivf.nlist
      ensures |ids| == |codes| == |reconstructionErrors| == cfg.ivf.nlist
      ensures |ids[l]| == |codes[l]| == |reconstructionErrors[l]| == |Lists()[l]|
    {
    }

    lemma ItemAt(l: nat, o: nat)
      requires Shaped() && l < cfg.ivf.nlist && o < |Lists()[l]|
      ensures |ids| == |codes| == |reconstructionErrors| == cfg.ivf.nlist
      ensures |ids[l]| == |codes[l]| == |reconstructionErrors[l]| == |Lists()[l]|
      ensures Lists()[l][o].id == ids[l][o] && Lists()[l][o].code == codes[l][o]
      ensures Lists()[l][o].error == reconstructionErrors[l][o]
    {
    }

    /** The inverted lists' own append: returns the offset of the new entry. */
    method AddEntry(key: nat, id: int, code: Code) returns (offset: nat)
      requires key < |ids| == |codes| && |ids[key]| == |codes[key]|
      modifies `ids, `codes
      ensures offset == |old(ids)[key]|
      ensures ids == old(ids)[key := old(ids)[key] + [id]]
      ensures codes == old(codes)[key := old(codes)[key] + [code]]
    {
      offset := |ids[key]|;
      ids := ids[key := ids[key] + [id]];
      codes := codes[key := codes[key] + [code]];
    }

    /** One assigned row: its entry and its error are appended to the same list at the same offset. */
    method AddAssigned(row: Row, defaultId: int, code: Code) returns (ok: bool, residual: Vec)
      requires Shaped() && ValidRow(cfg, row) && row.key >= 0
      requires code == cfg.encode(cfg.ToEncode(row.x, row.key))
      modifies `ids, `codes, `reconstructionErrors, `vectors
      ensures ok && residual == cfg.Residual2(row.x, row.key) && Shaped()
      ensures Lists() == old(Lists())[row.key := old(Lists())[row.key] + [ItemOf(cfg, row, defaultId)]]
    {
      hide IvfPq.ValidCoarse, IvfPq.ValidPrecomputed, Decode, SameShape, Zip;
      ZipAppend(ids, codes, reconstructionErrors, vectors, row.key, ItemOf(cfg, row, defaultId));
      var id := if row.id.Some? then row.id.value else defaultId;
      SameShapeAt(ids, codes, reconstructionErrors, vectors, row.key);
      var offset := AddEntry(row.key, id, code);
      residual := Sub(cfg.ToEncode(row.x, row.key), Decode(cfg.ivf.books, cfg.ivf.dsub, cfg.ivf.ksub, code));
      var reconstructionError := cfg.root(SqNorm(residual));
      reconstructionErrors := reconstructionErrors[row.key := reconstructionErrors[row.key] + [reconstructionError]];
      vectors := vectors[row.key := vectors[row.key] + [row.x]];
      ok := |reconstructionErrors[row.key]| != offset;
    }

    /** Adds in blocks of at most bs rows. Whatever the block size, the index ends up as if the rows had
        been added one at a time; nothing is added while the index is untrained. */
    method CustomAddCore(x: seq<Vec>, xids: Option<seq<int>>, precomputed: Option<seq<int>>, res2: array?<Vec>, bs: nat)
      returns (ok: bool)
      requires Valid() && ValidInput(cfg, x, xids, precomputed) && bs > 0
      requires res2 != null ==> |x| == res2.Length
      modifies `ids, `codes, `reconstructionErrors, `vectors, `ntotal, res2
      ensures Valid() && ok == isTrained
      ensures !ok ==> Abs() == old(Abs()) && (res2 != null ==> res2[..] == old(res2[..]))
      ensures ok ==> Abs() == AddAll(cfg, old(Abs()), Rows(cfg, x, xids, precomputed))
      ensures ok && res2 != null ==>
        res2[..] == ChunkedOut(cfg, Rows(cfg, x, xids, precomputed), bs, old(res2[..]))
      ensures ok ==> ntotal == old(ntotal) + |x| && forall i :: 0 <= i < |x| ==>
        Stored(if precomputed.Some? then precomputed.value[i] else cfg.assign(x[i]), x[i],
               if xids.Some? then xids.value[i] else old(ntotal) + i, old(ids))
    {
      hide Stored, AddAll, Aligned, SameShape, Zip, IvfPq.Valid, Rows, BlockOut, ChunkedOut, ChunksDone, BufferOut;
      ghost var rows := Rows(cfg, x, xids, precomputed);
      ghost var s, ids0 := Abs(), ids;
      SizesOfIds();
      ghost var whole := if res2 != null then res2[..] else [];
      if |x| <= bs {
        ok := AddBlock(x, xids, precomputed, res2, 0);
        if ok && res2 != null {
          OneBlockOut(cfg, rows, bs, whole, res2[..]);
        }
        if ok {
          AllStored(x, xids, precomputed, s, ids0);
        }
        return;
      }
      ok := isTrained;
      AddAllNone(cfg, s, rows);
      if res2 != null {
        ChunksDoneStart(cfg, rows, bs, whole);
      }
      var i0 := 0;
      while i0 < |x|
        invariant 0 <= i0 <= |x| && Valid() && isTrained == old(isTrained) == ok
        invariant Abs() == AddAll(cfg, s, rows[..i0])
        invariant res2 != null ==> ChunksDone(cfg, rows, bs, i0, whole, res2[..])
        invariant !ok ==> i0 == 0 && Abs() == s && (res2 != null ==> res2[..] == whole)
        decreases |x| - i0
      {
        var i1 := if i0 + bs < |x| then i0 + bs else |x|;
        ok := AddChunk(x, xids, precomputed, res2, bs, i0, i1, s, whole);
        if !ok {
          return;
        }
        i0 := i1;
      }
      assert rows[..|x|] == rows;
      if res2 != null {
        ChunksDoneEnd(cfg, rows, bs, whole, res2[..]);
      }
      if ok {
        AllStored(x, xids, precomputed, s, ids0);
      }
    }

    /** A vector assigned to a list is stored there, behind what the list held before: under its id, with the code that
        encode gives for it, and with its distance from what that code stands for. */
    ghost predicate Stored(key: int, x: Vec, id: int, before: seq<seq<int>>)
      requires cfg.Valid() && |x| == cfg.ivf.D()
      reads this
    {
      0 <= key < cfg.ivf.nlist ==>
        key < |ids| == |codes| == |reconstructionErrors| == |before|
        && exists o: nat :: |before[key]| <= o < |ids[key]| && StoredAt(key, o, x, id)
    }

    ghost predicate StoredAt(key: nat, o: nat, x: Vec, id: int)
      requires cfg.Valid() && |x| == cfg.ivf.D() && key < cfg.ivf.nlist
      reads this
    {
      key < |ids| == |codes| == |reconstructionErrors|
      && o < |ids[key]| == |codes[key]| == |reconstructionErrors[key]|
      && var code := cfg.encode(if cfg.ivf.byResidual then Sub(x, cfg.ivf.Centroid(key)) else x);
         && ids[key][o] == id && codes[key][o] == code && ValidCode(code, |cfg.ivf.books|, cfg.ivf.ksub)
         && reconstructionErrors[key][o] == cfg.root(SqDist(x, cfg.ivf.Reconstruct(key, code)))
    }

    lemma SizesOfIds()
      requires Shaped()
      ensures |ids| == |codes| == |reconstructionErrors| == cfg.ivf.nlist
      ensures forall l :: 0 <= l < |ids| ==> |ids[l]| == |Lists()[l]|
    {
    }

    lemma AllStored(x: seq<Vec>, xids: Option<seq<int>>, precomputed: Option<seq<int>>, s: Index, before: seq<seq<int>>)
      requires Shaped() && ValidInput(cfg, x, xids, precomputed)
      requires |s.lists| == |before| == cfg.ivf.nlist && forall l :: 0 <= l < |before| ==> |before[l]| == |s.lists[l]|
      requires Abs() == AddAll(cfg, s, Rows(cfg, x, xids, precomputed))
      ensures ntotal == s.ntotal + |x| && forall i :: 0 <= i < |x| ==>
        Stored(if precomputed.Some? then precomputed.value[i] else cfg.assign(x[i]), x[i],
               if xids.Some? then xids.value[i] else s.ntotal + i, before)
    {
      hide AddAll, Aligned, Zip, IvfPq.Valid, StoredAt;
      var rows := Rows(cfg, x, xids, precomputed);
      SizesOfIds();
      forall i | 0 <= i < |x|
        ensures Stored(if precomputed.Some? then precomputed.value[i] else cfg.assign(x[i]), x[i],
                       if xids.Some? then xids.value[i] else s.ntotal + i, before)
      {
        if rows[i].key >= 0 {
          var o := AddedBehind(cfg, s, rows, i);
          StoredItem(rows[i].key, o, x[i], if xids.Some? then xids.value[i] else s.ntotal + i);
        }
      }
    }

    lemma StoredItem(l: nat, o: nat, x: Vec, id: int)
      requires Shaped() && |x| == cfg.ivf.D() && l < cfg.ivf.nlist && o < |Lists()[l]|
      requires var e := Lists()[l][o];
        && e.id == id && e.code == cfg.encode(if cfg.ivf.byResidual then Sub(x, cfg.ivf.Centroid(l)) else x)
        && ValidCode(e.code, |cfg.ivf.books|, cfg.ivf.ksub)
        && e.error == cfg.root(SqDist(x, cfg.ivf.Reconstruct(l, e.code)))
      ensures StoredAt(l, o, x, id)
    {
      hide Config.Valid, Zip;
      ItemAt(l, o);
    }

    /** One round of the block loop. */
    method AddChunk(x: seq<Vec>, xids: Option<seq<int>>, precomputed: Option<seq<int>>, res2: array?<Vec>,
                    bs: nat, i0: nat, i1: nat, ghost s: Index, ghost whole: seq<Vec>)
      returns (ok: bool)
      requires Valid() && ValidInput(cfg, x, xids, precomputed) && bs > 0 && |s.lists| == cfg.ivf.nlist
      requires i0 < |x| && i1 == if i0 + bs < |x| then i0 + bs else |x|
      requires Abs() == AddAll(cfg, s, Rows(cfg, x, xids, precomputed)[..i0])
      requires res2 != null ==>
        |x| == res2.Length == |whole| && ChunksDone(cfg, Rows(cfg, x, xids, precomputed), bs, i0, whole, res2[..])
      modifies `ids, `codes, `reconstructionErrors, `vectors, `ntotal, res2
      ensures Valid() && ok == isTrained
      ensures !ok ==> Abs() == old(Abs()) && (res2 != null ==> res2[..] == old(res2[..]))
      ensures ok ==> Abs() == AddAll(cfg, s, Rows(cfg, x, xids, precomputed)[..i1])
      ensures ok && res2 != null ==> ChunksDone(cfg, Rows(cfg, x, xids, precomputed), bs, i1, whole, res2[..])
    {
      hide AddAll, Aligned, SameShape, Zip, IvfPq.Valid, Rows, BlockOut, ChunksDone, BufferOut;
      ghost var rows := Rows(cfg, x, xids, precomputed);
      RowsSlice(cfg, x, xids, precomputed, i0, i1);
      AddAllAppend(cfg, s, rows[..i0], rows[i0..i1]);
      assert rows[..i0] + rows[i0..i1] == rows[..i1];
      ghost var current := if res2 != null then res2[..] else [];
      ok := AddBlock(x[i0..i1], Slice(xids, i0, i1), Slice(precomputed, i0, i1), res2, i0);
      if ok && res2 != null {
        ChunksDoneStep(cfg, rows, bs, i0, whole, current, res2[..]);
      }
    }

    /** One block, added row by row after all of it has been assigned and encoded. */
    method AddBlock(x: seq<Vec>, xids: Option<seq<int>>, precomputed: Option<seq<int>>, res2: array?<Vec>, at: nat)
      returns (ok: bool)
      requires Valid() && ValidInput(cfg, x, xids, precomputed)
      requires res2 != null ==> at + |x| <= res2.Length
      modifies `ids, `codes, `reconstructionErrors, `vectors, `ntotal, res2
      ensures Valid() && ok == isTrained
      ensures !ok ==> Abs() == old(Abs()) && (res2 != null ==> res2[..] == old(res2[..]))
      ensures ok ==> Abs() == AddAll(cfg, old(Abs()), Rows(cfg, x, xids, precomputed))
      ensures ok && res2 != null ==>
        BufferOut(cfg, Rows(cfg, x, xids, precomputed), |x|, at, old(res2[..]), res2[..])
    {
      if !isTrained {
        return false;
      }
      var rows := Rows(cfg, x, xids, precomputed);
      var xcodes := EncodeAll(rows);
      AddAllAligned(cfg, Abs(), rows);
      AddRows(rows, xcodes, res2, at);
      ntotal := ntotal + |x|;
      ok := true;
    }

    /** The rows of a block, one at a time. */
    method AddRows(rows: seq<Row>, xcodes: seq<Code>, res2: array?<Vec>, at: nat)
      requires Shaped() && ValidRows(cfg, rows) && CodesOf(cfg, rows, xcodes)
      requires res2 != null ==> at + |rows| <= res2.Length
      modifies `ids, `codes, `reconstructionErrors, `vectors, res2
      ensures Shaped() && Index(ntotal + |rows|, Lists()) == AddAll(cfg, old(Abs()), rows)
      ensures res2 != null ==> BufferOut(cfg, rows, |rows|, at, old(res2[..]), res2[..])
    {
      hide AddAll, AddRow, SameShape, BufferOut, IvfPq.Valid, Zip;
      ghost var s := Abs();
      ghost var whole := if res2 != null then res2[..] else [];
      AddAllNone(cfg, s, rows);
      if res2 != null {
        BufferOutStart(cfg, rows, at, whole);
      }
      var i := 0;
      while i < |rows|
        invariant 0 <= i <= |rows| && Shaped()
        invariant Index(ntotal + i, Lists()) == AddAll(cfg, s, rows[..i])
        invariant res2 != null ==> BufferOut(cfg, rows, i, at, whole, res2[..])
      {
        AddAllStep(cfg, s, rows, i);
        AddOne(rows, i, rows[i], xcodes[i], res2, at, whole);
        i := i + 1;
      }
      assert rows[..|rows|] == rows;
    }

    /** Row i of a block; ntotal is still what it was when the block began. */
    method AddOne(ghost rows: seq<Row>, i: nat, row: Row, code: Code, res2: array?<Vec>, at: nat, ghost whole: seq<Vec>)
      requires Shaped() && ValidRows(cfg, rows) && i < |rows| && row == rows[i] && ValidRow(cfg, row)
      requires row.key >= 0 ==> code == cfg.encode(cfg.ToEncode(row.x, row.key))
      requires res2 != null ==> at + |rows| <= |whole| == res2.Length && BufferOut(cfg, rows, i, at, whole, res2[..])
      modifies `ids, `codes, `reconstructionErrors, `vectors, res2
      ensures Shaped()
      ensures Index(ntotal + i + 1, Lists()) == AddRow(cfg, Index(ntotal + i, old(Lists())), row)
      ensures res2 != null ==> BufferOut(cfg, rows, i + 1, at, whole, res2[..])
    {
      hide SameShape, Config.Residual2, BufferOut, IvfPq.Valid, ItemOf;
      if row.key < 0 {
        if res2 != null {
          BufferOutStep(cfg, rows, i, at, whole, res2[..], row.x);
          res2[at] := Zeros(cfg.ivf.D());
        }
      } else {
        var ok, residual := AddAssigned(row, ntotal + i, code);
        if res2 != null {
          BufferOutStep(cfg, rows, i, at, whole, res2[..], residual);
          res2[at + i] := residual;
        }
      }
    }

    /** The codes of a block, computed before any of its rows is added. */
    method EncodeAll(rows: seq<Row>) returns (xcodes: seq<Code>)
      requires cfg.Valid() && ValidRows(cfg, rows)
      ensures CodesOf(cfg, rows, xcodes)
    {
      var toEncode := seq(|rows|, i requires 0 <= i < |rows| => rows[i].x);
      if cfg.ivf.byResidual {
        toEncode := ComputeResiduals(rows);
      }
      xcodes := seq(|rows|, i requires 0 <= i < |rows| => cfg.encode(toEncode[i]));
    }

    /** The residuals of the assigned vectors, zero for the others. */
    method ComputeResiduals(rows: seq<Row>) returns (residuals: seq<Vec>)
      requires cfg.Valid() && ValidRows(cfg, rows)
      ensures |residuals| == |rows|
      ensures forall i :: 0 <= i < |rows| ==>
        ValidRow(cfg, rows[i])
        && residuals[i] == if rows[i].key < 0 then Zeros(cfg.ivf.D()) else Sub(rows[i].x, cfg.ivf.Centroid(rows[i].key))
    {
      hide Sub, IvfPq.Centroid, IvfPq.ValidPrecomputed, IvfPq.ValidCoarse;
      residuals := [];
      var i := 0;
      while i < |rows|
        invariant 0 <= i <= |rows| && |residuals| == i
        invariant forall k :: 0 <= k < i ==>
          ValidRow(cfg, rows[k])
          && residuals[k] == if rows[k].key < 0 then Zeros(cfg.ivf.D()) else Sub(rows[k].x, cfg.ivf.Centroid(rows[k].key))
      {
        assert rows[i] in rows;
        if rows[i].key < 0 {
          residuals := residuals + [Zeros(cfg.ivf.D())];
        } else {
          residuals := residuals + [Sub(rows[i].x, cfg.ivf.Centroid(rows[i].key))];
        }
        i := i + 1;
      }
    }
  }

  /** The codes of the assigned rows. */
  ghost predicate CodesOf(cfg: Config, rows: seq<Row>, xcodes: seq<Code>)
    requires cfg.Valid() && ValidRows(cfg, rows)
  {
    |xcodes| == |rows|
    && forall i :: 0 <= i < |rows| && rows[i].key >= 0 ==>
      ValidRow(cfg, rows[i]) && xcodes[i] == cfg.encode(cfg.ToEncode(rows[i].x, rows[i].key))
  }

  /** What one block turns its part of the buffer into. */
  ghost function BlockOut(cfg: Config, rows: seq<Row>, before: seq<Vec>): (after: seq<Vec>)
    requires cfg.Valid() && ValidRows(cfg, rows) && |before| == |rows|
    ensures |after| == |rows|
  {
    seq(|rows|, k requires 0 <= k < |rows| => ResidualAt(cfg, rows, |rows|, k, before[k]))
  }

  ghost function ChunkedOut(cfg: Config, rows: seq<Row>, bs: nat, before: seq<Vec>): (after: seq<Vec>)
    requires cfg.Valid() && ValidRows(cfg, rows) && |before| == |rows| && bs > 0
    ensures |after| == |rows|
    decreases |rows|
  {
    if |rows| <= bs then BlockOut(cfg, rows, before)
    else BlockOut(cfg, rows[..bs], before[..bs]) + ChunkedOut(cfg, rows[bs..], bs, before[bs..])
  }

  /** The buffer is what its documentation says: it holds the residual of every assigned row. */
  ghost predicate Documented(cfg: Config, rows: seq<Row>, out: seq<Vec>)
    requires cfg.Valid() && |out| == |rows|
  {
    forall k :: 0 <= k < |rows| ==> RowDocumented(cfg, rows[k], out[k])
  }

  ghost predicate RowDocumented(cfg: Config, row: Row, out: Vec)
    requires cfg.Valid()
  {
    row.key >= 0 ==> ValidRow(cfg, row) && out == cfg.Residual2(row.x, row.key)
  }

  /** No row of the block is left unassigned, or its first row is, or that row's residual happens to be zero. */
  ghost predicate Clean(cfg: Config, rows: seq<Row>)
    requires cfg.Valid() && ValidRows(cfg, rows)
  {
    !SomeUnassigned(rows) || rows[0].key < 0
    || (ValidRow(cfg, rows[0]) && cfg.Residual2(rows[0].x, rows[0].key) == Zeros(cfg.ivf.D()))
  }

  ghost predicate AllClean(cfg: Config, rows: seq<Row>, bs: nat)
    requires cfg.Valid() && ValidRows(cfg, rows) && bs > 0
    decreases |rows|
  {
    if |rows| <= bs then Clean(cfg, rows) else Clean(cfg, rows[..bs]) && AllClean(cfg, rows[bs..], bs)
  }

  /** The whole buffer is what its documentation says exactly when every block of bs rows is clean. */
  lemma {:induction false} ResidualsAsDocumented(cfg: Config, rows: seq<Row>, bs: nat, before: seq<Vec>)
    requires cfg.Valid() && ValidRows(cfg, rows) && |before| == |rows| && bs > 0
    ensures Documented(cfg, rows, ChunkedOut(cfg, rows, bs, before)) <==> AllClean(cfg, rows, bs)
    decreases |rows|
  {
    hide BlockOut, Clean, RowDocumented;
    if |rows| <= bs {
      BlockAsDocumented(cfg, rows, before);
    } else {
      BlockAsDocumented(cfg, rows[..bs], before[..bs]);
      ResidualsAsDocumented(cfg, rows[bs..], bs, before[bs..]);
      DocumentedSplit(cfg, rows, bs, BlockOut(cfg, rows[..bs], before[..bs]), ChunkedOut(cfg, rows[bs..], bs, before[bs..]));
    }
  }

  lemma BlockAsDocumented(cfg: Config, rows: seq<Row>, before: seq<Vec>)
    requires cfg.Valid() && ValidRows(cfg, rows) && |before| == |rows|
    ensures Documented(cfg, rows, BlockOut(cfg, rows, before)) <==> Clean(cfg, rows)
  {
    hide Config.Residual2, Config.Valid;
    var after := BlockOut(cfg, rows, before);
    assert rows[..|rows|] == rows;
    forall k | 0 <= k < |rows|
      ensures after[k] == ResidualAt(cfg, rows, |rows|, k, before[k]) && ValidRow(cfg, rows[k])
    {
      assert rows[k] in rows;
    }
    if rows != [] {
      assert RowDocumented(cfg, rows[0], after[0]) <==> Clean(cfg, rows);
    }
  }

  lemma DocumentedSplit(cfg: Config, rows: seq<Row>, n: nat, a: seq<Vec>, b: seq<Vec>)
    requires cfg.Valid() && n == |a| <= |rows| == |a| + |b|
    ensures Documented(cfg, rows, a + b) <==> Documented(cfg, rows[..n], a) && Documented(cfg, rows[n..], b)
  {
    hide RowDocumented;
    if Documented(cfg, rows, a + b) {
      forall k | 0 <= k < |b|
        ensures RowDocumented(cfg, rows[n..][k], b[k])
      {
        assert (a + b)[n + k] == b[k];
      }
      assert forall k :: 0 <= k < n ==> RowDocumented(cfg, rows[k], (a + b)[k]);
    }
  }

  /** An assigned row with an unassigned one behind it: added in one block its residual is cleared, added in blocks
      of one it is not. */
  lemma UnassignedClearsFirst(root: real -> real, before: seq<Vec>)
    requires IsSqrt(root) && |before| == 2
    ensures var cfg, rows := OneCentroid(root), [Row([3.0], 0, None), Row([3.0], -1, None)];
            cfg.Valid() && ValidRows(cfg, rows)
            && cfg.Residual2([3.0], 0) == [1.0] && ChunkedOut(cfg, rows, 2, before)[0] == [0.0]
            && !Documented(cfg, rows, ChunkedOut(cfg, rows, 2, before))
            && Documented(cfg, rows, ChunkedOut(cfg, rows, 1, before))
  {
    OneCentroidValid(root);
    ResidualOfThree(root);
    var cfg, rows := OneCentroid(root), [Row([3.0], 0, None), Row([3.0], -1, None)];
    hide OneCentroid, Config.Valid, Config.Residual2;
    assert rows[..2] == rows && rows[1].key < 0 && Zeros(1) == [0.0];
    ResidualsAsDocumented(cfg, rows, 2, before);
    ResidualsAsDocumented(cfg, rows, 1, before);
    hide RowDocumented;
    assert rows[..1] == [rows[0]] && rows[1..] == [rows[1]];
    assert Clean(cfg, rows[..1]) && Clean(cfg, rows[1..]);
  }

  lemma ResidualOfThree(root: real -> real)
    requires IsSqrt(root)
    ensures OneCentroid(root).Valid() && OneCentroid(root).ivf.D() == 1 && OneCentroid(root).ivf.nlist == 1
    ensures OneCentroid(root).Residual2([3.0], 0) == [1.0]
  {
    OneCentroidValid(root);
    OneCentroidDistances(root);
  }

  lemma BufferOutIsBlockOut(cfg: Config, rows: seq<Row>, at: nat, whole: seq<Vec>, current: seq<Vec>)
    requires cfg.Valid() && ValidRows(cfg, rows) && at + |rows| <= |whole|
    requires BufferOut(cfg, rows, |rows|, at, whole, current)
    ensures current == whole[..at] + BlockOut(cfg, rows, whole[at..at + |rows|]) + whole[at + |rows|..]
  {
    hide ResidualAt;
    var end := at + |rows|;
    assert current[at..end] == BlockOut(cfg, rows, whole[at..end]);
    assert current == current[..at] + current[at..end] + current[end..];
  }

  lemma OneBlockOut(cfg: Config, rows: seq<Row>, bs: nat, whole: seq<Vec>, current: seq<Vec>)
    requires cfg.Valid() && ValidRows(cfg, rows) && |rows| == |whole| && |rows| <= bs && bs > 0
    requires BufferOut(cfg, rows, |rows|, 0, whole, current)
    ensures current == ChunkedOut(cfg, rows, bs, whole)
  {
    hide BlockOut, BufferOut, Config.Valid, ValidRows;
    BufferOutIsBlockOut(cfg, rows, 0, whole, current);
    assert whole[0..0 + |rows|] == whole;
  }

  /** The first i0 rows' part of the buffer is final, and the rest is as it was. */
  ghost predicate ChunksDone(cfg: Config, rows: seq<Row>, bs: nat, i0: nat, whole: seq<Vec>, current: seq<Vec>)
    requires cfg.Valid() && ValidRows(cfg, rows) && |whole| == |rows| && bs > 0 && i0 <= |rows|
  {
    |current| == |whole| && current[i0..] == whole[i0..]
    && ChunkedOut(cfg, rows, bs, whole) == current[..i0] + ChunkedOut(cfg, rows[i0..], bs, whole[i0..])
  }

  lemma ChunksDoneStart(cfg: Config, rows: seq<Row>, bs: nat, whole: seq<Vec>)
    requires cfg.Valid() && ValidRows(cfg, rows) && |whole| == |rows| && bs > 0
    ensures ChunksDone(cfg, rows, bs, 0, whole, whole)
  {
    assert rows[0..] == rows && whole[0..] == whole;
  }

  lemma ChunksDoneEnd(cfg: Config, rows: seq<Row>, bs: nat, whole: seq<Vec>, current: seq<Vec>)
    requires cfg.Valid() && ValidRows(cfg, rows) && |whole| == |rows| && bs > 0
    requires ChunksDone(cfg, rows, bs, |rows|, whole, current)
    ensures current == ChunkedOut(cfg, rows, bs, whole)
  {
    assert current[..|rows|] == current;
  }

  lemma ChunksDoneStep(cfg: Config, rows: seq<Row>, bs: nat, i0: nat, whole: seq<Vec>, current: seq<Vec>, next: seq<Vec>)
    requires cfg.Valid() && ValidRows(cfg, rows) && |whole| == |rows| && bs > 0 && i0 < |rows|
    requires ChunksDone(cfg, rows, bs, i0, whole, current)
    requires var i1 := if i0 + bs < |rows| then i0 + bs else |rows|;
             BufferOut(cfg, rows[i0..i1], i1 - i0, i0, current, next)
    ensures var i1 := if i0 + bs < |rows| then i0 + bs else |rows|;
            ChunksDone(cfg, rows, bs, i1, whole, next)
  {
    hide BufferOut, BlockOut, Config.Valid, ValidRow;
    var i1 := if i0 + bs < |rows| then i0 + bs else |rows|;
    BufferOutIsBlockOut(cfg, rows[i0..i1], i0, current, next);
    var rest, before := rows[i0..], whole[i0..];
    assert current[i0..i1] == before[..i1 - i0] && current[i1..] == whole[i1..];
    if i0 + bs < |rows| {
      assert rest[..bs] == rows[i0..i1] && rest[bs..] == rows[i1..] && before[bs..] == whole[i1..];
    } else {
      assert rest == rows[i0..i1] && before[..i1 - i0] == before && rows[i1..] == [] && whole[i1..] == [];
    }
  }

  lemma AddAllNone(cfg: Config, s: Index, rows: seq<Row>)
    requires cfg.Valid() && ValidRows(cfg, rows) && |s.lists| == cfg.ivf.nlist
    ensures AddAll(cfg, s, rows[..0]) == s
  {
  }

  lemma AddAllStep(cfg: Config, s: Index, rows: seq<Row>, i: nat)
    requires cfg.Valid() && ValidRows(cfg, rows) && |s.lists| == cfg.ivf.nlist && i < |rows|
    ensures ValidRow(cfg, rows[i])
    ensures AddAll(cfg, s, rows[..i + 1]) == AddRow(cfg, AddAll(cfg, s, rows[..i]), rows[i])
    ensures AddAll(cfg, s, rows[..i]).ntotal == s.ntotal + i
  {
    assert rows[..i + 1][..i] == rows[..i] && rows[i] in rows;
  }

  lemma SameShapeAt(ids: seq<seq<int>>, codes: seq<seq<Code>>, errors: seq<seq<real>>, vectors: seq<seq<Vec>>, l: nat)
    requires SameShape(ids, codes, errors, vectors) && l < |ids|
    ensures |ids| == |codes| == |errors| == |vectors|
    ensures |ids[l]| == |codes[l]| == |errors[l]| == |vectors[l]|
  {
  }
}
