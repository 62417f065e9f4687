/** The buffered index builder as a value: what it will give, or has given, to the index. */
module BuilderSpec {
  import opened SeqViews
  import opened Vectors
  import opened Wrappers

  /** One row the index received. */
  datatype Received = Received(x: Row, id: Option<Cell<int>>)

  datatype FaissIndex = FaissIndex(trained: bool, received: seq<Received>)

  /** The buffers: floats and ids copied in, and the first batch when only borrowed. */
  datatype Builder = Builder(
    isOpened: bool, isClosed: bool, custom: bool, dim: nat, index: FaissIndex,
    borrowed: Option<View>, rowId: Option<seq<Cell<int>>>, data: Row, idBuffer: seq<Cell<int>>)
  {
    predicate Valid() {
      dim > 0
      && (if custom then borrowed.Some? ==> rowId.Some? else idBuffer == [] && rowId.None?)
      && forall i :: 0 <= i < |index.received| ==> |index.received[i].x| == dim
    }

    /** The ids that go with the buffered rows. */
    function Ids(): Option<seq<Cell<int>>> {
      if idBuffer != [] then Some(idBuffer) else rowId
    }

    /** What the first flush trains on and gives to the index. */
    function Pending(): (r: seq<Received>)
      requires dim > 0
      ensures forall i :: 0 <= i < |r| ==> |r[i].x| == dim
    {
      if data != [] then Zip(Chunks(data, dim), Ids())
      else if borrowed.Some? then Zip(borrowed.value.FromStart(dim), Ids())
      else []
    }

    /** All rows the index has received, or will at the first flush. */
    function Total(): (r: seq<Received>)
      requires Valid()
      ensures forall i :: 0 <= i < |r| ==> |r[i].x| == dim
    {
      if index.trained then index.received else index.received + Pending()
    }

    /** The buffers hold whole rows and, when ids are in use, an id for each. */
    predicate Regular()
      requires Valid()
    {
      Whole(data, dim)
      && (custom ==>
            |Chunks(data, dim)| == |idBuffer|
            && (borrowed.Some? && data == [] ==> |rowId.value| >= |borrowed.value.rows|))
    }
  }

  /** One call of Add: a column, optional ids and null flags, and whether the inputs outlive the builder. */
  datatype Batch = Batch(view: View, ids: Option<seq<int>>, flags: Option<seq<int>>, live: bool)
  {
    predicate Valid() {
      view.Valid()
      && (ids.Some? ==> |ids.value| == |view.rows|) && (flags.Some? ==> |flags.value| == |view.rows|)
    }

    /** Whether a builder takes the batch rather than raising an error. Row lengths are looked at only in a
        variable-length column. */
    predicate AcceptedBy(b: Builder)
      requires Valid()
    {
      b.isOpened && !b.isClosed && (b.custom <==> ids.Some?) && (flags.Some? ==> b.custom)
      && (view.fixed || view.Fits(b.dim))
    }

    function IdCells(): Option<seq<Cell<int>>> {
      if ids.Some? then Some(Cells(ids.value)) else None
    }

    /** Whether the rows to reach the index have the index's dimension. */
    predicate RowsFit(dim: nat)
      requires Valid()
    {
      forall i :: 0 <= i < |view.rows| && (flags.Some? ==> flags.value[i] == 0) ==> |view.rows[i]| == dim
    }
  }

  function IdAt(ids: seq<Cell<int>>, i: nat): Cell<int> {
    if i < |ids| then ids[i] else Stray
  }

  /** Each row with the id at its place. */
  function Zip(rows: seq<Row>, ids: Option<seq<Cell<int>>>): (r: seq<Received>)
    ensures |r| == |rows| && forall i :: 0 <= i < |r| ==> r[i].x == rows[i]
  {
    seq(|rows|, i requires 0 <= i < |rows| => Received(rows[i], if ids.Some? then Some(IdAt(ids.value, i)) else None))
  }

  /** The first n ids behind a pointer. */
  function Take(ids: seq<Cell<int>>, n: nat): (r: seq<Cell<int>>)
    ensures |r| == n
  {
    seq(n, i requires 0 <= i < n => IdAt(ids, i))
  }

  lemma ZipAppend(a: seq<Row>, b: seq<Row>, ia: seq<Cell<int>>, ib: seq<Cell<int>>)
    requires |ia| == |a|
    ensures Zip(a + b, Some(ia + ib)) == Zip(a, Some(ia)) + Zip(b, Some(ib))
  {
  }

  lemma ZipNone(a: seq<Row>, b: seq<Row>)
    ensures Zip(a + b, None) == Zip(a, None) + Zip(b, None)
  {
  }

  lemma ZipPrefix(a: seq<Row>, ids: seq<Cell<int>>)
    ensures Zip(a, Some(Take(ids, |a|))) == Zip(a, Some(ids))
  {
  }

  /** The rows and ids whose null flag is zero, in order. */
  function NonNullRows(rows: seq<Vec>, flags: seq<int>): seq<Vec>
    requires |flags| == |rows|
  {
    if rows == [] then []
    else
      NonNullRows(rows[..|rows| - 1], flags[..|rows| - 1])
      + if flags[|rows| - 1] == 0 then [rows[|rows| - 1]] else []
  }

  function NonNullIds(ids: seq<int>, flags: seq<int>): (r: seq<int>)
    requires |flags| == |ids|
  {
    if ids == [] then []
    else
      NonNullIds(ids[..|ids| - 1], flags[..|ids| - 1])
      + if flags[|ids| - 1] == 0 then [ids[|ids| - 1]] else []
  }

  lemma {:induction false} NonNullPairs(rows: seq<Vec>, ids: seq<int>, flags: seq<int>)
    requires |rows| == |ids| == |flags|
    ensures |NonNullRows(rows, flags)| == |NonNullIds(ids, flags)|
    decreases |rows|
  {
    if rows != [] {
      var n := |rows| - 1;
      NonNullPairs(rows[..n], ids[..n], flags[..n]);
    }
  }

  lemma {:induction false} NonNullFit(rows: seq<Vec>, flags: seq<int>, dim: nat)
    requires |rows| == |flags|
    ensures AllOfLength(NonNullRows(rows, flags), dim)
       <==> forall i :: 0 <= i < |rows| && flags[i] == 0 ==> |rows[i]| == dim
    decreases |rows|
  {
    if rows != [] {
      var n := |rows| - 1;
      NonNullFit(rows[..n], flags[..n], dim);
      var before, all := NonNullRows(rows[..n], flags[..n]), NonNullRows(rows, flags);
      assert forall i :: 0 <= i < |before| ==> all[i] == before[i];
      assert flags[n] == 0 ==> all[|before|] == rows[n];
      assert forall i :: 0 <= i < n ==> rows[..n][i] == rows[i] && flags[..n][i] == flags[i];
    }
  }

  /** The rows of a batch that are to reach the index, each with its own id. */
  function Rows(batch: Batch): seq<Received>
    requires batch.Valid() && (batch.flags.Some? ==> batch.ids.Some?)
  {
    if batch.flags.Some? then
      Zip(AllCells(NonNullRows(batch.view.rows, batch.flags.value)), Some(Cells(NonNullIds(batch.ids.value, batch.flags.value))))
    else Zip(batch.view.Rows(), batch.IdCells())
  }

  // ---- the operations ----

  /** Copies floats and ids behind those buffered. */
  function Append(b: Builder, floats: Row, ids: seq<Cell<int>>): Builder {
    b.(data := b.data + floats, idBuffer := b.idBuffer + ids)
  }

  /** Buffering a batch without null flags: as many vectors of the builder's dimension as the batch has rows, read
      from the start of its array. A batch that outlives the builder is only borrowed while it is the only one. */
  function Merge(b: Builder, view: View, ids: Option<seq<int>>, live: bool): Builder
    requires b.Valid() && (b.custom <==> ids.Some?)
  {
    var newIds := if ids.Some? then Cells(ids.value) else [];
    var floats := Flatten(view.FromStart(b.dim));
    if !live then Append(b, floats, newIds)
    else if b.borrowed.None? then
      b.(borrowed := Some(view), rowId := if ids.Some? then Some(newIds) else b.rowId)
    else if b.data == [] then
      b.(data := Flatten(b.borrowed.value.FromStart(b.dim)) + floats,
         idBuffer := if ids.Some? then Take(b.rowId.value, |b.borrowed.value.rows|) + newIds else b.idBuffer)
    else Append(b, floats, newIds)
  }

  function Receive(b: Builder, rs: seq<Received>): Builder {
    b.(index := b.index.(received := b.index.received + rs))
  }

  /** Null-flagged rows are copied one by one, whatever their length. */
  function AppendNonNull(b: Builder, rows: seq<Vec>, ids: seq<int>, flags: seq<int>): Builder
    requires |rows| == |ids| == |flags|
  {
    Append(b, Flatten(AllCells(NonNullRows(rows, flags))), Cells(NonNullIds(ids, flags)))
  }

  function Add(b: Builder, batch: Batch): (b': Builder)
    requires b.Valid() && batch.Valid() && batch.AcceptedBy(b)
    ensures b'.Valid() && b'.dim == b.dim
  {
    if batch.flags.Some? then AppendNonNull(b, batch.view.rows, batch.ids.value, batch.flags.value)
    else if b.index.trained then Receive(b, Zip(batch.view.FromStart(b.dim), batch.IdCells()))
    else Merge(b, batch.view, batch.ids, batch.live)
  }

  /** Whether a flush raises no error: the builder is open, and it has something to train on if it must. */
  predicate CanFlush(b: Builder) {
    b.isOpened && (b.index.trained || b.data != [] || b.borrowed.Some?)
  }

  function Flush(b: Builder): (b': Builder)
    requires b.Valid() && CanFlush(b)
    ensures b'.Valid() && b'.dim == b.dim
  {
    if b.index.trained then b
    else
      b.(rowId := if b.idBuffer != [] then Some(b.idBuffer) else b.rowId,
         index := FaissIndex(true, b.index.received + b.Pending()))
  }

  /** Closing, which keeps the buffers. */
  function Close(b: Builder): Builder {
    b.(isOpened := false, isClosed := true)
  }

  /** Opening, with a new index and the buffers as they are. */
  function Open(b: Builder): (b': Builder)
    requires b.Valid()
    ensures b'.Valid()
  {
    b.(isOpened := true, isClosed := false, index := FaissIndex(false, []))
  }

  /** A builder that has just been opened for the first time. */
  function Fresh(custom: bool, dim: nat): (b: Builder)
    requires dim > 0
    ensures b.Valid() && b.Total() == [] && b.Regular()
  {
    Builder(true, false, custom, dim, FaissIndex(false, []), None, None, [], [])
  }
}
