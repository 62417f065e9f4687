/** The buffered index builder: what each call does to its buffers and its index. */
module IndexBuilders {
  import opened BuilderSpec
  import opened SeqViews
  import opened Vectors
  import opened Wrappers

  class FaissIndexBuilderWithBuffer {
    const dim: nat
    const useCustomRowId: bool
    var isOpened: bool
    var isClosed: bool
    var inputsLiveLonger: bool
    var index: FaissIndex
    var inputRowIterator: Option<View>
    var rowId: Option<seq<Cell<int>>>
    var dataBuffer: Row
    var idBuffer: seq<Cell<int>>

    ghost function Abs(): Builder
      reads this
    {
      Builder(isOpened, isClosed, useCustomRowId, dim, index, inputRowIterator, rowId, dataBuffer, idBuffer)
    }

    ghost predicate Valid()
      reads this
    {
      Abs().Valid()
    }

    constructor (useCustomRowId: bool, dim: nat)
      requires dim > 0
      ensures Valid() && Open(Abs()) == Fresh(useCustomRowId, dim)
    {
      this.useCustomRowId, this.dim := useCustomRowId, dim;
      isOpened, isClosed, inputsLiveLonger := false, false, false;
      index := FaissIndex(false, []);
      inputRowIterator, rowId, dataBuffer, idBuffer := None, None, [], [];
    }

    /** Fails on a builder that is open. */
    method OpenBuilder() returns (ok: bool)
      requires Valid()
      modifies this
      ensures Valid() && ok == !old(isOpened)
      ensures Abs() == if ok then Open(old(Abs())) else old(Abs())
    {
      ok := !isOpened;
      if ok {
        index := FaissIndex(false, []);
        isOpened, isClosed := true, false;
      }
    }

    /** Fails on a builder that is not open. */
    method CloseBuilder() returns (ok: bool)
      requires Valid()
      modifies this
      ensures Valid() && ok == old(isOpened)
      ensures Abs() == if ok then Close(old(Abs())) else old(Abs())
    {
      ok := isOpened;
      if ok {
        isOpened, isClosed := false, true;
      }
    }

    /** Adds a batch: straight to a trained index, and to the buffers otherwise. */
    method AddBatch(batch: Batch) returns (ok: bool)
      requires Valid() && batch.Valid()
      modifies this
      ensures ok <==>
        old(isOpened) && !old(isClosed) && (batch.ids.Some? <==> useCustomRowId) && (batch.flags.Some? ==> useCustomRowId)
        && (batch.view.fixed || forall i :: 0 <= i < |batch.view.rows| ==> |batch.view.rows[i]| == dim)
      ensures Valid() && ok == batch.AcceptedBy(old(Abs()))
      ensures Abs() == if ok then BuilderSpec.Add(old(Abs()), batch) else old(Abs())
    {
      if !isOpened || isClosed || useCustomRowId != batch.ids.Some? || (!useCustomRowId && batch.flags.Some?) {
        return false;
      }
      inputsLiveLonger := batch.live;
      if !batch.view.fixed {
        var fits := CheckDimension(batch.view);
        if !fits {
          return false;
        }
      }
      ok := true;
      if batch.flags.Some? {
        AddWithRowIdsAndNullFlags(batch.view.rows, batch.ids.value, batch.flags.value);
      } else if index.trained {
        index := index.(received := index.received + Zip(batch.view.FromStart(dim), batch.IdCells()));
      } else {
        MergeBatch(batch.view, batch.ids);
      }
    }

    method CheckDimension(view: View) returns (fits: bool)
      ensures fits == view.Fits(dim)
    {
      var i := 0;
      while i < |view.rows|
        invariant 0 <= i <= |view.rows|
        invariant forall j :: 0 <= j < i ==> |view.rows[j]| == dim
      {
        if |view.rows[i]| != dim {
          return false;
        }
        i := i + 1;
      }
      fits := true;
    }

    /** Null-flagged rows always go to the buffers. */
    method AddWithRowIdsAndNullFlags(rows: seq<Vec>, ids: seq<int>, flags: seq<int>)
      requires |rows| == |ids| == |flags|
      modifies `dataBuffer, `idBuffer
      ensures Abs() == AppendNonNull(old(Abs()), rows, ids, flags)
    {
      hide NonNullRows, NonNullIds, Flatten, AllCells, Cells;
      var i := 0;
      NonNullNone(rows, ids, flags);
      while i < |rows|
        invariant 0 <= i <= |rows|
        invariant dataBuffer == old(dataBuffer) + Flatten(AllCells(NonNullRows(rows[..i], flags[..i])))
        invariant idBuffer == old(idBuffer) + Cells(NonNullIds(ids[..i], flags[..i]))
      {
        NonNullStep(rows, ids, flags, i);
        if flags[i] == 0 {
          dataBuffer := dataBuffer + Cells(rows[i]);
          idBuffer := idBuffer + [Read(ids[i])];
        }
        i := i + 1;
      }
      assert rows[..i] == rows && ids[..i] == ids && flags[..i] == flags;
    }

    /** Buffers a batch, or borrows it while it is the only one. */
    method MergeBatch(view: View, ids: Option<seq<int>>)
      requires Valid() && (useCustomRowId <==> ids.Some?)
      modifies `inputRowIterator, `rowId, `dataBuffer, `idBuffer
      ensures Abs() == Merge(old(Abs()), view, ids, inputsLiveLonger)
    {
      hide Flatten, View.FromStart, Take, Cells;
      if !inputsLiveLonger {
        dataBuffer := dataBuffer + Flatten(view.FromStart(dim));
        if ids.Some? {
          idBuffer := idBuffer + Cells(ids.value);
        }
      } else if inputRowIterator.None? {
        inputRowIterator := Some(view);
        if ids.Some? {
          rowId := Some(Cells(ids.value));
        }
      } else if dataBuffer == [] {
        dataBuffer := Flatten(inputRowIterator.value.FromStart(dim));
        dataBuffer := dataBuffer + Flatten(view.FromStart(dim));
        if ids.Some? {
          idBuffer := Take(rowId.value, |inputRowIterator.value.rows|);
          idBuffer := idBuffer + Cells(ids.value);
        }
      } else {
        dataBuffer := dataBuffer + Flatten(view.FromStart(dim));
        if ids.Some? {
          idBuffer := idBuffer + Cells(ids.value);
        }
      }
      assert idBuffer + [] == idBuffer && old(idBuffer) + [] == old(idBuffer);
    }

    /** Trains the index on what is buffered and gives it those rows, the first time; later only writes. */
    method FlushBuffers() returns (ok: bool)
      requires Valid()
      modifies this
      ensures ok <==> old(isOpened) && (old(index.trained) || old(dataBuffer) != [] || old(inputRowIterator).Some?)
      ensures Valid() && ok == CanFlush(old(Abs()))
      ensures Abs() == if ok then Flush(old(Abs())) else old(Abs())
    {
      if !isOpened {
        return false;
      }
      if !index.trained {
        if dataBuffer == [] && inputRowIterator.None? {
          return false;
        }
        var withRowIds := rowId.Some? || |idBuffer| > 0;
        if |idBuffer| > 0 {
          rowId := Some(idBuffer);
        }
        var rows := if dataBuffer != [] then Chunks(dataBuffer, dim) else inputRowIterator.value.FromStart(dim);
        index := FaissIndex(true, index.received + Zip(rows, if withRowIds then rowId else None));
      }
      ok := true;
    }
  }

  lemma NonNullNone(rows: seq<Vec>, ids: seq<int>, flags: seq<int>)
    requires |rows| == |ids| == |flags|
    ensures Flatten(AllCells(NonNullRows(rows[..0], flags[..0]))) == [] && Cells(NonNullIds(ids[..0], flags[..0])) == []
  {
  }

  lemma NonNullStep(rows: seq<Vec>, ids: seq<int>, flags: seq<int>, i: nat)
    requires |rows| == |ids| == |flags| && i < |rows|
    ensures Flatten(AllCells(NonNullRows(rows[..i + 1], flags[..i + 1])))
         == Flatten(AllCells(NonNullRows(rows[..i], flags[..i]))) + if flags[i] == 0 then Cells(rows[i]) else []
    ensures Cells(NonNullIds(ids[..i + 1], flags[..i + 1]))
         == Cells(NonNullIds(ids[..i], flags[..i])) + if flags[i] == 0 then [Read(ids[i])] else []
  {
    assert rows[..i + 1][..i] == rows[..i] && ids[..i + 1][..i] == ids[..i] && flags[..i + 1][..i] == flags[..i];
    var before := NonNullRows(rows[..i], flags[..i]);
    FlattenAppend(AllCells(before), Cells(rows[i]));
    assert AllCells(before + [rows[i]]) == AllCells(before) + [Cells(rows[i])];
    assert AllCells(before + []) == AllCells(before);
  }
}
