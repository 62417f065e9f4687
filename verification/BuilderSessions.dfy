/** Which sessions of a buffered builder give its index exactly the rows added. */
module BuilderSessions {
  import opened BuilderSpec
  import opened SeqViews
  import opened Wrappers

  // ---- one call ----

  /** The calls that leave rows behind: null-flagged rows after training, which stay in the buffer; a borrowed batch
      behind copied rows; and copied rows behind a batch that is only borrowed. */
  predicate Loses(b: Builder, batch: Batch)
    requires b.Valid() && batch.Valid() && batch.AcceptedBy(b)
  {
    Rows(batch) != []
    && if b.index.trained then batch.flags.Some?
       else if batch.flags.None? && batch.live then b.borrowed.None? && b.data != []
       else b.data == [] && b.borrowed.Some? && b.borrowed.value.rows != []
  }

  /** A call keeps its rows when they have the right length, none is left behind, and reading an unflagged batch
      from the start of its array finds the rows. */
  ghost predicate Keeps(b: Builder, batch: Batch)
    requires b.Valid() && batch.Valid() && batch.AcceptedBy(b)
  {
    batch.RowsFit(b.dim) && !Loses(b, batch) && (batch.flags.Some? || batch.view.Repeats())
  }

  /** What a batch hands to the index. */
  function Handed(b: Builder, batch: Batch): seq<Received>
    requires batch.Valid() && batch.AcceptedBy(b)
  {
    if batch.flags.Some? then Rows(batch) else Zip(batch.view.FromStart(b.dim), batch.IdCells())
  }

  /** How many of the first n rows of a batch are not flagged null. */
  function NonNull(batch: Batch, n: nat): nat
    requires batch.Valid() && n <= |batch.view.rows|
  {
    if n == 0 then 0
    else NonNull(batch, n - 1) + if batch.flags.Some? && batch.flags.value[n - 1] != 0 then 0 else 1
  }

  /** The rows of a batch are its non-null rows, each at the place it has among them, with its own elements and id. */
  lemma RowsAre(batch: Batch, i: nat)
    requires batch.Valid() && (batch.flags.Some? ==> batch.ids.Some?) && i < |batch.view.rows|
    requires batch.flags.Some? ==> batch.flags.value[i] == 0
    ensures |Rows(batch)| == NonNull(batch, |batch.view.rows|) && NonNull(batch, i) < |Rows(batch)|
    ensures var r, x := Rows(batch)[NonNull(batch, i)], batch.view.rows[i];
            |r.x| == |x| && (forall k :: 0 <= k < |x| ==> r.x[k] == Read(x[k]))
            && r.id == if batch.ids.Some? then Some(Read(batch.ids.value[i])) else None
  {
    var rows := batch.view.rows;
    if batch.flags.Some? {
      NonNullAt(batch, |rows|, i);
      assert rows[..|rows|] == rows && batch.ids.value[..|rows|] == batch.ids.value;
      assert batch.flags.value[..|rows|] == batch.flags.value;
    } else {
      AllNonNull(batch, |rows|);
      AllNonNull(batch, i);
    }
  }

  lemma {:induction false} AllNonNull(batch: Batch, n: nat)
    requires batch.Valid() && n <= |batch.view.rows| && batch.flags.None?
    ensures NonNull(batch, n) == n
  {
    if n > 0 {
      AllNonNull(batch, n - 1);
    }
  }

  lemma {:induction false} NonNullAt(batch: Batch, n: nat, i: nat)
    requires batch.Valid() && batch.ids.Some? && batch.flags.Some? && i < n <= |batch.view.rows|
    requires batch.flags.value[i] == 0
    ensures var rows, ids := NonNullRows(batch.view.rows[..n], batch.flags.value[..n]),
                             NonNullIds(batch.ids.value[..n], batch.flags.value[..n]);
            |rows| == |ids| == NonNull(batch, n) && NonNull(batch, i) < |rows|
            && rows[NonNull(batch, i)] == batch.view.rows[i] && ids[NonNull(batch, i)] == batch.ids.value[i]
  {
    var rows, ids, flags := batch.view.rows, batch.ids.value, batch.flags.value;
    assert rows[..n][..n - 1] == rows[..n - 1] && ids[..n][..n - 1] == ids[..n - 1] && flags[..n][..n - 1] == flags[..n - 1];
    NonNullCount(batch, n - 1);
    NonNullCount(batch, n);
    if i < n - 1 {
      NonNullAt(batch, n - 1, i);
    }
  }

  lemma {:induction false} NonNullCount(batch: Batch, n: nat)
    requires batch.Valid() && batch.ids.Some? && batch.flags.Some? && n <= |batch.view.rows|
    ensures |NonNullRows(batch.view.rows[..n], batch.flags.value[..n])| == NonNull(batch, n)
    ensures |NonNullIds(batch.ids.value[..n], batch.flags.value[..n])| == NonNull(batch, n)
  {
    if n > 0 {
      var rows, ids, flags := batch.view.rows, batch.ids.value, batch.flags.value;
      assert rows[..n][..n - 1] == rows[..n - 1] && ids[..n][..n - 1] == ids[..n - 1] && flags[..n][..n - 1] == flags[..n - 1];
      NonNullCount(batch, n - 1);
    }
  }

  lemma RowsFitIff(b: Builder, batch: Batch)
    requires b.Valid() && batch.Valid() && batch.AcceptedBy(b)
    ensures batch.RowsFit(b.dim) <==> forall i :: 0 <= i < |Rows(batch)| ==> |Rows(batch)[i].x| == b.dim
  {
    var rows := batch.view.rows;
    if batch.flags.Some? {
      NonNullFit(rows, batch.flags.value, b.dim);
      var nonNull := NonNullRows(rows, batch.flags.value);
      assert forall i :: 0 <= i < |nonNull| ==> |Rows(batch)[i].x| == |nonNull[i]|;
    } else {
      assert forall i :: 0 <= i < |rows| ==> |Rows(batch)[i].x| == |rows[i]|;
    }
  }

  lemma HandedIff(b: Builder, batch: Batch)
    requires b.Valid() && batch.Valid() && batch.AcceptedBy(b) && batch.RowsFit(b.dim)
    ensures |Handed(b, batch)| == |Rows(batch)|
    ensures Handed(b, batch) == Rows(batch) <==> batch.flags.Some? || batch.view.Repeats()
  {
    if batch.flags.None? {
      assert batch.view.Fits(b.dim);
      FromStartIff(batch.view, b.dim);
      ZipInjective(batch.view.FromStart(b.dim), batch.view.Rows(), batch.IdCells());
    }
  }

  lemma ZipInjective(a: seq<Row>, b: seq<Row>, ids: Option<seq<Cell<int>>>)
    requires |a| == |b|
    ensures Zip(a, ids) == Zip(b, ids) <==> a == b
  {
    if Zip(a, ids) == Zip(b, ids) {
      assert forall i :: 0 <= i < |a| ==> a[i] == Zip(a, ids)[i].x && b[i] == Zip(b, ids)[i].x;
    }
  }

  /** A call whose rows have the right length keeps the buffers regular. It adds what it hands over to what the index
      has or will get, unless it loses rows: then the index gets fewer. */
  lemma AddTotal(b: Builder, batch: Batch)
    requires b.Valid() && b.Regular() && batch.Valid() && batch.AcceptedBy(b) && batch.RowsFit(b.dim)
    ensures Add(b, batch).Regular()
    ensures !Loses(b, batch) ==> Add(b, batch).Total() == b.Total() + Handed(b, batch)
    ensures Loses(b, batch) ==> |Add(b, batch).Total()| < |b.Total()| + |Rows(batch)|
  {
    hide Builder.Pending, Builder.Regular, Builder.Total, Rows, View.FromStart, Merge, AppendNonNull;
    if batch.flags.Some? {
      AddFlagged(b, batch);
    } else if b.index.trained {
      ReceiveTotal(b, Handed(b, batch));
    } else {
      AddUnflagged(b, batch);
    }
  }

  lemma AddFlagged(b: Builder, batch: Batch)
    requires b.Valid() && b.Regular() && batch.Valid() && batch.AcceptedBy(b) && batch.RowsFit(b.dim)
    requires batch.flags.Some?
    ensures Add(b, batch).Regular()
    ensures !Loses(b, batch) ==> Add(b, batch).Total() == b.Total() + Rows(batch)
    ensures Loses(b, batch) ==> |Add(b, batch).Total()| < |b.Total()| + |Rows(batch)|
  {
    hide Builder.Pending, Builder.Regular, Flatten, NonNullRows, NonNullIds;
    var rows, ids, flags := batch.view.rows, batch.ids.value, batch.flags.value;
    NonNullPairs(rows, ids, flags);
    NonNullFit(rows, flags, b.dim);
    AppendPending(b, AllCells(NonNullRows(rows, flags)), Cells(NonNullIds(ids, flags)));
    assert b.index.received + (b.Pending() + Rows(batch)) == b.index.received + b.Pending() + Rows(batch);
  }

  lemma AddUnflagged(b: Builder, batch: Batch)
    requires b.Valid() && b.Regular() && batch.Valid() && batch.AcceptedBy(b) && batch.RowsFit(b.dim)
    requires batch.flags.None? && !b.index.trained
    ensures Add(b, batch).Regular()
    ensures !Loses(b, batch) ==> Add(b, batch).Total() == b.Total() + Handed(b, batch)
    ensures Loses(b, batch) ==> |Add(b, batch).Total()| < |b.Total()| + |Rows(batch)|
  {
    hide Builder.Pending, Builder.Regular, Flatten, View.FromStart;
    if batch.live {
      BorrowPending(b, batch.view, batch.ids);
    } else {
      AppendPending(b, batch.view.FromStart(b.dim), if batch.ids.Some? then Cells(batch.ids.value) else []);
    }
    assert b.index.received + (b.Pending() + Handed(b, batch)) == b.index.received + b.Pending() + Handed(b, batch);
  }

  lemma ReceiveTotal(b: Builder, rs: seq<Received>)
    requires b.Valid() && b.Regular() && Receive(b, rs).Valid() && b.index.trained
    ensures Receive(b, rs).Regular() && Receive(b, rs).Total() == b.Total() + rs
  {
  }

  lemma AppendPending(b: Builder, rows: seq<Row>, ids: seq<Cell<int>>)
    requires b.Valid() && b.Regular() && AllOfLength(rows, b.dim) && if b.custom then |ids| == |rows| else ids == []
    ensures Append(b, Flatten(rows), ids).Valid() && Append(b, Flatten(rows), ids).Regular()
    ensures var new' := Zip(rows, if b.custom then Some(ids) else None);
            if rows != [] && b.data == [] && b.borrowed.Some? && b.borrowed.value.rows != []
            then Append(b, Flatten(rows), ids).Pending() == new' && b.Pending() != []
            else Append(b, Flatten(rows), ids).Pending() == b.Pending() + new'
  {
    AppendRegular(b, rows, ids);
    assert b.dim > 0;
    hide *;
    if rows == [] {
      AppendNothing(b, rows, ids);
    } else if b.data == [] {
      FirstCopied(b, rows, ids);
      EmptyFront(b.Pending(), Zip(rows, if b.custom then Some(ids) else None));
    } else {
      MoreCopied(b, rows, ids);
    }
  }

  lemma EmptyFront<T>(a: seq<T>, b: seq<T>)
    ensures a == [] ==> a + b == b
  {
  }

  lemma AppendNothing(b: Builder, rows: seq<Row>, ids: seq<Cell<int>>)
    requires rows == [] && ids == []
    ensures Append(b, Flatten(rows), ids) == b && forall a: seq<Received>, i: Option<seq<Cell<int>>> :: a + Zip(rows, i) == a
  {
    assert b.data + Flatten(rows) == b.data && b.idBuffer + ids == b.idBuffer;
  }

  lemma FirstCopied(b: Builder, rows: seq<Row>, ids: seq<Cell<int>>)
    requires b.Valid() && b.Regular() && AllOfLength(rows, b.dim) && if b.custom then |ids| == |rows| else ids == []
    requires rows != [] && b.data == []
    ensures Append(b, Flatten(rows), ids).Pending() == Zip(rows, if b.custom then Some(ids) else None)
    ensures b.Pending() == [] <==> b.borrowed.None? || b.borrowed.value.rows == []
  {
    AppendRegular(b, rows, ids);
    ChunksEmpty(b.data, b.dim);
    ChunksEmpty(Flatten(rows), b.dim);
    assert b.custom ==> b.idBuffer == [];
    assert [] + Flatten(rows) == Flatten(rows) && [] + ids == ids;
  }

  lemma MoreCopied(b: Builder, rows: seq<Row>, ids: seq<Cell<int>>)
    requires b.Valid() && b.Regular() && AllOfLength(rows, b.dim) && if b.custom then |ids| == |rows| else ids == []
    requires b.data != []
    ensures Append(b, Flatten(rows), ids).Pending() == b.Pending() + Zip(rows, if b.custom then Some(ids) else None)
  {
    AppendRegular(b, rows, ids);
    ChunksEmpty(b.data, b.dim);
    if b.custom {
      ZipAppend(Chunks(b.data, b.dim), rows, b.idBuffer, ids);
    } else {
      ZipNone(Chunks(b.data, b.dim), rows);
    }
  }

  lemma AppendRegular(b: Builder, rows: seq<Row>, ids: seq<Cell<int>>)
    requires b.Valid() && b.Regular() && AllOfLength(rows, b.dim) && if b.custom then |ids| == |rows| else ids == []
    ensures Append(b, Flatten(rows), ids).Valid() && Append(b, Flatten(rows), ids).Regular()
    ensures Whole(Flatten(rows), b.dim) && Chunks(Flatten(rows), b.dim) == rows
    ensures Chunks(b.data + Flatten(rows), b.dim) == Chunks(b.data, b.dim) + rows
  {
    ChunksOfFlat(rows, b.dim);
    ChunksAppend(b.data, Flatten(rows), b.dim);
    WholeAppend(b.data, Flatten(rows), b.dim);
    ChunksEmpty(b.data, b.dim);
    ChunksEmpty(Flatten(rows), b.dim);
  }

  lemma BorrowPending(b: Builder, view: View, ids: Option<seq<int>>)
    requires b.Valid() && b.Regular() && (b.custom <==> ids.Some?) && (ids.Some? ==> |ids.value| == |view.rows|)
    ensures Merge(b, view, ids, true).Valid() && Merge(b, view, ids, true).Regular()
    ensures if b.borrowed.None? && b.data != []
            then Merge(b, view, ids, true).Pending() == b.Pending()
            else (Merge(b, view, ids, true).Pending()
                  == b.Pending() + Zip(view.FromStart(b.dim), if ids.Some? then Some(Cells(ids.value)) else None))
  {
    ChunksEmpty(b.data, b.dim);
    if b.borrowed.Some? {
      if b.data == [] {
        SecondBorrowed(b, view, ids);
      } else {
        AppendPending(b, view.FromStart(b.dim), if ids.Some? then Cells(ids.value) else []);
      }
    }
  }

  /** The second batch to be borrowed copies both. */
  lemma SecondBorrowed(b: Builder, view: View, ids: Option<seq<int>>)
    requires b.Valid() && b.Regular() && (b.custom <==> ids.Some?) && (ids.Some? ==> |ids.value| == |view.rows|)
    requires b.borrowed.Some? && b.data == []
    ensures Merge(b, view, ids, true).Regular()
    ensures Merge(b, view, ids, true).Pending()
         == b.Pending() + Zip(view.FromStart(b.dim), if ids.Some? then Some(Cells(ids.value)) else None)
  {
    var first, second := b.borrowed.value.FromStart(b.dim), view.FromStart(b.dim);
    ChunksOfFlat(first, b.dim);
    ChunksOfFlat(second, b.dim);
    ChunksAppend(Flatten(first), Flatten(second), b.dim);
    WholeAppend(Flatten(first), Flatten(second), b.dim);
    ChunksEmpty(Flatten(first) + Flatten(second), b.dim);
    if b.custom {
      ZipAppend(first, second, Take(b.rowId.value, |first|), Cells(ids.value));
      ZipPrefix(first, b.rowId.value);
    } else {
      ZipNone(first, second);
    }
  }

  /** Exactly the calls that keep their rows add them, in order and with their own ids, to what the index has or
      will get. */
  lemma KeepsIff(b: Builder, batch: Batch)
    requires b.Valid() && b.Regular() && batch.Valid() && batch.AcceptedBy(b)
    ensures Add(b, batch).Total() == b.Total() + Rows(batch) <==> Keeps(b, batch)
  {
    hide Rows, Add, Builder.Total, Loses, View.Repeats, Handed, Batch.RowsFit;
    RowsFitIff(b, batch);
    if batch.RowsFit(b.dim) {
      AddTotal(b, batch);
      HandedIff(b, batch);
      SameStart(b.Total(), Handed(b, batch), Rows(batch));
    } else {
      var i :| 0 <= i < |Rows(batch)| && |Rows(batch)[i].x| != b.dim;
      assert (b.Total() + Rows(batch))[|b.Total()| + i] == Rows(batch)[i];
    }
  }

  lemma SameStart<T>(a: seq<T>, b: seq<T>, c: seq<T>)
    ensures a + b == a + c <==> b == c
  {
    assert (a + b)[|a|..] == b && (a + c)[|a|..] == c;
  }

  /** A flush gives the index what is pending, and gives nothing twice. */
  lemma FlushTotal(b: Builder)
    requires b.Valid() && CanFlush(b)
    ensures Flush(b).Total() == b.Total() && Flush(b).index.trained
    ensures Flush(b).index.received == b.Total() && Flush(Flush(b)) == Flush(b)
    ensures b.Regular() ==> Flush(b).Regular()
  {
  }

  // ---- sessions ----

  datatype Event = Adding(batch: Batch) | Flushing

  /** Whether no call of a session raises an error. */
  ghost predicate RunsFrom(b: Builder, events: seq<Event>)
    requires b.Valid()
    decreases |events|, 0
  {
    events == []
    || (RunsFrom(b, events[..|events| - 1])
        && var before := After(b, events[..|events| - 1]);
           match events[|events| - 1]
           case Adding(batch) => batch.Valid() && batch.AcceptedBy(before)
           case Flushing => CanFlush(before))
  }

  ghost function After(b: Builder, events: seq<Event>): (b': Builder)
    requires b.Valid() && RunsFrom(b, events)
    ensures b'.Valid() && b'.dim == b.dim
    decreases |events|, 1
  {
    if events == [] then b
    else
      var before := After(b, events[..|events| - 1]);
      match events[|events| - 1]
      case Adding(batch) => Add(before, batch)
      case Flushing => Flush(before)
  }

  /** All non-null rows added in a session, in order, each with its own id. */
  ghost function AllRows(b: Builder, events: seq<Event>): seq<Received>
    requires b.Valid() && RunsFrom(b, events)
    decreases |events|
  {
    if events == [] then []
    else
      AllRows(b, events[..|events| - 1])
      + match events[|events| - 1]
        case Adding(batch) => Rows(batch)
        case Flushing => []
  }

  ghost predicate Lossless(b: Builder, events: seq<Event>)
    requires b.Valid() && RunsFrom(b, events)
    decreases |events|
  {
    events == []
    || (Lossless(b, events[..|events| - 1])
        && match events[|events| - 1]
           case Adding(batch) => Keeps(After(b, events[..|events| - 1]), batch)
           case Flushing => true)
  }

  ghost predicate AllFit(b: Builder, events: seq<Event>)
    requires b.Valid() && RunsFrom(b, events)
    decreases |events|
  {
    events == []
    || (AllFit(b, events[..|events| - 1])
        && match events[|events| - 1]
           case Adding(batch) => batch.RowsFit(b.dim)
           case Flushing => true)
  }

  /** The index has received, or will at the first flush, exactly the rows added, in order and with their own
      ids, if and only if every call kept its rows. */
  lemma SessionConserves(b: Builder, events: seq<Event>)
    requires b.Valid() && b.Regular() && RunsFrom(b, events)
    ensures After(b, events).Total() == b.Total() + AllRows(b, events) <==> Lossless(b, events)
  {
    hide Builder.Total, After, AllRows;
    if AllFit(b, events) {
      FittingSession(b, events);
    } else {
      NotLossless(b, events);
      var i := WrongLength(b, events);
      assert (b.Total() + AllRows(b, events))[|b.Total()| + i] == AllRows(b, events)[i];
    }
  }

  lemma {:induction false} NotLossless(b: Builder, events: seq<Event>)
    requires b.Valid() && RunsFrom(b, events) && !AllFit(b, events)
    ensures !Lossless(b, events)
    decreases |events|
  {
    hide After;
    var rest := events[..|events| - 1];
    if !AllFit(b, rest) {
      NotLossless(b, rest);
    }
  }

  /** A row of the wrong length is among those added, and cannot be among those received. */
  lemma {:induction false} WrongLength(b: Builder, events: seq<Event>) returns (i: nat)
    requires b.Valid() && RunsFrom(b, events) && !AllFit(b, events)
    ensures i < |AllRows(b, events)| && |AllRows(b, events)[i].x| != b.dim
    decreases |events|
  {
    hide Rows, Batch.RowsFit;
    var rest := events[..|events| - 1];
    if !AllFit(b, rest) {
      i := WrongLength(b, rest);
    } else {
      var batch := events[|events| - 1].batch;
      RowsFitIff(After(b, rest), batch);
      var j :| 0 <= j < |Rows(batch)| && |Rows(batch)[j].x| != b.dim;
      i := |AllRows(b, rest)| + j;
    }
  }

  /** When all rows have the right length, what the index gets is at most as long as what was added, and equal to it
      if and only if every call kept its rows. */
  lemma {:induction false} FittingSession(b: Builder, events: seq<Event>)
    requires b.Valid() && b.Regular() && RunsFrom(b, events) && AllFit(b, events)
    ensures After(b, events).Regular()
    ensures |After(b, events).Total()| <= |b.Total()| + |AllRows(b, events)|
    ensures After(b, events).Total() == b.Total() + AllRows(b, events) <==> Lossless(b, events)
    decreases |events|
  {
    hide Builder.Total, Builder.Regular, Add, Flush, Loses, Rows, Handed, View.Repeats;
    if events == [] {
      assert b.Total() + [] == b.Total();
    } else {
      var rest, before := events[..|events| - 1], After(b, events[..|events| - 1]);
      FittingSession(b, rest);
      match events[|events| - 1] {
        case Adding(batch) =>
          AddTotal(before, batch);
          HandedIff(before, batch);
          ExtendedBy(b.Total() + AllRows(b, rest), before.Total(), Rows(batch), Handed(before, batch));
          assert b.Total() + AllRows(b, events) == b.Total() + AllRows(b, rest) + Rows(batch);
        case Flushing =>
          FlushTotal(before);
          assert AllRows(b, events) == AllRows(b, rest);
      }
    }
  }

  lemma ExtendedBy<T>(all: seq<T>, got: seq<T>, rows: seq<T>, handed: seq<T>)
    requires |got| <= |all| && |handed| == |rows|
    ensures got + handed == all + rows <==> got == all && handed == rows
  {
    if got + handed == all + rows {
      assert |got| == |all|;
      assert (got + handed)[..|got|] == got && (all + rows)[..|all|] == all;
      assert (got + handed)[|got|..] == handed && (all + rows)[|all|..] == rows;
    }
  }

  // ---- which sessions run ----

  /** A batch without null flags that has a row. */
  predicate Buffers(e: Event) {
    e.Adding? && e.batch.flags.None? && e.batch.view.rows != []
  }

  predicate Buffered(events: seq<Event>, n: nat)
    requires n <= |events|
  {
    exists j :: 0 <= j < n && Buffers(events[j])
  }

  lemma BufferedPrefix(events: seq<Event>, i: nat)
    requires i < |events|
    ensures Buffered(events[..|events| - 1], i) == Buffered(events, i)
    ensures Buffered(events, i + 1) == (Buffered(events, i) || Buffers(events[i]))
  {
    assert forall j :: 0 <= j < i ==> events[..|events| - 1][j] == events[j];
  }

  /** No call of a session raises an error when every batch has ids exactly if the builder was made for them, null
      flags only with ids, and rows of the builder's dimension unless its column is of fixed length; and when some
      unflagged row comes before the first flush. */
  lemma {:induction false} SessionRuns(custom: bool, dim: nat, events: seq<Event>)
    requires dim > 0
    requires forall i :: 0 <= i < |events| && events[i].Adding? ==>
      var batch := events[i].batch;
      batch.Valid() && (batch.ids.Some? <==> custom) && (batch.flags.Some? ==> custom)
      && (batch.view.fixed || batch.view.Fits(dim))
    requires forall i :: 0 <= i < |events| && events[i].Flushing? ==> Buffered(events, i)
    ensures RunsFrom(Fresh(custom, dim), events)
    ensures var b := After(Fresh(custom, dim), events);
            b.isOpened && !b.isClosed && b.custom == custom && (Buffered(events, |events|) ==> CanFlush(b))
    decreases |events|
  {
    assert !Buffered(events, 0);
    hide Add, CanFlush, Batch.Valid, Buffers, Buffered;
    if events != [] {
      var n := |events| - 1;
      var rest := events[..n];
      forall i | 0 <= i <= n
        ensures Buffered(rest, i) == Buffered(events, i)
      {
        BufferedPrefix(events, i);
      }
      SessionRuns(custom, dim, rest);
      BufferedPrefix(events, n);
      var b := After(Fresh(custom, dim), rest);
      match events[n] {
        case Adding(batch) => AddCanFlush(b, batch);
        case Flushing => FlushCanFlush(b);
      }
    }
  }

  lemma AddCanFlush(b: Builder, batch: Batch)
    requires b.Valid() && batch.Valid() && batch.AcceptedBy(b)
    ensures var b' := Add(b, batch);
            b'.isOpened && !b'.isClosed && b'.custom == b.custom
            && (CanFlush(b) || Buffers(Adding(batch)) ==> CanFlush(b'))
  {
    hide Flatten, View.FromStart, NonNullRows, NonNullIds, Take;
    var rows := batch.view.FromStart(b.dim);
    ChunksOfFlat(rows, b.dim);
    ChunksEmpty(Flatten(rows), b.dim);
  }

  lemma FlushCanFlush(b: Builder)
    requires b.Valid() && CanFlush(b)
    ensures Flush(b).isOpened && Flush(b).isClosed == b.isClosed && Flush(b).custom == b.custom && CanFlush(Flush(b))
  {
  }

  // ---- which sessions are safe ----

  /** Sessions that use one lifetime throughout, null flags only in copying mode and before the first flush, and
      columns of the builder's dimension that start with their first row. */
  ghost predicate Uniform(events: seq<Event>, live: bool, dim: nat) {
    forall i :: 0 <= i < |events| && events[i].Adding? ==>
      events[i].batch.live == live && events[i].batch.view.Fits(dim) && events[i].batch.view.lead == []
      && (events[i].batch.flags.Some? ==> !live && forall j :: 0 <= j < i ==> !events[j].Flushing?)
  }

  /** Such sessions lose nothing. */
  lemma {:induction false} UniformIsLossless(custom: bool, dim: nat, events: seq<Event>, live: bool)
    requires dim > 0 && RunsFrom(Fresh(custom, dim), events) && Uniform(events, live, dim)
    ensures Lossless(Fresh(custom, dim), events)
    ensures var b := After(Fresh(custom, dim), events);
            (b.index.trained ==> exists i :: 0 <= i < |events| && events[i].Flushing?)
            && if live then b.borrowed.Some? || b.data == [] else b.borrowed.None?
    decreases |events|
  {
    hide Rows, View.Repeats;
    if events != [] {
      var rest, b := events[..|events| - 1], Fresh(custom, dim);
      assert Uniform(rest, live, dim);
      UniformIsLossless(custom, dim, rest, live);
      if events[|events| - 1].Flushing? {
        assert events[|events| - 1].Flushing?;
      } else {
        FromStartIff(events[|events| - 1].batch.view, dim);
        if After(b, rest).index.trained {
          var i :| 0 <= i < |rest| && rest[i].Flushing?;
          assert events[i].Flushing?;
        }
      }
    }
  }

  // ---- calls that are accepted and do not keep their rows ----

  /** A fixed-length column of another dimension is cut into rows of the builder's: of [1, 2, 3] and [4, 5, 6] a
      builder of dimension 2 gives its index [1, 2] and [3, 4]. */
  lemma OtherDimensionRecut()
    ensures var batch := Batch(View(true, [], [[1.0, 2.0, 3.0], [4.0, 5.0, 6.0]], []), None, None, false);
            var b := Fresh(false, 2);
            batch.Valid() && batch.AcceptedBy(b) && CanFlush(Add(b, batch))
            && Flush(Add(b, batch)).index.received
            == [Received([Read(1.0), Read(2.0)], None), Received([Read(3.0), Read(4.0)], None)]
  {
    var rows := [[1.0, 2.0, 3.0], [4.0, 5.0, 6.0]];
    var view, b := View(true, [], rows, []), Fresh(false, 2);
    assert Flatten(rows[1..]) == [4.0, 5.0, 6.0];
    assert view.Memory() == [1.0, 2.0, 3.0, 4.0, 5.0, 6.0];
    FirstTwo(view.Memory(), 2);
    assert view.FromStart(2) == [[Read(1.0), Read(2.0)], [Read(3.0), Read(4.0)]] by {
      assert Skip(view.Memory(), 2) == [3.0, 4.0, 5.0, 6.0];
      assert ReadCells([1.0, 2.0, 3.0, 4.0, 5.0, 6.0], 2) == [Read(1.0), Read(2.0)];
      assert ReadCells([3.0, 4.0, 5.0, 6.0], 2) == [Read(3.0), Read(4.0)];
    }
    FlushedAre(b, Batch(view, None, None, false));
  }

  lemma FirstTwo(memory: seq<real>, dim: nat)
    ensures VectorsBehind(memory, 2, dim) == [ReadCells(memory, dim), ReadCells(Skip(memory, dim), dim)]
    ensures VectorsBehind(memory, 1, dim) == [ReadCells(memory, dim)]
  {
  }

  /** What a first unflagged batch that is copied gives to the index. */
  lemma FlushedAre(b: Builder, batch: Batch)
    requires b.Valid() && b == Fresh(b.custom, b.dim) && batch.Valid() && batch.AcceptedBy(b)
    requires batch.flags.None? && !batch.live && batch.view.rows != []
    ensures CanFlush(Add(b, batch))
    ensures Flush(Add(b, batch)).index.received == Zip(batch.view.FromStart(b.dim), batch.IdCells())
  {
    var rows := batch.view.FromStart(b.dim);
    ChunksOfFlat(rows, b.dim);
    if b.custom {
      assert [] + Cells(batch.ids.value) == Cells(batch.ids.value);
    }
    assert Add(b, batch).data == Flatten(rows) && Add(b, batch).Ids() == batch.IdCells();
    assert [] + Zip(rows, batch.IdCells()) == Zip(rows, batch.IdCells());
  }

  /** What precedes the first row of a variable-length column is taken for it. */
  lemma FirstOffsetIgnored()
    ensures var batch := Batch(View(false, [9.0], [[1.0]], []), None, None, false);
            var b := Fresh(false, 1);
            batch.Valid() && batch.AcceptedBy(b) && CanFlush(Add(b, batch))
            && Flush(Add(b, batch)).index.received == [Received([Read(9.0)], None)]
  {
    var view := View(false, [9.0], [[1.0]], []);
    FirstTwo(view.Memory(), 1);
    assert view.Memory()[0] == 9.0 && ReadCells(view.Memory(), 1) == [Read(9.0)];
    FlushedAre(Fresh(false, 1), Batch(view, None, None, false));
  }

  /** A fixed-length column of a smaller dimension is read beyond its end. */
  lemma ReadBeyondTheEnd()
    ensures var batch := Batch(View(true, [], [[1.0]], []), None, None, false);
            var b := Fresh(false, 2);
            batch.Valid() && batch.AcceptedBy(b) && CanFlush(Add(b, batch))
            && Flush(Add(b, batch)).index.received == [Received([Read(1.0), Stray], None)]
  {
    var view := View(true, [], [[1.0]], []);
    assert view.Memory() == [1.0];
    FirstTwo(view.Memory(), 2);
    assert ReadCells([1.0], 2) == [Read(1.0), Stray];
    FlushedAre(Fresh(false, 2), Batch(view, None, None, false));
  }

  /** Mixing lifetimes is not harmless: one borrowed row, then one null-flagged row, and the flush gives only the
      second. */
  lemma BorrowedRowLost()
    ensures var first := Batch(View(true, [], [[1.0]], []), Some([7]), None, true);
            var second := Batch(View(true, [], [[2.0]], []), Some([8]), Some([0]), true);
            var b := Fresh(true, 1);
            first.AcceptedBy(b) && second.AcceptedBy(Add(b, first)) && CanFlush(Add(Add(b, first), second))
            && Flush(Add(Add(b, first), second)).index.received == [Received([Read(2.0)], Some(Read(8)))]
  {
    var first := Batch(View(true, [], [[1.0]], []), Some([7]), None, true);
    var second := Batch(View(true, [], [[2.0]], []), Some([8]), Some([0]), true);
    var b := Fresh(true, 1);
    var b1 := b.(borrowed := Some(first.view), rowId := Some(Cells([7])));
    assert Add(b, first) == b1;
    OneNonNull(b1, second);
    var b2 := b1.(data := Cells([2.0]), idBuffer := [Read(8)]);
    assert Add(b1, second) == b2;
    FlushOne(b2);
    assert Cells([2.0]) == [Read(2.0)] && b2.data == [Read(2.0)] && b2.idBuffer[0] == Read(8);
  }

  lemma OneNonNull(b: Builder, batch: Batch)
    requires b.Valid() && batch.Valid() && batch.AcceptedBy(b) && b.data == [] && b.idBuffer == []
    requires batch.flags == Some([0])
    ensures Add(b, batch) == b.(data := Cells(batch.view.rows[0]), idBuffer := [Read(batch.ids.value[0])])
  {
    var rows, ids := batch.view.rows, batch.ids.value;
    OneRow(rows[0], ids[0]);
    assert rows == [rows[0]] && ids == [ids[0]];
    hide NonNullRows, NonNullIds, Flatten, AllCells, Cells;
    assert [] + Cells(rows[0]) == Cells(rows[0]) && [] + [Read(ids[0])] == [Read(ids[0])];
  }

  lemma OneRow(x: seq<real>, id: int)
    ensures Flatten(AllCells(NonNullRows([x], [0]))) == Cells(x) && Cells(NonNullIds([id], [0])) == [Read(id)]
  {
    assert NonNullRows([x], [0]) == [x] && NonNullIds([id], [0]) == [id];
    assert AllCells([x]) == [Cells(x)] && Flatten([Cells(x)]) == Cells(x);
  }

  lemma FlushOne(b: Builder)
    requires b.Valid() && CanFlush(b) && b.index == FaissIndex(false, []) && |b.data| == b.dim && |b.idBuffer| == 1
    ensures Flush(b).index.received == [Received(b.data, Some(b.idBuffer[0]))]
  {
    assert Flatten([b.data]) == b.data;
    ChunksOfFlat([b.data], b.dim);
  }

  /** A builder that is opened again gives the new index the rows it still has buffered from before. */
  lemma ReopenedGivesOldRows(b: Builder)
    requires b.Valid() && CanFlush(b) && !b.index.trained && b.data != []
    ensures Flush(Open(Close(Flush(b)))).index.received == b.Pending()
  {
  }

  /** Null-flagged rows added after the first flush never reach the index, however often it is flushed. */
  lemma NullFlaggedAfterTraining(b: Builder, batch: Batch)
    requires b.Valid() && batch.Valid() && batch.AcceptedBy(b) && b.index.trained && batch.flags.Some?
    ensures CanFlush(Add(b, batch)) && Flush(Add(b, batch)).index == b.index
  {
  }
}
