/** Columns of vectors as callers lay them out in memory, and what is read of them without looking at the layout. */
module SeqViews {
  import opened Vectors

  /** A value read through a pointer: one of the caller's, or whatever lies beyond the caller's array. */
  datatype Cell<T> = Read(value: T) | Stray

  type Row = seq<Cell<real>>

  /** A column: the caller's array holds what precedes the first row, the rows end to end, and what follows them.
      A fixed-length column starts with its first row and has rows of one length; in a variable-length column the
      first offset is the length of what precedes the first row. */
  datatype View = View(fixed: bool, lead: Vec, rows: seq<Vec>, rest: Vec)
  {
    predicate Valid() {
      fixed ==> lead == [] && forall i, j :: 0 <= i < j < |rows| ==> |rows[i]| == |rows[j]|
    }

    /** The caller's array. */
    function Memory(): Vec {
      lead + (Flatten(rows) + rest)
    }

    predicate Fits(dim: nat) {
      forall i :: 0 <= i < |rows| ==> |rows[i]| == dim
    }

    /** The rows themselves. */
    function Rows(): (r: seq<Row>)
      ensures |r| == |rows|
    {
      AllCells(rows)
    }

    /** As many vectors as there are rows, read from the start of the array. */
    function FromStart(dim: nat): (r: seq<Row>)
      ensures |r| == |rows| && forall i :: 0 <= i < |r| ==> |r[i]| == dim
    {
      VectorsBehind(Memory(), |rows|, dim)
    }

    /** The array repeats what precedes the first row throughout the rows. */
    ghost predicate Repeats() {
      forall k :: 0 <= k < |Flatten(rows)| ==> Memory()[k] == Memory()[|lead| + k]
    }
  }

  function Flatten<T>(rows: seq<seq<T>>): seq<T> {
    if rows == [] then [] else rows[0] + Flatten(rows[1..])
  }

  function Cells<T>(x: seq<T>): (c: seq<Cell<T>>)
    ensures |c| == |x|
  {
    seq(|x|, i requires 0 <= i < |x| => Read(x[i]))
  }

  function AllCells(rows: seq<Vec>): (r: seq<Row>)
    ensures |r| == |rows|
  {
    seq(|rows|, i requires 0 <= i < |rows| => Cells(rows[i]))
  }

  /** The first n values behind a pointer. */
  function ReadCells(memory: Vec, n: nat): (c: Row)
    ensures |c| == n
  {
    seq(n, i requires 0 <= i < n => if i < |memory| then Read(memory[i]) else Stray)
  }

  function Skip(memory: Vec, n: nat): Vec {
    if n <= |memory| then memory[n..] else []
  }

  /** The first n vectors behind a pointer. */
  function VectorsBehind(memory: Vec, n: nat, dim: nat): (r: seq<Row>)
    ensures |r| == n && forall i :: 0 <= i < n ==> |r[i]| == dim
    decreases n
  {
    if n == 0 then [] else [ReadCells(memory, dim)] + VectorsBehind(Skip(memory, dim), n - 1, dim)
  }

  /** The whole vectors in a buffer of floats; what is left at the end belongs to none. */
  function Chunks(flat: Row, dim: nat): (r: seq<Row>)
    requires dim > 0
    ensures forall i :: 0 <= i < |r| ==> |r[i]| == dim
  {
    if |flat| < dim then [] else [flat[..dim]] + Chunks(flat[dim..], dim)
  }

  /** Whether a buffer holds whole vectors only. */
  predicate Whole(flat: Row, dim: nat)
    requires dim > 0
  {
    flat == [] || (|flat| >= dim && Whole(flat[dim..], dim))
  }

  predicate AllOfLength<T>(rows: seq<seq<T>>, dim: nat) {
    forall i :: 0 <= i < |rows| ==> |rows[i]| == dim
  }

  // ---- buffers of whole vectors ----

  lemma {:induction false} ChunksOfFlat(rows: seq<Row>, dim: nat)
    requires dim > 0 && AllOfLength(rows, dim)
    ensures Whole(Flatten(rows), dim) && Chunks(Flatten(rows), dim) == rows
  {
    if rows != [] {
      ChunksOfFlat(rows[1..], dim);
      var flat := Flatten(rows);
      assert flat[..dim] == rows[0] && flat[dim..] == Flatten(rows[1..]);
    }
  }

  lemma {:induction false} ChunksAppend(a: Row, b: Row, dim: nat)
    requires dim > 0 && Whole(a, dim)
    ensures Chunks(a + b, dim) == Chunks(a, dim) + Chunks(b, dim)
    decreases |a|
  {
    if a == [] {
      assert a + b == b;
    } else {
      FirstChunk(a, b, dim);
      ChunksAppend(a[dim..], b, dim);
      assert [a[..dim]] + (Chunks(a[dim..], dim) + Chunks(b, dim)) == [a[..dim]] + Chunks(a[dim..], dim) + Chunks(b, dim);
    }
  }

  lemma FirstChunk(a: Row, b: Row, dim: nat)
    requires dim > 0 && |a| >= dim
    ensures Chunks(a, dim) == [a[..dim]] + Chunks(a[dim..], dim)
    ensures Chunks(a + b, dim) == [a[..dim]] + Chunks(a[dim..] + b, dim)
  {
    assert (a + b)[..dim] == a[..dim] && (a + b)[dim..] == a[dim..] + b;
  }

  lemma {:induction false} WholeAppend(a: Row, b: Row, dim: nat)
    requires dim > 0 && Whole(a, dim) && Whole(b, dim)
    ensures Whole(a + b, dim)
    decreases |a|
  {
    if a == [] {
      assert a + b == b;
    } else {
      WholeAppend(a[dim..], b, dim);
      assert (a + b)[dim..] == a[dim..] + b;
    }
  }

  lemma {:induction false} ChunksEmpty(flat: Row, dim: nat)
    requires dim > 0 && Whole(flat, dim)
    ensures flat == [] <==> Chunks(flat, dim) == []
  {
  }

  lemma {:induction false} FlattenAppend<T>(rows: seq<seq<T>>, row: seq<T>)
    ensures Flatten(rows + [row]) == Flatten(rows) + row
  {
    if rows == [] {
      assert rows + [row] == [row];
    } else {
      FlattenAppend(rows[1..], row);
      assert (rows + [row])[1..] == rows[1..] + [row];
    }
  }

  // ---- reading from the start of the array ----

  lemma {:induction false} VectorsAreFlat(memory: Vec, n: nat, dim: nat, rows: seq<Vec>)
    requires |rows| == n && AllOfLength(rows, dim)
    ensures Flatten(VectorsBehind(memory, n, dim)) == ReadCells(memory, |Flatten(rows)|)
    decreases n
  {
    if n > 0 {
      VectorsAreFlat(Skip(memory, dim), n - 1, dim, rows[1..]);
      var m := |Flatten(rows[1..])|;
      assert |Flatten(rows)| == dim + m;
      assert ReadCells(memory, dim) + ReadCells(Skip(memory, dim), m) == ReadCells(memory, dim + m);
    }
  }

  lemma {:induction false} RowsAreFlat(v: View)
    ensures Flatten(v.Rows()) == Cells(Flatten(v.rows))
    decreases |v.rows|
  {
    if v.rows != [] {
      var tail := v.(rows := v.rows[1..]);
      RowsAreFlat(tail);
      assert v.Rows()[1..] == tail.Rows() && v.Rows()[0] == Cells(v.rows[0]);
      assert Cells(v.rows[0]) + Cells(Flatten(tail.rows)) == Cells(Flatten(v.rows));
    }
  }

  /** When the rows have the dimension asked for, reading from the start of the array gives the rows exactly if
      there is nothing before the first row or the array repeats it throughout. */
  lemma FromStartIff(v: View, dim: nat)
    requires dim > 0 && v.Fits(dim)
    ensures v.FromStart(dim) == v.Rows() <==> v.Repeats()
    ensures v.lead == [] ==> v.Repeats()
  {
    var flat, memory := Flatten(v.rows), v.Memory();
    VectorsAreFlat(memory, |v.rows|, dim, v.rows);
    RowsAreFlat(v);
    ChunksOfFlat(v.FromStart(dim), dim);
    ChunksOfFlat(v.Rows(), dim);
    SameCells(v);
  }

  lemma SameCells(v: View)
    ensures ReadCells(v.Memory(), |Flatten(v.rows)|) == Cells(Flatten(v.rows)) <==> v.Repeats()
  {
    var flat, memory := Flatten(v.rows), v.Memory();
    assert forall k :: 0 <= k < |flat| ==> memory[|v.lead| + k] == flat[k];
    if v.Repeats() {
      assert ReadCells(memory, |flat|) == Cells(flat);
    } else {
      var k :| 0 <= k < |flat| && memory[k] != memory[|v.lead| + k];
      assert ReadCells(memory, |flat|)[k] == Read(memory[k]) && Cells(flat)[k] == Read(flat[k]);
    }
  }
}
