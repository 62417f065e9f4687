/** The IVF-PQ index as a value: rows added one at a time, each list keeping an id, a code and a
    reconstruction error per entry. The vectors themselves are kept only to state what the errors mean. */
module IvfPqSpec {
  import opened Vectors
  import opened ProductQuantizers
  import opened LookupTables
  import opened Wrappers

  /** The trained parts of the index: its tables' parameters, the encoder, the first-level assignment
      (negative for a vector it does not assign) and the square root. */
  datatype Config = Config(ivf: IvfPq, encode: Vec -> Code, assign: Vec -> int, root: real -> real)
  {
    ghost predicate Valid() {
      ivf.Valid() && IsSqrt(root)
      && (forall x: Vec :: |x| == ivf.D() ==> ValidCode(encode(x), |ivf.books|, ivf.ksub))
      && (forall x: Vec :: |x| == ivf.D() ==> assign(x) < ivf.nlist)
    }

    /** What the product quantizer encodes of a vector in a list. */
    function ToEncode(x: Vec, key: nat): (y: Vec)
      requires ivf.ValidCoarse() && |x| == ivf.D() && key < ivf.nlist
      ensures |y| == ivf.D()
    {
      if ivf.byResidual then Sub(x, ivf.Centroid(key)) else x
    }

    /** The second-level residual: what the code misses. */
    function Residual2(x: Vec, key: nat): (y: Vec)
      requires Valid() && |x| == ivf.D() && key < ivf.nlist
      ensures |y| == ivf.D()
    {
      Sub(ToEncode(x, key), Decode(ivf.books, ivf.dsub, ivf.ksub, encode(ToEncode(x, key))))
    }
  }

  /** One vector to add: the list it was assigned to (negative for none) and its id, if given. */
  datatype Row = Row(x: Vec, key: int, id: Option<int>)

  datatype Item = Item(id: int, code: Code, error: real, vector: Vec)

  datatype Index = Index(ntotal: nat, lists: seq<seq<Item>>)

  ghost predicate ValidRow(cfg: Config, row: Row) {
    |row.x| == cfg.ivf.D() && row.key < cfg.ivf.nlist
  }

  ghost predicate ValidRows(cfg: Config, rows: seq<Row>) {
    forall row :: row in rows ==> ValidRow(cfg, row)
  }

  function Empty(nlist: nat): Index {
    Index(0, seq(nlist, _ => []))
  }

  /** The entry a row becomes. Its default id is the number of rows added before it, assigned or not. */
  function ItemOf(cfg: Config, row: Row, defaultId: int): Item
    requires cfg.Valid() && ValidRow(cfg, row) && row.key >= 0
  {
    Item(if row.id.Some? then row.id.value else defaultId,
         cfg.encode(cfg.ToEncode(row.x, row.key)),
         cfg.root(SqNorm(cfg.Residual2(row.x, row.key))),
         row.x)
  }

  function AddRow(cfg: Config, s: Index, row: Row): (s': Index)
    requires cfg.Valid() && ValidRow(cfg, row) && |s.lists| == cfg.ivf.nlist
    ensures |s'.lists| == |s.lists|
  {
    if row.key < 0 then s.(ntotal := s.ntotal + 1)
    else Index(s.ntotal + 1, s.lists[row.key := s.lists[row.key] + [ItemOf(cfg, row, s.ntotal)]])
  }

  function AddAll(cfg: Config, s: Index, rows: seq<Row>): (s': Index)
    requires cfg.Valid() && ValidRows(cfg, rows) && |s.lists| == cfg.ivf.nlist
    ensures |s'.lists| == |s.lists| && s'.ntotal == s.ntotal + |rows|
    decreases |rows|
  {
    if rows == [] then s else AddRow(cfg, AddAll(cfg, s, rows[..|rows| - 1]), rows[|rows| - 1])
  }

  /** Adding in two batches is adding their concatenation. */
  lemma {:induction false} AddAllAppend(cfg: Config, s: Index, a: seq<Row>, b: seq<Row>)
    requires cfg.Valid() && ValidRows(cfg, a) && ValidRows(cfg, b) && |s.lists| == cfg.ivf.nlist
    ensures ValidRows(cfg, a + b)
    ensures AddAll(cfg, s, a + b) == AddAll(cfg, AddAll(cfg, s, a), b)
    decreases |b|
  {
    if b == [] {
      assert a + b == a;
    } else {
      var b' := b[..|b| - 1];
      AddAllAppend(cfg, s, a, b');
      assert (a + b)[..|a + b| - 1] == a + b';
    }
  }

  /** The entries that rows starting at a given default id leave in one list, in order. */
  function Appended(cfg: Config, rows: seq<Row>, l: nat, firstId: int): seq<Item>
    requires cfg.Valid() && ValidRows(cfg, rows)
  {
    if rows == [] then []
    else
      (if rows[0].key == l then [ItemOf(cfg, rows[0], firstId)] else []) + Appended(cfg, rows[1..], l, firstId + 1)
  }

  lemma {:induction false} AppendedSplit(cfg: Config, a: seq<Row>, row: Row, l: nat, firstId: int)
    requires cfg.Valid() && ValidRows(cfg, a) && ValidRow(cfg, row)
    ensures ValidRows(cfg, a + [row])
    ensures Appended(cfg, a + [row], l, firstId)
         == Appended(cfg, a, l, firstId) + if row.key == l then [ItemOf(cfg, row, firstId + |a|)] else []
  {
    hide ItemOf, Config.Valid, IvfPq.ValidCoarse;
    if a == [] {
      assert a + [row] == [row] && [row][1..] == [];
    } else {
      assert (a + [row])[1..] == a[1..] + [row];
      AppendedSplit(cfg, a[1..], row, l, firstId + 1);
    }
  }

  /** Adding appends to every list exactly the entries of the rows assigned to it, in input order,
      with ids given or counted from ntotal, and changes no entry already there. */
  lemma {:induction false} AddAllAppends(cfg: Config, s: Index, rows: seq<Row>, l: nat)
    requires cfg.Valid() && ValidRows(cfg, rows) && |s.lists| == cfg.ivf.nlist && l < cfg.ivf.nlist
    ensures AddAll(cfg, s, rows).lists[l] == s.lists[l] + Appended(cfg, rows, l, s.ntotal)
    decreases |rows|
  {
    hide ItemOf, Config.Valid, IvfPq.ValidCoarse;
    if rows != [] {
      var a, row := rows[..|rows| - 1], rows[|rows| - 1];
      AddAllAppends(cfg, s, a, l);
      AppendedSplit(cfg, a, row, l, s.ntotal);
      assert a + [row] == rows;
    }
  }

  // ---- alignment ----

  /** An entry's error is the distance of the vector added from the vector its code stands for. */
  ghost predicate ItemAligned(cfg: Config, l: nat, e: Item)
    requires cfg.Valid() && l < cfg.ivf.nlist
  {
    |e.vector| == cfg.ivf.D() && ValidCode(e.code, |cfg.ivf.books|, cfg.ivf.ksub)
    && e.error >= 0.0 && Square(e.error) == SqDist(e.vector, cfg.ivf.Reconstruct(l, e.code))
  }

  ghost predicate Aligned(cfg: Config, s: Index)
    requires cfg.Valid()
  {
    |s.lists| == cfg.ivf.nlist
    && forall l, o :: 0 <= l < |s.lists| && 0 <= o < |s.lists[l]| ==> ItemAligned(cfg, l, s.lists[l][o])
  }

  lemma ItemOfAligned(cfg: Config, row: Row, defaultId: int)
    requires cfg.Valid() && ValidRow(cfg, row) && row.key >= 0
    ensures ItemAligned(cfg, row.key, ItemOf(cfg, row, defaultId))
  {
    var y := cfg.ToEncode(row.x, row.key);
    var r := Decode(cfg.ivf.books, cfg.ivf.dsub, cfg.ivf.ksub, cfg.encode(y));
    SqNormNonNegative(Sub(y, r));
    SqDistIsNorm(y, r);
    SqDistShift(row.x, r, cfg.ivf.Centroid(row.key));
  }

  /** An entry, field by field: the id given or counted, the encoder's code of the residual or of the vector itself,
      and the distance of the vector from what that code stands for. */
  lemma ItemOfIs(cfg: Config, row: Row, defaultId: int)
    requires cfg.Valid() && ValidRow(cfg, row) && row.key >= 0
    ensures var e := ItemOf(cfg, row, defaultId);
      && e.id == (if row.id.Some? then row.id.value else defaultId) && e.vector == row.x
      && e.code == cfg.encode(if cfg.ivf.byResidual then Sub(row.x, cfg.ivf.Centroid(row.key)) else row.x)
      && ValidCode(e.code, |cfg.ivf.books|, cfg.ivf.ksub)
      && e.error == cfg.root(SqDist(row.x, cfg.ivf.Reconstruct(row.key, e.code)))
  {
    var y := cfg.ToEncode(row.x, row.key);
    var r := Decode(cfg.ivf.books, cfg.ivf.dsub, cfg.ivf.ksub, cfg.encode(y));
    SqDistIsNorm(y, r);
    SqDistShift(row.x, r, cfg.ivf.Centroid(row.key));
  }

  /** The second-level residual is what has to be added to the reconstruction to get the vector back. */
  lemma Residual2Is(cfg: Config, x: Vec, key: nat)
    requires cfg.Valid() && |x| == cfg.ivf.D() && key < cfg.ivf.nlist
    ensures var code := cfg.encode(if cfg.ivf.byResidual then Sub(x, cfg.ivf.Centroid(key)) else x);
      ValidCode(code, |cfg.ivf.books|, cfg.ivf.ksub) && Add(cfg.ivf.Reconstruct(key, code), cfg.Residual2(x, key)) == x
  {
  }

  lemma {:induction false} AddAllAligned(cfg: Config, s: Index, rows: seq<Row>)
    requires cfg.Valid() && ValidRows(cfg, rows) && Aligned(cfg, s)
    ensures Aligned(cfg, AddAll(cfg, s, rows))
    decreases |rows|
  {
    if rows != [] {
      var row := rows[|rows| - 1];
      AddAllAligned(cfg, s, rows[..|rows| - 1]);
      if row.key >= 0 {
        ItemOfAligned(cfg, row, AddAll(cfg, s, rows[..|rows| - 1]).ntotal);
      }
    }
  }

  lemma {:induction false} AppendedHas(cfg: Config, rows: seq<Row>, firstId: int, i: nat)
    requires cfg.Valid() && ValidRows(cfg, rows) && i < |rows| && rows[i].key >= 0
    ensures ValidRow(cfg, rows[i])
    ensures ItemOf(cfg, rows[i], firstId + i) in Appended(cfg, rows, rows[i].key, firstId)
    decreases i
  {
    hide ItemOf;
    assert rows[i] in rows;
    if i > 0 {
      assert rows[1..][i - 1] == rows[i];
      AppendedHas(cfg, rows[1..], firstId + 1, i - 1);
    }
  }

  /** Adding keeps what a list held, and each assigned row is behind it, field by field. */
  lemma AddedBehind(cfg: Config, s: Index, rows: seq<Row>, i: nat) returns (o: nat)
    requires cfg.Valid() && ValidRows(cfg, rows) && |s.lists| == cfg.ivf.nlist && i < |rows| && rows[i].key >= 0
    ensures ValidRow(cfg, rows[i])
    ensures var before, after := s.lists[rows[i].key], AddAll(cfg, s, rows).lists[rows[i].key];
      && before <= after && |before| <= o < |after|
      && var e := after[o];
         && e.id == (if rows[i].id.Some? then rows[i].id.value else s.ntotal + i) && e.vector == rows[i].x
         && e.code == cfg.encode(if cfg.ivf.byResidual then Sub(rows[i].x, cfg.ivf.Centroid(rows[i].key)) else rows[i].x)
         && ValidCode(e.code, |cfg.ivf.books|, cfg.ivf.ksub)
         && e.error == cfg.root(SqDist(rows[i].x, cfg.ivf.Reconstruct(rows[i].key, e.code)))
  {
    hide ItemOf, AddAll, Appended;
    var l := rows[i].key;
    assert rows[i] in rows;
    AddAllAppends(cfg, s, rows, l);
    AppendedHas(cfg, rows, s.ntotal, i);
    ItemOfIs(cfg, rows[i], s.ntotal + i);
    var new' := Appended(cfg, rows, l, s.ntotal);
    var k: nat :| k < |new'| && new'[k] == ItemOf(cfg, rows[i], s.ntotal + i);
    o := |s.lists[l]| + k;
  }

  /** An assigned row is in its list, aligned, with the id given or the number of rows before it, the code that encode
      gives for it, and its distance from what that code stands for. */
  lemma AddedEntry(cfg: Config, rows: seq<Row>, i: nat) returns (e: Item)
    requires cfg.Valid() && ValidRows(cfg, rows) && i < |rows| && rows[i].key >= 0
    ensures ValidRow(cfg, rows[i])
    ensures var lists := AddAll(cfg, Empty(cfg.ivf.nlist), rows).lists;
      && |lists| == cfg.ivf.nlist && Aligned(cfg, Index(0, lists)) && e in lists[rows[i].key]
    ensures e.id == (if rows[i].id.Some? then rows[i].id.value else i) && e.vector == rows[i].x
    ensures e.code == cfg.encode(if cfg.ivf.byResidual then Sub(rows[i].x, cfg.ivf.Centroid(rows[i].key)) else rows[i].x)
    ensures ValidCode(e.code, |cfg.ivf.books|, cfg.ivf.ksub)
      && e.error == cfg.root(SqDist(rows[i].x, cfg.ivf.Reconstruct(rows[i].key, e.code)))
  {
    hide ItemOf, ItemAligned, AddAll, Appended;
    var empty, l := Empty(cfg.ivf.nlist), rows[i].key;
    assert rows[i] in rows;
    AddAllAppends(cfg, empty, rows, l);
    AppendedHas(cfg, rows, 0, i);
    AddAllAligned(cfg, empty, rows);
    ItemOfIs(cfg, rows[i], i);
    e := ItemOf(cfg, rows[i], i);
  }

  // ---- conservation ----

  function Size(lists: seq<seq<Item>>): nat {
    if lists == [] then 0 else |lists[0]| + Size(lists[1..])
  }

  function Unassigned(rows: seq<Row>): nat {
    if rows == [] then 0 else (if rows[|rows| - 1].key < 0 then 1 else 0) + Unassigned(rows[..|rows| - 1])
  }

  lemma {:induction false} SizeOfUpdate(lists: seq<seq<Item>>, l: nat, items: seq<Item>)
    requires l < |lists|
    ensures Size(lists[l := items]) == Size(lists) - |lists[l]| + |items|
  {
    if l > 0 {
      SizeOfUpdate(lists[1..], l - 1, items);
      assert lists[l := items][1..] == lists[1..][l - 1 := items];
    }
  }

  /** Every row added is in exactly one list or was not assigned; both count towards ntotal. */
  lemma {:induction false} AddAllConserves(cfg: Config, s: Index, rows: seq<Row>)
    requires cfg.Valid() && ValidRows(cfg, rows) && |s.lists| == cfg.ivf.nlist
    ensures Size(AddAll(cfg, s, rows).lists) + Unassigned(rows) == Size(s.lists) + |rows|
    decreases |rows|
  {
    if rows != [] {
      var row, t := rows[|rows| - 1], AddAll(cfg, s, rows[..|rows| - 1]);
      AddAllConserves(cfg, s, rows[..|rows| - 1]);
      if row.key >= 0 {
        SizeOfUpdate(t.lists, row.key, t.lists[row.key] + [ItemOf(cfg, row, t.ntotal)]);
      }
    }
  }

  // ---- a small index ----

  /** An index of dimension 1 with one list and one centroid, at 2, that encodes the vectors themselves. */
  function OneCentroid(root: real -> real): Config {
    Config(IvfPq(L2, false, 0, 1, 1, [[[2.0]]], 1, Flat([[0.0]]), []), x => [0], x => 0, root)
  }

  lemma OneCentroidValid(root: real -> real)
    requires IsSqrt(root)
    ensures OneCentroid(root).Valid() && OneCentroid(root).ivf.D() == 1
  {
    var ivf := OneCentroid(root).ivf;
    assert ValidBook([[2.0]], 1, 1) && ivf.books[0] == [[2.0]];
    assert Span(1, 1) == 1 + Span(0, 1);
  }

  lemma OneCentroidDistances(root: real -> real)
    requires IsSqrt(root) && OneCentroid(root).Valid()
    ensures ValidCode([0], 1, 1) && OneCentroid(root).ivf.Reconstruct(0, [0]) == [2.0]
    ensures SqDist([0.0], [2.0]) == 4.0 && SqDist([-2.0], [2.0]) == 16.0 && SqDist([0.0], [-2.0]) == 4.0
  {
    var ivf := OneCentroid(root).ivf;
    assert ivf.books[1..] == [] && Decode(ivf.books, 1, 1, [0]) == [2.0] + Decode([], 1, 1, [0][1..]);
    SqDistSingle(0.0, 2.0);
    SqDistSingle(-2.0, 2.0);
    SqDistSingle(0.0, -2.0);
  }

  lemma SqDistSingle(x: real, y: real)
    ensures SqDist([x], [y]) == (x - y) * (x - y)
  {
    assert SqDist([x][1..], [y][1..]) == 0.0;
  }
}
