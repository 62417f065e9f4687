/** The per-query and per-list look-up tables of the IVF-PQ index, and the sums taken from them. */
module LookupTables {
  import opened Bits
  import opened Vectors
  import opened ProductQuantizers

  datatype Metric = L2 | InnerProduct

  /** The first-level quantizer: plain centroids, or a product of smaller quantizers with `base`
      centroids each, whose indices are the digits of the list number in that base. */
  datatype Coarse = Flat(centroids: seq<Vec>) | Multi(base: nat, parts: seq<Book>)

  /** The centroid of a multi-index list number. */
  function Digits(parts: seq<Book>, dim: nat, base: nat, key: nat): (y: Vec)
    requires base > 0 && ValidBooks(parts, dim, base)
    ensures |y| == Span(|parts|, dim)
  {
    if parts == [] then []
    else
      assert ValidBook(parts[0], dim, base);
      parts[0][key % base] + Digits(parts[1..], dim, base, key / base)
  }

  /** Every part at the same index. */
  function Diagonal(parts: seq<Book>, dim: nat, base: nat, k: nat): (y: Vec)
    requires k < base && ValidBooks(parts, dim, base)
    ensures |y| == Span(|parts|, dim)
  {
    if parts == [] then []
    else
      assert ValidBook(parts[0], dim, base);
      parts[0][k] + Diagonal(parts[1..], dim, base, k)
  }

  /** What is left of a list number once its first n digits are dropped. */
  function Shift(base: nat, key: nat, n: nat): nat
    requires base > 0
  {
    if n == 0 then key else Shift(base, key, n - 1) / base
  }

  lemma {:induction false} ShiftFront(base: nat, key: nat, n: nat)
    requires base > 0
    ensures Shift(base, key / base, n) == Shift(base, key, n + 1)
  {
    if n > 0 {
      ShiftFront(base, key, n - 1);
    }
  }

  /** A multi-index centroid element by element: part n is the one that digit n of the list number names. */
  lemma {:induction false} DigitsAt(parts: seq<Book>, dim: nat, base: nat, key: nat, n: nat, d: nat)
    requires base > 0 && ValidBooks(parts, dim, base) && n < |parts| && d < dim
    ensures |parts[n]| == base && |parts[n][Shift(base, key, n) % base]| == dim && n * dim + d < |parts| * dim
    ensures |Digits(parts, dim, base, key)| == |parts| * dim
    ensures Digits(parts, dim, base, key)[n * dim + d] == parts[n][Shift(base, key, n) % base][d]
  {
    assert ValidBook(parts[0], dim, base) && ValidBook(parts[n], dim, base);
    SpanIsProduct(|parts|, dim);
    Stretch(n, |parts|, dim, d);
    var head, tail := parts[0][key % base], Digits(parts[1..], dim, base, key / base);
    assert Digits(parts, dim, base, key) == head + tail;
    assert n == 0 ==> Shift(base, key, n) == key;
    hide Digits, Shift, Span;
    if n > 0 {
      ShiftFront(base, key, n - 1);
      DigitsAt(parts[1..], dim, base, key / base, n - 1, d);
      Stretch(n - 1, |parts| - 1, dim, d);
      assert n * dim + d == |head| + ((n - 1) * dim + d);
    } else {
      assert n * dim == 0;
    }
  }

  /** Part n of the multi-index centroid is part n of the diagonal at digit n. */
  lemma {:induction false} DigitsAgree(parts: seq<Book>, dim: nat, base: nat, key: nat, n: nat)
    requires base > 0 && ValidBooks(parts, dim, base) && n < |parts|
    ensures Span(n + 1, dim) <= Span(|parts|, dim)
    ensures Digits(parts, dim, base, key)[Span(n, dim)..Span(n + 1, dim)]
         == Diagonal(parts, dim, base, Shift(base, key, n) % base)[Span(n, dim)..Span(n + 1, dim)]
  {
    assert ValidBook(parts[0], dim, base);
    var k := Shift(base, key, n) % base;
    var a, y := parts[0][key % base], Digits(parts[1..], dim, base, key / base);
    var c, z := parts[0][k], Diagonal(parts[1..], dim, base, k);
    assert Digits(parts, dim, base, key) == a + y && Diagonal(parts, dim, base, k) == c + z;
    hide Digits, Diagonal;
    if n > 0 {
      ShiftFront(base, key, n - 1);
      DigitsAgree(parts[1..], dim, base, key / base, n - 1);
      SliceBehind(a, y, Span(n - 1, dim), Span(n, dim));
      SliceBehind(c, z, Span(n - 1, dim), Span(n, dim));
    } else {
      assert (a + y)[..dim] == a && (c + z)[..dim] == c;
    }
  }

  lemma SliceBehind(a: Vec, b: Vec, i: nat, j: nat)
    requires i <= j <= |b|
    ensures (a + b)[|a| + i..|a| + j] == b[i..j]
  {
  }

  /** Vectors that agree on the sub-vectors of books i..j have tables that agree on rows i..j. */
  lemma TableAgree(t: Term, books: seq<Book>, dsub: nat, ksub: nat, x: Vec, y: Vec, i: nat, j: nat)
    requires ValidBooks(books, dsub, ksub) && |x| == |y| == Span(|books|, dsub)
    requires i <= j <= |books| && Span(i, dsub) <= Span(j, dsub) <= |x|
    requires x[Span(i, dsub)..Span(j, dsub)] == y[Span(i, dsub)..Span(j, dsub)]
    ensures Span(i, ksub) <= Span(j, ksub) <= Span(|books|, ksub)
    ensures Table(t, books, dsub, ksub, x)[Span(i, ksub)..Span(j, ksub)]
         == Table(t, books, dsub, ksub, y)[Span(i, ksub)..Span(j, ksub)]
  {
    TableSlice(t, books, dsub, ksub, x, i, j);
    TableSlice(t, books, dsub, ksub, y, i, j);
  }

  lemma SpanOrder(i: nat, j: nat, n: nat, k: nat)
    requires i <= j <= n
    ensures Span(i, k) <= Span(j, k) <= Span(n, k)
    ensures Span(j, k) == Span(i, k) + Span(j - i, k)
    ensures Span(n, k) == Span(j, k) + Span(n - j, k)
  {
    SpanSplit(i, j - i, k);
    SpanSplit(j, n - j, k);
  }

  lemma TableSlice(t: Term, books: seq<Book>, dsub: nat, ksub: nat, x: Vec, i: nat, j: nat)
    requires ValidBooks(books, dsub, ksub) && |x| == Span(|books|, dsub) && i <= j <= |books|
    ensures Span(i, dsub) <= Span(j, dsub) <= |x|
    ensures Span(j, dsub) - Span(i, dsub) == Span(j - i, dsub)
    ensures Span(i, ksub) <= Span(j, ksub) <= Span(|books|, ksub)
    ensures Table(t, books, dsub, ksub, x)[Span(i, ksub)..Span(j, ksub)]
         == Table(t, books[i..j], dsub, ksub, x[Span(i, dsub)..Span(j, dsub)])
  {
    hide Table, Row, Entry, Span;
    SpanOrder(i, j, |books|, dsub);
    SpanOrder(i, j, |books|, ksub);
    var b, b', b'' := books[..i], books[i..j], books[j..];
    var y, y', y'' := x[..Span(i, dsub)], x[Span(i, dsub)..Span(j, dsub)], x[Span(j, dsub)..];
    assert books == b + (b' + b'') && x == y + (y' + y'');
    BooksSplit(b', b'', dsub, ksub);
    TableSplit(t, b', b'', dsub, ksub, y', y'');
    TableSplit(t, b, b' + b'', dsub, ksub, y, y' + y'');
    SliceBetween(Table(t, b, dsub, ksub, y), Table(t, b', dsub, ksub, y'), Table(t, b'', dsub, ksub, y''));
  }

  lemma SliceWithin(a: seq<real>, start: nat, b: seq<real>, i: nat, j: nat)
    requires start + |b| <= |a| && a[start..start + |b|] == b && i <= j <= |b|
    ensures a[start + i..start + j] == b[i..j]
  {
    forall k | i <= k < j
      ensures a[start + i..start + j][k - i] == b[k]
    {
      assert a[start..start + |b|][k] == a[start + k];
    }
  }

  lemma SliceBetween(a: seq<real>, b: seq<real>, c: seq<real>)
    ensures (a + (b + c))[|a|..|a| + |b|] == b
  {
  }

  // ---- the index's parameters ----

  /** What the tables need of the index. */
  datatype IvfPq = IvfPq(
    metric: Metric, byResidual: bool, usePrecomputedTable: int,
    dsub: nat, ksub: nat, books: seq<Book>, nlist: nat, coarse: Coarse, precomputedTable: seq<real>)
  {
    function D(): nat { Span(|books|, dsub) }

    function TableSize(): nat { Span(|books|, ksub) }

    /** How many books one part of a multi-index covers. */
    function BooksPerPart(): nat
      requires coarse.Multi? && |coarse.parts| > 0
    {
      |books| / |coarse.parts|
    }

    ghost predicate ValidCoarse() {
      match coarse
      case Flat(centroids) =>
        |centroids| == nlist && forall i :: 0 <= i < nlist ==> |centroids[i]| == D()
      case Multi(base, parts) =>
        base > 0 && PowerOfTwo(base) && |parts| > 0 && |books| == Span(|parts|, BooksPerPart())
        && ValidBooks(parts, Span(BooksPerPart(), dsub), base)
        && Span(|parts|, Span(BooksPerPart(), dsub)) == D()
    }

    function Centroid(key: nat): (y: Vec)
      requires ValidCoarse() && key < nlist
      ensures |y| == D()
    {
      match coarse
      case Flat(centroids) => centroids[key]
      case Multi(base, parts) => Digits(parts, Span(BooksPerPart(), dsub), base, key)
    }

    /** The slice of the precomputed table that starts at a row. */
    ghost predicate Stored(row: nat, tab: seq<real>) {
      var start := Span(row, TableSize());
      |tab| == TableSize() && start + |tab| <= |precomputedTable| && precomputedTable[start..start + |tab|] == tab
    }

    /** The precomputed table holds |y_R|^2 + 2(y_C|y_R), per list, or per index of the multi-index parts. */
    ghost predicate ValidPrecomputed()
      requires ValidBooks(books, dsub, ksub) && ValidCoarse()
    {
      match usePrecomputedTable
      case 1 =>
        forall key :: 0 <= key < nlist ==> Stored(key, Table(Residual, books, dsub, ksub, Centroid(key)))
      case 2 =>
        coarse.Multi? ==>
          forall k :: 0 <= k < coarse.base ==>
            Stored(k, Table(Residual, books, dsub, ksub,
                            Diagonal(coarse.parts, Span(BooksPerPart(), dsub), coarse.base, k)))
      case _ => usePrecomputedTable == 0 || usePrecomputedTable == -1
    }

    ghost predicate Valid() {
      ValidBooks(books, dsub, ksub) && ValidCoarse() && ValidPrecomputed()
    }

    /** The vector a code in a list stands for. */
    function Reconstruct(key: nat, code: Code): (y: Vec)
      requires ValidBooks(books, dsub, ksub) && ValidCoarse()
      requires key < nlist && ValidCode(code, |books|, ksub)
      ensures |y| == D()
    {
      var r := Decode(books, dsub, ksub, code);
      if byResidual then Add(Centroid(key), r) else r
    }

    /** Element by element: the sub-centroid the code names, with the list's centroid when residuals are encoded. */
    lemma ReconstructAt(key: nat, code: Code, m: nat, d: nat)
      requires ValidBooks(books, dsub, ksub) && ValidCoarse()
      requires key < nlist && ValidCode(code, |books|, ksub) && m < |books| && d < dsub
      ensures m * dsub + d < D() && |books[m]| == ksub && |books[m][code[m]]| == dsub
      ensures Reconstruct(key, code)[m * dsub + d]
           == (if byResidual then Centroid(key)[m * dsub + d] else 0.0) + books[m][code[m]][d]
    {
      hide Decode, Digits, Span, ValidBooks;
      DecodeAt(books, dsub, ksub, code, m, d);
    }

    /** What a look-up should return for a code: the squared distance of the query from the vector the
        code stands for, or their inner product. */
    function Target(q: Vec, key: nat, code: Code): real
      requires ValidBooks(books, dsub, ksub) && ValidCoarse()
      requires |q| == D() && key < nlist && ValidCode(code, |books|, ksub)
    {
      match metric
      case L2 => SqDist(q, Reconstruct(key, code))
      case InnerProduct => Dot(q, Reconstruct(key, code))
    }

    /** dis0 plus the look-ups of any code in tab is the target. */
    ghost predicate GivesTargets(q: Vec, key: nat, dis0: real, tab: seq<real>)
      requires ValidBooks(books, dsub, ksub) && ValidCoarse()
      requires |q| == D() && key < nlist && |tab| == TableSize()
    {
      forall code :: ValidCode(code, |books|, ksub) ==>
        dis0 + TableSum(tab, code, ksub) == Target(q, key, code)
    }

    /** Part cm of a list's table is stored in the row of the part's own index. */
    lemma MultiIndexSlice(key: nat, cm: nat)
      requires Valid() && coarse.Multi? && usePrecomputedTable == 2 && key < nlist && cm < |coarse.parts|
      ensures var row := Span(Shift(coarse.base, key, cm) % coarse.base, TableSize());
              var lo, n := Span(Span(cm, BooksPerPart()), ksub), Span(BooksPerPart(), ksub);
              lo + n == Span(Span(cm + 1, BooksPerPart()), ksub) <= TableSize()
              && row + lo + n <= |precomputedTable|
              && precomputedTable[row + lo..row + lo + n]
              == Table(Residual, books, dsub, ksub, Centroid(key))[lo..lo + n]
    {
      hide Table, Entry, Digits, Diagonal;
      var base, parts, mf := coarse.base, coarse.parts, BooksPerPart();
      var k := Shift(base, key, cm) % base;
      var x := Diagonal(parts, Span(mf, dsub), base, k);
      var i, j := Span(cm, mf), Span(cm + 1, mf);
      var tab := Table(Residual, books, dsub, ksub, x);
      DigitsAgree(parts, Span(mf, dsub), base, key, cm);
      SpanOrder(cm + 1, |parts|, |parts|, mf);
      SpanNested(cm, mf, dsub);
      SpanNested(cm + 1, mf, dsub);
      SpanSplit(mf, i, ksub);
      TableAgree(Residual, books, dsub, ksub, x, Centroid(key), i, j);
      assert Stored(k, tab);
      SliceWithin(precomputedTable, Span(k, TableSize()), tab, Span(i, ksub), Span(j, ksub));
    }

    /** Tables built from the query alone. */
    lemma QueryTableTargets(q: Vec, key: nat, dis0: real, tab: seq<real>)
      requires ValidBooks(books, dsub, ksub) && ValidCoarse()
      requires |q| == D() && key < nlist
      requires metric.L2? ==> !byResidual && tab == Table(Distance, books, dsub, ksub, q) && dis0 == 0.0
      requires metric.InnerProduct? ==> tab == Table(Inner, books, dsub, ksub, q)
      requires metric.InnerProduct? ==> dis0 == if byResidual then Dot(q, Centroid(key)) else 0.0
      ensures GivesTargets(q, key, dis0, tab)
    {
      forall code | ValidCode(code, |books|, ksub)
        ensures dis0 + TableSum(tab, code, ksub) == Target(q, key, code)
      {
        var r := Decode(books, dsub, ksub, code);
        TableSumIsWhole(if metric.L2? then Distance else Inner, books, dsub, ksub, q, code);
        DotAdd(q, Centroid(key), r);
      }
    }

    /** The distance table of the residual q - y_C. */
    lemma ResidualTableTargets(q: Vec, key: nat, tab: seq<real>)
      requires ValidBooks(books, dsub, ksub) && ValidCoarse()
      requires |q| == D() && key < nlist && metric.L2? && byResidual
      requires tab == Table(Distance, books, dsub, ksub, Sub(q, Centroid(key)))
      ensures GivesTargets(q, key, 0.0, tab)
    {
      forall code | ValidCode(code, |books|, ksub)
        ensures 0.0 + TableSum(tab, code, ksub) == Target(q, key, code)
      {
        var r := Decode(books, dsub, ksub, code);
        TableSumIsWhole(Distance, books, dsub, ksub, Sub(q, Centroid(key)), code);
        SqDistShift(q, r, Centroid(key));
      }
    }

    /** |q - y_C|^2 with the precomputed terms and the query's inner products. */
    lemma PrecomputedTableTargets(q: Vec, key: nat, dis0: real, tab: seq<real>)
      requires ValidBooks(books, dsub, ksub) && ValidCoarse()
      requires |q| == D() && key < nlist && metric.L2? && byResidual
      requires dis0 == SqDist(q, Centroid(key))
      requires tab == Madd(Table(Residual, books, dsub, ksub, Centroid(key)), -2.0, Table(Inner, books, dsub, ksub, q))
      ensures GivesTargets(q, key, dis0, tab)
    {
      forall code | ValidCode(code, |books|, ksub)
        ensures dis0 + TableSum(tab, code, ksub) == Target(q, key, code)
      {
        var r := Decode(books, dsub, ksub, code);
        TableSumIsWhole(Residual, books, dsub, ksub, Centroid(key), code);
        TableSumIsWhole(Inner, books, dsub, ksub, q, code);
        MaddSum(Table(Residual, books, dsub, ksub, Centroid(key)), -2.0, Table(Inner, books, dsub, ksub, q), code, ksub);
        ThreeTerms(q, Centroid(key), r);
      }
    }
  }

  /** Looking up the first n codes and then the rest adds up to looking up all. */
  lemma {:induction false} TableSumSplit(tab: seq<real>, code: Code, ksub: nat, n: nat)
    requires |tab| == Span(|code|, ksub) && ValidCode(code, |code|, ksub) && n <= |code|
    ensures Span(n, ksub) <= |tab| && |tab| - Span(n, ksub) == Span(|code| - n, ksub)
    ensures TableSum(tab, code, ksub)
         == TableSum(tab[..Span(n, ksub)], code[..n], ksub) + TableSum(tab[Span(n, ksub)..], code[n..], ksub)
  {
    SpanSplit(n, |code| - n, ksub);
    if n == 0 {
      assert tab[0..] == tab && code[0..] == code;
    } else {
      hide TableSum;
      TableSumSplit(tab[ksub..], code[1..], ksub, n - 1);
      TakeSum(tab, code, ksub, n);
      TableSumUnfolds(tab, code, ksub);
      DropThenTake(tab, ksub, Span(n - 1, ksub));
      assert code[1..][n - 1..] == code[n..];
    }
  }

  lemma TableSumUnfolds(tab: seq<real>, code: Code, ksub: nat)
    requires |tab| == Span(|code|, ksub) && ValidCode(code, |code|, ksub) && code != []
    ensures TableSum(tab, code, ksub) == tab[code[0]] + TableSum(tab[ksub..], code[1..], ksub)
  {
  }

  lemma TakeSum(tab: seq<real>, code: Code, ksub: nat, n: nat)
    requires |tab| == Span(|code|, ksub) && ValidCode(code, |code|, ksub) && 0 < n <= |code|
    ensures Span(n, ksub) <= |tab|
    ensures TableSum(tab[..Span(n, ksub)], code[..n], ksub)
         == tab[code[0]] + TableSum(tab[ksub..][..Span(n - 1, ksub)], code[1..][..n - 1], ksub)
  {
    SpanSplit(n, |code| - n, ksub);
    DropThenTake(tab, ksub, Span(n - 1, ksub));
    assert code[..n][1..] == code[1..][..n - 1];
  }

  lemma DropThenTake(a: seq<real>, k: nat, i: nat)
    requires k + i <= |a|
    ensures a[..k + i][k..] == a[k..][..i] && a[k..][i..] == a[k + i..]
  {
  }

  function Sum(a: seq<real>): real {
    if a == [] then 0.0 else a[0] + Sum(a[1..])
  }

  /** Looking one code up in each row. */
  function Gather(tab: seq<real>, code: Code, ksub: nat): (g: seq<real>)
    requires |tab| == Span(|code|, ksub) && ValidCode(code, |code|, ksub)
    ensures |g| == |code|
  {
    if code == [] then [] else [tab[code[0]]] + Gather(tab[ksub..], code[1..], ksub)
  }

  lemma {:induction false} GatherSum(tab: seq<real>, code: Code, ksub: nat)
    requires |tab| == Span(|code|, ksub) && ValidCode(code, |code|, ksub)
    ensures Sum(Gather(tab, code, ksub)) == TableSum(tab, code, ksub)
  {
    if code != [] {
      GatherSum(tab[ksub..], code[1..], ksub);
    }
  }

  /** Adding two registers lane by lane adds up both. */
  lemma {:induction false} AddLanesSum(a: seq<real>, b: seq<real>)
    requires |a| == |b|
    ensures Sum(Add(a, b)) == Sum(a) + Sum(b)
  {
    if a != [] {
      AddLanesSum(a[1..], b[1..]);
      assert Add(a, b)[1..] == Add(a[1..], b[1..]);
    }
  }

  /** Horizontal addition within each half of two eight-lane registers. */
  function HAdd(a: seq<real>, b: seq<real>): (c: seq<real>)
    requires |a| == |b| == 8
    ensures |c| == 8
  {
    [a[0] + a[1], a[2] + a[3], b[0] + b[1], b[2] + b[3], a[4] + a[5], a[6] + a[7], b[4] + b[5], b[6] + b[7]]
  }

  function HorizontalSum(a: seq<real>): real
    requires |a| == 8
  {
    var h0 := HAdd(a, a);
    var h1 := HAdd(h0, h0);
    h1[4] + h1[0]
  }

  lemma SumFrom(a: seq<real>, k: nat)
    requires k < |a|
    ensures Sum(a[k..]) == a[k] + Sum(a[k + 1..])
  {
    assert a[k..][1..] == a[k + 1..];
  }

  lemma {:induction false} HorizontalSumIsSum(a: seq<real>)
    requires |a| == 8
    ensures HorizontalSum(a) == Sum(a)
  {
    assert a[0..] == a && a[8..] == [];
    SumFrom(a, 0);
    SumFrom(a, 1);
    SumFrom(a, 2);
    SumFrom(a, 3);
    SumFrom(a, 4);
    SumFrom(a, 5);
    SumFrom(a, 6);
    SumFrom(a, 7);
    HorizontalSumIsEight(a);
  }

  lemma HorizontalSumIsEight(a: seq<real>)
    requires |a| == 8
    ensures HorizontalSum(a) == a[0] + a[1] + a[2] + a[3] + a[4] + a[5] + a[6] + a[7]
  {
  }

  /** What is left to add up once the first m codes have been looked up. */
  function Rest(tab: seq<real>, code: Code, ksub: nat, m: nat): real
    requires |tab| == Span(|code|, ksub) && ValidCode(code, |code|, ksub) && m <= |code|
  {
    SpanSplit(m, |code| - m, ksub);
    TableSum(tab[Span(m, ksub)..], code[m..], ksub)
  }

  lemma RestStep(tab: seq<real>, code: Code, ksub: nat, m: nat)
    requires |tab| == Span(|code|, ksub) && ValidCode(code, |code|, ksub) && m < |code|
    ensures Span(m, ksub) + ksub == Span(m + 1, ksub) <= |tab|
    ensures Rest(tab, code, ksub, m) == tab[Span(m, ksub) + code[m]] + Rest(tab, code, ksub, m + 1)
  {
    SpanSplit(m, |code| - m, ksub);
    SpanSplit(m, 1, ksub);
    assert tab[Span(m, ksub)..][ksub..] == tab[Span(m + 1, ksub)..];
    assert code[m..][1..] == code[m + 1..];
  }

  lemma RestStart(tab: seq<real>, code: Code, ksub: nat)
    requires |tab| == Span(|code|, ksub) && ValidCode(code, |code|, ksub)
    ensures Rest(tab, code, ksub, 0) == TableSum(tab, code, ksub)
  {
    assert tab[0..] == tab && code[0..] == code;
  }

  lemma RestEnd(tab: seq<real>, code: Code, ksub: nat)
    requires |tab| == Span(|code|, ksub) && ValidCode(code, |code|, ksub)
    ensures Rest(tab, code, ksub, |code|) == 0.0
  {
  }

  lemma RestEight(tab: seq<real>, code: Code, ksub: nat, m: nat)
    requires |tab| == Span(|code|, ksub) && ValidCode(code, |code|, ksub) && m + 8 <= |code|
    ensures Span(m, ksub) + Span(8, ksub) == Span(m + 8, ksub) <= |tab|
    ensures Rest(tab, code, ksub, m)
         == Sum(Gather(tab[Span(m, ksub)..Span(m + 8, ksub)], code[m..m + 8], ksub)) + Rest(tab, code, ksub, m + 8)
  {
    hide TableSum, Gather, Sum;
    var n := Span(8, ksub);
    SpanSplit(m, |code| - m, ksub);
    SpanSplit(m, 8, ksub);
    SpanSplit(m + 8, |code| - m - 8, ksub);
    var tail := tab[Span(m, ksub)..];
    TableSumSplit(tail, code[m..], ksub, 8);
    assert tail[..n] == tab[Span(m, ksub)..Span(m + 8, ksub)] && code[m..][..8] == code[m..m + 8];
    assert tail[n..] == tab[Span(m + 8, ksub)..] && code[m..][8..] == code[m + 8..];
    GatherSum(tail[..n], code[m..m + 8], ksub);
  }

  method Fill(a: array<real>, s: seq<real>)
    requires a.Length == |s|
    modifies a
    ensures a[..] == s
  {
    forall i | 0 <= i < a.Length {
      a[i] := s[i];
    }
  }

  /** c[at..at + n] := a[from..from + n] + bf * b[at..at + n] */
  method FvecMadd(n: nat, a: seq<real>, from: nat, bf: real, b: array<real>, c: array<real>, at: nat)
    requires from + n <= |a| && at + n <= b.Length == c.Length && b != c
    modifies c
    ensures c[..at] == old(c[..at])
    ensures c[at..at + n] == Madd(a[from..from + n], bf, b[at..at + n])
  {
    var i := 0;
    while i < n
      invariant 0 <= i <= n
      invariant c[..at] == old(c[..at])
      invariant forall k :: at <= k < at + i ==> c[k] == a[from + (k - at)] + Scale(bf, b[k])
    {
      c[at + i] := a[from + i] + Scale(bf, b[at + i]);
      i := i + 1;
    }
  }

  /** The buffers of one scanner. sim_table is what codes are looked up in, sim_table_2 holds the
      query's inner products while precomputed tables are in use. */
  class QueryTables {
    const ivf: IvfPq
    var qi: Vec
    const simTable: array<real>
    const simTable2: array<real>
    const residualVec: array<real>
    const decodedVec: array<real>

    ghost predicate Shaped() {
      ivf.Valid()
      && simTable.Length == simTable2.Length == ivf.TableSize()
      && residualVec.Length == decodedVec.Length == ivf.D()
      && simTable != simTable2 && simTable != residualVec && simTable != decodedVec
      && simTable2 != residualVec && simTable2 != decodedVec && residualVec != decodedVec
    }

    /** The buffers hold what a query alone determines. */
    ghost predicate QueryReady()
      requires Shaped()
      reads this, simTable, simTable2
    {
      |qi| == ivf.D()
      && match ivf.metric
         case InnerProduct => simTable[..] == Table(Inner, ivf.books, ivf.dsub, ivf.ksub, qi)
         case L2 =>
           (!ivf.byResidual ==> simTable[..] == Table(Distance, ivf.books, ivf.dsub, ivf.ksub, qi))
           && (ivf.byResidual && ivf.usePrecomputedTable != 0 ==>
                 simTable2[..] == Table(Inner, ivf.books, ivf.dsub, ivf.ksub, qi))
    }

    constructor (ivf: IvfPq)
      requires ivf.Valid()
      ensures Shaped() && this.ivf == ivf
      ensures fresh(simTable) && fresh(simTable2) && fresh(residualVec) && fresh(decodedVec)
    {
      this.ivf := ivf;
      qi := [];
      simTable := new real[ivf.TableSize()];
      simTable2 := new real[ivf.TableSize()];
      residualVec := new real[ivf.D()];
      decodedVec := new real[ivf.D()];
    }

    method InitQuery(q: Vec)
      requires Shaped() && |q| == ivf.D()
      modifies `qi, simTable, simTable2
      ensures qi == q && QueryReady()
    {
      qi := q;
      if ivf.metric.InnerProduct? {
        Fill(simTable, Table(Inner, ivf.books, ivf.dsub, ivf.ksub, q));
      } else if !ivf.byResidual {
        Fill(simTable, Table(Distance, ivf.books, ivf.dsub, ivf.ksub, q));
      } else if ivf.usePrecomputedTable != 0 {
        Fill(simTable2, Table(Inner, ivf.books, ivf.dsub, ivf.ksub, q));
      }
    }

    /** Once the list is known: sim_table and dis0 are such that the look-ups of any code give its
        target. Fails only when the multi-index tables are in use without a multi-index quantizer.
        coarse_dis is what the first-level quantizer reported for the list. */
    method PrecomputeListTables(key: nat, coarseDis: real) returns (ok: bool, dis0: real)
      requires Shaped() && QueryReady() && key < ivf.nlist
      requires ivf.metric.L2? ==> coarseDis == SqDist(qi, ivf.Centroid(key))
      modifies simTable, residualVec, decodedVec
      ensures ok <==> !(ivf.metric.L2? && ivf.byResidual && ivf.usePrecomputedTable == 2 && ivf.coarse.Flat?)
      ensures QueryReady()
      ensures ok ==> ivf.GivesTargets(qi, key, dis0, simTable[..])
    {
      ok, dis0 := true, 0.0;
      if ivf.byResidual {
        if ivf.metric.InnerProduct? {
          Fill(decodedVec, ivf.Centroid(key));
          dis0 := Dot(qi, decodedVec[..]);
          ivf.QueryTableTargets(qi, key, dis0, simTable[..]);
        } else {
          ok, dis0 := PrecomputeListTablesL2(key, coarseDis);
        }
      } else {
        ivf.QueryTableTargets(qi, key, dis0, simTable[..]);
      }
    }

    method PrecomputeListTablesL2(key: nat, coarseDis: real) returns (ok: bool, dis0: real)
      requires Shaped() && QueryReady() && key < ivf.nlist
      requires ivf.metric.L2? && ivf.byResidual && coarseDis == SqDist(qi, ivf.Centroid(key))
      modifies simTable, residualVec
      ensures ok <==> !(ivf.usePrecomputedTable == 2 && ivf.coarse.Flat?)
      ensures QueryReady()
      ensures ok ==> ivf.GivesTargets(qi, key, dis0, simTable[..])
    {
      hide Table, Entry, Digits, Madd;
      ok, dis0 := true, 0.0;
      if ivf.usePrecomputedTable == 0 || ivf.usePrecomputedTable == -1 {
        Fill(residualVec, Sub(qi, ivf.Centroid(key)));
        Fill(simTable, Table(Distance, ivf.books, ivf.dsub, ivf.ksub, residualVec[..]));
        ivf.ResidualTableTargets(qi, key, simTable[..]);
      } else if ivf.usePrecomputedTable == 1 {
        dis0 := coarseDis;
        StoredTable(key);
        ivf.PrecomputedTableTargets(qi, key, dis0, simTable[..]);
      } else if ivf.coarse.Multi? {
        dis0 := coarseDis;
        MultiIndexTable(key);
        ivf.PrecomputedTableTargets(qi, key, dis0, simTable[..]);
      } else {
        ok := false;
      }
    }

    /** Combines the list's stored table with the query's. */
    method StoredTable(key: nat)
      requires Shaped() && ivf.usePrecomputedTable == 1 && key < ivf.nlist
      modifies simTable
      ensures simTable[..] == Madd(Table(Residual, ivf.books, ivf.dsub, ivf.ksub, ivf.Centroid(key)), -2.0, simTable2[..])
    {
      hide Table, Entry, Digits, Madd;
      assert ivf.Stored(key, Table(Residual, ivf.books, ivf.dsub, ivf.ksub, ivf.Centroid(key)));
      FvecMadd(ivf.TableSize(), ivf.precomputedTable, Span(key, ivf.TableSize()), -2.0, simTable2, simTable, 0);
      assert simTable[..] == simTable[0..simTable.Length] && simTable2[..] == simTable2[0..simTable.Length];
    }

    /** Assembles the list's table from one slice per part of the multi-index. */
    method MultiIndexTable(key: nat)
      requires Shaped() && ivf.coarse.Multi? && ivf.usePrecomputedTable == 2 && key < ivf.nlist
      modifies simTable
      ensures simTable[..] == Madd(Table(Residual, ivf.books, ivf.dsub, ivf.ksub, ivf.Centroid(key)), -2.0, simTable2[..])
    {
      hide Table, Entry, Digits, IvfPq.ValidPrecomputed;
      ghost var whole := Table(Residual, ivf.books, ivf.dsub, ivf.ksub, ivf.Centroid(key));
      var k, cm, ltab := key, 0, 0;
      while cm < |ivf.coarse.parts|
        invariant 0 <= cm <= |ivf.coarse.parts| && k == Shift(ivf.coarse.base, key, cm)
        invariant ltab == Span(Span(cm, ivf.BooksPerPart()), ivf.ksub) <= |whole|
        invariant simTable[..ltab] == Madd(whole[..ltab], -2.0, simTable2[..ltab])
      {
        ltab := MultiIndexPart(key, cm, k, ltab);
        k := k / ivf.coarse.base;
        cm := cm + 1;
      }
      assert whole[..ltab] == whole && simTable[..ltab] == simTable[..] && simTable2[..ltab] == simTable2[..];
    }

    /** Adds the slice of one part, at the index the low digit of k gives. */
    method MultiIndexPart(key: nat, cm: nat, k: nat, ltab: nat) returns (next: nat)
      requires Shaped() && ivf.coarse.Multi? && ivf.usePrecomputedTable == 2 && key < ivf.nlist
      requires cm < |ivf.coarse.parts| && k == Shift(ivf.coarse.base, key, cm)
      requires ltab == Span(Span(cm, ivf.BooksPerPart()), ivf.ksub) <= ivf.TableSize()
      requires simTable[..ltab] == Madd(Table(Residual, ivf.books, ivf.dsub, ivf.ksub, ivf.Centroid(key))[..ltab], -2.0, simTable2[..ltab])
      modifies simTable
      ensures next == Span(Span(cm + 1, ivf.BooksPerPart()), ivf.ksub) <= ivf.TableSize()
      ensures simTable[..next] == Madd(Table(Residual, ivf.books, ivf.dsub, ivf.ksub, ivf.Centroid(key))[..next], -2.0, simTable2[..next])
    {
      hide Table, Entry, Digits, IvfPq.ValidPrecomputed, Madd, Span;
      ghost var whole := Table(Residual, ivf.books, ivf.dsub, ivf.ksub, ivf.Centroid(key));
      var n := Span(ivf.BooksPerPart(), ivf.ksub);
      next := ltab + n;
      MaskIsMod(k, ivf.coarse.base);
      var ki := BitAnd(k, ivf.coarse.base - 1);
      ivf.MultiIndexSlice(key, cm);
      MaddAppend(whole, -2.0, simTable2[..], ltab, next);
      FvecMadd(n, ivf.precomputedTable, Span(ki, ivf.TableSize()) + ltab, -2.0, simTable2, simTable, ltab);
      assert simTable[ltab..next] == Madd(whole[ltab..next], -2.0, simTable2[..][ltab..next]);
      assert simTable[..next] == simTable[..ltab] + simTable[ltab..next];
    }

    /** The look-ups of one code, one at a time. */
    method DistanceSingleCode(code: Code) returns (result: real)
      requires Shaped() && ValidCode(code, |ivf.books|, ivf.ksub)
      ensures result == TableSum(simTable[..], code, ivf.ksub)
    {
      hide IvfPq.Valid, TableSum;
      result := AddLeftovers(code, 0, 0, 0.0);
      assert simTable[..][0..] == simTable[..] && code[0..] == code;
    }

    method AddLeftovers(code: Code, start: nat, tabStart: nat, sum: real) returns (result: real)
      requires Shaped() && ValidCode(code, |ivf.books|, ivf.ksub) && start <= |code|
      requires tabStart == Span(start, ivf.ksub)
      ensures result == sum + Rest(simTable[..], code, ivf.ksub, start)
    {
      hide IvfPq.Valid, TableSum, Rest;
      result := sum;
      var m, tab := start, tabStart;
      while m < |code|
        invariant start <= m <= |code| && tab == Span(m, ivf.ksub)
        invariant result + Rest(simTable[..], code, ivf.ksub, m) == sum + Rest(simTable[..], code, ivf.ksub, start)
      {
        RestStep(simTable[..], code, ivf.ksub, m);
        result := result + simTable[tab + code[m]];
        tab := tab + ivf.ksub;
        m := m + 1;
      }
      RestEnd(simTable[..], code, ivf.ksub);
    }

    /** The same sum with eight-lane registers: sixteen codes a round, then the leftovers. */
    method DistanceSingleCodeWide(code: Code) returns (result: real)
      requires Shaped() && ValidCode(code, |ivf.books|, ivf.ksub)
      ensures result == TableSum(simTable[..], code, ivf.ksub)
    {
      hide IvfPq.Valid, TableSum, Rest, Gather;
      result := 0.0;
      var m, tab := 0, 0;
      RestStart(simTable[..], code, ivf.ksub);
      if |code| / 16 > 0 {
        var partialSum := [0.0, 0.0, 0.0, 0.0, 0.0, 0.0, 0.0, 0.0];
        HorizontalSumIsSum(partialSum);
        while m < |code| / 16 * 16
          invariant 0 <= m <= |code| / 16 * 16 && m % 16 == 0 && tab == Span(m, ivf.ksub)
          invariant |partialSum| == 8
          invariant Sum(partialSum) + Rest(simTable[..], code, ivf.ksub, m) == TableSum(simTable[..], code, ivf.ksub)
        {
          partialSum, tab := GatherEight(code, m, tab, partialSum);
          partialSum, tab := GatherEight(code, m + 8, tab, partialSum);
          m := m + 16;
        }
        HorizontalSumIsSum(partialSum);
        result := result + HorizontalSum(partialSum);
      }
      result := AddLeftovers(code, m, tab, result);
    }

    /** Gathers the look-ups of eight codes and adds them to the lanes. */
    method GatherEight(code: Code, m: nat, tab: nat, lanes: seq<real>) returns (lanes': seq<real>, tab': nat)
      requires Shaped() && ValidCode(code, |ivf.books|, ivf.ksub) && m + 8 <= |code| && |lanes| == 8
      requires tab == Span(m, ivf.ksub)
      ensures |lanes'| == 8 && tab' == Span(m + 8, ivf.ksub)
      ensures Sum(lanes') + Rest(simTable[..], code, ivf.ksub, m + 8) == Sum(lanes) + Rest(simTable[..], code, ivf.ksub, m)
    {
      hide IvfPq.Valid, TableSum, Rest, Gather, Sum;
      RestEight(simTable[..], code, ivf.ksub, m);
      tab' := tab + Span(8, ivf.ksub);
      SpanSplit(m, 8, ivf.ksub);
      assert simTable[..][tab..tab'] == simTable[tab..tab'];
      var collected := Gather(simTable[tab..tab'], code[m..m + 8], ivf.ksub);
      AddLanesSum(lanes, collected);
      lanes' := Add(lanes, collected);
    }
  }
}
