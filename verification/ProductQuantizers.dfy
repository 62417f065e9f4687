/** Product quantization: codes, reconstruction, and the flattened look-up tables from which the
    distance of a vector to any reconstruction is summed. */
module ProductQuantizers {
  import opened Vectors

  /** One index per sub-quantizer. */
  type Code = seq<nat>

  /** The centroids of one sub-quantizer. */
  type Book = seq<Vec>

  /** n * k: the length of n stretches of length k, one stretch at a time. */
  function Span(n: nat, k: nat): nat {
    if n == 0 then 0 else k + Span(n - 1, k)
  }

  lemma {:induction false} SpanIsProduct(n: nat, k: nat)
    ensures Span(n, k) == n * k
  {
    if n > 0 {
      SpanIsProduct(n - 1, k);
    }
  }

  lemma {:induction false} SpanSplit(i: nat, j: nat, k: nat)
    ensures Span(i + j, k) == Span(i, k) + Span(j, k)
  {
    if i > 0 {
      SpanSplit(i - 1, j, k);
    }
  }

  lemma {:induction false} SpanNested(n: nat, m: nat, k: nat)
    ensures Span(Span(n, m), k) == Span(n, Span(m, k))
  {
    if n > 0 {
      SpanNested(n - 1, m, k);
      SpanSplit(m, Span(n - 1, m), k);
    }
  }

  /** What a table holds for a sub-vector and a sub-centroid: a squared distance, an inner product,
      or |c|^2 + 2(y|c), the part of a residual distance that does not depend on the query. */
  datatype Term = Distance | Inner | Residual

  function Entry(t: Term, a: Vec, c: Vec): real
    requires |a| == |c|
  {
    match t
    case Distance => SqDist(a, c)
    case Inner => Dot(a, c)
    case Residual => SqNorm(c) + 2.0 * Dot(a, c)
  }

  ghost predicate ValidBooks(books: seq<Book>, dsub: nat, ksub: nat) {
    forall m :: 0 <= m < |books| ==> ValidBook(books[m], dsub, ksub)
  }

  ghost predicate ValidBook(book: Book, dsub: nat, ksub: nat) {
    |book| == ksub && forall j :: 0 <= j < ksub ==> |book[j]| == dsub
  }

  ghost predicate ValidCode(code: Code, m: nat, ksub: nat) {
    |code| == m && forall i :: 0 <= i < m ==> code[i] < ksub
  }

  /** The reconstruction of a code: its sub-centroids side by side. */
  function Decode(books: seq<Book>, dsub: nat, ksub: nat, code: Code): (y: Vec)
    requires ValidBooks(books, dsub, ksub) && ValidCode(code, |books|, ksub)
    ensures |y| == Span(|books|, dsub)
  {
    if books == [] then []
    else
      assert ValidBook(books[0], dsub, ksub);
      books[0][code[0]] + Decode(books[1..], dsub, ksub, code[1..])
  }

  /** The reconstruction element by element: stretch m is the sub-centroid that the code names in book m. */
  lemma {:induction false} DecodeAt(books: seq<Book>, dsub: nat, ksub: nat, code: Code, m: nat, d: nat)
    requires ValidBooks(books, dsub, ksub) && ValidCode(code, |books|, ksub) && m < |books| && d < dsub
    ensures |books[m]| == ksub && |books[m][code[m]]| == dsub && m * dsub + d < |books| * dsub
    ensures |Decode(books, dsub, ksub, code)| == |books| * dsub
    ensures Decode(books, dsub, ksub, code)[m * dsub + d] == books[m][code[m]][d]
  {
    assert ValidBook(books[0], dsub, ksub) && ValidBook(books[m], dsub, ksub);
    SpanIsProduct(|books|, dsub);
    Stretch(m, |books|, dsub, d);
    if m > 0 {
      DecodeAt(books[1..], dsub, ksub, code[1..], m - 1, d);
      Stretch(m - 1, |books| - 1, dsub, d);
    }
  }

  lemma Stretch(m: nat, n: nat, k: nat, d: nat)
    requires m < n && d < k
    ensures 0 <= m * k && m * k + d < n * k && (m + 1) * k == m * k + k
  {
    SpanIsProduct(m, k);
    SpanIsProduct(m + 1, k);
    SpanIsProduct(n, k);
    SpanSplit(m + 1, n - m - 1, k);
  }

  /** One row of a table: a sub-vector against every centroid of one book. */
  function Row(t: Term, book: Book, a: Vec): (row: seq<real>)
    requires forall j :: 0 <= j < |book| ==> |book[j]| == |a|
    ensures |row| == |book|
  {
    seq(|book|, j requires 0 <= j < |book| => Entry(t, a, book[j]))
  }

  /** The rows of a vector, one after the other. */
  function Table(t: Term, books: seq<Book>, dsub: nat, ksub: nat, x: Vec): (tab: seq<real>)
    requires ValidBooks(books, dsub, ksub) && |x| == Span(|books|, dsub)
    ensures |tab| == Span(|books|, ksub)
  {
    if books == [] then []
    else
      assert ValidBook(books[0], dsub, ksub);
      Row(t, books[0], x[..dsub]) + Table(t, books[1..], dsub, ksub, x[dsub..])
  }

  /** The look-ups of a code, one per row, summed. */
  function TableSum(tab: seq<real>, code: Code, ksub: nat): real
    requires |tab| == Span(|code|, ksub) && ValidCode(code, |code|, ksub)
  {
    if code == [] then 0.0
    else tab[code[0]] + TableSum(tab[ksub..], code[1..], ksub)
  }

  /** The tables are right: for each kind of table, the look-ups of a code add up to the same quantity
      taken between the whole vector and the reconstruction. */
  lemma {:induction false} TableSumIsWhole(t: Term, books: seq<Book>, dsub: nat, ksub: nat, x: Vec, code: Code)
    requires ValidBooks(books, dsub, ksub) && |x| == Span(|books|, dsub) && ValidCode(code, |books|, ksub)
    ensures TableSum(Table(t, books, dsub, ksub, x), code, ksub) == Entry(t, x, Decode(books, dsub, ksub, code))
  {
    if books != [] {
      var head, tail := Row(t, books[0], x[..dsub]), Table(t, books[1..], dsub, ksub, x[dsub..]);
      assert ValidBook(books[0], dsub, ksub);
      assert (head + tail)[ksub..] == tail;
      TableSumIsWhole(t, books[1..], dsub, ksub, x[dsub..], code[1..]);
      EntrySplit(t, x[..dsub], x[dsub..], books[0][code[0]], Decode(books[1..], dsub, ksub, code[1..]));
      assert x[..dsub] + x[dsub..] == x;
    }
  }

  lemma EntrySplit(t: Term, a: Vec, a': Vec, c: Vec, c': Vec)
    requires |a| == |c| && |a'| == |c'|
    ensures Entry(t, a + a', c + c') == Entry(t, a, c) + Entry(t, a', c')
  {
    DotSplit(a, a', c, c');
    DotSplit(c, c', c, c');
    SqDistSplit(a, a', c, c');
  }

  lemma {:induction false} DotSplit(a: Vec, a': Vec, c: Vec, c': Vec)
    requires |a| == |c| && |a'| == |c'|
    ensures Dot(a + a', c + c') == Dot(a, c) + Dot(a', c')
  {
    if a == [] {
      assert a + a' == a' && c + c' == c';
    } else {
      assert (a + a')[1..] == a[1..] + a' && (c + c')[1..] == c[1..] + c';
      DotSplit(a[1..], a', c[1..], c');
    }
  }

  lemma {:induction false} SqDistSplit(a: Vec, a': Vec, c: Vec, c': Vec)
    requires |a| == |c| && |a'| == |c'|
    ensures SqDist(a + a', c + c') == SqDist(a, c) + SqDist(a', c')
  {
    if a == [] {
      assert a + a' == a' && c + c' == c';
    } else {
      assert (a + a')[1..] == a[1..] + a' && (c + c')[1..] == c[1..] + c';
      SqDistSplit(a[1..], a', c[1..], c');
    }
  }

  /** Tables split where the books do. */
  lemma {:induction false} TableSplit(t: Term, b: seq<Book>, b': seq<Book>, dsub: nat, ksub: nat, x: Vec, x': Vec)
    requires ValidBooks(b, dsub, ksub) && ValidBooks(b', dsub, ksub)
    requires |x| == Span(|b|, dsub) && |x'| == Span(|b'|, dsub)
    ensures ValidBooks(b + b', dsub, ksub) && |x + x'| == Span(|b + b'|, dsub)
    ensures Table(t, b + b', dsub, ksub, x + x') == Table(t, b, dsub, ksub, x) + Table(t, b', dsub, ksub, x')
  {
    hide Table, Row;
    BooksSplit(b, b', dsub, ksub);
    if b == [] {
      assert b + b' == b' && x + x' == x';
    } else {
      assert ValidBook(b[0], dsub, ksub);
      TableSplit(t, b[1..], b', dsub, ksub, x[dsub..], x');
      TableStep(t, b[0], b[1..] + b', dsub, ksub, x[..dsub], x[dsub..] + x');
      TableStep(t, b[0], b[1..], dsub, ksub, x[..dsub], x[dsub..]);
      assert b + b' == [b[0]] + (b[1..] + b') && b == [b[0]] + b[1..];
      assert x + x' == x[..dsub] + (x[dsub..] + x') && x == x[..dsub] + x[dsub..];
    }
  }

  lemma TableStep(t: Term, book: Book, books: seq<Book>, dsub: nat, ksub: nat, a: Vec, x: Vec)
    requires ValidBook(book, dsub, ksub) && ValidBooks(books, dsub, ksub)
    requires |a| == dsub && |x| == Span(|books|, dsub)
    ensures ValidBooks([book] + books, dsub, ksub)
    ensures Table(t, [book] + books, dsub, ksub, a + x) == Row(t, book, a) + Table(t, books, dsub, ksub, x)
  {
    assert ([book] + books)[1..] == books;
    assert (a + x)[..dsub] == a && (a + x)[dsub..] == x;
  }

  lemma BooksSplit(b: seq<Book>, b': seq<Book>, dsub: nat, ksub: nat)
    requires ValidBooks(b, dsub, ksub) && ValidBooks(b', dsub, ksub)
    ensures ValidBooks(b + b', dsub, ksub)
    ensures Span(|b + b'|, dsub) == Span(|b|, dsub) + Span(|b'|, dsub)
    ensures Span(|b + b'|, ksub) == Span(|b|, ksub) + Span(|b'|, ksub)
  {
    SpanSplit(|b|, |b'|, dsub);
    SpanSplit(|b|, |b'|, ksub);
  }

  function Scale(f: real, x: real): real {
    f * x
  }

  /** a + f * b, element by element. */
  function Madd(a: seq<real>, f: real, b: seq<real>): (c: seq<real>)
    requires |a| == |b|
    ensures |c| == |a|
  {
    seq(|a|, i requires 0 <= i < |a| => a[i] + Scale(f, b[i]))
  }

  lemma {:induction false} MaddSum(a: seq<real>, f: real, b: seq<real>, code: Code, ksub: nat)
    requires |a| == |b| == Span(|code|, ksub) && ValidCode(code, |code|, ksub)
    ensures TableSum(Madd(a, f, b), code, ksub) == TableSum(a, code, ksub) + Scale(f, TableSum(b, code, ksub))
  {
    hide Scale;
    if code == [] {
      Distribute(f, 0.0, 0.0);
    } else {
      var a', b', code' := a[ksub..], b[ksub..], code[1..];
      MaddDrop(a, f, b, ksub);
      MaddSum(a', f, b', code', ksub);
      Distribute(f, b[code[0]], TableSum(b', code', ksub));
    }
  }

  lemma MaddDrop(a: seq<real>, f: real, b: seq<real>, k: nat)
    requires k <= |a| == |b|
    ensures Madd(a, f, b)[k..] == Madd(a[k..], f, b[k..])
  {
    forall i | 0 <= i < |a| - k
      ensures Madd(a, f, b)[k..][i] == Madd(a[k..], f, b[k..])[i]
    {
      assert a[k..][i] == a[k + i] && b[k..][i] == b[k + i];
    }
  }

  lemma MaddAppend(a: seq<real>, f: real, b: seq<real>, i: nat, j: nat)
    requires i <= j <= |a| && j <= |b|
    ensures Madd(a[..j], f, b[..j]) == Madd(a[..i], f, b[..i]) + Madd(a[i..j], f, b[i..j])
  {
    forall k | 0 <= k < j
      ensures Madd(a[..j], f, b[..j])[k] == (Madd(a[..i], f, b[..i]) + Madd(a[i..j], f, b[i..j]))[k]
    {
      if k >= i {
        assert a[i..j][k - i] == a[k] && b[i..j][k - i] == b[k];
      }
    }
  }

  lemma Distribute(f: real, x: real, y: real)
    ensures Scale(f, x + y) == Scale(f, x) + Scale(f, y)
  {
  }

  /** |q - y|^2 + |r|^2 + 2(y|r) - 2(q|r) is the distance of q from y + r. */
  lemma ThreeTerms(q: Vec, y: Vec, r: Vec)
    requires |q| == |y| == |r|
    ensures SqDist(q, y) + Entry(Residual, y, r) - 2.0 * Entry(Inner, q, r) == SqDist(q, Add(y, r))
  {
    SqDistShift(q, r, y);
    SqDistExpand(Sub(q, y), r);
    SqDistIsNorm(q, y);
    DotSub(q, y, r);
  }

  lemma {:induction false} DotSub(a: Vec, b: Vec, c: Vec)
    requires |a| == |b| == |c|
    ensures Dot(Sub(a, b), c) == Dot(a, c) - Dot(b, c)
  {
    if a != [] {
      DotSub(a[1..], b[1..], c[1..]);
      assert Sub(a, b)[1..] == Sub(a[1..], b[1..]);
      assert (a[0] - b[0]) * c[0] == a[0] * c[0] - b[0] * c[0];
    }
  }

  lemma {:induction false} DotAdd(c: Vec, a: Vec, b: Vec)
    requires |a| == |b| == |c|
    ensures Dot(c, Add(a, b)) == Dot(c, a) + Dot(c, b)
  {
    if a != [] {
      DotAdd(c[1..], a[1..], b[1..]);
      assert Add(a, b)[1..] == Add(a[1..], b[1..]);
      assert c[0] * (a[0] + b[0]) == c[0] * a[0] + c[0] * b[0];
    }
  }
}
