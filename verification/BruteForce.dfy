/** The brute-force searchers: every row is compared with the query, and the best are kept. */
module BruteForce {
  import opened DistanceUtil
  import opened Sequences
  import opened TopK
  import opened Vectors
  import opened Wrappers

  datatype Metric = L2Distance | CosineSimilarity

  // ---- distances ----

  method EuclideanDistance(v1: Vec, v2: Vec) returns (sum: real)
    requires |v1| == |v2|
    ensures sum == SqDist(v1, v2)
  {
    sum := 0.0;
    var i := 0;
    while i < |v1|
      invariant 0 <= i <= |v1|
      invariant sum + SqDist(v1[i..], v2[i..]) == SqDist(v1, v2)
    {
      var diff := v2[i] - v1[i];
      SqDistFrom(v1, v2, i);
      sum := sum + diff * diff;
      i := i + 1;
    }
  }

  lemma SqDistFrom(a: Vec, b: Vec, i: nat)
    requires |a| == |b| && i < |a|
    ensures SqDist(a[i..], b[i..]) == (b[i] - a[i]) * (b[i] - a[i]) + SqDist(a[i + 1..], b[i + 1..])
  {
    assert a[i..][1..] == a[i + 1..] && b[i..][1..] == b[i + 1..];
  }

  /** The product of the lengths of two vectors. */
  function LengthProduct(root: real -> real, a: Vec, b: Vec): real {
    root(SqNorm(a)) * root(SqNorm(b))
  }

  lemma LengthProductPositive(root: real -> real, a: Vec, b: Vec)
    requires IsSqrt(root)
    ensures SqNorm(a) >= 0.0 && SqNorm(b) >= 0.0
    ensures SqNorm(a) != 0.0 && SqNorm(b) != 0.0 ==> LengthProduct(root, a, b) > 0.0
    ensures Square(LengthProduct(root, a, b)) == SqNorm(a) * SqNorm(b)
  {
    SqNormNonNegative(a);
    SqNormNonNegative(b);
    var p, q := root(SqNorm(a)), root(SqNorm(b));
    SquareOfProduct(p, q);
    if SqNorm(a) != 0.0 && SqNorm(b) != 0.0 {
      PositiveProduct(p, q);
    }
  }

  /** The cosine of the angle between two vectors; 0 when one of them is null. */
  function Cosine(root: real -> real, v1: Vec, v2: Vec): real
    requires |v1| == |v2| && IsSqrt(root)
  {
    LengthProductPositive(root, v1, v2);
    if SqNorm(v1) == 0.0 || SqNorm(v2) == 0.0 then 0.0
    else Dot(v1, v2) / LengthProduct(root, v1, v2)
  }

  method CosineSimilarityOf(root: real -> real, v1: Vec, v2: Vec) returns (r: real)
    requires |v1| == |v2| && IsSqrt(root)
    ensures r == Cosine(root, v1, v2)
  {
    var dotProduct, norm1, norm2 := 0.0, 0.0, 0.0;
    var i := 0;
    while i < |v1|
      invariant 0 <= i <= |v1|
      invariant dotProduct + Dot(v1[i..], v2[i..]) == Dot(v1, v2)
      invariant norm1 + SqNorm(v1[i..]) == SqNorm(v1) && norm2 + SqNorm(v2[i..]) == SqNorm(v2)
    {
      assert v1[i..][1..] == v1[i + 1..] && v2[i..][1..] == v2[i + 1..];
      dotProduct := dotProduct + v1[i] * v2[i];
      norm1 := norm1 + v1[i] * v1[i];
      norm2 := norm2 + v2[i] * v2[i];
      i := i + 1;
    }
    if norm1 == 0.0 || norm2 == 0.0 {
      return 0.0;
    }
    LengthProductPositive(root, v1, v2);
    r := dotProduct / (root(norm1) * root(norm2));
  }

  /** The cosine is between -1 and 1. */
  lemma CosineBounded(root: real -> real, v1: Vec, v2: Vec)
    requires |v1| == |v2| && IsSqrt(root)
    ensures -1.0 <= Cosine(root, v1, v2) <= 1.0
  {
    hide LengthProduct, SqNorm, Dot, Square;
    LengthProductPositive(root, v1, v2);
    if SqNorm(v1) != 0.0 && SqNorm(v2) != 0.0 {
      var n := LengthProduct(root, v1, v2);
      CauchySchwarz(v1, v2);
      SquareOfNegation(Dot(v1, v2));
      SquareOrder(Dot(v1, v2), n);
      SquareOrder(-Dot(v1, v2), n);
      QuotientBounded(Dot(v1, v2), n);
    }
  }

  /** Times the lengths it is the dot product, null vectors included. */
  lemma CosineIs(root: real -> real, v1: Vec, v2: Vec)
    requires |v1| == |v2| && IsSqrt(root)
    ensures Cosine(root, v1, v2) * (root(SqNorm(v1)) * root(SqNorm(v2))) == Dot(v1, v2)
    ensures SqNorm(v1) == 0.0 || SqNorm(v2) == 0.0 ==> Cosine(root, v1, v2) == 0.0
  {
    hide SqNorm, Dot;
    LengthProductPositive(root, v1, v2);
    CauchySchwarz(v1, v2);
    if SqNorm(v1) == 0.0 || SqNorm(v2) == 0.0 {
      SquareZero(Dot(v1, v2));
    }
  }

  lemma SquareZero(x: real)
    requires Square(x) <= 0.0
    ensures x == 0.0
  {
    SquareOfNegation(x);
    SquareOrder(x, 0.0);
    SquareOrder(-x, 0.0);
  }

  lemma SquareOfNegation(x: real)
    ensures Square(-x) == Square(x)
  {
  }

  lemma QuotientBounded(x: real, y: real)
    requires y > 0.0 && -y <= x <= y
    ensures -1.0 <= x / y <= 1.0
  {
  }

  function DistanceOf(metric: Metric, root: real -> real, base: Vec, query: Vec): real
    requires |base| == |query| && IsSqrt(root)
  {
    match metric
    case L2Distance => SqDist(base, query)
    case CosineSimilarity => Cosine(root, base, query)
  }

  method Apply(metric: Metric, root: real -> real, base: Vec, query: Vec) returns (d: real)
    requires |base| == |query| && IsSqrt(root)
    ensures d == DistanceOf(metric, root, base, query)
  {
    match metric {
      case L2Distance => d := EuclideanDistance(base, query);
      case CosineSimilarity => d := CosineSimilarityOf(root, base, query);
    }
  }

  // ---- the rows ----

  /** A column of vectors with optional null flags and row ids; null flags need row ids. */
  datatype Column = Column(rows: seq<Vec>, nullFlags: Option<seq<int>>, rowIds: Option<seq<int>>)
  {
    predicate Valid() {
      (nullFlags.Some? ==> |nullFlags.value| == |rows|) && (rowIds.Some? ==> |rowIds.value| == |rows|)
    }

    predicate IsNull(i: nat)
      requires Valid() && i < |rows|
    {
      nullFlags.Some? && nullFlags.value[i] != 0
    }

    function Id(i: nat): int
      requires Valid() && i < |rows|
    {
      if rowIds.Some? then rowIds.value[i] else i
    }

    /** Whether the first n rows have a dimension. */
    predicate FirstOf(n: nat, dim: nat)
      requires n <= |rows|
    {
      forall i :: 0 <= i < n ==> |rows[i]| == dim
    }
  }

  /** The non-null rows among the first n, with their distances from the query, in row order. */
  function Candidates(metric: Metric, root: real -> real, col: Column, query: Vec, n: nat): seq<Neighbor>
    requires col.Valid() && IsSqrt(root) && n <= |col.rows| && col.FirstOf(n, |query|)
  {
    if n == 0 then []
    else
      Candidates(metric, root, col, query, n - 1)
      + if col.IsNull(n - 1) then [] else [Neighbor(DistanceOf(metric, root, col.rows[n - 1], query), col.Id(n - 1))]
  }

  lemma CandidatesNone(metric: Metric, root: real -> real, col: Column, query: Vec)
    requires col.Valid() && IsSqrt(root)
    ensures Candidates(metric, root, col, query, 0) == []
  {
  }

  lemma CandidatesStep(metric: Metric, root: real -> real, col: Column, query: Vec, i: nat)
    requires col.Valid() && IsSqrt(root) && i < |col.rows| && col.FirstOf(i + 1, |query|)
    ensures col.IsNull(i) ==>
      Candidates(metric, root, col, query, i + 1) == Candidates(metric, root, col, query, i)
    ensures !col.IsNull(i) ==>
      Candidates(metric, root, col, query, i + 1)
      == Candidates(metric, root, col, query, i) + [Neighbor(DistanceOf(metric, root, col.rows[i], query), col.Id(i))]
  {
  }

  // ---- the same rows by their numbers ----

  function NonNullRows(col: Column, n: nat): seq<int>
    requires col.Valid() && n <= |col.rows|
  {
    if n == 0 then [] else NonNullRows(col, n - 1) + if col.IsNull(n - 1) then [] else [n - 1]
  }

  /** The entry of a row. */
  ghost function RowAt(metric: Metric, root: real -> real, col: Column, query: Vec): int -> Neighbor
    requires col.Valid() && IsSqrt(root)
  {
    (c: int) =>
      if 0 <= c < |col.rows| && |col.rows[c]| == |query| then Neighbor(DistanceOf(metric, root, col.rows[c], query), col.Id(c))
      else Neighbor(0.0, 0)
  }

  lemma RowAtIs(metric: Metric, root: real -> real, col: Column, query: Vec)
    requires col.Valid() && IsSqrt(root) && col.FirstOf(|col.rows|, |query|)
    ensures forall c :: 0 <= c < |col.rows| ==>
      var n := RowAt(metric, root, col, query)(c);
      n.id == (if col.rowIds.Some? then col.rowIds.value[c] else c)
      && n.d == if metric.L2Distance? then SqDist(col.rows[c], query) else Cosine(root, col.rows[c], query)
  {
  }

  lemma {:induction false} NonNullRowsAre(col: Column, n: nat)
    requires col.Valid() && n <= |col.rows|
    ensures forall c :: c in NonNullRows(col, n) <==> 0 <= c < n && (col.nullFlags.Some? ==> col.nullFlags.value[c] == 0)
    ensures forall i, j :: 0 <= i < j < |NonNullRows(col, n)| ==> NonNullRows(col, n)[i] < NonNullRows(col, n)[j]
  {
    if n > 0 {
      NonNullRowsAre(col, n - 1);
      var before := NonNullRows(col, n - 1);
      assert forall i :: 0 <= i < |before| ==> before[i] in before;
    }
  }

  lemma {:induction false} CandidatesAreRows(metric: Metric, root: real -> real, col: Column, query: Vec, n: nat)
    requires col.Valid() && IsSqrt(root) && n <= |col.rows| && col.FirstOf(n, |query|)
    ensures Candidates(metric, root, col, query, n) == Map(RowAt(metric, root, col, query), NonNullRows(col, n))
  {
    if n > 0 {
      hide DistanceOf;
      CandidatesAreRows(metric, root, col, query, n - 1);
      CandidatesStep(metric, root, col, query, n - 1);
    }
  }

  /** The first n rows and the query have the dimension asked for. */
  predicate SameDimension(col: Column, query: Vec, dim: nat, n: nat)
    requires n <= |col.rows|
  {
    forall i :: 0 <= i < n ==> |col.rows[i]| == dim == |query|
  }

  /** The k best non-null rows, best first; missing places are filled with id -1 and distance 0. */
  ghost predicate Answers(metric: Metric, root: real -> real, col: Column, query: Vec, k: nat, ids: seq<int>, distances: seq<real>)
    requires IsSqrt(root) && col.Valid() && col.FirstOf(|col.rows|, |query|)
  {
    |ids| == |distances| == k
    && var candidates := Candidates(metric, root, col, query, |col.rows|);
       var m := Min(k, |candidates|);
       IsSelection(Order(metric.L2Distance?), candidates, k, Pairs(ids[..m], distances[..m]))
       && forall j :: m <= j < k ==> ids[j] == -1 && distances[j] == 0.0
  }

  /** The answers row by row: distinct non-null rows with their ids and distances, nearest first for the squared
      distance and most similar first for the cosine; no non-null row left out is better than one returned, and none is
      left out while there is room. */
  lemma AnswersAre(metric: Metric, root: real -> real, col: Column, query: Vec, k: nat, ids: seq<int>, distances: seq<real>)
    returns (chosen: seq<int>)
    requires IsSqrt(root) && col.Valid() && col.FirstOf(|col.rows|, |query|)
    requires Answers(metric, root, col, query, k, ids, distances)
    ensures |ids| == |distances| == k && |chosen| <= k
    ensures forall i, j :: 0 <= i < j < |chosen| ==> chosen[i] != chosen[j]
    ensures forall j :: 0 <= j < |chosen| ==>
      var c := chosen[j];
      0 <= c < |col.rows| && (col.nullFlags.Some? ==> col.nullFlags.value[c] == 0)
      && ids[j] == (if col.rowIds.Some? then col.rowIds.value[c] else c)
      && distances[j] == (if metric.L2Distance? then SqDist(col.rows[c], query) else Cosine(root, col.rows[c], query))
    ensures forall i, j :: 0 <= i < j < |chosen| ==>
      if metric.L2Distance? then distances[i] <= distances[j] else distances[i] >= distances[j]
    ensures forall c, j ::
      0 <= c < |col.rows| && (col.nullFlags.Some? ==> col.nullFlags.value[c] == 0) && c !in chosen && 0 <= j < |chosen| ==>
        if metric.L2Distance? then distances[j] <= SqDist(col.rows[c], query)
        else distances[j] >= Cosine(root, col.rows[c], query)
    ensures |chosen| < k ==>
      forall c :: 0 <= c < |col.rows| && (col.nullFlags.Some? ==> col.nullFlags.value[c] == 0) ==> c in chosen
    ensures forall j :: |chosen| <= j < k ==> ids[j] == -1 && distances[j] == 0.0
  {
    var n := |col.rows|;
    var rows, f := NonNullRows(col, n), RowAt(metric, root, col, query);
    NonNullRowsAre(col, n);
    CandidatesAreRows(metric, root, col, query, n);
    var m := Min(k, |rows|);
    RowAtIs(metric, root, col, query);
    hide Cosine, SqDist, RowAt, Candidates, NonNullRows, IsSelection, Order, Map;
    chosen := BestOf(metric.L2Distance?, f, rows, k, Pairs(ids[..m], distances[..m]));
  }

  /** Query i has its answers at place i * k. */
  ghost predicate AnsweredAt(metric: Metric, root: real -> real, col: Column, query: Vec, k: nat, i: nat,
                             ids: seq<int>, distances: seq<real>)
    requires IsSqrt(root) && col.Valid()
  {
    col.FirstOf(|col.rows|, |query|) && Place(i, k) + k <= |ids| == |distances|
    && Answers(metric, root, col, query, k, ids[Place(i, k)..Place(i, k) + k], distances[Place(i, k)..Place(i, k) + k])
  }

  lemma StillAnswered(metric: Metric, root: real -> real, col: Column, query: Vec, k: nat, i: nat,
                      ids: seq<int>, distances: seq<real>, ids': seq<int>, distances': seq<real>)
    requires IsSqrt(root) && col.Valid() && |ids'| == |distances'|
    requires AnsweredAt(metric, root, col, query, k, i, ids, distances)
    ensures AnsweredAt(metric, root, col, query, k, i, ids + ids', distances + distances')
  {
    hide Answers, Place;
    var at := Place(i, k);
    assert (ids + ids')[at..at + k] == ids[at..at + k] && (distances + distances')[at..at + k] == distances[at..at + k];
  }

  /** All queries, one after the other, k places for each. */
  method SearchAll(metric: Metric, root: real -> real, col: Column, queries: seq<Vec>, dim: nat, k: nat)
    returns (ok: bool, ids: seq<int>, distances: seq<real>)
    requires IsSqrt(root) && col.Valid()
    ensures ok <==> !(col.nullFlags.Some? && col.rowIds.None?)
                    && (|queries| == 0 || |col.rows| == 0
                        || ((forall r :: 0 <= r < |col.rows| ==> |col.rows[r]| == dim)
                            && forall i :: 0 <= i < |queries| ==> |queries[i]| == dim))
    ensures ok ==> |ids| == |distances| == Place(|queries|, k)
    ensures ok ==> forall i :: 0 <= i < |queries| ==> AnsweredAt(metric, root, col, queries[i], k, i, ids, distances)
  {
    hide AnsweredAt, Place;
    ids, distances := [], [];
    Places(0, k);
    if col.nullFlags.Some? && col.rowIds.None? {
      return false, ids, distances;
    }
    var i := 0;
    while i < |queries|
      invariant 0 <= i <= |queries| && |ids| == |distances| == Place(i, k)
      invariant i > 0 ==> forall r :: 0 <= r < |col.rows| ==> |col.rows[r]| == dim
      invariant |col.rows| > 0 ==> forall j :: 0 <= j < i ==> |queries[j]| == dim
      invariant forall j :: 0 <= j < i ==> AnsweredAt(metric, root, col, queries[j], k, j, ids, distances)
    {
      var found, ids', distances' := Search(metric, root, col, queries[i], dim, k);
      if !found {
        return false, ids, distances;
      }
      AnswersAppended(metric, root, col, queries, k, i, ids, distances, ids', distances');
      ids, distances := ids + ids', distances + distances';
      Places(i, k);
      i := i + 1;
    }
    ok := true;
  }

  lemma AnswersAppended(metric: Metric, root: real -> real, col: Column, queries: seq<Vec>, k: nat, i: nat,
                        ids: seq<int>, distances: seq<real>, ids': seq<int>, distances': seq<real>)
    requires IsSqrt(root) && col.Valid() && i < |queries| && |ids| == |distances| == Place(i, k)
    requires forall j :: 0 <= j < i ==> AnsweredAt(metric, root, col, queries[j], k, j, ids, distances)
    requires col.FirstOf(|col.rows|, |queries[i]|) && Answers(metric, root, col, queries[i], k, ids', distances')
    ensures forall j :: 0 <= j <= i ==> AnsweredAt(metric, root, col, queries[j], k, j, ids + ids', distances + distances')
  {
    hide Place, Candidates, Order, Column.FirstOf;
    var at := Place(i, k);
    assert (ids + ids')[at..at + k] == ids' && (distances + distances')[at..at + k] == distances';
    hide Answers, AnsweredAt;
    forall j | 0 <= j < i
      ensures AnsweredAt(metric, root, col, queries[j], k, j, ids + ids', distances + distances')
    {
      StillAnswered(metric, root, col, queries[j], k, j, ids, distances, ids', distances');
    }
  }

  /** Where the answers to query i start. */
  function Place(i: nat, k: nat): nat {
    i * k
  }

  lemma Places(i: nat, k: nat)
    ensures Place(0, k) == 0 && Place(i + 1, k) == Place(i, k) + k
  {
  }

  /** The k best non-null rows, best first; missing places are filled with id -1 and distance 0. */
  method Search(metric: Metric, root: real -> real, col: Column, query: Vec, dim: nat, k: nat)
    returns (ok: bool, ids: seq<int>, distances: seq<real>)
    requires IsSqrt(root) && col.Valid()
    ensures ok <==> !(col.nullFlags.Some? && col.rowIds.None?)
                    && forall i :: 0 <= i < |col.rows| ==> |col.rows[i]| == dim == |query|
    ensures ok ==> col.FirstOf(|col.rows|, |query|) && Answers(metric, root, col, query, k, ids, distances)
  {
    ids, distances := [], [];
    if col.nullFlags.Some? && col.rowIds.None? {
      return false, ids, distances;
    }
    var out;
    ok, out := KeepBest(metric, root, col, query, dim, k);
    if ok {
      var m := |out|;
      ids := seq(k, j requires 0 <= j < k => if j < m then out[j].id else -1);
      distances := seq(k, j requires 0 <= j < k => if j < m then out[j].d else 0.0);
      assert Pairs(ids[..m], distances[..m]) == out;
    }
  }

  /** One pass over the rows with a queue of at most k. */
  method KeepBest(metric: Metric, root: real -> real, col: Column, query: Vec, dim: nat, k: nat)
    returns (ok: bool, out: seq<Neighbor>)
    requires IsSqrt(root) && col.Valid()
    ensures ok <==> SameDimension(col, query, dim, |col.rows|)
    ensures ok ==> col.FirstOf(|col.rows|, |query|)
    ensures ok ==>
      IsSelection(Order(metric.L2Distance?), Candidates(metric, root, col, query, |col.rows|), k, out)
    ensures ok ==> |out| == Min(k, |Candidates(metric, root, col, query, |col.rows|)|)
  {
    hide StrictWeak, Kept, Sorted, PriorityQueue.Valid, Key, LessBy, DistanceOf;
    var less := Order(metric.L2Distance?);
    LessByIsOrder(Key(metric.L2Distance?));
    var results := new PriorityQueue(less);
    ghost var dropped: multiset<Neighbor> := multiset{};
    NothingKept(less, [], k);
    var i := 0;
    while i < |col.rows|
      invariant 0 <= i <= |col.rows| && results.Valid() && results.less == less && fresh(results)
      invariant SameDimension(col, query, dim, i)
      invariant Kept(less, Candidates(metric, root, col, query, i), k, multiset(results.items), dropped)
    {
      if |col.rows[i]| != dim || |query| != dim {
        return false, [];
      }
      if !col.IsNull(i) {
        var distance := Apply(metric, root, col.rows[i], query);
        assert Candidates(metric, root, col, query, i + 1)
            == Candidates(metric, root, col, query, i) + [Neighbor(distance, col.Id(i))];
        dropped := PushBounded(results, Neighbor(distance, col.Id(i)), k, Candidates(metric, root, col, query, i), dropped);
      }
      CandidatesStep(metric, root, col, query, i);
      i := i + 1;
    }
    ok := true;
    out := Drain(results);
    DrainedSelects(less, Candidates(metric, root, col, query, i), k, out, dropped);
  }

  // ---- range search ----

  /** Whether a distance is within the range: at most it for distances, at least it for similarities. */
  predicate IsQualified(ascending: bool, threshold: real, d: real) {
    if ascending then d <= threshold else d >= threshold
  }

  /** What one pass over the first n rows appends to the result vectors: the id and the distance of every non-null row
      within range, in row order. */
  ghost predicate Collected(metric: Metric, root: real -> real, col: Column, query: Vec, range: real, n: nat,
                            ids: seq<int>, distances: seq<real>, hits: seq<int>, ids': seq<int>, distances': seq<real>)
    requires IsSqrt(root) && col.Valid() && n <= |col.rows| && col.FirstOf(n, |query|)
  {
    (forall i, j :: 0 <= i < j < |hits| ==> hits[i] < hits[j])
    && (forall c :: c in hits <==>
         0 <= c < n && (col.nullFlags.Some? ==> col.nullFlags.value[c] == 0)
         && if metric.L2Distance? then SqDist(col.rows[c], query) <= range else Cosine(root, col.rows[c], query) >= range)
    && |ids'| == |ids| + |hits| && |distances'| == |distances| + |hits|
    && ids'[..|ids|] == ids && distances'[..|distances|] == distances
    && forall i :: 0 <= i < |hits| ==>
         var c := hits[i];
         c in hits && ids'[|ids| + i] == (if col.rowIds.Some? then col.rowIds.value[c] else c)
         && distances'[|distances| + i]
            == if metric.L2Distance? then SqDist(col.rows[c], query) else Cosine(root, col.rows[c], query)
  }

  /** The non-null rows within range, best first, cut to the limit when it is positive. Rows are added to
      what the result vectors already hold before the cut: the results are the entries of the given places there. */
  method RangeSearch(metric: Metric, root: real -> real, col: Column, query: Vec, range: real, limit: int,
                     ascending: bool, ids: seq<int>, distances: seq<real>)
    returns (ok: bool, ids': seq<int>, distances': seq<real>,
             ghost hits: seq<int>, ghost allIds: seq<int>, ghost all: seq<real>, ghost places: seq<int>)
    requires IsSqrt(root) && col.Valid() && |ids| + |col.rows| < TWO_63 && limit < TWO_63
    ensures ok <==>
      (if metric.L2Distance? then ascending else !ascending) && !(col.nullFlags.Some? && col.rowIds.None?)
      && (forall i :: 0 <= i < |col.rows| ==> |col.rows[i]| == |query|) && |ids| == |distances|
    ensures ok ==>
      col.FirstOf(|col.rows|, |query|)
      && Collected(metric, root, col, query, range, |col.rows|, ids, distances, hits, allIds, all)
    ensures ok ==> |ids'| == |distances'| == |places| == if 0 < limit < |all| then limit else |all|
    ensures ok ==> forall i, j :: 0 <= i < j < |places| ==> places[i] != places[j]
    ensures ok ==> forall j :: 0 <= j < |places| ==>
      0 <= places[j] < |all| == |allIds| && distances'[j] == all[places[j]]
      && -TWO_31 <= ids'[j] < TWO_31 && (ids'[j] - allIds[places[j]]) % TWO_32 == 0
    ensures ok ==> forall i, j :: 0 <= i < j < |ids'| ==>
      if metric.L2Distance? then distances'[i] <= distances'[j] else distances'[i] >= distances'[j]
    ensures ok ==> forall p, j :: 0 <= p < |all| && p !in places && 0 <= j < |ids'| ==>
      if metric.L2Distance? then distances'[j] <= all[p] else distances'[j] >= all[p]
    ensures ok ==>
      |allIds| == |all|
      && IsSelection(Order(ascending), Stored(allIds, all), if limit > 0 then limit else |all|, Pairs(ids', distances'))
  {
    hide Collected, Order, Stored, Pairs;
    ids', distances', hits, allIds, all, places := ids, distances, [], ids, distances, [];
    if (col.nullFlags.Some? && col.rowIds.None?) || ascending != metric.L2Distance? {
      ok := false;
      return;
    }
    ok, ids', distances', hits := Collect(metric, root, col, query, range, ascending, ids, distances);
    if ok {
      allIds, all := ids', distances';
      ok, ids', distances', places := ReserveTopK(ids', distances', if limit > 0 then limit else |ids'|, ascending);
    }
  }

  /** One pass over the rows. */
  method Collect(metric: Metric, root: real -> real, col: Column, query: Vec, range: real, ascending: bool,
                 ids: seq<int>, distances: seq<real>)
    returns (ok: bool, ids': seq<int>, distances': seq<real>, ghost hits: seq<int>)
    requires IsSqrt(root) && col.Valid() && ascending == metric.L2Distance?
    ensures ok <==> forall i :: 0 <= i < |col.rows| ==> |col.rows[i]| == |query|
    ensures ok ==> |hits| <= |col.rows| && col.FirstOf(|col.rows|, |query|)
    ensures ok ==> Collected(metric, root, col, query, range, |col.rows|, ids, distances, hits, ids', distances')
    ensures ok ==> |ids'| == |ids| + |hits| && |distances'| == |distances| + |hits|
  {
    hide SqDist, Cosine;
    ids', distances', hits := ids, distances, [];
    var i := 0;
    while i < |col.rows|
      invariant 0 <= i <= |col.rows| && |hits| <= i && col.FirstOf(i, |query|)
      invariant Collected(metric, root, col, query, range, i, ids, distances, hits, ids', distances')
    {
      if |col.rows[i]| != |query| {
        ok := false;
        return;
      }
      if !col.IsNull(i) {
        var distance := Apply(metric, root, col.rows[i], query);
        if IsQualified(ascending, range, distance) {
          distances' := distances' + [distance];
          ids' := ids' + [col.Id(i)];
          hits := hits + [i];
        }
      }
      i := i + 1;
    }
    ok := true;
  }
}
