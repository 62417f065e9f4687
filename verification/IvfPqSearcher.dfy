/** Turning the hits of an IVF-PQ range search into a result list: a heap of indices cut to the limit. */
module IvfPqSearcher {
  import opened DistanceUtil
  import opened Sequences
  import opened TopK
  import opened Wrappers

  datatype MetricType = L2Distance | CosineSimilarity | InnerProduct | CosineDistance

  /** The squared distance to search within, when the metric and the result order go together. */
  function RadiusFor(metric: MetricType, ascending: bool, range: real): Option<real> {
    match metric
    case L2Distance => if ascending then Some(range) else None
    case CosineSimilarity => if ascending then None else CosineSimilarityThresholdToL2Distance(range)
    case InnerProduct => None
    case CosineDistance => None
  }

  /** Nearer first, smaller id first among equals. */
  function Nearer(): (Neighbor, Neighbor) -> bool {
    (a: Neighbor, b: Neighbor) => a.d < b.d || (a.d == b.d && a.id < b.id)
  }

  lemma NearerIsTotal()
    ensures Total(Nearer())
  {
  }

  /** The hit at an index. */
  function HitAt(labels: seq<int>, dists: seq<real>): int -> Neighbor {
    (i: int) => if 0 <= i < |labels| && i < |dists| then Neighbor(dists[i], labels[i]) else Neighbor(0.0, 0)
  }

  function DistanceLess(labels: seq<int>, dists: seq<real>): (int, int) -> bool {
    (l: int, r: int) => Nearer()(HitAt(labels, dists)(l), HitAt(labels, dists)(r))
  }

  lemma DistanceLessCompares(labels: seq<int>, dists: seq<real>)
    ensures Compares(DistanceLess(labels, dists), HitAt(labels, dists), Nearer())
    ensures StrictWeak(DistanceLess(labels, dists))
  {
    NearerIsTotal();
    ComparesIsOrder(DistanceLess(labels, dists), HitAt(labels, dists), Nearer());
  }

  lemma HitsInOrder(labels: seq<int>, dists: seq<real>)
    requires |labels| == |dists|
    ensures Map(HitAt(labels, dists), Indices(|labels|)) == Pairs(labels, dists)
  {
  }

  /** How many results a limit preserves: all of them when it is negative. */
  function Preserved(limit: int, n: nat): nat {
    if limit < 0 || n < limit then n else limit
  }

  /** The places of hits that are nearest, nearest first and by id among equals: as many as the limit says, or all of
      them when it is negative. */
  ghost predicate Nearest(labels: seq<int>, dists: seq<real>, limit: int, places: seq<int>)
    requires |labels| == |dists|
  {
    |places| == (if limit < 0 || |labels| < limit then |labels| else limit)
    && (forall j :: 0 <= j < |places| ==> 0 <= places[j] < |labels|)
    && (forall i, j :: 0 <= i < j < |places| ==>
         places[i] != places[j]
         && (dists[places[i]] < dists[places[j]]
             || (dists[places[i]] == dists[places[j]] && labels[places[i]] <= labels[places[j]])))
    && forall p, j :: 0 <= p < |labels| && p !in places && 0 <= j < |places| ==>
         dists[places[j]] < dists[p] || (dists[places[j]] == dists[p] && labels[places[j]] <= labels[p])
  }

  /** The nearest hits, nearest first and by id among equals: the sorted list of all hits, cut to the limit. */
  method SelectNearest(labels: seq<int>, dists: seq<real>, limit: int)
    returns (ids: seq<int>, distances: seq<real>, ghost places: seq<int>)
    requires |labels| == |dists|
    ensures Nearest(labels, dists, limit, places) && |ids| == |distances| == |places|
    ensures forall j :: 0 <= j < |places| ==> ids[j] == labels[places[j]] && distances[j] == dists[places[j]]
    ensures |ids| == Preserved(limit, |labels|)
    ensures Pairs(ids, distances) == Sort(Nearer(), Pairs(labels, dists))[..Preserved(limit, |labels|)]
  {
    var m := Preserved(limit, |labels|);
    var indices := BestIndices(labels, dists, m);
    ids, distances := FetchHits(labels, dists, m, indices);
    HitsInOrder(labels, dists);
    NearerIsTotal();
    DistanceLessCompares(labels, dists);
    SelectedAreNearest(labels, dists, limit, indices);
    IndicesValid(labels, dists, m, indices);
    hide Total, Compares, Sort, Nearest, Nearer, DistanceLess, IsSelection;
    SelectionImages(DistanceLess(labels, dists), HitAt(labels, dists), Nearer(), Indices(|labels|), m, indices);
    places := indices;
    assert forall j :: 0 <= j < |places| ==> places[j] in places && Pairs(ids, distances)[j] == HitAt(labels, dists)(places[j]);
  }

  lemma SelectedAreNearest(labels: seq<int>, dists: seq<real>, limit: int, places: seq<int>)
    requires |labels| == |dists|
    requires IsSelection(DistanceLess(labels, dists), Indices(|labels|), Preserved(limit, |labels|), places)
    ensures Nearest(labels, dists, limit, places)
  {
    var less, all := DistanceLess(labels, dists), Indices(|labels|);
    IndicesValid(labels, dists, Preserved(limit, |labels|), places);
    var dropped :| Selects(less, all, Preserved(limit, |labels|), places, dropped);
    AscendingOnce(all);
    PartDistinct(multiset(all), places, dropped);
    hide DistanceLess, Selects, Sorted, Dominates, IsSelection, Nearer;
    assert forall j :: 0 <= j < |places| ==> places[j] in places;
    forall p, j | 0 <= p < |labels| && p !in places && 0 <= j < |places|
      ensures dists[places[j]] < dists[p] || (dists[places[j]] == dists[p] && labels[places[j]] <= labels[p])
    {
      LeftOut(labels, dists, Preserved(limit, |labels|), places, dropped, p, j);
      NotLess(labels, dists, p, places[j]);
    }
    forall i, j | 0 <= i < j < |places|
      ensures dists[places[i]] < dists[places[j]]
           || (dists[places[i]] == dists[places[j]] && labels[places[i]] <= labels[places[j]])
    {
      InOrder(less, all, Preserved(limit, |labels|), places, dropped, i, j);
      NotLess(labels, dists, places[j], places[i]);
    }
  }

  lemma NotLess(labels: seq<int>, dists: seq<real>, p: int, q: int)
    requires |labels| == |dists| && 0 <= p < |labels| && 0 <= q < |labels| && !DistanceLess(labels, dists)(p, q)
    ensures dists[q] < dists[p] || (dists[q] == dists[p] && labels[q] <= labels[p])
  {
    var a, b := HitAt(labels, dists)(p), HitAt(labels, dists)(q);
    assert !Nearer()(a, b) && a == Neighbor(dists[p], labels[p]) && b == Neighbor(dists[q], labels[q]);
  }

  lemma LeftOut(labels: seq<int>, dists: seq<real>, m: nat, places: seq<int>, dropped: multiset<int>, p: int, j: nat)
    requires |labels| == |dists| && Selects(DistanceLess(labels, dists), Indices(|labels|), m, places, dropped)
    requires 0 <= p < |labels| && p !in places && j < |places|
    ensures !DistanceLess(labels, dists)(p, places[j])
  {
    assert Indices(|labels|)[p] == p && p in multiset(Indices(|labels|)) && p !in multiset(places);
    assert places[j] in multiset(places);
  }

  lemma InOrder(less: (int, int) -> bool, all: seq<int>, m: nat, places: seq<int>, dropped: multiset<int>, i: nat, j: nat)
    requires Selects(less, all, m, places, dropped) && i < j < |places|
    ensures !less(places[j], places[i])
  {
  }

  /** A range search: fails exactly when metric, order and range do not go together or the index's own search
      fails; otherwise the nearest hits within the radius, with similarities in place of distances when those were
      asked for. */
  method RangeSearch(metric: MetricType, ascending: bool, range: real, limit: int,
                     indexSearch: real -> Option<(seq<int>, seq<real>)>)
    returns (ok: bool, ids: seq<int>, distances: seq<real>, ghost places: seq<int>)
    requires forall radius :: indexSearch(radius).Some? ==> |indexSearch(radius).value.0| == |indexSearch(radius).value.1|
    ensures ok <==>
      ((metric.L2Distance? && ascending) || (metric.CosineSimilarity? && !ascending && -1.0 <= range <= 1.0))
      && indexSearch(if metric.L2Distance? then range else 2.0 - 2.0 * range).Some?
    ensures ok ==>
      var (labels, dists) := indexSearch(if metric.L2Distance? then range else 2.0 - 2.0 * range).value;
      Nearest(labels, dists, limit, places) && |ids| == |distances| == |places|
      && forall j :: 0 <= j < |places| ==>
        ids[j] == labels[places[j]]
        && distances[j] == if metric.L2Distance? then dists[places[j]] else 1.0 - dists[places[j]] / 2.0
    ensures ok ==>
      var (labels, dists) := indexSearch(if metric.L2Distance? then range else 2.0 - 2.0 * range).value;
      Pairs(ids, distances) == Map(Shown(metric), Sort(Nearer(), Pairs(labels, dists))[..Preserved(limit, |labels|)])
  {
    ids, distances, places := [], [], [];
    var radius := RadiusFor(metric, ascending, range);
    ok := radius.Some? && indexSearch(radius.value).Some?;
    if !ok {
      return;
    }
    var (labels, dists) := indexSearch(radius.value).value;
    ids, distances, places := SelectNearest(labels, dists, limit);
    ghost var best := Pairs(ids, distances);
    hide Nearest, Sort;
    if metric.CosineSimilarity? {
      var buffer := new real[|distances|](i requires 0 <= i < |distances| => distances[i]);
      L2DistanceToCosineSimilarity(buffer, buffer, buffer.Length);
      distances := buffer[..];
    }
    assert Pairs(ids, distances) == Map(Shown(metric), best);
  }

  /** What the caller sees of a hit. */
  function Shown(metric: MetricType): Neighbor -> Neighbor {
    (n: Neighbor) => if metric.CosineSimilarity? then Neighbor(SimilarityOf(n.d), n.id) else n
  }

  /** Results come best first in the caller's own terms, every one within the caller's own range, when the index
      search returns only hits within its radius. */
  lemma ShownInOrder(metric: MetricType, ascending: bool, range: real, hits: seq<Neighbor>, m: nat)
    requires RadiusFor(metric, ascending, range).Some? && m <= |hits|
    requires forall n :: n in hits ==> n.d <= RadiusFor(metric, ascending, range).value
    ensures var shown := Map(Shown(metric), Sort(Nearer(), hits)[..m]);
      && (forall i :: 0 <= i < m ==> if ascending then shown[i].d <= range else shown[i].d >= range)
      && (forall i, j :: 0 <= i < j < m ==> if ascending then shown[i].d <= shown[j].d else shown[i].d >= shown[j].d)
  {
    hide Sort;
    SortedHits(hits);
  }

  lemma SortedHits(hits: seq<Neighbor>)
    ensures var sorted := Sort(Nearer(), hits);
      && (forall i :: 0 <= i < |sorted| ==> sorted[i] in hits)
      && (forall i, j :: 0 <= i < j < |sorted| ==> sorted[i].d <= sorted[j].d)
  {
    NearerIsTotal();
    SortSorts(Nearer(), hits);
    hide Sort, StrictWeak;
    var sorted := Sort(Nearer(), hits);
    forall i | 0 <= i < |sorted|
      ensures sorted[i] in hits
    {
      assert sorted[i] in multiset(sorted);
    }
  }

  method FetchHits(labels: seq<int>, dists: seq<real>, m: nat, indices: seq<int>)
    returns (ids: seq<int>, distances: seq<real>)
    requires |labels| == |dists| && m <= |labels|
    requires IsSelection(DistanceLess(labels, dists), Indices(|labels|), m, indices)
    ensures |ids| == |distances| == m && Pairs(ids, distances) == Map(HitAt(labels, dists), indices)
  {
    IndicesValid(labels, dists, m, indices);
    ids := seq(|indices|, i requires 0 <= i < |indices| => assert indices[i] in indices; labels[indices[i]]);
    distances := seq(|indices|, i requires 0 <= i < |indices| => assert indices[i] in indices; dists[indices[i]]);
    forall i | 0 <= i < |indices|
      ensures Pairs(ids, distances)[i] == HitAt(labels, dists)(indices[i])
    {
      assert indices[i] in indices;
    }
  }

  /** The heap of indices: each pushed in turn, and one popped whenever there is one too many. */
  method BestIndices(labels: seq<int>, dists: seq<real>, m: nat) returns (indices: seq<int>)
    requires |labels| == |dists| && m <= |labels|
    ensures IsSelection(DistanceLess(labels, dists), Indices(|labels|), m, indices)
  {
    DistanceLessCompares(labels, dists);
    var less := DistanceLess(labels, dists);
    hide StrictWeak, Kept, Sorted, PriorityQueue.Valid, DistanceLess;
    var heap := new PriorityQueue<int>(less);
    ghost var dropped: multiset<int> := multiset{};
    NothingKept(less, Indices(0), m);
    assert Indices(0)[..0] == Indices(0);
    var i := 0;
    while i < |labels|
      invariant 0 <= i <= |labels| && heap.Valid() && heap.less == less && fresh(heap)
      invariant Kept(less, Indices(i), m, multiset(heap.items), dropped)
    {
      assert Indices(i) + [i] == Indices(i + 1);
      dropped := PushBounded(heap, i, m, Indices(i), dropped);
      i := i + 1;
    }
    indices := Drain(heap);
    DrainedSelects(less, Indices(|labels|), m, indices, dropped);
  }

  lemma IndicesValid(labels: seq<int>, dists: seq<real>, m: nat, indices: seq<int>)
    requires |labels| == |dists| && IsSelection(DistanceLess(labels, dists), Indices(|labels|), m, indices)
    ensures |indices| == Min(m, |labels|) && forall i :: i in indices ==> 0 <= i < |labels|
  {
    var dropped :| Selects(DistanceLess(labels, dists), Indices(|labels|), m, indices, dropped);
    forall i | i in indices
      ensures 0 <= i < |labels|
    {
      assert i in multiset(indices) + dropped;
      assert i in multiset(Indices(|labels|));
    }
  }

  /** The order in which the lists were scanned does not matter. */
  lemma ScanOrderFree(labels: seq<int>, dists: seq<real>, labels': seq<int>, dists': seq<real>)
    requires |labels| == |dists| && |labels'| == |dists'|
    requires multiset(Pairs(labels, dists)) == multiset(Pairs(labels', dists'))
    ensures Sort(Nearer(), Pairs(labels, dists)) == Sort(Nearer(), Pairs(labels', dists'))
  {
    NearerIsTotal();
    SortPermutation(Nearer(), Pairs(labels, dists), Pairs(labels', dists'));
  }
}
