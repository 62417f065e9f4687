/** Range search on an HNSW index, with and without a limit on the number of results. */
module HnswIndexes {
  import opened HnswGraph
  import opened HnswSearch
  import opened TopK

  datatype HnswIndex = HnswIndex(g: Graph, entryPoint: int, maxLevel: int)
  {
    ghost predicate Valid() {
      g.Valid() && -1 <= entryPoint < g.n
    }
  }

  /** How many of the distances, from the first on, are within the radius before one is not. */
  function PrefixWithin(distances: seq<real>, radius: real): nat {
    if distances == [] || distances[0] > radius then 0 else 1 + PrefixWithin(distances[1..], radius)
  }

  lemma {:induction false} PrefixWithinIs(distances: seq<real>, radius: real, n: nat)
    requires n <= |distances| && forall i :: 0 <= i < n ==> distances[i] <= radius
    requires n < |distances| ==> distances[n] > radius
    ensures PrefixWithin(distances, radius) == n
  {
    if n > 0 {
      PrefixWithinIs(distances[1..], radius, n - 1);
    }
  }

  /** Among ascending distances the prefix is exactly those within the radius. */
  lemma {:induction false} PrefixIsAll(distances: seq<real>, radius: real, i: nat)
    requires i < |distances| && forall j, k :: 0 <= j < k < |distances| ==> distances[j] <= distances[k]
    ensures distances[i] <= radius <==> i < PrefixWithin(distances, radius)
  {
    if i > 0 {
      PrefixIsAll(distances[1..], radius, i - 1);
    }
  }

  /** What a search without limit returns: the matching vertices among those visited, each once, in strictly
      ascending order of distance and then id. */
  ghost predicate IsResult(q: Query, visited: set<nat>, out: seq<Node>) {
    multiset(out) == multiset(q.Matching(visited))
    && forall i, j :: 0 <= i < j < |out| ==> NodeLess()(out[i], out[j])
  }

  lemma DrainedIsResult(q: Query, visited: set<nat>, out: seq<Node>)
    requires multiset(out) == multiset(q.Matching(visited)) && Sorted(NodeLess(), out)
    ensures IsResult(q, visited, out)
  {
    NodeLessIsTotal();
    forall i, j | 0 <= i < j < |out|
      ensures NodeLess()(out[i], out[j])
    {
      assert multiset(q.Matching(visited))[out[i]] <= 1 && !NodeLess()(out[j], out[i]);
      Repeated(out, i, j);
    }
  }

  lemma Repeated<T>(s: seq<T>, i: nat, j: nat)
    requires i < j < |s|
    ensures s[i] == s[j] ==> multiset(s)[s[i]] >= 2
  {
    var rest := s[i + 1..];
    assert s == s[..i] + [s[i]] + rest;
    assert rest[j - i - 1] == s[j] && s[j] in multiset(rest);
  }

  function Ids(out: seq<Node>): seq<int> {
    seq(|out|, i requires 0 <= i < |out| => out[i].id)
  }

  function Distances(out: seq<Node>): seq<real> {
    seq(|out|, i requires 0 <= i < |out| => out[i].d)
  }

  function Max(a: int, b: int): int {
    if a < b then b else a
  }

  /** One query. topEf is what the index's own search returns for a number of results. Without an entry point
      the result vectors are left as they are. With a limit, the best ef results are cut where the radius ends
      and to the limit. Without one, a greedy descent through the upper levels finds where to start, and a best-first
      search from there visits what it visits; the results are the selected vertices among those within the radius,
      each once, by ascending distance and then id. */
  method IndexHnswRangeSearch(index: HnswIndex, q: Query, limit: int, efSearch: int,
                              topEf: nat -> (seq<int>, seq<real>), ids: seq<int>, distances: seq<real>)
    returns (ids': seq<int>, distances': seq<real>, ghost stops: seq<nat>, ghost pops: seq<nat>, ghost visited: set<nat>)
    requires index.Valid() && (limit > 0 || efSearch > 0)
    requires forall ef: nat :: |topEf(ef).0| == |topEf(ef).1| == ef
    ensures index.entryPoint == -1 ==> ids' == ids && distances' == distances
    ensures index.entryPoint != -1 && limit > 0 ==>
      var (i, d) := topEf(if efSearch < limit then limit else efSearch);
      var m := |ids'|;
      m <= limit && m <= |i| && ids' == i[..m] && distances' == d[..m]
      && (forall j :: 0 <= j < m ==> d[j] <= q.radius)
      && (m < limit && m < |i| ==> d[m] > q.radius)
    ensures index.entryPoint != -1 && limit <= 0 ==>
      Descent(index, q.qdis, stops)
      && var start := {stops[|stops| - 1]};
         BestFirst(index.g, q, 0, start, efSearch, pops) && visited == Around(index.g, 0, start, Elems(pops))
         && start <= visited <= ReachSet(index.g, 0, start)
         && (if |pops| <= efSearch then |visited| > efSearch || visited == Elems(pops) else |pops| == efSearch + 1)
         && (|ReachSet(index.g, 0, start)| <= efSearch ==> visited == ReachSet(index.g, 0, start))
    ensures index.entryPoint != -1 && limit <= 0 ==>
      |ids'| == |distances'|
      && (forall v: nat :: v in ids' <==> v in visited && q.qdis(v) <= q.radius && (q.sel.Some? ==> q.sel.value(v)))
      && (forall i :: 0 <= i < |ids'| ==> ids'[i] >= 0 && distances'[i] == q.qdis(ids'[i]))
      && (forall i, j :: 0 <= i < j < |ids'| ==>
            distances'[i] < distances'[j] || (distances'[i] == distances'[j] && ids'[i] < ids'[j]))
  {
    ids', distances', stops, pops, visited := ids, distances, [], [], {};
    if index.entryPoint == -1 {
      return;
    }
    var ef := Max(efSearch, limit);
    if limit > 0 {
      ids', distances' := CutTopEf(topEf(ef).0, topEf(ef).1, q.radius, limit);
      CutIs(topEf(ef).1, q.radius, limit);
      return;
    }
    hide Descent, BestFirst, IsResult;
    var nearest, found;
    nearest, stops := Descend(index, q);
    found, pops, visited := SearchFrom(index.g, q, nearest, efSearch, ef);
    ResultsAre(q, visited, found);
    ids', distances' := Ids(found), Distances(found);
  }

  /** The cut is the longest prefix within the radius that the limit allows. */
  lemma CutIs(distances: seq<real>, radius: real, limit: nat)
    ensures var m := Min(PrefixWithin(distances, radius), limit);
      && m <= limit && m <= |distances| && (forall j :: 0 <= j < m ==> distances[j] <= radius)
      && (m < limit && m < |distances| ==> distances[m] > radius)
  {
    PrefixEnds(distances, radius);
  }

  lemma {:induction false} PrefixEnds(distances: seq<real>, radius: real)
    ensures var n := PrefixWithin(distances, radius);
      && n <= |distances| && (forall j :: 0 <= j < n ==> distances[j] <= radius)
      && (n < |distances| ==> distances[n] > radius)
  {
    if distances != [] && distances[0] <= radius {
      PrefixEnds(distances[1..], radius);
      var n := PrefixWithin(distances[1..], radius);
      assert forall j :: 0 < j < n + 1 ==> distances[j] == distances[1..][j - 1];
      assert n < |distances[1..]| ==> distances[n + 1] == distances[1..][n];
    }
  }

  /** The results, vertex by vertex and in their order. */
  lemma ResultsAre(q: Query, visited: set<nat>, out: seq<Node>)
    requires IsResult(q, visited, out)
    ensures forall v: nat ::
      v in Ids(out) <==> v in visited && q.qdis(v) <= q.radius && (q.sel.Some? ==> q.sel.value(v))
    ensures forall i :: 0 <= i < |out| ==> out[i].d == q.qdis(out[i].id)
    ensures forall i, j :: 0 <= i < j < |out| ==> out[i].d < out[j].d || (out[i].d == out[j].d && out[i].id < out[j].id)
  {
    forall i | 0 <= i < |out|
      ensures out[i] in q.Matching(visited)
    {
      assert out[i] in multiset(out);
    }
    forall v: nat
      ensures v in Ids(out) <==> v in visited && q.Matches(v)
    {
      if v in Ids(out) {
        var i :| 0 <= i < |out| && Ids(out)[i] == v;
        assert out[i] in q.Matching(visited);
      }
      if v in visited && q.Matches(v) {
        assert q.NodeOf(v) in multiset(q.Matching(visited));
        assert q.NodeOf(v) in out;
        var i :| 0 <= i < |out| && out[i] == q.NodeOf(v);
        assert Ids(out)[i] == v;
      }
    }
  }

  /** The prefix within the radius, cut to the limit. */
  method CutTopEf(ids: seq<int>, distances: seq<real>, radius: real, limit: nat)
    returns (ids': seq<int>, distances': seq<real>)
    requires |ids| == |distances|
    ensures var m := Min(PrefixWithin(distances, radius), limit);
            m <= |ids| && ids' == ids[..m] && distances' == distances[..m]
  {
    var n := 0;
    while n < |distances| && distances[n] <= radius
      invariant 0 <= n <= |distances|
      invariant forall i :: 0 <= i < n ==> distances[i] <= radius
    {
      n := n + 1;
    }
    PrefixWithinIs(distances, radius, n);
    var m := Min(n, limit);
    ids', distances' := ids[..m], distances[..m];
  }

  /** Where greedy search on one level ends: at a vertex that a steepest walk leads to and none of whose listed
      neighbors is closer. */
  ghost predicate GreedyStop(g: Graph, qdis: nat -> real, level: nat, from: nat, to: nat) {
    to < g.n && qdis(to) <= qdis(from) && Reachable(g, level, {from}, to)
    && (forall w: nat :: Edge(g, level, to, w) ==> qdis(to) <= qdis(w))
    && exists path: seq<nat> :: path != [] && Steepest(g, qdis, level, path) && path[0] == from && path[|path| - 1] == to
  }

  /** The stops of a descent: the entry point, then where greedy search ends on each level from the top one to 1. */
  ghost predicate Descent(index: HnswIndex, qdis: nat -> real, stops: seq<nat>) {
    |stops| == (if index.maxLevel < 1 then 1 else index.maxLevel + 1) && stops[0] == index.entryPoint
    && forall i :: 0 <= i < |stops| - 1 ==> StopAt(index, qdis, stops, i)
  }

  ghost predicate StopAt(index: HnswIndex, qdis: nat -> real, stops: seq<nat>, i: nat)
    requires i + 1 < |stops|
  {
    index.maxLevel - i >= 1 && GreedyStop(index.g, qdis, index.maxLevel - i, stops[i], stops[i + 1])
  }

  lemma NextStop(index: HnswIndex, qdis: nat -> real, stops: seq<nat>, to: nat)
    requires stops != [] && index.maxLevel - |stops| + 1 >= 1
    requires forall i :: 0 <= i < |stops| - 1 ==> StopAt(index, qdis, stops, i)
    requires GreedyStop(index.g, qdis, index.maxLevel - |stops| + 1, stops[|stops| - 1], to)
    ensures forall i :: 0 <= i < |stops| ==> StopAt(index, qdis, stops + [to], i)
  {
    hide GreedyStop;
    forall i | 0 <= i < |stops|
      ensures StopAt(index, qdis, stops + [to], i)
    {
      assert i < |stops| - 1 ==> StopAt(index, qdis, stops, i);
    }
  }

  lemma Stops(g: Graph, qdis: nat -> real, level: nat, from: nat, to: nat, path: seq<nat>)
    requires to < g.n && qdis(to) <= qdis(from) && Reachable(g, level, {from}, to) && LocallyNearest(g, qdis, level, to)
    requires path != [] && Steepest(g, qdis, level, path) && path[0] == from && path[|path| - 1] == to
    ensures GreedyStop(g, qdis, level, from, to)
  {
    hide Steepest, Reachable, Edge;
  }

  /** Greedy search through the upper levels, from the top down. */
  method Descend(index: HnswIndex, q: Query) returns (nearest: nat, ghost stops: seq<nat>)
    requires index.Valid() && index.entryPoint != -1
    ensures nearest < index.g.n && q.qdis(nearest) <= q.qdis(index.entryPoint)
    ensures Descent(index, q.qdis, stops) && nearest == stops[|stops| - 1]
  {
    hide GreedyStop;
    nearest, stops := index.entryPoint, [index.entryPoint];
    var dNearest := q.qdis(nearest);
    var level := index.maxLevel;
    while level >= 1
      invariant nearest < index.g.n && dNearest == q.qdis(nearest) <= q.qdis(index.entryPoint)
      invariant level <= index.maxLevel && (level < index.maxLevel ==> level >= 0)
      invariant |stops| == index.maxLevel - level + 1 && stops[0] == index.entryPoint && nearest == stops[|stops| - 1]
      invariant forall i :: 0 <= i < |stops| - 1 ==> StopAt(index, q.qdis, stops, i)
      decreases level
    {
      ghost var from := nearest;
      ghost var path;
      nearest, dNearest, path := GreedyUpdateNearest(index.g, q.qdis, level, nearest, dNearest);
      Stops(index.g, q.qdis, level, from, nearest, path);
      NextStop(index, q.qdis, stops, nearest);
      stops := stops + [nearest];
      level := level - 1;
    }
  }

  /** Best-first search on the lowest level, and its results in order. */
  method SearchFrom(g: Graph, q: Query, nearest: nat, efSearch: int, ef: nat)
    returns (out: seq<Node>, ghost pops: seq<nat>, ghost visited: set<nat>)
    requires g.Valid() && nearest < g.n && ef > 0 && 0 < efSearch <= ef
    ensures {nearest} <= visited <= ReachSet(g, 0, {nearest}) && IsResult(q, visited, out)
    ensures BestFirst(g, q, 0, {nearest}, ef, pops) && visited == Around(g, 0, {nearest}, Elems(pops))
    ensures if |pops| <= efSearch then |visited| > ef || visited == Elems(pops) else |pops| == efSearch + 1
    ensures |ReachSet(g, 0, {nearest})| <= efSearch ==>
      visited == ReachSet(g, 0, {nearest}) && IsResult(q, ReachSet(g, 0, {nearest}), out)
  {
    hide BestFirst, Around, IsResult;
    var state := new RangeSearchState(g, q, 0, ef);
    state.candidates.Push(nearest, q.qdis(nearest));
    assert q.Nodes({nearest}) == {q.NodeOf(nearest)};
    var nstep;
    nstep, pops := state.FromCandidates(efSearch, {nearest});
    visited := state.vt.visited;
    out := Drain(state.results);
    DrainedIsResult(q, visited, out);
  }
}
