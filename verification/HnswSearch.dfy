/** Greedy descent and range search over an HNSW graph. */
module HnswSearch {
  import opened HnswGraph
  import opened TopK
  import opened Wrappers

  /** The vertices strictly closer to the query than a distance. */
  ghost function CloserThan(g: Graph, qdis: nat -> real, d: real): set<nat> {
    set v: nat | v < g.n && qdis(v) < d
  }

  lemma CloserShrinks(g: Graph, qdis: nat -> real, d: real, v: nat)
    requires v < g.n && qdis(v) < d
    ensures |CloserThan(g, qdis, qdis(v))| < |CloserThan(g, qdis, d)|
  {
    assert v in CloserThan(g, qdis, d) && v !in CloserThan(g, qdis, qdis(v));
    StrictSubset(CloserThan(g, qdis, qdis(v)), CloserThan(g, qdis, d));
  }

  lemma StrictSubset<T>(a: set<T>, b: set<T>)
    requires a < b
    ensures |a| < |b|
  {
    assert b == a + (b - a) && |b| == |a| + |b - a|;
    var x :| x in b - a;
  }

  /** No listed neighbor of v is closer to the query. */
  ghost predicate LocallyNearest(g: Graph, qdis: nat -> real, level: nat, v: nat) {
    forall w: nat :: Edge(g, level, v, w) ==> qdis(v) <= qdis(w)
  }

  /** A walk that goes to a nearest listed neighbor at each step, which is closer each time. */
  ghost predicate Steepest(g: Graph, qdis: nat -> real, level: nat, path: seq<nat>) {
    path != []
    && forall i :: 0 <= i < |path| - 1 ==>
      Edge(g, level, path[i], path[i + 1]) && qdis(path[i + 1]) < qdis(path[i])
      && forall w: nat :: Edge(g, level, path[i], w) ==> qdis(path[i + 1]) <= qdis(w)
  }

  lemma SteepestStart(g: Graph, qdis: nat -> real, level: nat, v: nat)
    ensures Steepest(g, qdis, level, [v])
  {
  }

  lemma SteepestStep(g: Graph, qdis: nat -> real, level: nat, path: seq<nat>, v: nat)
    requires path != [] && Steepest(g, qdis, level, path)
    requires Edge(g, level, path[|path| - 1], v) && qdis(v) < qdis(path[|path| - 1])
    requires forall w: nat :: Edge(g, level, path[|path| - 1], w) ==> qdis(v) <= qdis(w)
    ensures Steepest(g, qdis, level, path + [v])
  {
    hide Edge;
    var path' := path + [v];
    forall i | 0 <= i < |path'| - 1
      ensures Edge(g, level, path'[i], path'[i + 1]) && qdis(path'[i + 1]) < qdis(path'[i])
      ensures forall w: nat :: Edge(g, level, path'[i], w) ==> qdis(path'[i + 1]) <= qdis(w)
    {
      assert path'[i] == path[i] && path'[i + 1] == if i + 1 < |path| then path[i + 1] else v;
    }
  }

  /** Moves to the nearest listed neighbor until none is closer. It ends on every finite graph, cycles
      included, at a vertex reachable from where it began; d_nearest stays its distance and never grows. */
  method GreedyUpdateNearest(g: Graph, qdis: nat -> real, level: nat, nearest: nat, dNearest: real)
    returns (nearest': nat, dNearest': real, ghost path: seq<nat>)
    requires g.Valid() && nearest < g.n && dNearest == qdis(nearest)
    ensures nearest' < g.n && dNearest' == qdis(nearest') <= dNearest
    ensures LocallyNearest(g, qdis, level, nearest')
    ensures Reachable(g, level, {nearest}, nearest')
    ensures path != [] && Steepest(g, qdis, level, path) && path[0] == nearest && path[|path| - 1] == nearest'
  {
    hide Steepest, Reachable, Edge;
    nearest', dNearest', path := nearest, dNearest, [nearest];
    SteepestStart(g, qdis, level, nearest);
    StartReachable(g, level, {nearest}, nearest);
    while true
      invariant nearest' < g.n && dNearest' == qdis(nearest') <= dNearest
      invariant Reachable(g, level, {nearest}, nearest')
      invariant path != [] && Steepest(g, qdis, level, path) && path[0] == nearest && path[|path| - 1] == nearest'
      decreases |CloserThan(g, qdis, dNearest')|
    {
      var prev := nearest';
      nearest', dNearest' := ScanNeighbors(g, qdis, level, prev);
      if nearest' == prev {
        return;
      }
      SteepestStep(g, qdis, level, path, nearest');
      path := path + [nearest'];
      StepReachable(g, level, {nearest}, prev, nearest');
      CloserShrinks(g, qdis, qdis(prev), nearest');
    }
  }

  /** The nearest among a vertex and its listed neighbors. */
  method ScanNeighbors(g: Graph, qdis: nat -> real, level: nat, v: nat) returns (nearest: nat, dNearest: real)
    requires g.Valid() && v < g.n
    ensures nearest < g.n && dNearest == qdis(nearest)
    ensures nearest != v ==> Edge(g, level, v, nearest) && dNearest < qdis(v)
    ensures dNearest <= qdis(v) && forall w: nat :: Edge(g, level, v, w) ==> dNearest <= qdis(w)
  {
    nearest, dNearest := v, qdis(v);
    var block := g.links(v, level);
    var i := 0;
    while i < |block|
      invariant 0 <= i <= |block|
      invariant forall j :: 0 <= j < i ==> block[j] >= 0
      invariant nearest < g.n && dNearest == qdis(nearest) <= qdis(v)
      invariant nearest != v ==> Edge(g, level, v, nearest) && dNearest < qdis(v)
      invariant forall j :: 0 <= j < i ==> dNearest <= qdis(block[j])
    {
      if block[i] < 0 {
        break;
      }
      assert !Ended(block, i);
      assert Edge(g, level, v, block[i]);
      var dis := qdis(block[i]);
      if dis < dNearest {
        nearest, dNearest := block[i], dis;
      }
      i := i + 1;
    }
    forall w: nat | Edge(g, level, v, w)
      ensures dNearest <= qdis(w)
    {
      var j: nat :| j < |block| && !Ended(block, j) && block[j] == w;
      assert j < i;
    }
  }

  // ---- candidates ----

  datatype Node = Node(d: real, id: nat)

  /** The bounded candidate heap: it drops nothing while fewer than n candidates have been pushed; once full, a
      push may drop candidates. A popped place is not used again. */
  class MinimaxHeap {
    const n: nat
    var pushed: nat
    var nodes: seq<Node>

    constructor (n: nat)
      ensures this.n == n && pushed == 0 && nodes == []
    {
      this.n := n;
      pushed := 0;
      nodes := [];
    }

    method Push(v: nat, d: real)
      modifies this
      ensures pushed == old(pushed) + 1
      ensures old(pushed) < n ==> multiset(nodes) == old(multiset(nodes)) + multiset{Node(d, v)}
      ensures multiset(nodes) <= old(multiset(nodes)) + multiset{Node(d, v)}
    {
      if pushed < n {
        nodes := nodes + [Node(d, v)];
      }
      pushed := pushed + 1;
    }

    /** Removes a nearest candidate. */
    method PopMin() returns (v0: nat, d0: real)
      requires nodes != []
      modifies this`nodes
      ensures Node(d0, v0) in old(multiset(nodes)) && forall m :: m in old(nodes) ==> d0 <= m.d
      ensures multiset(nodes) == old(multiset(nodes)) - multiset{Node(d0, v0)} && |nodes| == old(|nodes|) - 1
    {
      var m, i := 0, 1;
      while i < |nodes|
        invariant m < i <= |nodes|
        invariant forall k :: 0 <= k < i ==> nodes[m].d <= nodes[k].d
      {
        if nodes[i].d < nodes[m].d {
          m := i;
        }
        i := i + 1;
      }
      v0, d0 := nodes[m].id, nodes[m].d;
      assert nodes == nodes[..m] + [nodes[m]] + nodes[m + 1..];
      nodes := nodes[..m] + nodes[m + 1..];
    }
  }

  // ---- range search ----

  /** Farther last; the id breaks ties. */
  function NodeLess(): (Node, Node) -> bool {
    (a: Node, b: Node) => a.d < b.d || (a.d == b.d && a.id < b.id)
  }

  lemma NodeLessIsTotal()
    ensures Total(NodeLess())
  {
  }

  datatype Query = Query(qdis: nat -> real, radius: real, sel: Option<nat -> bool>)
  {
    predicate Selects(v: nat) {
      sel.Some? ==> sel.value(v)
    }

    /** Whether a vertex is a result: selected and within the radius. */
    predicate Matches(v: nat) {
      Selects(v) && qdis(v) <= radius
    }

    function NodeOf(v: nat): Node {
      Node(qdis(v), v)
    }

    /** The results among a set of vertices, each once. */
    ghost function Matching(s: set<nat>): set<Node> {
      set v | v in s && Matches(v) :: NodeOf(v)
    }

    ghost function Nodes(s: set<nat>): set<Node> {
      set v | v in s :: NodeOf(v)
    }

    lemma NodesGrow(s: set<nat>, v: nat)
      requires v !in s
      ensures Nodes(s + {v}) == Nodes(s) + {NodeOf(v)} && NodeOf(v) !in Nodes(s)
      ensures multiset(Nodes(s + {v})) == multiset(Nodes(s)) + multiset{NodeOf(v)}
    {
    }

    lemma NothingMatches()
      ensures Nodes({}) == {} && Matching({}) == {}
    {
    }

    lemma NodesInjective(s: set<nat>, t: set<nat>)
      requires s <= t && multiset(Nodes(s)) == multiset(Nodes(t))
      ensures s == t
    {
      forall v | v in t
        ensures v in s
      {
        assert NodeOf(v) in multiset(Nodes(t));
        assert NodeOf(v) in Nodes(s);
      }
    }

    lemma MatchingGrows(s: set<nat>, v: nat)
      requires v !in s
      ensures Matches(v) ==> Matching(s + {v}) == Matching(s) + {NodeOf(v)} && NodeOf(v) !in Matching(s)
      ensures Matches(v) ==> multiset(Matching(s + {v})) == multiset(Matching(s)) + multiset{NodeOf(v)}
      ensures !Matches(v) ==> Matching(s + {v}) == Matching(s)
    {
    }
  }

  class VisitedTable {
    var visited: set<nat>

    constructor ()
      ensures visited == {}
    {
      visited := {};
    }
  }

  /** Whether v is one of the first vertices or a listed neighbor of a popped one. */
  ghost predicate From(g: Graph, level: nat, start: set<nat>, popped: set<nat>, v: nat) {
    v in start || exists u :: u in popped && Edge(g, level, u, v)
  }

  ghost function Around(g: Graph, level: nat, start: set<nat>, popped: set<nat>): set<nat> {
    set v: nat | v < g.n && From(g, level, start, popped, v)
  }

  /** One search in progress: the results are the matching vertices among those visited; the candidates are
      visited vertices not yet popped, all of them while nothing can have been dropped; and every neighbor of
      an expanded vertex has been visited. */
  ghost predicate InProgress(g: Graph, q: Query, level: nat, start: set<nat>, results: multiset<Node>,
                             candidates: multiset<Node>, pushed: nat, cap: nat,
                             visited: set<nat>, popped: set<nat>, expanded: set<nat>)
  {
    start <= visited && expanded <= popped <= visited
    && (forall v :: v in visited ==> v < g.n && Reachable(g, level, start, v))
    && (forall v :: v in visited ==> From(g, level, start, popped, v))
    && results == multiset(q.Matching(visited))
    && candidates <= multiset(q.Nodes(visited - popped))
    && pushed == |visited|
    && (pushed <= cap ==> candidates == multiset(q.Nodes(visited - popped)))
    && (forall u, w :: u in expanded && Edge(g, level, u, w) ==> w in visited)
  }

  lemma StartsInProgress(g: Graph, q: Query, level: nat, start: set<nat>, cap: nat)
    requires forall v :: v in start ==> v < g.n
    ensures InProgress(g, q, level, start, multiset(q.Matching(start)), multiset(q.Nodes(start)), |start|, cap,
                       start, {}, {})
  {
    forall v | v in start
      ensures Reachable(g, level, start, v)
    {
      StartReachable(g, level, start, v);
    }
    assert start - {} == start;
  }

  lemma VisitKeeps(g: Graph, q: Query, level: nat, start: set<nat>, results: multiset<Node>,
                   candidates: multiset<Node>, pushed: nat, cap: nat,
                   visited: set<nat>, popped: set<nat>, expanded: set<nat>,
                   v: nat, results': multiset<Node>, candidates': multiset<Node>)
    requires InProgress(g, q, level, start, results, candidates, pushed, cap, visited, popped, expanded)
    requires v !in visited && v < g.n && Reachable(g, level, start, v) && From(g, level, start, popped, v)
    requires results' == if q.Matches(v) then results + multiset{q.NodeOf(v)} else results
    requires candidates' <= candidates + multiset{q.NodeOf(v)}
    requires pushed < cap ==> candidates' == candidates + multiset{q.NodeOf(v)}
    ensures InProgress(g, q, level, start, results', candidates', pushed + 1, cap, visited + {v}, popped, expanded)
  {
    hide Query.Matching, Query.Nodes, Query.Matches, Reachable, Edge, From;
    q.MatchingGrows(visited, v);
    q.NodesGrow(visited - popped, v);
    assert visited + {v} - popped == visited - popped + {v};
  }

  lemma PopKeeps(g: Graph, q: Query, level: nat, start: set<nat>, results: multiset<Node>,
                 candidates: multiset<Node>, pushed: nat, cap: nat, visited: set<nat>, popped: set<nat>, top: Node)
    requires InProgress(g, q, level, start, results, candidates, pushed, cap, visited, popped, popped)
    requires top in candidates
    ensures top == q.NodeOf(top.id) && top.id in visited && top.id !in popped
    ensures InProgress(g, q, level, start, results, candidates - multiset{top}, pushed, cap, visited,
                       popped + {top.id}, popped)
  {
    var waiting := visited - popped;
    assert top in multiset(q.Nodes(waiting));
    var v := top.id;
    assert v in waiting && top == q.NodeOf(v);
    q.NodesGrow(waiting - {v}, v);
    assert waiting - {v} + {v} == waiting && visited - (popped + {v}) == waiting - {v};
    FromGrows(g, level, start, popped, v);
  }

  lemma FromGrows(g: Graph, level: nat, start: set<nat>, popped: set<nat>, v: nat)
    ensures forall w :: From(g, level, start, popped, w) ==> From(g, level, start, popped + {v}, w)
  {
    forall w | From(g, level, start, popped, w)
      ensures From(g, level, start, popped + {v}, w)
    {
      if w !in start {
        var u :| u in popped && Edge(g, level, u, w);
        assert u in popped + {v};
      }
    }
  }

  /** What has been visited is the start and the listed neighbors of what has been popped and expanded. */
  lemma VisitedIsAround(g: Graph, q: Query, level: nat, start: set<nat>, results: multiset<Node>,
                        candidates: multiset<Node>, pushed: nat, cap: nat, visited: set<nat>, popped: set<nat>)
    requires g.Valid() && InProgress(g, q, level, start, results, candidates, pushed, cap, visited, popped, popped)
    ensures visited == Around(g, level, start, popped)
  {
    hide Edge, Reachable, Query.Matching, Query.Nodes;
    forall v | v in Around(g, level, start, popped)
      ensures v in visited
    {
      if v !in start {
        var u :| u in popped && Edge(g, level, u, v);
      }
    }
  }

  /** The next vertex to be popped: one that has been visited and not popped, and a nearest of those unless more have
      been visited than the candidate heap has room for. */
  ghost predicate BestPop(g: Graph, q: Query, level: nat, start: set<nat>, cap: nat, popped: set<nat>, v: nat) {
    var visited := Around(g, level, start, popped);
    v in visited && v !in popped
    && (|visited| <= cap ==> forall w :: w in visited && w !in popped ==> q.qdis(v) <= q.qdis(w))
  }

  ghost function Elems(s: seq<nat>): set<nat> {
    set v | v in s
  }

  /** Whether vertices are popped best first. */
  ghost predicate BestFirst(g: Graph, q: Query, level: nat, start: set<nat>, cap: nat, pops: seq<nat>) {
    forall k :: 0 <= k < |pops| ==> BestPop(g, q, level, start, cap, Elems(pops[..k]), pops[k])
  }

  lemma BestFirstGrows(g: Graph, q: Query, level: nat, start: set<nat>, cap: nat, pops: seq<nat>, v: nat)
    requires BestFirst(g, q, level, start, cap, pops) && BestPop(g, q, level, start, cap, Elems(pops), v)
    ensures BestFirst(g, q, level, start, cap, pops + [v]) && Elems(pops + [v]) == Elems(pops) + {v}
  {
    hide BestPop;
    var pops' := pops + [v];
    forall k | 0 <= k < |pops'|
      ensures BestPop(g, q, level, start, cap, Elems(pops'[..k]), pops'[k])
    {
      assert pops'[..k] == if k < |pops| then pops[..k] else pops;
    }
  }

  lemma ExpandKeeps(g: Graph, q: Query, level: nat, start: set<nat>, results: multiset<Node>,
                    candidates: multiset<Node>, pushed: nat, cap: nat, visited: set<nat>, popped: set<nat>, v: nat)
    requires InProgress(g, q, level, start, results, candidates, pushed, cap, visited, popped + {v}, popped)
    requires forall w :: Edge(g, level, v, w) ==> w in visited
    ensures InProgress(g, q, level, start, results, candidates, pushed, cap, visited, popped + {v}, popped + {v})
  {
  }

  /** When no candidate is left and nothing was dropped, everything reachable has been visited. */
  lemma FinishedIsComplete(g: Graph, q: Query, level: nat, start: set<nat>, results: multiset<Node>,
                           pushed: nat, cap: nat, visited: set<nat>, popped: set<nat>)
    requires InProgress(g, q, level, start, results, multiset{}, pushed, cap, visited, popped, popped)
    requires pushed <= cap
    ensures visited == ReachSet(g, level, start)
  {
    forall v | v in visited
      ensures v !in popped ==> q.NodeOf(v) in multiset(q.Nodes(visited - popped))
    {
    }
    assert Closed(g, level, visited);
    forall v: nat | v < g.n && Reachable(g, level, start, v)
      ensures v in visited
    {
      ClosedContains(g, level, start, visited, v);
    }
  }

  lemma VisitedBounded(g: Graph, level: nat, start: set<nat>, visited: set<nat>)
    requires forall v :: v in visited ==> v < g.n && Reachable(g, level, start, v)
    ensures |visited| <= |ReachSet(g, level, start)|
  {
    assert visited <= ReachSet(g, level, start);
    SubsetSize(visited, ReachSet(g, level, start));
  }

  lemma NoneWaiting(q: Query, visited: set<nat>, popped: set<nat>)
    requires popped <= visited && multiset(q.Nodes(visited - popped)) == multiset{}
    ensures visited == popped
  {
    forall v | v in visited
      ensures v !in popped ==> q.NodeOf(v) in multiset(q.Nodes(visited - popped))
    {
    }
  }

  lemma SubsetSize<T>(a: set<T>, b: set<T>)
    requires a <= b
    ensures |a| <= |b|
  {
    assert b == a + (b - a);
  }

  /** The queues and tables of one search. */
  class RangeSearchState {
    const g: Graph
    const q: Query
    const level: nat
    const results: PriorityQueue<Node>
    const candidates: MinimaxHeap
    const vt: VisitedTable

    constructor (g: Graph, q: Query, level: nat, cap: nat)
      ensures this.g == g && this.q == q && this.level == level && candidates.n == cap
      ensures results.Valid() && results.less == NodeLess() && results.items == []
      ensures candidates.nodes == [] && candidates.pushed == 0 && vt.visited == {}
      ensures fresh(results) && fresh(candidates) && fresh(vt)
    {
      this.g := g;
      this.q := q;
      this.level := level;
      NodeLessIsTotal();
      results := new PriorityQueue<Node>(NodeLess());
      candidates := new MinimaxHeap(cap);
      vt := new VisitedTable();
    }

    ghost function Repr(): set<object> {
      {results, candidates, vt}
    }

    ghost predicate Inv(start: set<nat>, popped: set<nat>, expanded: set<nat>)
      reads results, candidates, vt
    {
      g.Valid() && results.Valid() && results.less == NodeLess()
      && InProgress(g, q, level, start, multiset(results.items), multiset(candidates.nodes), candidates.pushed,
                    candidates.n, vt.visited, popped, expanded)
    }

    /** Enters the initial candidates into the results and the visited table. */
    method EnterCandidates(ghost start: set<nat>)
      requires g.Valid() && results.Valid() && results.less == NodeLess() && results.items == []
      requires vt.visited == {} && forall v :: v in start ==> v < g.n
      requires multiset(candidates.nodes) == multiset(q.Nodes(start)) && candidates.pushed == |start|
      modifies results, vt
      ensures vt.visited == start && Inv(start, {}, {})
    {
      hide Query.Matching, Query.Nodes, PriorityQueue.Valid, InProgress;
      q.NothingMatches();
      var i := 0;
      while i < |candidates.nodes|
        invariant 0 <= i <= |candidates.nodes|
        invariant results.Valid() && results.less == NodeLess()
        invariant vt.visited <= start && multiset(candidates.nodes[..i]) == multiset(q.Nodes(vt.visited))
        invariant multiset(results.items) == multiset(q.Matching(vt.visited))
      {
        EnterOne(i, start);
        assert candidates.nodes[..i + 1] == candidates.nodes[..i] + [candidates.nodes[i]];
        i := i + 1;
      }
      assert candidates.nodes[..i] == candidates.nodes;
      q.NodesInjective(vt.visited, start);
      StartsInProgress(g, q, level, start, candidates.n);
    }

    method EnterOne(i: nat, ghost start: set<nat>)
      requires results.Valid() && results.less == NodeLess() && i < |candidates.nodes| && vt.visited <= start
      requires multiset(candidates.nodes) == multiset(q.Nodes(start))
      requires multiset(candidates.nodes[..i]) == multiset(q.Nodes(vt.visited))
      requires multiset(results.items) == multiset(q.Matching(vt.visited))
      modifies results, vt
      ensures results.Valid() && vt.visited <= start
      ensures multiset(candidates.nodes[..i]) + multiset{candidates.nodes[i]} == multiset(q.Nodes(vt.visited))
      ensures multiset(results.items) == multiset(q.Matching(vt.visited))
    {
      hide Query.Matching, Query.Nodes, PriorityQueue.Valid;
      var v, d := candidates.nodes[i].id, candidates.nodes[i].d;
      NextCandidate(start, vt.visited, candidates.nodes, i);
      q.MatchingGrows(vt.visited, v);
      q.NodesGrow(vt.visited, v);
      if q.Selects(v) {
        if d <= q.radius {
          results.Push(Node(d, v));
        }
      }
      vt.visited := vt.visited + {v};
    }

    lemma NextCandidate(start: set<nat>, entered: set<nat>, nodes: seq<Node>, i: nat)
      requires multiset(nodes) == multiset(q.Nodes(start)) && i < |nodes| && entered <= start
      requires multiset(nodes[..i]) == multiset(q.Nodes(entered))
      ensures nodes[i] == q.NodeOf(nodes[i].id) && nodes[i].id in start && nodes[i].id !in entered
    {
      assert nodes[i] in multiset(nodes);
      assert nodes == nodes[..i] + [nodes[i]] + nodes[i + 1..];
      assert multiset(nodes)[nodes[i]] >= multiset(nodes[..i])[nodes[i]] + 1;
    }

    /** A neighbor seen for the first time: a result if it matches, and a new candidate. */
    method Visit(v: nat, ghost start: set<nat>, ghost popped: set<nat>, ghost expanded: set<nat>)
      requires Inv(start, popped, expanded) && v !in vt.visited && v < g.n && Reachable(g, level, start, v)
      requires From(g, level, start, popped, v)
      modifies results, candidates, vt
      ensures Inv(start, popped, expanded) && vt.visited == old(vt.visited) + {v}
    {
      hide InProgress, Reachable, Query.Matching, Query.Nodes, PriorityQueue.Valid;
      ghost var before, waiting, pushed := multiset(results.items), multiset(candidates.nodes), candidates.pushed;
      ghost var visited := vt.visited;
      vt.visited := vt.visited + {v};
      var d := q.qdis(v);
      if q.Selects(v) {
        if d <= q.radius {
          results.Push(Node(d, v));
        }
      }
      candidates.Push(v, d);
      VisitKeeps(g, q, level, start, before, waiting, pushed, candidates.n, visited, popped, expanded,
                 v, multiset(results.items), multiset(candidates.nodes));
    }

    /** Visits the listed neighbors of a popped vertex that have not been visited. */
    method Expand(v0: nat, ghost start: set<nat>, ghost popped: set<nat>)
      requires Inv(start, popped + {v0}, popped) && v0 in vt.visited
      modifies results, candidates, vt
      ensures Inv(start, popped + {v0}, popped + {v0})
    {
      hide InProgress, Reachable, Query.Matching, Query.Nodes, PriorityQueue.Valid;
      VisitedFacts(start, popped + {v0}, popped);
      var block := g.links(v0, level);
      var j := 0;
      while j < |block|
        invariant 0 <= j <= |block|
        invariant Inv(start, popped + {v0}, popped)
        invariant forall k :: 0 <= k < j ==> block[k] >= 0 && block[k] in vt.visited
      {
        if block[j] < 0 {
          break;
        }
        var v1 := block[j];
        if v1 !in vt.visited {
          assert !Ended(block, j);
          assert Edge(g, level, v0, v1);
          StepReachable(g, level, start, v0, v1);
          assert v0 in popped + {v0};
          Visit(v1, start, popped + {v0}, popped);
        }
        j := j + 1;
      }
      forall w | Edge(g, level, v0, w)
        ensures w in vt.visited
      {
        var k: nat :| k < |block| && !Ended(block, k) && block[k] == w;
        assert k < j;
      }
      ExpandKeeps(g, q, level, start, multiset(results.items), multiset(candidates.nodes), candidates.pushed,
                  candidates.n, vt.visited, popped, v0);
    }

    lemma VisitedFacts(start: set<nat>, popped: set<nat>, expanded: set<nat>)
      requires Inv(start, popped, expanded)
      ensures start <= vt.visited && popped <= vt.visited
      ensures forall v :: v in vt.visited ==> v < g.n && Reachable(g, level, start, v)
      ensures multiset(results.items) == multiset(q.Matching(vt.visited))
    {
    }

    /** Best-first search from the initial candidates. The results are the matching vertices among the visited
        ones, which are the start and the neighbors of those popped, best first; efSearch + 1 candidates are popped
        unless they run out; and when no more than efSearch vertices are reachable, and the candidate heap has room
        for them, everything reachable is visited. */
    method FromCandidates(efSearch: int, ghost start: set<nat>) returns (nstep: nat, ghost pops: seq<nat>)
      requires g.Valid() && results.Valid() && results.less == NodeLess() && results.items == []
      requires vt.visited == {} && forall v :: v in start ==> v < g.n
      requires multiset(candidates.nodes) == multiset(q.Nodes(start)) && candidates.pushed == |start|
      modifies results, candidates, vt
      ensures results.Valid() && results.less == NodeLess()
      ensures start <= vt.visited <= ReachSet(g, level, start)
      ensures multiset(results.items) == multiset(q.Matching(vt.visited))
      ensures nstep == |pops| <= if efSearch < 0 then 1 else efSearch + 1
      ensures BestFirst(g, q, level, start, candidates.n, pops) && vt.visited == Around(g, level, start, Elems(pops))
      ensures |vt.visited| > candidates.n || vt.visited == Elems(pops) || nstep > efSearch
      ensures |ReachSet(g, level, start)| <= efSearch && |ReachSet(g, level, start)| <= candidates.n ==>
        vt.visited == ReachSet(g, level, start)
    {
      hide InProgress, Reachable, Query.Matching, Query.Nodes, PriorityQueue.Valid;
      EnterCandidates(start);
      nstep, pops := 0, [];
      ghost var popped: set<nat> := {};
      while |candidates.nodes| > 0
        invariant Inv(start, popped, popped) && |popped| == nstep == |pops| && Elems(pops) == popped
        invariant BestFirst(g, q, level, start, candidates.n, pops)
        invariant nstep <= if efSearch < 0 then 0 else efSearch
        decreases efSearch - nstep
      {
        ghost var v := Step(start, popped);
        BestFirstGrows(g, q, level, start, candidates.n, pops, v);
        popped, pops := popped + {v}, pops + [v];
        nstep := nstep + 1;
        if nstep > efSearch {
          break;
        }
      }
      Outcome(efSearch, nstep, start, popped);
    }

    lemma Outcome(efSearch: int, nstep: nat, start: set<nat>, popped: set<nat>)
      requires Inv(start, popped, popped) && |popped| == nstep
      requires candidates.nodes == [] || nstep > efSearch
      ensures start <= vt.visited <= ReachSet(g, level, start)
      ensures multiset(results.items) == multiset(q.Matching(vt.visited))
      ensures vt.visited == Around(g, level, start, popped)
      ensures |vt.visited| > candidates.n || vt.visited == popped || nstep > efSearch
      ensures |ReachSet(g, level, start)| <= efSearch && |ReachSet(g, level, start)| <= candidates.n ==>
        vt.visited == ReachSet(g, level, start)
    {
      VisitedIsAround(g, q, level, start, multiset(results.items), multiset(candidates.nodes), candidates.pushed,
                      candidates.n, vt.visited, popped);
      if candidates.nodes == [] && |vt.visited| <= candidates.n {
        NoneWaiting(q, vt.visited, popped);
      }
      VisitedFacts(start, popped, popped);
      VisitedBounded(g, level, start, vt.visited);
      SubsetSize(popped, vt.visited);
      if |ReachSet(g, level, start)| <= efSearch && |ReachSet(g, level, start)| <= candidates.n {
        FinishedIsComplete(g, q, level, start, multiset(results.items), candidates.pushed, candidates.n,
                           vt.visited, popped);
      }
    }

    /** A nearest candidate is a nearest vertex waiting while no candidate has been dropped. */
    lemma NearestWaits(start: set<nat>, found: multiset<Node>, waiting: multiset<Node>, pushed: nat, visited: set<nat>,
                       popped: set<nat>, top: Node)
      requires InProgress(g, q, level, start, found, waiting, pushed, candidates.n, visited, popped, popped)
      requires visited == Around(g, level, start, popped)
      requires top in waiting && forall m :: m in waiting ==> top.d <= m.d
      ensures BestPop(g, q, level, start, candidates.n, popped, top.id)
    {
      hide Query.Matching, Reachable, Around, From, Edge;
      assert top in multiset(q.Nodes(visited - popped));
      forall w | w in visited && w !in popped && |visited| <= candidates.n
        ensures q.qdis(top.id) <= q.qdis(w)
      {
        assert q.NodeOf(w) in q.Nodes(visited - popped) && q.NodeOf(w) in waiting;
      }
    }

    /** Pops the nearest candidate and expands it. */
    method Step(ghost start: set<nat>, ghost popped: set<nat>) returns (ghost v: nat)
      requires Inv(start, popped, popped) && candidates.nodes != []
      modifies results, candidates, vt
      ensures Inv(start, popped + {v}, popped + {v}) && |popped + {v}| == |popped| + 1
      ensures BestPop(g, q, level, start, candidates.n, popped, v)
    {
      hide InProgress, Reachable, Query.Matching, Query.Nodes, PriorityQueue.Valid;
      ghost var before := multiset(candidates.nodes);
      VisitedIsAround(g, q, level, start, multiset(results.items), before, candidates.pushed, candidates.n,
                      vt.visited, popped);
      var v0, d0 := candidates.PopMin();
      NearestWaits(start, multiset(results.items), before, candidates.pushed, vt.visited, popped, Node(d0, v0));
      PopKeeps(g, q, level, start, multiset(results.items), before, candidates.pushed, candidates.n,
               vt.visited, popped, Node(d0, v0));
      v := v0;
      Expand(v0, start, popped);
    }
  }
}
