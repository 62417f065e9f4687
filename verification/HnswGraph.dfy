/** The layered graph of an HNSW index and what can be reached in it. */
module HnswGraph {

  /** links(v, level) is the fixed-size block of v's neighbors at a level; the list ends at the first
      negative entry, or fills the block. */
  datatype Graph = Graph(n: nat, links: (nat, nat) -> seq<int>)
  {
    ghost predicate Valid() {
      forall v: nat, level: nat, j: nat ::
        v < n && j < |links(v, level)| && !Ended(links(v, level), j) ==> links(v, level)[j] < n
    }
  }

  /** Whether a block has ended at or before position j. */
  predicate Ended(block: seq<int>, j: nat)
    requires j < |block|
  {
    exists i :: 0 <= i <= j && block[i] < 0
  }

  /** Whether w is listed as a neighbor of v. */
  ghost predicate Edge(g: Graph, level: nat, v: nat, w: nat) {
    exists j: nat :: j < |g.links(v, level)| && !Ended(g.links(v, level), j) && g.links(v, level)[j] == w
  }

  ghost predicate IsPath(g: Graph, level: nat, path: seq<nat>) {
    path != [] && forall i :: 0 <= i < |path| - 1 ==> Edge(g, level, path[i], path[i + 1])
  }

  /** Whether v can be reached from a vertex of s along listed neighbors. */
  ghost predicate Reachable(g: Graph, level: nat, s: set<nat>, v: nat) {
    exists path: seq<nat> :: IsPath(g, level, path) && path[0] in s && path[|path| - 1] == v
  }

  ghost function ReachSet(g: Graph, level: nat, s: set<nat>): set<nat> {
    set v: nat | v < g.n && Reachable(g, level, s, v)
  }

  lemma StartReachable(g: Graph, level: nat, s: set<nat>, v: nat)
    requires v in s
    ensures Reachable(g, level, s, v)
  {
    assert IsPath(g, level, [v]) && [v][0] in s;
  }

  lemma StepReachable(g: Graph, level: nat, s: set<nat>, v: nat, w: nat)
    requires Reachable(g, level, s, v) && Edge(g, level, v, w)
    ensures Reachable(g, level, s, w)
  {
    var path :| IsPath(g, level, path) && path[0] in s && path[|path| - 1] == v;
    var longer := path + [w];
    assert IsPath(g, level, longer) && longer[0] in s && longer[|longer| - 1] == w;
  }

  ghost predicate Closed(g: Graph, level: nat, c: set<nat>) {
    forall v, w :: v in c && Edge(g, level, v, w) ==> w in c
  }

  /** A closed set that contains the start contains everything reachable. */
  lemma ClosedContains(g: Graph, level: nat, s: set<nat>, c: set<nat>, v: nat)
    requires s <= c && Closed(g, level, c) && Reachable(g, level, s, v)
    ensures v in c
  {
    var path :| IsPath(g, level, path) && path[0] in s && path[|path| - 1] == v;
    PathStays(g, level, c, path);
  }

  lemma {:induction false} PathStays(g: Graph, level: nat, c: set<nat>, path: seq<nat>)
    requires Closed(g, level, c) && IsPath(g, level, path) && path[0] in c
    ensures path[|path| - 1] in c
  {
    if |path| > 1 {
      assert Edge(g, level, path[0], path[1]);
      assert IsPath(g, level, path[1..]);
      PathStays(g, level, c, path[1..]);
    }
  }
}
