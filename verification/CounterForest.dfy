/** The counters of a runtime profile: a parent for each counter, and the set of children of each parent. */
module CounterForest {

  /** The parent of counters that have none. */
  const ROOT: string := ""

  /** The counter every profile starts with. It is not in the child set of its parent. */
  const TOTAL_TIME: string := "TotalTime"

  /** Every parent is the root or a counter, and lies closer to the root by the given ranks. */
  ghost predicate Forest(parents: map<string, string>, rank: map<string, nat>) {
    ROOT !in parents
    && forall n :: n in parents ==> n in rank && (parents[n] != ROOT ==> parents[n] in parents && HigherUp(rank, parents[n], n))
  }

  ghost predicate HigherUp(rank: map<string, nat>, p: string, n: string) {
    p in rank && n in rank && rank[p] < rank[n]
  }

  /** The child sets say the same as the parents, except for loose counters, which are in no child set: the
      built-in one, until it is removed. */
  ghost predicate SameForest(parents: map<string, string>, children: map<string, set<string>>, loose: set<string>) {
    (forall n :: Hangs(parents, children, loose, n)) && (forall p :: Keeps(parents, children, loose, p))
    && (forall n :: n in loose ==> n in parents && parents[n] == ROOT)
  }

  /** A counter is in the child set of its parent. */
  ghost predicate Hangs(parents: map<string, string>, children: map<string, set<string>>, loose: set<string>, n: string) {
    n in parents && n !in loose ==> parents[n] in children && n in children[parents[n]]
  }

  /** A child set is a known counter's and holds only its children. */
  ghost predicate Keeps(parents: map<string, string>, children: map<string, set<string>>, loose: set<string>, p: string) {
    p in children ==>
      (p == ROOT || p in parents)
      && forall n :: n in children[p] ==> n in parents && n !in loose && parents[n] == p
  }

  /** Whether a is n or one of its ancestors. */
  ghost predicate Below(parents: map<string, string>, rank: map<string, nat>, n: string, a: string)
    requires Forest(parents, rank)
    decreases if n in rank then rank[n] else 0
  {
    n == a
    || (n in parents && parents[n] != ROOT
        && (assert HigherUp(rank, parents[n], n); Below(parents, rank, parents[n], a)))
  }

  /** A proper descendant of t is below one of t's children. */
  lemma {:induction false} BelowChild(parents: map<string, string>, rank: map<string, nat>, m: string, t: string) returns (c: string)
    requires Forest(parents, rank) && Below(parents, rank, m, t) && m != t && t in parents
    ensures c in parents && parents[c] == t && Below(parents, rank, m, c)
    decreases if m in rank then rank[m] else 0
  {
    assert HigherUp(rank, parents[m], m);
    if parents[m] == t {
      c := m;
    } else {
      c := BelowChild(parents, rank, parents[m], t);
    }
  }

  lemma {:induction false} BelowTransitive(parents: map<string, string>, rank: map<string, nat>, m: string, t: string, a: string)
    requires Forest(parents, rank) && Below(parents, rank, m, t) && Below(parents, rank, t, a)
    ensures Below(parents, rank, m, a)
    decreases if m in rank then rank[m] else 0
  {
    if m != t {
      assert HigherUp(rank, parents[m], m);
      BelowTransitive(parents, rank, parents[m], t, a);
    }
  }

  /** Ancestors have smaller ranks. */
  lemma {:induction false} BelowRank(parents: map<string, string>, rank: map<string, nat>, m: string, a: string)
    requires Forest(parents, rank) && Below(parents, rank, m, a) && m in parents
    ensures a in parents && (m == a || HigherUp(rank, a, m))
    decreases if m in rank then rank[m] else 0
  {
    if m != a {
      assert HigherUp(rank, parents[m], m);
      BelowRank(parents, rank, parents[m], a);
    }
  }

  lemma AddKeepsForest(parents: map<string, string>, rank: map<string, nat>, name: string, parent: string)
    requires Forest(parents, rank) && name !in parents && name != ROOT && (parent == ROOT || parent in parents)
    ensures Forest(parents[name := parent], rank[name := if parent == ROOT then 0 else rank[parent] + 1])
  {
    var rank' := rank[name := if parent == ROOT then 0 else rank[parent] + 1];
    forall n | n in parents && parents[n] != ROOT
      ensures HigherUp(rank', parents[n], n)
    {
      assert HigherUp(rank, parents[n], n);
    }
  }

  lemma RootIsNoCounter(parents: map<string, string>, rank: map<string, nat>)
    ensures Forest(parents, rank) ==> ROOT !in parents
  {
  }

  function ChildrenOf(children: map<string, set<string>>, p: string): set<string> {
    if p in children then children[p] else {}
  }

  lemma AddKeepsSame(parents: map<string, string>, children: map<string, set<string>>, loose: set<string>,
                     name: string, parent: string)
    requires SameForest(parents, children, loose) && name !in parents && (parent == ROOT || parent in parents)
    ensures SameForest(parents[name := parent], children[parent := ChildrenOf(children, parent) + {name}], loose)
  {
    var parents', children' := parents[name := parent], children[parent := ChildrenOf(children, parent) + {name}];
    forall n
      ensures Hangs(parents', children', loose, n)
    {
      assert Hangs(parents, children, loose, n);
    }
    forall p
      ensures Keeps(parents', children', loose, p)
    {
      assert Keeps(parents, children, loose, p);
    }
  }

  // ---- removing a counter and everything below it ----

  ghost function Subtree(parents: map<string, string>, rank: map<string, nat>, name: string): set<string>
    requires Forest(parents, rank)
  {
    set m | m in parents && Below(parents, rank, m, name)
  }

  /** The child sets once a counter has been taken out of its parent's. */
  function Detached(children: map<string, set<string>>, parent: string, name: string): map<string, set<string>> {
    if parent in children then children[parent := children[parent] - {name}] else children
  }

  /** The worklist holds, each once, the roots of what is still to be removed. */
  ghost predicate Removing(parents: map<string, string>, rank: map<string, nat>, name: string,
                           removed: set<string>, queue: seq<string>)
    requires Forest(parents, rank)
  {
    removed <= Subtree(parents, rank, name)
    && (forall x :: x in queue ==> x in Subtree(parents, rank, name) && x !in removed)
    && Distinct(queue)
    && (forall x :: x in removed || x in queue ==> ParentGone(parents, name, removed, x))
    && (forall m :: m in Subtree(parents, rank, name) && m !in removed ==> CoveredBy(parents, rank, m, queue))
  }

  ghost predicate ParentGone(parents: map<string, string>, name: string, removed: set<string>, x: string) {
    x == name || (x in parents && parents[x] in removed)
  }

  ghost predicate Distinct(s: seq<string>) {
    forall i, j :: 0 <= i < j < |s| ==> s[i] != s[j]
  }

  ghost predicate CoveredBy(parents: map<string, string>, rank: map<string, nat>, m: string, queue: seq<string>)
    requires Forest(parents, rank)
  {
    exists i :: 0 <= i < |queue| && Below(parents, rank, m, queue[i])
  }

  /** Taking the first of the worklist out and putting its children at the end. */
  lemma RemovingStep(parents: map<string, string>, rank: map<string, nat>, name: string,
                     removed: set<string>, queue: seq<string>, kids: seq<string>)
    requires Forest(parents, rank) && name in parents && Removing(parents, rank, name, removed, queue) && queue != []
    requires forall c :: c in kids <==> c in parents && parents[c] == queue[0]
    requires Distinct(kids)
    ensures Removing(parents, rank, name, removed + {queue[0]}, queue[1..] + kids)
  {
    hide Subtree, Below, CoveredBy, Distinct;
    var top := queue[0];
    var queue' := queue[1..] + kids;
    forall c | c in kids
      ensures c in Subtree(parents, rank, name) && c !in removed && c !in queue && c != top
    {
      KidFacts(parents, rank, name, removed, queue, c);
    }
    DistinctTail(queue);
    forall x | x in queue'
      ensures x in Subtree(parents, rank, name) && x !in removed + {top}
      ensures ParentGone(parents, name, removed + {top}, x)
    {
      assert x in queue[1..] || x in kids;
    }
    forall m | m in Subtree(parents, rank, name) && m !in removed + {top}
      ensures CoveredBy(parents, rank, m, queue')
    {
      InParents(parents, rank, name, m);
      InParents(parents, rank, name, top);
      StillCovered(parents, rank, m, queue, kids);
    }
    DistinctAppend(queue[1..], kids);
  }

  lemma InParents(parents: map<string, string>, rank: map<string, nat>, name: string, m: string)
    requires Forest(parents, rank) && m in Subtree(parents, rank, name)
    ensures m in parents
  {
  }

  lemma DistinctTail(s: seq<string>)
    requires Distinct(s) && s != []
    ensures Distinct(s[1..]) && s[0] !in s[1..]
  {
  }

  lemma KidFacts(parents: map<string, string>, rank: map<string, nat>, name: string,
                 removed: set<string>, queue: seq<string>, c: string)
    requires Forest(parents, rank) && name in parents && Removing(parents, rank, name, removed, queue) && queue != []
    requires c in parents && parents[c] == queue[0]
    ensures c in Subtree(parents, rank, name) && c !in removed && c !in queue && c != queue[0]
  {
    var top := queue[0];
    assert top in Subtree(parents, rank, name);
    assert HigherUp(rank, top, c);
    BelowRank(parents, rank, top, name);
  }

  lemma StillCovered(parents: map<string, string>, rank: map<string, nat>, m: string, queue: seq<string>, kids: seq<string>)
    requires Forest(parents, rank) && queue != [] && m != queue[0] && m in parents && queue[0] in parents
    requires CoveredBy(parents, rank, m, queue)
    requires forall c :: c in parents && parents[c] == queue[0] ==> c in kids
    ensures CoveredBy(parents, rank, m, queue[1..] + kids)
  {
    var queue' := queue[1..] + kids;
    var i :| 0 <= i < |queue| && Below(parents, rank, m, queue[i]);
    if i == 0 {
      var c := BelowChild(parents, rank, m, queue[0]);
      var j :| 0 <= j < |kids| && kids[j] == c;
      assert queue'[|queue| - 1 + j] == c;
    } else {
      assert queue'[i - 1] == queue[i];
    }
  }

  lemma DistinctAppend(a: seq<string>, b: seq<string>)
    requires Distinct(a) && Distinct(b) && forall x :: x in b ==> x !in a
    ensures Distinct(a + b)
  {
    forall i, j | 0 <= i < j < |a + b|
      ensures (a + b)[i] != (a + b)[j]
    {
      if i < |a| <= j {
        assert (a + b)[j] in b && (a + b)[i] in a;
      }
    }
  }

  /** What remains once a whole subtree is gone is a forest, described alike by both maps. */
  lemma RemovedKeepsForest(parents: map<string, string>, children: map<string, set<string>>, loose: set<string>,
                           rank: map<string, nat>, name: string, gone: set<string>)
    requires Forest(parents, rank) && SameForest(parents, children, loose) && name in parents
    requires gone == Subtree(parents, rank, name)
    ensures Forest(parents - gone, rank)
    ensures SameForest(parents - gone, Detached(children, parents[name], name) - gone, loose - gone)
  {
    assert name in gone;
    forall n | n in parents
      ensures n in gone <==> n == name || parents[n] in gone
      ensures parents[n] != ROOT ==> HigherUp(rank, parents[n], n)
    {
      SubtreeStep(parents, rank, name, n);
    }
    RemovedKeepsSame(parents, children, loose, name, gone);
  }

  lemma RemovedKeepsSame(parents: map<string, string>, children: map<string, set<string>>, loose: set<string>,
                         name: string, gone: set<string>)
    requires SameForest(parents, children, loose) && name in parents && gone <= parents.Keys
    requires forall n :: n in parents ==> (n in gone <==> n == name || parents[n] in gone)
    ensures SameForest(parents - gone, Detached(children, parents[name], name) - gone, loose - gone)
  {
    var detached := Detached(children, parents[name], name);
    var parents', children', loose' := parents - gone, detached - gone, loose - gone;
    forall n
      ensures Hangs(parents', children', loose', n)
    {
      assert Hangs(parents, children, loose, n);
      if n in parents {
        DetachedAt(children, parents[name], name, parents[n]);
      }
    }
    forall p
      ensures Keeps(parents', children', loose', p)
    {
      assert Keeps(parents, children, loose, p);
      DetachedAt(children, parents[name], name, p);
    }
  }

  lemma DetachedAt(children: map<string, set<string>>, parent: string, name: string, p: string)
    ensures p in Detached(children, parent, name) <==> p in children
    ensures p in children ==>
      Detached(children, parent, name)[p] == if p == parent then children[p] - {name} else children[p]
  {
  }

  /** The child set of t lists exactly the counters whose parent is t. */
  ghost predicate Lists(children: map<string, set<string>>, parents: map<string, string>, t: string) {
    forall c :: c in ChildrenOf(children, t) <==> c in parents && parents[c] == t
  }

  lemma DetachedLists(parents: map<string, string>, children: map<string, set<string>>, loose: set<string>,
                      rank: map<string, nat>, name: string, t: string)
    requires Forest(parents, rank) && SameForest(parents, children, loose) && name in parents
    requires t in Subtree(parents, rank, name)
    ensures Lists(Detached(children, parents[name], name), parents, t)
  {
    DetachedAt(children, parents[name], name, t);
    BelowRank(parents, rank, t, name);
    assert parents[name] != ROOT ==> HigherUp(rank, parents[name], name);
    assert Keeps(parents, children, loose, t);
    forall c
      ensures c in ChildrenOf(children, t) <==> c in parents && parents[c] == t
    {
      assert Hangs(parents, children, loose, c);
    }
  }

  lemma SubtreeStep(parents: map<string, string>, rank: map<string, nat>, name: string, n: string)
    requires Forest(parents, rank) && name in parents && n in parents
    ensures n in Subtree(parents, rank, name) <==> n == name || parents[n] in Subtree(parents, rank, name)
    ensures parents[n] != ROOT ==> HigherUp(rank, parents[n], n)
  {
    assert parents[n] != ROOT ==> HigherUp(rank, parents[n], n);
  }

  /** What is removed with a counter is the counter, with the children of all that is removed, and nothing else: it is
      within any set that holds the counter and with a parent its children. */
  lemma SubtreeIsLeast(parents: map<string, string>, rank: map<string, nat>, name: string, s: set<string>)
    requires Forest(parents, rank) && name in parents && name in s
    requires forall n :: n in parents && parents[n] in s ==> n in s
    ensures name in Subtree(parents, rank, name)
    ensures forall n :: n in parents && parents[n] in Subtree(parents, rank, name) ==> n in Subtree(parents, rank, name)
    ensures Subtree(parents, rank, name) <= s
  {
    forall n | n in parents
      ensures parents[n] in Subtree(parents, rank, name) ==> n in Subtree(parents, rank, name)
    {
      SubtreeStep(parents, rank, name, n);
    }
    forall m | m in Subtree(parents, rank, name)
      ensures m in s
    {
      BelowWithin(parents, rank, m, name, s);
    }
  }

  lemma {:induction false} BelowWithin(parents: map<string, string>, rank: map<string, nat>, m: string, name: string, s: set<string>)
    requires Forest(parents, rank) && m in parents && Below(parents, rank, m, name) && name in s
    requires forall n :: n in parents && parents[n] in s ==> n in s
    ensures m in s
    decreases rank[m]
  {
    if m != name {
      assert HigherUp(rank, parents[m], m);
      BelowWithin(parents, rank, parents[m], name, s);
    }
  }

  class RuntimeProfile {
    var parents: map<string, string>
    var children: map<string, set<string>>
    ghost var rank: map<string, nat>
    ghost var loose: set<string>

    ghost predicate Valid()
      reads this
    {
      Forest(parents, rank) && SameForest(parents, children, loose)
    }

    constructor ()
      ensures Valid() && parents == map[TOTAL_TIME := ROOT] && loose == {TOTAL_TIME}
    {
      parents := map[TOTAL_TIME := ROOT];
      children := map[];
      rank := map[TOTAL_TIME := 0];
      loose := {TOTAL_TIME};
    }

    /** Adds a counter under an existing parent; a counter that exists is left where it is. The
        empty name is the root's own: a counter of that name makes the forest invalid. */
    method AddCounter(name: string, parent: string)
      requires Valid() && (parent == ROOT || parent in parents)
      modifies this
      ensures (Valid() <==> name != ROOT) && loose == old(loose)
      ensures parents == if name in old(parents) then old(parents) else old(parents)[name := parent]
    {
      hide Forest, SameForest;
      RootIsNoCounter(parents, rank);
      RankKnown(parents, rank, parent);
      if name in parents {
        return;
      }
      if name != ROOT {
        AddKeepsForest(parents, rank, name, parent);
        AddKeepsSame(parents, children, loose, name, parent);
      } else {
        RootIsNoCounter(parents[name := parent], rank[name := if parent == ROOT then 0 else rank[parent] + 1]);
      }
      parents := parents[name := parent];
      children := children[parent := ChildrenOf(children, parent) + {name}];
      rank := rank[name := if parent == ROOT then 0 else rank[parent] + 1];
    }

    /** Removes a counter and everything below it; an unknown counter is ignored. The built-in counter may be
        named only while the root has no child set to take it from. */
    method RemoveCounter(name: string)
      requires Valid() && (name in loose ==> ROOT !in children)
      modifies this
      ensures Valid()
      ensures name !in old(parents) ==> parents == old(parents) && children == old(children)
      ensures name in old(parents) ==>
        parents == old(parents) - old(Subtree(parents, rank, name))
        && children == old(Detached(children, parents[name], name)) - old(Subtree(parents, rank, name))
    {
      if name !in parents {
        return;
      }
      ghost var gone := Subtree(parents, rank, name);
      RemovedKeepsForest(parents, children, loose, rank, name, gone);
      ghost var before, detached := parents, Detached(children, parents[name], name);
      forall t | t in gone
        ensures Lists(detached, before, t)
      {
        DetachedLists(parents, children, loose, rank, name, t);
      }
      hide Forest, SameForest, Subtree, Below, Lists;
      if parents[name] in children {
        children := children[parents[name] := children[parents[name]] - {name}];
      }
      loose := loose - gone;
      RemoveBelow(name, before, detached, gone);
    }

    /** The worklist loop. */
    method RemoveBelow(name: string, ghost before: map<string, string>, ghost detached: map<string, set<string>>, ghost gone: set<string>)
      requires Forest(before, rank) && name in before && gone == Subtree(before, rank, name)
      requires parents == before && children == detached
      requires forall t :: t in gone ==> Lists(detached, before, t)
      modifies `parents, `children
      ensures parents == before - gone && children == detached - gone
    {
      hide Forest, Subtree, Below, Removing, Lists;
      var nameQueue := [name];
      ghost var removed: set<string> := {};
      RemovingStart(before, rank, name);
      while nameQueue != []
        invariant Removing(before, rank, name, removed, nameQueue)
        invariant parents == before - removed && children == detached - removed
        decreases |parents|
      {
        RemovingFacts(before, rank, name, removed, nameQueue);
        var top := nameQueue[0];
        var kids := TakeOut(top, before, detached, removed);
        RemovingStep(before, rank, name, removed, nameQueue, kids);
        nameQueue := nameQueue[1..] + kids;
        removed := removed + {top};
      }
      RemovingDone(before, rank, name, removed);
    }

    /** Keeps the saved counters and everything above them. */
    method RemoveCounters(savedNames: set<string>)
      requires Valid()
      modifies this
      ensures Valid()
      ensures parents == old(Kept(parents, Closure(parents, rank, savedNames)))
      ensures children == old(KeptChildren(children, Closure(parents, rank, savedNames)))
    {
      var all := SavedAndAbove(savedNames);
      ClosureIsUpClosed(parents, rank, savedNames, all);
      KeptKeepsForest(parents, children, loose, rank, all);
      KeptSame(parents, children, loose, rank, savedNames, all);
      hide Forest, SameForest, Closure, Kept, KeptChildren;
      FilterChildren(all);
      FilterCounters(all);
      loose := loose * all;
    }

    method SavedAndAbove(savedNames: set<string>) returns (all: set<string>)
      requires Valid()
      ensures ROOT in all
      ensures forall x :: x != ROOT ==> (x in all <==> exists s :: s in savedNames && Below(parents, rank, s, x))
    {
      all := {ROOT};
      var rest := savedNames;
      while rest != {}
        invariant rest <= savedNames && ROOT in all
        invariant forall x :: x != ROOT ==>
          (x in all <==> exists s :: s in savedNames - rest && Below(parents, rank, s, x))
        decreases |rest|
      {
        var s :| s in rest;
        var up := Climb(parents, rank, s);
        assert savedNames - (rest - {s}) == savedNames - rest + {s};
        all := all + up;
        rest := rest - {s};
      }
      assert savedNames - rest == savedNames;
    }

    method FilterChildren(all: set<string>)
      modifies `children
      ensures children == KeptChildren(old(children), all)
    {
      ghost var before := children;
      var rest := children.Keys;
      var kept: map<string, set<string>> := map[];
      while rest != {}
        invariant rest <= before.Keys && children == before
        invariant forall p :: p in kept <==> p in before && p !in rest && (p == ROOT || before[p] * all != {})
        invariant forall p :: p in kept ==> kept[p] == before[p] * all
        decreases |rest|
      {
        var p :| p in rest;
        var childNames := children[p] * all;
        if p == ROOT || childNames != {} {
          kept := kept[p := childNames];
        }
        rest := rest - {p};
      }
      children := kept;
    }

    method FilterCounters(all: set<string>)
      modifies `parents
      ensures parents == Kept(old(parents), all)
    {
      ghost var before := parents;
      var rest := parents.Keys;
      while rest != {}
        invariant rest <= before.Keys
        invariant forall n :: n in parents <==> n in before && (n in rest || n in all)
        invariant forall n :: n in parents ==> parents[n] == before[n]
        decreases |rest|
      {
        var n :| n in rest;
        if n !in all {
          parents := parents - {n};
        }
        rest := rest - {n};
      }
    }

    /** Erases one counter and its child set, whose members it returns. */
    method TakeOut(top: string, ghost before: map<string, string>, ghost detached: map<string, set<string>>, ghost removed: set<string>)
      returns (kids: seq<string>)
      requires parents == before - removed && children == detached - removed
      requires top in before && top !in removed && Lists(detached, before, top)
      modifies `parents, `children
      ensures parents == before - (removed + {top}) && children == detached - (removed + {top})
      ensures |parents| < |old(parents)| && Distinct(kids)
      ensures forall c :: c in kids <==> c in before && before[c] == top
    {
      kids := [];
      if top in children {
        kids := Elements(children[top]);
      }
      MinusTwice(before, removed, top);
      MinusTwice(detached, removed, top);
      assert |parents| == |parents - {top}| + 1;
      parents := parents - {top};
      children := children - {top};
    }
  }

  // ---- keeping some counters and what is above them ----

  /** The counters that are saved or have a saved counter below them. */
  ghost function Closure(parents: map<string, string>, rank: map<string, nat>, saved: set<string>): set<string>
    requires Forest(parents, rank)
  {
    set m | m in parents && exists s :: s in saved && Below(parents, rank, s, m)
  }

  /** Only the kept counters. */
  function Kept(parents: map<string, string>, all: set<string>): map<string, string> {
    map n | n in parents && n in all :: parents[n]
  }

  /** Only the kept children; a child set left empty goes, except the root's. */
  function KeptChildren(children: map<string, set<string>>, all: set<string>): map<string, set<string>> {
    map p | p in children && (p == ROOT || children[p] * all != {}) :: children[p] * all
  }

  /** Names closed under taking the parent. */
  ghost predicate UpClosed(parents: map<string, string>, all: set<string>) {
    forall n :: n in parents && n in all ==> parents[n] == ROOT || parents[n] in all
  }

  lemma KeptKeepsForest(parents: map<string, string>, children: map<string, set<string>>, loose: set<string>,
                        rank: map<string, nat>, all: set<string>)
    requires Forest(parents, rank) && SameForest(parents, children, loose) && UpClosed(parents, all)
    ensures Forest(Kept(parents, all), rank)
    ensures SameForest(Kept(parents, all), KeptChildren(children, all), loose * all)
  {
    forall n | n in parents && parents[n] != ROOT
      ensures HigherUp(rank, parents[n], n)
    {
    }
    forall n
      ensures Hangs(Kept(parents, all), KeptChildren(children, all), loose * all, n)
    {
      assert Hangs(parents, children, loose, n);
      if n in parents && n in all && n !in loose {
        assert n in children[parents[n]] * all;
      }
    }
    forall p
      ensures Keeps(Kept(parents, all), KeptChildren(children, all), loose * all, p)
    {
      KeptKeeps(parents, children, loose, all, p);
    }
  }

  lemma ClosureIsUpClosed(parents: map<string, string>, rank: map<string, nat>, saved: set<string>, all: set<string>)
    requires Forest(parents, rank)
    requires forall x :: x != ROOT ==> (x in all <==> exists s :: s in saved && Below(parents, rank, s, x))
    ensures UpClosed(parents, all)
  {
    forall n | n in parents && n in all && parents[n] != ROOT
      ensures parents[n] in all
    {
      var s :| s in saved && Below(parents, rank, s, n);
      assert HigherUp(rank, parents[n], n);
      assert Below(parents, rank, n, parents[n]);
      BelowTransitive(parents, rank, s, n, parents[n]);
    }
  }

  /** What is kept are the saved counters with the parents of all that is kept, and nothing else. */
  lemma ClosureIsLeast(parents: map<string, string>, rank: map<string, nat>, saved: set<string>, s: set<string>)
    requires Forest(parents, rank)
    requires forall n :: n in saved && n in parents ==> n in s
    requires forall n :: n in parents && n in s && parents[n] != ROOT ==> parents[n] in s
    ensures forall n :: n in saved && n in parents ==> n in Closure(parents, rank, saved)
    ensures forall n :: n in Closure(parents, rank, saved) && parents[n] != ROOT ==> parents[n] in Closure(parents, rank, saved)
    ensures Closure(parents, rank, saved) <= s
  {
    forall n | n in saved && n in parents
      ensures n in Closure(parents, rank, saved)
    {
      assert Below(parents, rank, n, n);
    }
    forall n | n in Closure(parents, rank, saved) && parents[n] != ROOT
      ensures parents[n] in Closure(parents, rank, saved)
    {
      var x :| x in saved && Below(parents, rank, x, n);
      assert HigherUp(rank, parents[n], n);
      assert Below(parents, rank, n, parents[n]);
      BelowTransitive(parents, rank, x, n, parents[n]);
    }
    forall m | m in Closure(parents, rank, saved)
      ensures m in s
    {
      var x :| x in saved && Below(parents, rank, x, m);
      AboveWithin(parents, rank, x, m, s);
    }
  }

  lemma {:induction false} AboveWithin(parents: map<string, string>, rank: map<string, nat>, x: string, m: string, s: set<string>)
    requires Forest(parents, rank) && m in parents && Below(parents, rank, x, m) && (x in parents ==> x in s)
    requires forall n :: n in parents && n in s && parents[n] != ROOT ==> parents[n] in s
    ensures m in s
    decreases if x in rank then rank[x] else 0
  {
    if x != m {
      assert HigherUp(rank, parents[x], x);
      AboveWithin(parents, rank, parents[x], m, s);
    }
  }

  /** The saved names that are no counters make no difference. */
  lemma KeptSame(parents: map<string, string>, children: map<string, set<string>>, loose: set<string>,
                 rank: map<string, nat>, saved: set<string>, all: set<string>)
    requires Forest(parents, rank) && SameForest(parents, children, loose)
    requires forall x :: x != ROOT ==> (x in all <==> exists s :: s in saved && Below(parents, rank, s, x))
    ensures Kept(parents, all) == Kept(parents, Closure(parents, rank, saved))
    ensures KeptChildren(children, all) == KeptChildren(children, Closure(parents, rank, saved))
  {
    var closure := Closure(parents, rank, saved);
    forall n | n in parents
      ensures n in all <==> n in closure
    {
    }
    forall p | p in children
      ensures children[p] * all == children[p] * closure
    {
      assert Keeps(parents, children, loose, p);
    }
  }

  lemma KeptKeeps(parents: map<string, string>, children: map<string, set<string>>, loose: set<string>, all: set<string>, p: string)
    requires SameForest(parents, children, loose) && UpClosed(parents, all)
    ensures Keeps(Kept(parents, all), KeptChildren(children, all), loose * all, p)
  {
    assert Keeps(parents, children, loose, p);
    if p in KeptChildren(children, all) && p != ROOT {
      var n :| n in children[p] * all;
    }
  }

  lemma MinusTwice<T>(m: map<string, T>, removed: set<string>, x: string)
    ensures m - removed - {x} == m - (removed + {x})
  {
  }

  /** A name and everything above it, by climbing from parent to parent. */
  method Climb(parents: map<string, string>, ghost rank: map<string, nat>, s: string) returns (r: set<string>)
    requires Forest(parents, rank)
    ensures forall x :: x in r <==> x != ROOT && Below(parents, rank, s, x)
  {
    r := {};
    var name := s;
    while name != ROOT
      invariant ROOT !in r
      invariant forall x :: x != ROOT ==> (Below(parents, rank, s, x) <==> x in r || Below(parents, rank, name, x))
      decreases name != ROOT, if name in rank then rank[name] else 0
    {
      r := r + {name};
      if name !in parents {
        return;
      }
      assert parents[name] != ROOT ==> HigherUp(rank, parents[name], name);
      name := parents[name];
    }
  }

  /** The elements of a set, each once. */
  method Elements(s: set<string>) returns (r: seq<string>)
    ensures Distinct(r) && forall x :: x in r <==> x in s
  {
    r := [];
    var rest := s;
    while rest != {}
      invariant rest <= s && Distinct(r) && forall x :: x in r <==> x in s - rest
      decreases |rest|
    {
      var x :| x in rest;
      DistinctAppend(r, [x]);
      r := r + [x];
      rest := rest - {x};
    }
  }

  lemma RemovingStart(parents: map<string, string>, rank: map<string, nat>, name: string)
    requires Forest(parents, rank) && name in parents
    ensures Removing(parents, rank, name, {}, [name])
  {
    forall m | m in Subtree(parents, rank, name)
      ensures CoveredBy(parents, rank, m, [name])
    {
      assert Below(parents, rank, m, [name][0]);
    }
  }

  lemma RemovingFacts(parents: map<string, string>, rank: map<string, nat>, name: string, removed: set<string>, queue: seq<string>)
    requires Forest(parents, rank) && Removing(parents, rank, name, removed, queue) && queue != []
    ensures queue[0] in Subtree(parents, rank, name) && queue[0] in parents && queue[0] !in removed
  {
    assert queue[0] in queue;
  }

  lemma RemovingDone(parents: map<string, string>, rank: map<string, nat>, name: string, removed: set<string>)
    requires Forest(parents, rank) && Removing(parents, rank, name, removed, [])
    ensures removed == Subtree(parents, rank, name)
  {
  }

  lemma RankKnown(parents: map<string, string>, rank: map<string, nat>, n: string)
    requires Forest(parents, rank)
    ensures n in parents ==> n in rank
  {
  }
}
