/** Priority queues, and selection of the k least elements with one that is never longer than k. */
module TopK {
  import opened Sequences

  /** What a comparator must be for a priority queue: a strict order whose ties are transitive. */
  ghost predicate StrictWeak<T(!new)>(less: (T, T) -> bool) {
    (forall x :: !less(x, x))
    && (forall x, y, z :: less(x, y) && less(y, z) ==> less(x, z))
    && (forall x, y, z :: less(x, z) ==> less(x, y) || less(y, z))
  }

  /** x is as great as anything in the collection. */
  ghost predicate IsTop<T(!new)>(less: (T, T) -> bool, s: multiset<T>, x: T) {
    x in s && forall y :: y in s ==> !less(x, y)
  }

  ghost predicate Sorted<T>(less: (T, T) -> bool, s: seq<T>) {
    forall i, j :: 0 <= i < j < |s| ==> !less(s[j], s[i])
  }

  /** The standard priority queue: which of several greatest elements is on top is not determined. */
  class PriorityQueue<T(!new, ==)> {
    const less: (T, T) -> bool
    var items: seq<T>

    ghost predicate Valid()
      reads this
    {
      StrictWeak(less) && (items != [] ==> IsTop(less, multiset(items), items[0]))
    }

    constructor (less: (T, T) -> bool)
      requires StrictWeak(less)
      ensures Valid() && this.less == less && items == []
    {
      this.less := less;
      items := [];
    }

    method Push(x: T)
      requires Valid()
      modifies this
      ensures Valid() && multiset(items) == old(multiset(items)) + multiset{x}
    {
      if items == [] || less(items[0], x) {
        items := [x] + items;
      } else {
        items := items + [x];
      }
    }

    /** Removes the top and returns it. */
    method Pop() returns (top: T)
      requires Valid() && items != []
      modifies this
      ensures Valid() && IsTop(less, old(multiset(items)), top)
      ensures multiset(items) == old(multiset(items)) - multiset{top} && |items| == old(|items|) - 1
    {
      top := items[0];
      var rest := items[1..];
      assert items == [top] + rest;
      if rest == [] {
        items := [];
      } else {
        var m := Greatest(less, rest);
        assert rest == rest[..m] + [rest[m]] + rest[m + 1..];
        items := [rest[m]] + rest[..m] + rest[m + 1..];
      }
    }
  }

  method Greatest<T(!new)>(less: (T, T) -> bool, s: seq<T>) returns (m: nat)
    requires StrictWeak(less) && s != []
    ensures m < |s| && forall y :: y in s ==> !less(s[m], y)
  {
    m := 0;
    var i := 1;
    while i < |s|
      invariant m < i <= |s|
      invariant forall k :: 0 <= k < i ==> !less(s[m], s[k])
    {
      if less(s[m], s[i]) {
        m := i;
      }
      i := i + 1;
    }
  }

  // ---- what selecting the k least means ----

  function Min(a: nat, b: nat): nat {
    if a < b then a else b
  }

  /** Nothing left out is less than anything kept. */
  ghost predicate Dominates<T(!new)>(less: (T, T) -> bool, kept: multiset<T>, dropped: multiset<T>) {
    forall x, y :: x in dropped && y in kept ==> !less(x, y)
  }

  /** out is k least elements of the input, least first, and dropped is the rest. */
  ghost predicate Selects<T(!new)>(less: (T, T) -> bool, input: seq<T>, k: nat, out: seq<T>, dropped: multiset<T>) {
    multiset(input) == multiset(out) + dropped && |out| == Min(k, |input|)
    && Sorted(less, out) && Dominates(less, multiset(out), dropped)
  }

  ghost predicate Total<T(!new)>(less: (T, T) -> bool) {
    StrictWeak(less) && forall x, y :: !less(x, y) && !less(y, x) ==> x == y
  }

  /** Under a total order there is only one selection. */
  lemma {:induction false} SelectionUnique<T(!new)>(
      less: (T, T) -> bool, a: seq<T>, a': multiset<T>, b: seq<T>, b': multiset<T>)
    requires Total(less) && multiset(a) + a' == multiset(b) + b' && |a| == |b|
    requires Sorted(less, a) && Sorted(less, b)
    requires Dominates(less, multiset(a), a') && Dominates(less, multiset(b), b')
    ensures a == b
  {
    if a != [] {
      FirstIsLeast(less, a, a', b[0]);
      FirstIsLeast(less, b, b', a[0]);
      assert a[0] == b[0];
      HeadAndTail(a);
      HeadAndTail(b);
      SameTails(multiset(a[1..]), a', multiset(b[1..]), b', a[0]);
      SelectionUnique(less, a[1..], a', b[1..], b');
    }
  }

  lemma SameTails<T>(a: multiset<T>, a': multiset<T>, b: multiset<T>, b': multiset<T>, x: T)
    requires multiset{x} + a + a' == multiset{x} + b + b'
    ensures a + a' == b + b'
  {
    assert a + a' == multiset{x} + a + a' - multiset{x};
    assert b + b' == multiset{x} + b + b' - multiset{x};
  }

  lemma FirstIsLeast<T(!new)>(less: (T, T) -> bool, a: seq<T>, a': multiset<T>, x: T)
    requires StrictWeak(less) && a != [] && Sorted(less, a) && Dominates(less, multiset(a), a')
    requires x in multiset(a) + a'
    ensures !less(x, a[0])
  {
    if x in a {
      var i :| 0 <= i < |a| && a[i] == x;
    } else {
      assert x in a' && a[0] in multiset(a);
    }
  }

  /** The plain reference: sorting by insertion. */
  function Sort<T>(less: (T, T) -> bool, s: seq<T>): (r: seq<T>)
    ensures |r| == |s|
  {
    if s == [] then [] else Insert(less, s[0], Sort(less, s[1..]))
  }

  function Insert<T>(less: (T, T) -> bool, x: T, s: seq<T>): (r: seq<T>)
    ensures |r| == |s| + 1
  {
    if s == [] || !less(s[0], x) then [x] + s else [s[0]] + Insert(less, x, s[1..])
  }

  lemma {:induction false} InsertSorted<T(!new)>(less: (T, T) -> bool, x: T, s: seq<T>)
    requires StrictWeak(less) && Sorted(less, s)
    ensures Sorted(less, Insert(less, x, s)) && multiset(Insert(less, x, s)) == multiset(s) + multiset{x}
  {
    if s == [] || !less(s[0], x) {
    } else {
      InsertSorted(less, x, s[1..]);
      HeadAndTail(s);
      var r := Insert(less, x, s[1..]);
      forall y | y in r
        ensures !less(y, s[0])
      {
        assert y in multiset(r);
        assert y == x || y in s[1..];
      }
      ConsSorted(less, s[0], r);
    }
  }

  lemma ConsSorted<T(!new)>(less: (T, T) -> bool, x: T, s: seq<T>)
    requires Sorted(less, s) && forall y :: y in s ==> !less(y, x)
    ensures Sorted(less, [x] + s) && multiset([x] + s) == multiset(s) + multiset{x}
  {
  }

  lemma {:induction false} SortSorts<T(!new)>(less: (T, T) -> bool, s: seq<T>)
    requires StrictWeak(less)
    ensures Sorted(less, Sort(less, s)) && multiset(Sort(less, s)) == multiset(s)
  {
    if s != [] {
      SortSorts(less, s[1..]);
      InsertSorted(less, s[0], Sort(less, s[1..]));
      assert s == [s[0]] + s[1..];
    }
  }

  /** Any selection is what sorting and truncating gives, when the order is total. */
  lemma {:induction false} SelectionIsSortedPrefix<T(!new)>(less: (T, T) -> bool, input: seq<T>, k: nat, out: seq<T>, dropped: multiset<T>)
    requires Total(less) && Selects(less, input, k, out, dropped)
    ensures out == Sort(less, input)[..Min(k, |input|)]
  {
    SortSorts(less, input);
    var s, m := Sort(less, input), Min(k, |input|);
    assert s == s[..m] + s[m..];
    PrefixDominates(less, s, m);
    SelectionUnique(less, out, dropped, s[..m], multiset(s[m..]));
  }

  lemma PrefixDominates<T(!new)>(less: (T, T) -> bool, s: seq<T>, m: nat)
    requires Sorted(less, s) && m <= |s|
    ensures Sorted(less, s[..m]) && Dominates(less, multiset(s[..m]), multiset(s[m..]))
  {
    forall x, y | x in s[m..] && y in s[..m]
      ensures !less(x, y)
    {
      var i :| 0 <= i < m && s[i] == y;
      var j :| 0 <= j < |s| - m && s[m..][j] == x;
      assert s[m + j] == x;
    }
  }

  // ---- the loops ----

  /** A queue that has kept k least elements of the input so far. */
  ghost predicate Kept<T(!new)>(less: (T, T) -> bool, input: seq<T>, k: nat, kept: multiset<T>, dropped: multiset<T>) {
    multiset(input) == kept + dropped && |kept| == Min(k, |input|) && Dominates(less, kept, dropped)
  }

  lemma NothingKept<T(!new)>(less: (T, T) -> bool, input: seq<T>, k: nat)
    ensures Kept(less, input[..0], k, multiset([]), multiset{})
  {
  }

  /** One more element, and one pop if that makes the queue longer than k. */
  lemma KeepStep<T(!new)>(less: (T, T) -> bool, input: seq<T>, k: nat, kept: multiset<T>, dropped: multiset<T>, x: T)
    requires StrictWeak(less) && Kept(less, input, k, kept, dropped)
    ensures |input| < k ==> Kept(less, input + [x], k, kept + multiset{x}, dropped)
    ensures |input| >= k ==>
      forall top :: IsTop(less, kept + multiset{x}, top) ==>
        Kept(less, input + [x], k, kept + multiset{x} - multiset{top}, dropped + multiset{top})
  {
    assert multiset(input + [x]) == multiset(input) + multiset{x};
    if |input| < k {
      assert |kept + dropped| == |kept| + |dropped| && |multiset(input)| == |input|;
    } else {
      forall top | IsTop(less, kept + multiset{x}, top)
        ensures Kept(less, input + [x], k, kept + multiset{x} - multiset{top}, dropped + multiset{top})
      {
        KeepFull(less, kept, dropped, x, top);
      }
    }
  }

  lemma KeepFull<T(!new)>(less: (T, T) -> bool, kept: multiset<T>, dropped: multiset<T>, x: T, top: T)
    requires StrictWeak(less) && Dominates(less, kept, dropped) && IsTop(less, kept + multiset{x}, top)
    ensures Dominates(less, kept + multiset{x} - multiset{top}, dropped + multiset{top})
  {
    var kept', dropped' := kept + multiset{x} - multiset{top}, dropped + multiset{top};
    forall d, y | d in dropped' && y in kept'
      ensures !less(d, y)
    {
      assert y in kept + multiset{x};
      if d != top && y !in kept {
        assert top in kept && !less(d, top) && !less(top, y);
      }
    }
  }

  /** Pushes an element and pops while the queue is longer than the limit. */
  method PushBounded<T(!new, ==)>(q: PriorityQueue<T>, x: T, k: nat, ghost input: seq<T>, ghost dropped: multiset<T>)
    returns (ghost dropped': multiset<T>)
    requires q.Valid() && Kept(q.less, input, k, multiset(q.items), dropped)
    modifies q
    ensures q.Valid() && Kept(q.less, input + [x], k, multiset(q.items), dropped')
  {
    KeepStep(q.less, input, k, multiset(q.items), dropped, x);
    dropped' := dropped;
    q.Push(x);
    while |q.items| > k
      invariant q.Valid()
      invariant |q.items| > k ==>
        forall top :: IsTop(q.less, multiset(q.items), top) ==>
          Kept(q.less, input + [x], k, multiset(q.items) - multiset{top}, dropped' + multiset{top})
      invariant |q.items| <= k ==> Kept(q.less, input + [x], k, multiset(q.items), dropped')
    {
      var top := q.Pop();
      dropped' := dropped' + multiset{top};
    }
  }

  /** Empties a queue into a sequence, greatest element last. */
  method Drain<T(!new, ==)>(q: PriorityQueue<T>) returns (out: seq<T>)
    requires q.Valid()
    modifies q
    ensures q.Valid() && q.items == [] && multiset(out) == old(multiset(q.items)) && Sorted(q.less, out)
  {
    out := [];
    while q.items != []
      invariant q.Valid() && Sorted(q.less, out)
      invariant multiset(out) + multiset(q.items) == old(multiset(q.items))
      invariant forall x, y :: x in out && y in multiset(q.items) ==> !q.less(x, y)
      decreases |q.items|
    {
      ghost var before := multiset(q.items);
      var top := q.Pop();
      assert before == multiset(q.items) + multiset{top};
      ConsSorted(q.less, top, out);
      out := [top] + out;
    }
  }

  ghost predicate IsSelection<T(!new)>(less: (T, T) -> bool, input: seq<T>, k: nat, out: seq<T>) {
    exists dropped :: Selects(less, input, k, out, dropped)
  }

  /** Pushes a whole input through a queue of at most k elements and empties it. */
  method SelectLeast<T(!new, ==)>(less: (T, T) -> bool, input: seq<T>, k: nat) returns (out: seq<T>)
    requires StrictWeak(less)
    ensures IsSelection(less, input, k, out)
  {
    hide StrictWeak, Kept, Sorted, PriorityQueue.Valid;
    var heap := new PriorityQueue(less);
    ghost var dropped: multiset<T> := multiset{};
    NothingKept(less, input, k);
    var i := 0;
    while i < |input|
      invariant 0 <= i <= |input| && heap.Valid() && heap.less == less && fresh(heap)
      invariant Kept(less, input[..i], k, multiset(heap.items), dropped)
    {
      assert input[..i] + [input[i]] == input[..i + 1];
      dropped := PushBounded(heap, input[i], k, input[..i], dropped);
      i := i + 1;
    }
    assert input[..|input|] == input;
    out := Drain(heap);
    DrainedSelects(less, input, k, out, dropped);
  }

  lemma DrainedSelects<T(!new)>(less: (T, T) -> bool, input: seq<T>, k: nat, out: seq<T>, dropped: multiset<T>)
    requires Kept(less, input, k, multiset(out), dropped) && Sorted(less, out)
    ensures Selects(less, input, k, out, dropped)
  {
    assert |out| == |multiset(out)|;
  }

  // ---- orders by a key ----

  function LessBy<T>(key: T -> real): (T, T) -> bool {
    (x, y) => key(x) < key(y)
  }

  function RealLess(): (real, real) -> bool {
    (x, y) => x < y
  }

  lemma LessByIsOrder<T(!new)>(key: T -> real)
    ensures StrictWeak(LessBy(key)) && Total(RealLess())
  {
  }

  ghost function ToSeq<T>(m: multiset<T>): (s: seq<T>)
    ensures multiset(s) == m
    decreases |m|
  {
    if m == multiset{} then []
    else
      var x :| x in m;
      [x] + ToSeq(m - multiset{x})
  }

  /** An order that compares elements by their images. */
  ghost predicate Compares<T(!new), U>(less: (T, T) -> bool, f: T -> U, less': (U, U) -> bool) {
    forall x, y :: less(x, y) <==> less'(f(x), f(y))
  }

  lemma ComparesIsOrder<T(!new), U(!new)>(less: (T, T) -> bool, f: T -> U, less': (U, U) -> bool)
    requires Compares(less, f, less') && StrictWeak(less')
    ensures StrictWeak(less)
  {
    forall x, y, z
      ensures !less(x, x) && (less(x, y) && less(y, z) ==> less(x, z)) && (less(x, z) ==> less(x, y) || less(y, z))
    {
      assert !less'(f(x), f(x)) && (less'(f(x), f(y)) && less'(f(y), f(z)) ==> less'(f(x), f(z)));
    }
  }

  /** The images of a selection are a selection of the images. */
  lemma SelectionMap<T(!new), U(!new)>(less: (T, T) -> bool, f: T -> U, less': (U, U) -> bool, input: seq<T>, k: nat, out: seq<T>)
    requires Compares(less, f, less') && IsSelection(less, input, k, out)
    ensures IsSelection(less', Map(f, input), k, Map(f, out))
  {
    var dropped :| Selects(less, input, k, out, dropped);
    var rest := ToSeq(dropped);
    MapPermutation(f, input, out + rest);
    assert Map(f, out + rest) == Map(f, out) + Map(f, rest);
    MapDominates(less, f, less', out, rest);
    assert Selects(less', Map(f, input), k, Map(f, out), multiset(Map(f, rest)));
  }

  lemma MapDominates<T(!new), U(!new)>(less: (T, T) -> bool, f: T -> U, less': (U, U) -> bool, out: seq<T>, rest: seq<T>)
    requires Compares(less, f, less') && Sorted(less, out) && Dominates(less, multiset(out), multiset(rest))
    ensures Sorted(less', Map(f, out)) && Dominates(less', multiset(Map(f, out)), multiset(Map(f, rest)))
  {
    forall x, y | x in multiset(Map(f, rest)) && y in multiset(Map(f, out))
      ensures !less'(x, y)
    {
      var i :| 0 <= i < |rest| && Map(f, rest)[i] == x;
      var j :| 0 <= j < |out| && Map(f, out)[j] == y;
      assert rest[i] in multiset(rest) && out[j] in multiset(out);
    }
  }

  /** Whatever the choice among ties, the images selected are those of sorting and truncating the images. */
  lemma SelectionImages<T(!new), U(!new)>(less: (T, T) -> bool, f: T -> U, less': (U, U) -> bool, input: seq<T>, k: nat, out: seq<T>)
    requires Compares(less, f, less') && Total(less') && IsSelection(less, input, k, out)
    ensures Map(f, out) == Sort(less', Map(f, input))[..Min(k, |input|)]
  {
    SelectionMap(less, f, less', input, k, out);
    var dropped :| Selects(less', Map(f, input), k, Map(f, out), dropped);
    SelectionIsSortedPrefix(less', Map(f, input), k, Map(f, out), dropped);
  }

  /** What is selected among images is the image of a part of the input, and the images of the other part are what is
      left out. */
  lemma {:induction false} SelectionPreimage<T, U>(f: T -> U, s: seq<T>, out: seq<U>, dropped: multiset<U>)
    returns (chosen: seq<T>, others: multiset<T>)
    requires multiset(Map(f, s)) == multiset(out) + dropped
    ensures multiset(s) == multiset(chosen) + others && Map(f, chosen) == out
    ensures forall x :: x in others ==> f(x) in dropped
    decreases |s|
  {
    if out == [] {
      chosen, others := [], multiset(s);
      assert multiset(out) == multiset{} && multiset(chosen) == multiset{};
      ImagesIn(f, s);
    } else {
      hide Map;
      assert out[0] in multiset(out);
      var x, rest := PickImage(f, s, out[0]);
      HeadAndTail(out);
      SameTails(multiset(Map(f, rest)), multiset{}, multiset(out[1..]), dropped, out[0]);
      var tail;
      tail, others := SelectionPreimage(f, rest, out[1..], dropped);
      chosen := MapCons(f, x, tail);
    }
  }

  /** Elements that occur at most once in a collection are at different places of any part of it. */
  lemma {:induction false} PartDistinct<T>(whole: multiset<T>, part: seq<T>, rest: multiset<T>)
    requires whole == multiset(part) + rest && forall x :: whole[x] <= 1
    ensures forall i, j :: 0 <= i < j < |part| ==> part[i] != part[j]
  {
    forall i, j | 0 <= i < j < |part|
      ensures part[i] != part[j]
    {
      assert part == part[..j] + [part[j]] + part[j + 1..];
      assert part[..j][i] == part[i] && part[i] in multiset(part[..j]);
      assert whole[part[j]] >= multiset(part[..j])[part[j]] + 1;
    }
  }

  /** Ascending numbers occur once. */
  lemma {:induction false} AscendingOnce(s: seq<int>)
    requires forall i, j :: 0 <= i < j < |s| ==> s[i] < s[j]
    ensures forall x :: multiset(s)[x] <= 1
  {
    if s != [] {
      var m := |s| - 1;
      AscendingOnce(s[..m]);
      assert s == s[..m] + [s[m]];
      assert s[m] !in s[..m];
    }
  }

  lemma ImagesIn<T, U>(f: T -> U, s: seq<T>)
    ensures forall x :: x in multiset(s) ==> f(x) in multiset(Map(f, s))
  {
    forall x | x in multiset(s)
      ensures f(x) in multiset(Map(f, s))
    {
      var i :| 0 <= i < |s| && s[i] == x;
      assert Map(f, s)[i] == f(x);
    }
  }

  lemma MapCons<T, U>(f: T -> U, x: T, s: seq<T>) returns (r: seq<T>)
    ensures r == [x] + s && Map(f, r) == [f(x)] + Map(f, s) && multiset(r) == multiset{x} + multiset(s)
  {
    r := [x] + s;
    assert Map(f, r) == [f(x)] + Map(f, s);
  }

  /** Taking out an element with a given image. */
  lemma PickImage<T, U>(f: T -> U, s: seq<T>, y: U) returns (x: T, rest: seq<T>)
    requires y in multiset(Map(f, s))
    ensures f(x) == y && |rest| + 1 == |s| && multiset(s) == multiset(rest) + multiset{x}
    ensures multiset(Map(f, s)) == multiset(Map(f, rest)) + multiset{y}
  {
    assert y in Map(f, s);
    var i :| 0 <= i < |s| && Map(f, s)[i] == y;
    x, rest := s[i], s[..i] + s[i + 1..];
    assert s == s[..i] + [x] + s[i + 1..];
    MapAround(f, [], x, s[..i], s[i + 1..]);
  }

  /** Under a total order, inputs with the same elements have the same sorted list. */
  lemma SortPermutation<T(!new)>(less: (T, T) -> bool, a: seq<T>, b: seq<T>)
    requires Total(less) && multiset(a) == multiset(b)
    ensures Sort(less, a) == Sort(less, b)
  {
    SortSorts(less, a);
    SortSorts(less, b);
    assert |a| == |multiset(a)| == |multiset(b)| == |b|;
    SelectionUnique(less, Sort(less, a), multiset{}, Sort(less, b), multiset{});
  }
}
