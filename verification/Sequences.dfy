/** Mapping over sequences, and sequences with the same elements. */
module Sequences {

  function Map<T, U>(f: T -> U, s: seq<T>): (r: seq<U>)
    ensures |r| == |s|
  {
    seq(|s|, i requires 0 <= i < |s| => f(s[i]))
  }

  /** The numbers below n. */
  function Range(n: nat): (s: seq<nat>)
    ensures |s| == n
  {
    seq(n, i => i)
  }

  lemma HeadAndTail<T>(s: seq<T>)
    requires s != []
    ensures s == [s[0]] + s[1..] && multiset(s) == multiset{s[0]} + multiset(s[1..])
  {
    assert s == [s[0]] + s[1..];
  }

  /** Taking the same element out of two sequences with the same elements. */
  lemma MultisetMiddle<T>(a: seq<T>, x: T, s: seq<T>, t: seq<T>)
    requires multiset(a + [x]) == multiset(s + [x] + t)
    ensures multiset(a) == multiset(s + t)
  {
    assert multiset(a + [x]) == multiset(a) + multiset{x};
    assert multiset(s + [x] + t) == multiset(s) + multiset{x} + multiset(t);
    assert multiset(s + t) == multiset(s) + multiset(t);
    assert multiset(a) == multiset(a + [x]) - multiset{x};
  }

  /** Sequences with the same elements have images with the same elements. */
  lemma {:induction false} MapPermutation<T, U>(f: T -> U, a: seq<T>, b: seq<T>)
    requires multiset(a) == multiset(b)
    ensures multiset(Map(f, a)) == multiset(Map(f, b))
    decreases |a|
  {
    if a == [] {
      assert |multiset(b)| == 0;
    } else {
      var a', x := a[..|a| - 1], a[|a| - 1];
      assert a == a' + [x] && x in multiset(b);
      var j :| 0 <= j < |b| && b[j] == x;
      var s, t := b[..j], b[j + 1..];
      assert b == s + [x] + t;
      MultisetMiddle(a', x, s, t);
      MapPermutation(f, a', s + t);
      MapAround(f, a', x, s, t);
    }
  }

  lemma MapAround<T, U>(f: T -> U, a: seq<T>, x: T, s: seq<T>, t: seq<T>)
    ensures multiset(Map(f, a + [x])) == multiset(Map(f, a)) + multiset{f(x)}
    ensures multiset(Map(f, s + [x] + t)) == multiset(Map(f, s + t)) + multiset{f(x)}
  {
    assert Map(f, a + [x]) == Map(f, a) + [f(x)];
    assert Map(f, s + [x] + t) == Map(f, s) + [f(x)] + Map(f, t);
    assert Map(f, s + t) == Map(f, s) + Map(f, t);
  }
}
