/** Distance conversions, and truncation of search results to the k nearest. */
module DistanceUtil {
  import opened Sequences
  import opened TopK
  import opened Vectors
  import opened Wrappers

  // ---- conversions ----

  /** dst[i] becomes 1 - src[i] / 2; both may be the same buffer. */
  method L2DistanceToCosineSimilarity(src: array<real>, dst: array<real>, k: nat)
    requires k <= src.Length && k <= dst.Length
    modifies dst
    ensures forall i :: 0 <= i < k ==> dst[i] == 1.0 - old(src[i]) / 2.0
    ensures dst[k..] == old(dst[k..])
  {
    var i := 0;
    while i < k
      invariant 0 <= i <= k
      invariant forall j :: 0 <= j < i ==> dst[j] == 1.0 - old(src[j]) / 2.0
      invariant forall j :: i <= j < k ==> src[j] == old(src[j])
      invariant dst[k..] == old(dst[k..])
    {
      dst[i] := 1.0 - src[i] / 2.0;
      i := i + 1;
    }
  }

  function SimilarityOf(d: real): real {
    1.0 - d / 2.0
  }

  /** The squared distance at which a cosine similarity threshold is met; none outside [-1, 1]. */
  function CosineSimilarityThresholdToL2Distance(threshold: real): Option<real> {
    if threshold < -1.0 || threshold > 1.0 then None else Some((1.0 - threshold) * 2.0)
  }

  /** For unit vectors the converted distance is their cosine. */
  lemma SimilarityIsCosine(x: Vec, y: Vec)
    requires |x| == |y| && SqNorm(x) == 1.0 && SqNorm(y) == 1.0
    ensures SimilarityOf(SqDist(x, y)) == Dot(x, y)
  {
    SqDistExpand(x, y);
  }

  /** A range search by the converted threshold finds exactly the unit vectors at least that similar, and
      similarity orders them opposite to distance. */
  lemma ThresholdIsExact(threshold: real, x: Vec, y: Vec, z: Vec)
    requires |x| == |y| == |z| && SqNorm(x) == 1.0 && SqNorm(y) == 1.0 && SqNorm(z) == 1.0
    requires -1.0 <= threshold <= 1.0
    ensures SqDist(x, y) <= CosineSimilarityThresholdToL2Distance(threshold).value <==> Dot(x, y) >= threshold
    ensures SqDist(x, y) <= SqDist(x, z) <==> Dot(x, y) >= Dot(x, z)
  {
    SqDistExpand(x, y);
    SqDistExpand(x, z);
  }

  /** Every similarity of unit vectors is an allowed threshold. */
  lemma CosineInRange(x: Vec, y: Vec)
    requires |x| == |y| && SqNorm(x) == 1.0 && SqNorm(y) == 1.0
    ensures CosineSimilarityThresholdToL2Distance(Dot(x, y)) == Some(SqDist(x, y))
  {
    CauchySchwarz(x, y);
    SquareOrder(Dot(x, y), 1.0);
    SquareOrder(-Dot(x, y), 1.0);
    SqDistExpand(x, y);
  }

  // ---- the k nearest ----

  datatype Neighbor = Neighbor(d: real, id: int)

  const TWO_31 := 0x8000_0000
  const TWO_32 := 0x1_0000_0000
  const TWO_63 := 0x8000_0000_0000_0000
  const TWO_64 := 0x1_0000_0000_0000_0000

  /** Storing a 64-bit id in a 32-bit field. */
  function ToInt32(id: int): int {
    (id + TWO_31) % TWO_32 - TWO_31
  }

  /** A 64-bit signed limit compared with an unsigned size. */
  function ToSize(k: int): nat
    requires -TWO_63 <= k < TWO_63
  {
    if k < 0 then k + TWO_64 else k
  }

  function Pairs(ids: seq<int>, distances: seq<real>): (ns: seq<Neighbor>)
    requires |ids| == |distances|
    ensures |ns| == |ids|
  {
    seq(|ids|, i requires 0 <= i < |ids| => Neighbor(distances[i], ids[i]))
  }

  /** A neighbor whose id is cut to 32 bits. */
  function Cut(n: Neighbor): Neighbor {
    Neighbor(n.d, ToInt32(n.id))
  }

  /** What the queue stores. */
  function Stored(ids: seq<int>, distances: seq<real>): (ns: seq<Neighbor>)
    requires |ids| == |distances|
    ensures |ns| == |ids|
  {
    Map(Cut, Pairs(ids, distances))
  }

  function Key(ascending: bool): Neighbor -> real {
    (n: Neighbor) => if ascending then n.d else -n.d
  }

  /** Closer first, or farther first; ids do not break ties. */
  function Order(ascending: bool): (Neighbor, Neighbor) -> bool {
    LessBy(Key(ascending))
  }

  /** What a selection means for the distances: they never fall with ascending order, never rise with descending, and
      nothing left out is better than anything kept. */
  lemma BestAre(ascending: bool, input: seq<Neighbor>, k: nat, out: seq<Neighbor>) returns (dropped: multiset<Neighbor>)
    requires IsSelection(Order(ascending), input, k, out)
    ensures multiset(input) == multiset(out) + dropped && |out| == if |input| < k then |input| else k
    ensures forall i, j :: 0 <= i < j < |out| ==> if ascending then out[i].d <= out[j].d else out[i].d >= out[j].d
    ensures forall n, i :: n in dropped && 0 <= i < |out| ==> if ascending then out[i].d <= n.d else out[i].d >= n.d
  {
    dropped :| Selects(Order(ascending), input, k, out, dropped);
    forall n, i | n in dropped && 0 <= i < |out|
      ensures if ascending then out[i].d <= n.d else out[i].d >= n.d
    {
      assert out[i] in multiset(out) && !Order(ascending)(n, out[i]);
    }
    forall i, j | 0 <= i < j < |out|
      ensures if ascending then out[i].d <= out[j].d else out[i].d >= out[j].d
    {
      assert !Order(ascending)(out[j], out[i]);
    }
  }

  /** The same for a selection among the images of ascending numbers: which numbers were chosen. */
  lemma BestOf(ascending: bool, f: int -> Neighbor, s: seq<int>, k: nat, out: seq<Neighbor>) returns (chosen: seq<int>)
    requires IsSelection(Order(ascending), Map(f, s), k, out)
    requires forall i, j :: 0 <= i < j < |s| ==> s[i] < s[j]
    ensures |chosen| == |out| == if |s| < k then |s| else k
    ensures forall i, j :: 0 <= i < j < |chosen| ==> chosen[i] != chosen[j]
    ensures forall j :: 0 <= j < |chosen| ==> chosen[j] in s && out[j] == f(chosen[j])
    ensures forall i, j :: 0 <= i < j < |out| ==> if ascending then out[i].d <= out[j].d else out[i].d >= out[j].d
    ensures forall x, j :: x in s && x !in chosen && 0 <= j < |out| ==>
      if ascending then out[j].d <= f(x).d else out[j].d >= f(x).d
    ensures |s| <= k ==> forall x :: x in s ==> x in chosen
  {
    var dropped := BestAre(ascending, Map(f, s), k, out);
    var others;
    chosen, others := SelectionPreimage(f, s, out, dropped);
    AscendingOnce(s);
    PartDistinct(multiset(s), chosen, others);
    forall j | 0 <= j < |chosen|
      ensures chosen[j] in s && out[j] == f(chosen[j])
    {
      assert chosen[j] in multiset(chosen) && Map(f, chosen)[j] == f(chosen[j]);
      assert chosen[j] in multiset(s);
    }
    assert |multiset(s)| == |multiset(chosen)| + |others| && |multiset(chosen)| == |chosen| && |multiset(s)| == |s|;
    forall x | x in s && x !in chosen
      ensures f(x) in dropped && |others| > 0
    {
      assert x in multiset(s) && x !in multiset(chosen) && x in others;
    }
  }

  /** The low 32 bits, as a signed number. */
  lemma LowBits(id: int)
    ensures -TWO_31 <= ToInt32(id) < TWO_31 && (ToInt32(id) - id) % TWO_32 == 0
  {
    var m := (id + TWO_31) / TWO_32;
    assert ToInt32(id) - id == TWO_32 * -m;
  }

  /** The entry stored for a place. */
  function EntryAt(ids: seq<int>, distances: seq<real>): int -> Neighbor {
    (p: int) => if 0 <= p < |ids| && p < |distances| then Cut(Neighbor(distances[p], ids[p])) else Neighbor(0.0, 0)
  }

  /** The positions of n entries. */
  function Indices(n: nat): (s: seq<int>)
    ensures |s| == n && forall i :: 0 <= i < n ==> s[i] == i
  {
    Range(n)
  }

  /** Which places of the input a selection holds, and that those left out are no better. */
  lemma BestPlaces(ascending: bool, ids: seq<int>, distances: seq<real>, k: nat, out: seq<Neighbor>) returns (places: seq<int>)
    requires |ids| == |distances| && IsSelection(Order(ascending), Stored(ids, distances), k, out)
    ensures |places| == |out| == if |ids| < k then |ids| else k
    ensures forall i, j :: 0 <= i < j < |places| ==> places[i] != places[j]
    ensures forall j :: 0 <= j < |places| ==>
      0 <= places[j] < |ids| && out[j].d == distances[places[j]]
      && -TWO_31 <= out[j].id < TWO_31 && (out[j].id - ids[places[j]]) % TWO_32 == 0
    ensures forall i, j :: 0 <= i < j < |out| ==> if ascending then out[i].d <= out[j].d else out[i].d >= out[j].d
    ensures forall p, j :: 0 <= p < |ids| && p !in places && 0 <= j < |out| ==>
      if ascending then out[j].d <= distances[p] else out[j].d >= distances[p]
  {
    var s, f := Indices(|ids|), EntryAt(ids, distances);
    assert Map(f, s) == Stored(ids, distances) by {
      forall i | 0 <= i < |ids|
        ensures f(s[i]) == Stored(ids, distances)[i]
      {
        assert Stored(ids, distances)[i] == Cut(Pairs(ids, distances)[i]);
      }
    }
    places := BestOf(ascending, f, s, k, out);
    forall j | 0 <= j < |places|
      ensures 0 <= places[j] < |ids| && out[j].d == distances[places[j]]
      ensures -TWO_31 <= out[j].id < TWO_31 && (out[j].id - ids[places[j]]) % TWO_32 == 0
    {
      assert out[j] == f(places[j]);
      LowBits(ids[places[j]]);
    }
    forall p | 0 <= p < |ids|
      ensures p in s && f(p).d == distances[p]
    {
      assert s[p] == p;
    }
  }

  /** Cuts a result list to its k best, best first: the entries of the given places, with the low 32 bits of their
      ids. Fails when there is not one distance per id. */
  method ReserveTopK(ids: seq<int>, distances: seq<real>, k: int, ascending: bool)
    returns (ok: bool, ids': seq<int>, distances': seq<real>, ghost places: seq<int>)
    requires |ids| < TWO_63 && -TWO_63 <= k < TWO_63
    ensures ok <==> |ids| == |distances|
    ensures !ok ==> ids' == ids && distances' == distances
    ensures ok ==>
      |ids'| == |distances'| && IsSelection(Order(ascending), Stored(ids, distances), ToSize(k), Pairs(ids', distances'))
    ensures ok ==> |places| == |ids'| == if k < 0 || |ids| < k then |ids| else k
    ensures ok ==> forall i, j :: 0 <= i < j < |places| ==> places[i] != places[j]
    ensures ok ==> forall j :: 0 <= j < |places| ==>
      0 <= places[j] < |ids| && distances'[j] == distances[places[j]]
      && -TWO_31 <= ids'[j] < TWO_31 && (ids'[j] - ids[places[j]]) % TWO_32 == 0
    ensures ok ==> forall i, j :: 0 <= i < j < |ids'| ==>
      if ascending then distances'[i] <= distances'[j] else distances'[i] >= distances'[j]
    ensures ok ==> forall p, j :: 0 <= p < |ids| && p !in places && 0 <= j < |ids'| ==>
      if ascending then distances'[j] <= distances[p] else distances'[j] >= distances[p]
  {
    places := [];
    if |ids| != |distances| {
      return false, ids, distances, places;
    }
    LessByIsOrder(Key(ascending));
    var out := SelectLeast(Order(ascending), Stored(ids, distances), ToSize(k));
    ids' := seq(|out|, j requires 0 <= j < |out| => out[j].id);
    distances' := seq(|out|, j requires 0 <= j < |out| => out[j].d);
    assert Pairs(ids', distances') == out;
    hide Stored, Order, Pairs, LessBy;
    places := BestPlaces(ascending, ids, distances, ToSize(k), out);
    ok := true;
  }

  /** The distances returned are those of sorting all distances and cutting the list, whatever the ties. */
  lemma ReservedDistances(ids: seq<int>, distances: seq<real>, k: nat, ascending: bool, out: seq<Neighbor>)
    requires |ids| == |distances| && IsSelection(Order(ascending), Stored(ids, distances), k, out)
    ensures Map(Key(ascending), out) == Sort(RealLess(), Map(Key(ascending), Stored(ids, distances)))[..Min(k, |ids|)]
  {
    LessByIsOrder(Key(ascending));
    SelectionImages(Order(ascending), Key(ascending), RealLess(), Stored(ids, distances), k, out);
  }

  /** The pairs kept are pairs of the input exactly when the ids fit 32 bits. */
  lemma StoredFaithfully(ids: seq<int>, distances: seq<real>)
    requires |ids| == |distances|
    ensures Stored(ids, distances) == Pairs(ids, distances)
       <==> forall i :: 0 <= i < |ids| ==> -TWO_31 <= ids[i] < TWO_31
  {
    var ns := Pairs(ids, distances);
    forall i | 0 <= i < |ids|
      ensures Stored(ids, distances)[i] == ns[i] <==> -TWO_31 <= ids[i] < TWO_31
    {
      assert ns[i] == Neighbor(distances[i], ids[i]) && Stored(ids, distances)[i] == Cut(ns[i]);
    }
    assert (forall i :: 0 <= i < |ids| ==> Stored(ids, distances)[i] == ns[i]) ==> Stored(ids, distances) == ns;
  }

  /** The first id that does not fit comes back negative. */
  lemma IdTooLarge(d: real)
    ensures Stored([TWO_31], [d]) == [Neighbor(d, -TWO_31)] && Stored([TWO_31], [d]) != Pairs([TWO_31], [d])
  {
    assert Pairs([TWO_31], [d]) == [Neighbor(d, TWO_31)];
    assert Stored([TWO_31], [d]) == [Cut(Neighbor(d, TWO_31))];
  }

  /** A negative limit keeps everything; a limit of zero keeps nothing. */
  lemma ReservedCount(ids: seq<int>, distances: seq<real>, k: int, ascending: bool, out: seq<Neighbor>)
    requires |ids| == |distances| < TWO_63 && -TWO_63 <= k < TWO_63
    requires IsSelection(Order(ascending), Stored(ids, distances), ToSize(k), out)
    ensures k < 0 ==> multiset(out) == multiset(Stored(ids, distances))
    ensures k >= 0 ==> |out| == Min(k, |ids|)
  {
    var dropped :| Selects(Order(ascending), Stored(ids, distances), ToSize(k), out, dropped);
    if k < 0 {
      assert |multiset(out) + dropped| == |multiset(out)| + |dropped|;
      assert |multiset(Stored(ids, distances))| == |ids| && |multiset(out)| == |out|;
      assert dropped == multiset{};
    }
  }
}
