/** What a range search answers, in terms of the request alone: the distances of the queries from the vectors that the
    stored codes stand for. */
module RangeResults {
  import opened LookupTables
  import opened Vectors
  import opened ProductQuantizers
  import opened IvfPqSpec
  import opened Wrappers
  import opened RangeSearchSpec
  import opened RangeRuns
  import opened Sequences

  /** Whether entry o of a list answers query q with a hit. With a confidence in (0, 1] the distance from what its code
      stands for may differ from the share of its error by at most the radius. Otherwise, as by default, the squared
      distance is less than the radius, or the inner product greater. */
  ghost predicate Answers(r: Request, q: nat, key: int, o: nat, hit: Hit)
    requires r.Valid() && q < |r.x|
  {
    0 <= key < |r.lists| && o < |r.lists[key]|
    && var e := r.lists[key][o];
       assert e in r.lists[key];
       var y := r.cfg.ivf.Reconstruct(key, e.code);
       var d := if r.cfg.ivf.metric.L2? then SqDist(r.x[q], y) else Dot(r.x[q], y);
       && hit == Hit(e.id, d) && (r.filter.sel.Some? ==> r.filter.sel.value(e.id))
       && if 0.0 < r.filter.confidence <= 1.0 then
            d >= 0.0 && r.filter.radius >= 0.0
            && -r.cfg.root(r.filter.radius) <= r.cfg.root(d) - e.error * r.filter.confidence <= r.cfg.root(r.filter.radius)
          else if r.cfg.ivf.metric.L2? then d < r.filter.radius else d > r.filter.radius
  }

  lemma AnswersIsReported(r: Request, q: nat, key: nat, o: nat, hit: Hit)
    requires r.Valid() && q < |r.x| && key < |r.lists| && o < |r.lists[key]|
    ensures ValidItems(r.cfg, r.lists[key]) && ValidCode(r.lists[key][o].code, |r.cfg.ivf.books|, r.cfg.ivf.ksub)
    ensures var e := r.lists[key][o];
      Answers(r, q, key, o, hit) <==>
        Reported(r.cfg, r.filter, r.x[q], key, e) && hit == Hit(e.id, TableDistance(r.cfg, r.x[q], key, e))
  {
    hide Config.Valid, SqDist, Dot, Reported, TableDistance;
    var e := r.lists[key][o];
    assert e in r.lists[key];
    ReportedIff(r.cfg, r.filter, r.x[q], key, e);
  }

  // ---- how often, and the totals ----

  /** How many of the first n entries of a list answer query q with a hit. */
  ghost function TimesIn(r: Request, q: nat, key: int, n: nat, hit: Hit): nat
    requires r.Valid() && q < |r.x|
  {
    if n == 0 then 0 else TimesIn(r, q, key, n - 1, hit) + if Answers(r, q, key, n - 1, hit) then 1 else 0
  }

  /** How often the first k probes find a hit for query q. */
  ghost function Times(r: Request, q: nat, k: nat, hit: Hit): nat
    requires r.Valid() && q < |r.x| && k <= |r.keys|
  {
    if k == 0 then 0
    else
      var key := r.keys[k - 1];
      Times(r, q, k - 1, hit)
      + if (k - 1) / r.nprobe == q && 0 <= key < |r.lists| then TimesIn(r, q, key, |r.lists[key]|, hit) else 0
  }

  /** How many of the first k probes visit a list with entries, and how many entries they visit. */
  function Visits(keys: seq<int>, lists: seq<seq<Item>>): (nat, nat) {
    if keys == [] then (0, 0)
    else
      var (nlist, ndis) := Visits(keys[..|keys| - 1], lists);
      var key := keys[|keys| - 1];
      if 0 <= key < |lists| && lists[key] != [] then (nlist + 1, ndis + |lists[key]|) else (nlist, ndis)
  }

  /** Every answer is found once for each probe and entry that gives it, and the totals count the lists with entries
      and the entries visited. */
  lemma ExpectedIs(r: Request, q: nat, hit: Hit)
    requires r.Valid() && q < |r.x|
    ensures Expected(r, q).hits[hit] == Times(r, q, |r.keys|, hit)
    ensures (Expected(r, q).nlist, Expected(r, q).ndis) == Visits(r.keys, r.lists)
  {
    hide Times, Visits, Prefix, Request.Valid, Expected;
    FlatSum(r, q);
    PrefixIs(r, q, |r.keys|, hit);
    assert r.keys[..|r.keys|] == r.keys;
  }

  lemma TotalsAre(r: Request)
    requires r.Valid()
    ensures (Expected(r, 0).nlist, Expected(r, 0).ndis) == Visits(r.keys, r.lists)
  {
    if |r.x| > 0 {
      ExpectedIs(r, 0, Hit(0, 0.0));
    } else {
      ValidKeys(r);
      assert r.keys == [] && AllPairs(0, r.nprobe) == [];
    }
  }

  /** What the first k probes contribute for query q. */
  ghost function Prefix(r: Request, q: nat, k: nat): Tally {
    if k == 0 then ZERO else Plus(Prefix(r, q, k - 1), Contribution(r, q, PairAt(r.nprobe)(k - 1)))
  }

  lemma FlatSum(r: Request, q: nat)
    requires r.Valid()
    ensures Expected(r, q) == Prefix(r, q, |r.keys|)
  {
    ValidKeys(r);
    hide Request.Valid, Contribution, RangeRuns.Sum, PairAt;
    FlatPairs(|r.x|, r.nprobe);
    PrefixSum(r, q, |r.keys|);
  }

  lemma {:induction false} PrefixSum(r: Request, q: nat, k: nat)
    ensures RangeRuns.Sum(ContributionTo(r, q), Map(PairAt(r.nprobe), Range(k))) == Prefix(r, q, k)
  {
    hide Contribution, PairAt;
    var pairs := Map(PairAt(r.nprobe), Range(k));
    if k > 0 {
      PrefixSum(r, q, k - 1);
      var last := PairAt(r.nprobe)(k - 1);
      assert pairs == Map(PairAt(r.nprobe), Range(k - 1)) + [last];
      SumSnoc(ContributionTo(r, q), Map(PairAt(r.nprobe), Range(k - 1)), last);
      assert ContributionTo(r, q)(last) == Contribution(r, q, last);
    }
  }

  /** Whether probe k belongs to query q and its entry o answers it with a hit. */
  ghost predicate ProbeAnswers(r: Request, q: nat, k: nat, o: nat, hit: Hit)
    requires r.Valid() && q < |r.x|
  {
    k < |r.keys| && k / r.nprobe == q && Answers(r, q, r.keys[k], o, hit)
  }

  /** The hits for a query are exactly the answers found in the lists probed for it. */
  lemma HitsAre(r: Request, q: nat, hit: Hit)
    requires r.Valid() && q < |r.x|
    ensures hit in Expected(r, q).hits <==> exists k: nat, o: nat :: ProbeAnswers(r, q, k, o, hit)
  {
    hide Answers, Config.Valid, Expected;
    ExpectedIs(r, q, hit);
    TimesPositive(r, q, |r.keys|, hit);
  }

  lemma {:induction false} TimesPositive(r: Request, q: nat, m: nat, hit: Hit)
    requires r.Valid() && q < |r.x| && m <= |r.keys|
    ensures Times(r, q, m, hit) > 0 <==> exists k: nat, o: nat :: k < m && ProbeAnswers(r, q, k, o, hit)
  {
    hide Answers, Config.Valid;
    if m > 0 {
      TimesPositive(r, q, m - 1, hit);
      LastProbe(r, q, m - 1, hit);
      hide ProbeAnswers, Times;
    }
  }

  lemma LastProbe(r: Request, q: nat, k: nat, hit: Hit)
    requires r.Valid() && q < |r.x| && k < |r.keys|
    ensures Times(r, q, k + 1, hit) > Times(r, q, k, hit) <==> exists o: nat :: ProbeAnswers(r, q, k, o, hit)
    ensures Times(r, q, k + 1, hit) >= Times(r, q, k, hit)
  {
    hide Answers, Config.Valid;
    var key := r.keys[k];
    AnswersInRange(r, q, key, hit);
    if 0 <= key < |r.lists| {
      TimesInPositive(r, q, key, |r.lists[key]|, hit);
    }
    if k / r.nprobe == q && 0 <= key < |r.lists| && TimesIn(r, q, key, |r.lists[key]|, hit) > 0 {
      var o: nat :| o < |r.lists[key]| && Answers(r, q, key, o, hit);
      assert ProbeAnswers(r, q, k, o, hit);
    }
  }

  lemma AnswersInRange(r: Request, q: nat, key: int, hit: Hit)
    requires r.Valid() && q < |r.x|
    ensures forall o: nat :: Answers(r, q, key, o, hit) ==> 0 <= key < |r.lists| && o < |r.lists[key]|
  {
  }

  lemma {:induction false} TimesInPositive(r: Request, q: nat, key: int, n: nat, hit: Hit)
    requires r.Valid() && q < |r.x|
    ensures TimesIn(r, q, key, n, hit) > 0 <==> exists o: nat :: o < n && Answers(r, q, key, o, hit)
  {
    hide Answers, Config.Valid;
    if n > 0 {
      TimesInPositive(r, q, key, n - 1, hit);
    }
  }

  lemma ValidKeys(r: Request)
    requires r.Valid()
    ensures |r.keys| == |r.x| * r.nprobe && r.nprobe > 0
  {
  }

  lemma {:induction false} PrefixIs(r: Request, q: nat, k: nat, hit: Hit)
    requires r.Valid() && q < |r.x| && k <= |r.keys|
    ensures Prefix(r, q, k).hits[hit] == Times(r, q, k, hit)
    ensures (Prefix(r, q, k).nlist, Prefix(r, q, k).ndis) == Visits(r.keys[..k], r.lists)
  {
    hide Contribution, PairAt, TimesIn, Config.Valid;
    if k > 0 {
      PrefixIs(r, q, k - 1, hit);
      ContributionIs(r, q, k - 1, hit);
      assert r.keys[..k][..k - 1] == r.keys[..k - 1] && r.keys[..k][k - 1] == r.keys[k - 1];
    }
  }

  lemma ContributionIs(r: Request, q: nat, j: nat, hit: Hit)
    requires r.Valid() && q < |r.x| && j < |r.keys|
    ensures var t, key := Contribution(r, q, PairAt(r.nprobe)(j)), r.keys[j];
      && t.hits[hit] == (if j / r.nprobe == q && 0 <= key < |r.lists| then TimesIn(r, q, key, |r.lists[key]|, hit) else 0)
      && (t.nlist, t.ndis) == if 0 <= key < |r.lists| && r.lists[key] != [] then (1, |r.lists[key]|) else (0, 0)
  {
    hide Config.Valid, ListHits, TimesIn;
    ValidKeys(r);
    DivInRange(j, |r.x|, r.nprobe);
    PairAtIs(r.nprobe, j);
    var i, ik := j / r.nprobe, j % r.nprobe;
    SamePlace(j, r.nprobe);
    assert r.KeyAt(i, ik) == r.keys[j];
    var key := r.keys[j];
    if 0 <= key < |r.lists| {
      TimesInIs(r, q, key, |r.lists[key]|, hit);
      assert r.lists[key][..|r.lists[key]|] == r.lists[key];
      NoneInEmpty(r, q, key, hit);
    }
  }

  lemma SamePlace(j: nat, n: nat)
    requires n > 0
    ensures j / n * n + j % n == j
  {
  }

  lemma NoneInEmpty(r: Request, q: nat, key: int, hit: Hit)
    requires r.Valid() && q < |r.x|
    ensures TimesIn(r, q, key, 0, hit) == 0
  {
  }

  lemma {:induction false} TimesInIs(r: Request, q: nat, key: nat, n: nat, hit: Hit)
    requires r.Valid() && q < |r.x| && key < |r.lists| && n <= |r.lists[key]|
    ensures ValidItems(r.cfg, r.lists[key][..n])
    ensures multiset(ListHits(r.cfg, r.filter, r.x[q], key, r.lists[key][..n]))[hit] == TimesIn(r, q, key, n, hit)
  {
    hide Config.Valid, Answers, Reported, TableDistance;
    var items := r.lists[key];
    assert forall e :: e in items[..n] ==> e in items;
    if n > 0 {
      TimesInIs(r, q, key, n - 1, hit);
      ListHitsStep(r.cfg, r.filter, r.x[q], key, items, n - 1);
      AnswersIsReported(r, q, key, n - 1, hit);
    }
  }

  // ---- the default confidence, in true distances ----

  /** By default every hit of an aligned index is within the radius up to the error of its own entry. */
  lemma DefaultHitIsNear(r: Request, q: nat, hit: Hit) returns (l: nat, e: Item)
    requires r.Valid() && q < |r.x| && Aligned(r.cfg, Index(0, r.lists)) && hit in Expected(r, q).hits
    requires r.cfg.ivf.metric.L2? && r.filter.radius >= 0.0 && !(0.0 < r.filter.confidence <= 1.0)
    ensures l < |r.lists| && e in r.lists[l] && hit.id == e.id && |e.vector| == r.cfg.ivf.D()
    ensures r.cfg.root(SqDist(r.x[q], e.vector)) < r.cfg.root(r.filter.radius) + e.error
  {
    hide Reported, Expected, TableDistance;
    var ik;
    ik, e := OnlyReported(r, q, hit);
    l := r.KeyAt(q, ik);
    AlignedAt(r.cfg, r.lists, l, e);
    DefaultBounds(r.cfg, r.filter, r.x[q], l, e);
  }

  /** By default every selected entry of a probed list that is within the radius by more than its error is a hit. */
  lemma DefaultFinds(r: Request, q: nat, ik: nat, e: Item)
    requires r.Valid() && q < |r.x| && ik < r.nprobe && 0 <= r.KeyAt(q, ik) < |r.lists|
    requires Aligned(r.cfg, Index(0, r.lists)) && e in r.lists[r.KeyAt(q, ik)] && |e.vector| == r.cfg.ivf.D()
    requires r.cfg.ivf.metric.L2? && r.filter.radius >= 0.0 && !(0.0 < r.filter.confidence <= 1.0)
    requires (r.filter.sel.Some? ==> r.filter.sel.value(e.id))
    requires r.cfg.root(SqDist(r.x[q], e.vector)) + e.error < r.cfg.root(r.filter.radius)
    ensures ValidCode(e.code, |r.cfg.ivf.books|, r.cfg.ivf.ksub)
    ensures Hit(e.id, SqDist(r.x[q], r.cfg.ivf.Reconstruct(r.KeyAt(q, ik), e.code))) in Expected(r, q).hits
  {
    hide Reported, Expected, TableDistance;
    var key := r.KeyAt(q, ik);
    AlignedAt(r.cfg, r.lists, key, e);
    DefaultBounds(r.cfg, r.filter, r.x[q], key, e);
    ReportedIff(r.cfg, r.filter, r.x[q], key, e);
    var hit := Hit(e.id, TableDistance(r.cfg, r.x[q], key, e));
    ListHitsAre(r.cfg, r.filter, r.x[q], key, r.lists[key], hit);
    ExpectedAre(r, q, hit);
    assert hit in Scanned(r, q, q, ik).0;
  }
}
