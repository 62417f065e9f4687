/** Range search over the IVF-PQ index: one scanner per worker, one partial result per query it works on. */
module RangeSearches {
  import opened Vectors
  import opened ProductQuantizers
  import opened LookupTables
  import opened IvfPqSpec
  import opened Wrappers
  import opened IvfPqIndexes
  import opened RangeSearchSpec
  import opened RangeRuns
  import opened RangeResults
  import opened Sequences

  ghost predicate CoarseDistances(cfg: Config, x: seq<Vec>, nprobe: nat, keys: seq<int>, coarseDis: seq<real>)
    requires cfg.Valid() && |coarseDis| == |keys| == |x| * nprobe
    requires forall i :: 0 <= i < |x| ==> |x[i]| == cfg.ivf.D()
  {
    forall i, ik :: 0 <= i < |x| && 0 <= ik < nprobe ==> CoarseAt(cfg, x, nprobe, keys, coarseDis, i, ik)
  }

  ghost predicate CoarseAt(cfg: Config, x: seq<Vec>, nprobe: nat, keys: seq<int>, coarseDis: seq<real>, i: nat, ik: nat)
    requires cfg.Valid() && |coarseDis| == |keys| == |x| * nprobe && i < |x| && ik < nprobe && |x[i]| == cfg.ivf.D()
  {
    PairInRange(i, ik, |x|, nprobe);
    0 <= keys[i * nprobe + ik] < cfg.ivf.nlist && cfg.ivf.metric.L2? ==>
      coarseDis[i * nprobe + ik] == SqDist(x[i], cfg.ivf.Centroid(keys[i * nprobe + ik]))
  }

  /** Whether a list's tables cannot be prepared: the multi-index kind without a multi-index quantizer. */
  predicate MissingTables(ivf: IvfPq) {
    ivf.metric.L2? && ivf.byResidual && ivf.usePrecomputedTable == 2 && ivf.coarse.Flat?
  }

  /** Whether probing a list number raises no error: it is unassigned, or in range and its list is empty or
      can be scanned. */
  predicate Scannable(index: IndexIvfPq, key: int, polysemousHt: int)
    reads index
  {
    key < index.cfg.ivf.nlist
    && (0 <= key < |index.ids| && index.ids[key] != [] ==> polysemousHt <= 0 && !MissingTables(index.cfg.ivf))
  }

  ghost predicate AllScannable(index: IndexIvfPq, keys: seq<int>, polysemousHt: int)
    reads index
  {
    forall k :: 0 <= k < |keys| ==> Scannable(index, keys[k], polysemousHt)
  }

  lemma DivMod(k: nat, n: nat)
    requires n > 0
    ensures k / n * n + k % n == k
  {
  }

  class RangeWorker {
    const index: IndexIvfPq
    const x: seq<Vec>
    const nprobe: nat
    const keys: seq<int>
    const coarseDis: seq<real>
    const filter: Filter
    const polysemousHt: int
    const tables: QueryTables
    ghost var query: Option<nat>
    var partials: seq<Partial>
    var nlistv: nat
    var ndis: nat
    /** Set when scanning a list has raised an error, which the loops catch. */
    var interrupted: bool

    ghost function Footprint(): set<object> {
      {this} + Buffers()
    }

    ghost function Buffers(): set<object> {
      {tables, tables.simTable, tables.simTable2, tables.residualVec, tables.decodedVec}
    }

    ghost function Req(): Request
      requires index.Shaped()
      reads index
    {
      Request(index.cfg, index.Lists(), x, nprobe, keys, filter)
    }

    /** The coarse distances are those of the queries from the centroids probed. */
    ghost predicate ValidCoarse()
      requires index.cfg.Valid() && |keys| == |x| * nprobe
      requires forall i :: 0 <= i < |x| ==> |x[i]| == index.cfg.ivf.D()
    {
      |coarseDis| == |keys| && CoarseDistances(index.cfg, x, nprobe, keys, coarseDis)
    }

    lemma CoarseIs(i: nat, ik: nat)
      requires Valid() && i < |x| && ik < nprobe
      ensures 0 <= i * nprobe + ik < |coarseDis| == |keys|
      ensures var key := keys[i * nprobe + ik];
              0 <= key < index.cfg.ivf.nlist && index.cfg.ivf.metric.L2? ==>
                coarseDis[i * nprobe + ik] == SqDist(x[i], index.cfg.ivf.Centroid(key))
    {
      PairInRange(i, ik, |x|, nprobe);
      assert CoarseAt(index.cfg, x, nprobe, keys, coarseDis, i, ik);
    }

    ghost predicate Valid()
      reads `query, index, Buffers()
    {
      index.Valid() && Req().Valid() && ValidCoarse()
      && tables.Shaped() && tables.ivf == index.cfg.ivf && index !in Footprint()
      && (query.Some? ==> query.value < |x| && tables.qi == x[query.value] && tables.QueryReady())
    }

    ghost function Abs(): Worker
      reads this
    {
      Worker(query, partials, nlistv, ndis)
    }

    constructor (index: IndexIvfPq, x: seq<Vec>, nprobe: nat, keys: seq<int>, coarseDis: seq<real>,
                 filter: Filter, polysemousHt: int)
      requires index.Valid() && nprobe > 0 && |keys| == |coarseDis| == |x| * nprobe
      requires forall i :: 0 <= i < |x| ==> |x[i]| == index.cfg.ivf.D()
      ensures this.index == index && this.x == x && this.nprobe == nprobe && this.keys == keys
      ensures this.coarseDis == coarseDis && this.filter == filter && this.polysemousHt == polysemousHt
      ensures index.Valid() && Abs() == IDLE && !interrupted && fresh(Footprint())
      ensures Req().Valid() && (ValidCoarse() ==> Valid())
    {
      this.index := index;
      this.x := x;
      this.nprobe := nprobe;
      this.keys := keys;
      this.coarseDis := coarseDis;
      this.filter := filter;
      this.polysemousHt := polysemousHt;
      tables := new QueryTables(index.cfg.ivf);
      query := None;
      partials := [];
      nlistv := 0;
      ndis := 0;
      interrupted := false;
    }

    /** Sets the scanner to a query and opens a partial result for it. */
    method Begin(i: nat)
      requires Valid() && i < |x|
      modifies this`query, this`partials, tables, tables.simTable, tables.simTable2
      ensures Valid() && Abs() == BeginQuery(old(Abs()), i)
    {
      tables.InitQuery(x[i]);
      query := Some(i);
      partials := partials + [Partial(i, [])];
    }

    /** Whether scanning the list of a pair raises no error. */
    predicate PairScannable(i: nat, ik: nat)
      requires |keys| == |x| * nprobe && i < |x| && ik < nprobe
      reads index
    {
      PairInRange(i, ik, |x|, nprobe);
      Scannable(index, keys[i * nprobe + ik], polysemousHt)
    }

    lemma PairScannableIs(i: nat, ik: nat)
      requires |keys| == |x| * nprobe && i < |x| && ik < nprobe && |index.ids| == index.cfg.ivf.nlist
      ensures 0 <= i * nprobe + ik < |keys|
      ensures var key := keys[i * nprobe + ik];
              PairScannable(i, ik) == if key < 0 then true
                                      else if key >= index.cfg.ivf.nlist then false
                                      else if index.ids[key] == [] then true
                                      else polysemousHt <= 0 && !MissingTables(index.cfg.ivf)
    {
      PairInRange(i, ik, |x|, nprobe);
    }

    predicate InRange(i: nat, ik: nat)
      requires |keys| == |x| * nprobe && i < |x| && ik < nprobe
    {
      PairInRange(i, ik, |x|, nprobe);
      keys[i * nprobe + ik] < index.cfg.ivf.nlist
    }

    /** Whether no list with entries can be scanned. */
    predicate Broken() {
      MissingTables(index.cfg.ivf) || polysemousHt > 0
    }

    /** Scans the list probed for query i at rank ik into the partial result in use. A list number out of range is
        thrown out of the loops; an error while scanning is only noted, and finds nothing. */
    method ScanListFunc(i: nat, ik: nat) returns (thrown: bool)
      requires Valid() && i < |x| && ik < nprobe && Abs().On(i)
      modifies this`partials, this`nlistv, this`ndis, this`interrupted, tables.simTable, tables.residualVec, tables.decodedVec
      ensures Valid() && Abs().On(i)
      ensures thrown <==> !InRange(i, ik)
      ensures interrupted <==> old(interrupted) || (!thrown && !PairScannable(i, ik))
      ensures PairScannable(i, ik) ==> !thrown && Abs() == ScanList(Req(), old(Abs()), i, ik)
      ensures !thrown && !PairScannable(i, ik) ==> Broken()
      ensures Broken() ==> partials == old(partials)
    {
      hide ScanList, ListHits, Aligned, SameShape, Config.Valid, ValidCoarse, QueryTables.QueryReady, QueryTables.Shaped,
           WithHits, PairScannable, MissingTables;
      PairInRange(i, ik, |x|, nprobe);
      PairScannableIs(i, ik);
      ScanListIs(Req(), Abs(), i, ik);
      var key := keys[i * nprobe + ik];
      if key < 0 {
        return false;
      }
      if key >= index.cfg.ivf.nlist {
        return true;
      }
      index.ListLength(key);
      var listSize := |index.ids[key]|;
      if listSize == 0 {
        return false;
      }
      CoarseIs(i, ik);
      var ok := ScanNonEmpty(i, key, coarseDis[i * nprobe + ik]);
      if !ok {
        interrupted := true;
      }
      thrown := false;
    }

    method ScanNonEmpty(i: nat, key: nat, coarse: real) returns (ok: bool)
      requires Valid() && i < |x| && Abs().On(i) && key < index.cfg.ivf.nlist
      requires index.cfg.ivf.metric.L2? ==> coarse == SqDist(x[i], index.cfg.ivf.Centroid(key))
      modifies this`partials, this`nlistv, this`ndis, tables.simTable, tables.residualVec, tables.decodedVec
      ensures Valid() && Abs().On(i)
      ensures ok <==> !Broken()
      ensures ok ==>
        Abs() == WithHits(old(Abs()), ListHits(index.cfg, filter, x[i], key, index.Lists()[key]), |index.Lists()[key]|)
      ensures !ok ==> partials == old(partials)
    {
      hide Aligned, SameShape, Config.Valid, ValidCoarse, ListHits, QueryTables.QueryReady, QueryTables.Shaped,
           IvfPq.GivesTargets, MissingTables;
      index.ListLength(key);
      var dis0;
      ok, dis0 := SetList(i, key, coarse);
      if !ok {
        return;
      }
      nlistv := nlistv + 1;
      ndis := ndis + |index.ids[key]|;
      if polysemousHt > 0 {
        return false;
      }
      var hits := ScanCodesRange(key, dis0);
      AddHits(hits);
    }

    /** Prepares the tables for a list. */
    method SetList(i: nat, key: nat, coarse: real) returns (ok: bool, dis0: real)
      requires Valid() && i < |x| && query == Some(i) && key < index.cfg.ivf.nlist
      requires index.cfg.ivf.metric.L2? ==> coarse == SqDist(x[i], index.cfg.ivf.Centroid(key))
      modifies tables.simTable, tables.residualVec, tables.decodedVec
      ensures Valid()
      ensures ok <==> !MissingTables(index.cfg.ivf)
      ensures ok ==> index.cfg.ivf.GivesTargets(x[i], key, dis0, tables.simTable[..])
    {
      hide Aligned, SameShape, Config.Valid, ValidCoarse, QueryTables.QueryReady, IvfPq.GivesTargets;
      ok, dis0 := tables.PrecomputeListTables(key, coarse);
    }

    method AddHits(hits: seq<Hit>)
      requires Valid() && partials != []
      modifies this`partials
      ensures Valid()
      ensures partials == old(partials)[..|old(partials)| - 1]
        + [Partial(old(partials)[|old(partials)| - 1].qno, old(partials)[|old(partials)| - 1].hits + hits)]
    {
      hide IndexIvfPq.Valid, ValidCoarse, QueryTables.Shaped, QueryTables.QueryReady, Request.Valid, Aligned;
      var last := partials[|partials| - 1];
      partials := partials[..|partials| - 1] + [Partial(last.qno, last.hits + hits)];
    }

    /** Looks every selected entry of a list up in the tables and keeps those the filter accepts. */
    method ScanCodesRange(key: nat, dis0: real) returns (hits: seq<Hit>)
      requires Valid() && query.Some? && key < index.cfg.ivf.nlist
      requires index.cfg.ivf.GivesTargets(x[query.value], key, dis0, tables.simTable[..])
      ensures hits == ListHits(index.cfg, filter, x[query.value], key, index.Lists()[key])
    {
      hide Aligned, SameShape, HitOf, ListHits, Config.Valid, ValidCoarse, IvfPq.GivesTargets, QueryTables.QueryReady;
      index.ListLength(key);
      ghost var items := index.Lists()[key];
      hits := [];
      NoHits(index.cfg, filter, x[query.value], key, items);
      var j := 0;
      while j < |index.ids[key]|
        invariant 0 <= j <= |index.ids[key]| == |items|
        invariant ValidItems(index.cfg, items[..j])
        invariant hits == ListHits(index.cfg, filter, x[query.value], key, items[..j])
      {
        ListHitsStep(index.cfg, filter, x[query.value], key, items, j);
        var hit := ScanEntry(key, j, dis0);
        hits := hits + hit;
        j := j + 1;
      }
      assert items[..j] == items;
    }

    /** One entry: its distance is only looked up when it is selected. */
    method ScanEntry(key: nat, j: nat, dis0: real) returns (hit: seq<Hit>)
      requires Valid() && query.Some? && key < index.cfg.ivf.nlist && j < |index.ids[key]|
      requires index.cfg.ivf.GivesTargets(x[query.value], key, dis0, tables.simTable[..])
      requires ValidCode(index.Lists()[key][j].code, |index.cfg.ivf.books|, index.cfg.ivf.ksub)
      ensures hit == HitOf(index.cfg, filter, x[query.value], key, index.Lists()[key][j])
    {
      hide Aligned, ValidCoarse, Config.Valid, SameShape, IvfPq.GivesTargets, HitOf, TableDistance, Filter.Accepts, TableSum;
      ghost var e := index.Lists()[key][j];
      index.ItemAt(key, j);
      EntryHit(index.cfg, filter, x[query.value], key, e, dis0, tables.simTable[..]);
      var id, code, error := index.ids[key][j], index.codes[key][j], index.reconstructionErrors[key][j];
      if !filter.Selects(id) {
        return [];
      }
      var sum := tables.DistanceSingleCode(code);
      var dis := dis0 + sum;
      hit := if filter.Accepts(index.cfg.root, index.cfg.ivf.metric, dis, error) then [Hit(id, dis)] else [];
    }

    // ---- the loops ----

    /** The worker has what these pairs contribute, and no scan among them raised an error. */
    ghost predicate Progress(done: seq<(nat, nat)>)
      reads this, index
    {
      index.Shaped() && Req().Valid() && Has(Req(), Abs(), done)
      && forall p :: p in done ==> p.0 < |x| && p.1 < nprobe && PairScannable(p.0, p.1)
    }

    /** No list to probe raises an error. */
    ghost predicate AllSucceed()
      reads index
    {
      AllScannable(index, keys, polysemousHt)
    }

    /** The worker has gone through these pairs: no list number among them is out of range, and unless a scan was
        interrupted it has what they contribute. When no list can be scanned it has found nothing. */
    ghost predicate Ongoing(done: seq<(nat, nat)>)
      reads this, index
    {
      |keys| == |x| * nprobe
      && (forall p :: p in done ==> p.0 < |x| && p.1 < nprobe && InRange(p.0, p.1))
      && (if interrupted then Broken() && !AllSucceed() else Progress(done))
      && (Broken() ==> Hitless())
    }

    predicate Hitless()
      reads this
    {
      forall k :: 0 <= k < |partials| ==> partials[k].hits == []
    }

    predicate AllInRange() {
      forall k :: 0 <= k < |keys| ==> keys[k] < index.cfg.ivf.nlist
    }

    lemma NothingDone()
      requires Valid() && Abs() == IDLE && !interrupted
      ensures Ongoing([])
    {
      IdleHas(Req());
    }

    lemma AllDone()
      requires Ongoing(AllPairs(|x|, nprobe)) && nprobe > 0
      ensures AllInRange() && (interrupted ==> !AllSucceed() && Hitless())
      ensures !interrupted ==> AllSucceed() && index.Shaped() && Has(Req(), Abs(), AllPairs(|x|, nprobe))
    {
      hide Progress, AllSucceed, Broken, Hitless, PairScannable;
      forall k | 0 <= k < |keys|
        ensures keys[k] < index.cfg.ivf.nlist
      {
        DivInRange(k, |x|, nprobe);
        var i: nat, ik: nat := k / nprobe, k % nprobe;
        AllPairsComplete(|x|, nprobe, (i, ik));
        assert InRange(i, ik);
        DivMod(k, nprobe);
      }
      if !interrupted {
        AllScanned();
      }
    }

    lemma AllScanned()
      requires Progress(AllPairs(|x|, nprobe))
      ensures AllSucceed() && index.Shaped() && Has(Req(), Abs(), AllPairs(|x|, nprobe))
    {
      forall k | 0 <= k < |keys|
        ensures Scannable(index, keys[k], polysemousHt)
      {
        DivInRange(k, |x|, nprobe);
        var i: nat, ik: nat := k / nprobe, k % nprobe;
        AllPairsComplete(|x|, nprobe, (i, ik));
        FlatScannable(k);
      }
    }

    lemma FlatScannable(k: nat)
      requires |keys| == |x| * nprobe && nprobe > 0 && k < |keys| && k / nprobe < |x|
      ensures PairScannable(k / nprobe, k % nprobe) == Scannable(index, keys[k], polysemousHt)
    {
      DivMod(k, nprobe);
    }

    lemma PairFromAll(i: nat, ik: nat)
      requires |keys| == |x| * nprobe && i < |x| && ik < nprobe && AllSucceed()
      ensures PairScannable(i, ik)
    {
      PairInRange(i, ik, |x|, nprobe);
    }

    method BeginNext(i: nat, ghost done: seq<(nat, nat)>)
      requires Valid() && i < |x| && Ongoing(done)
      modifies this`query, this`partials, tables, tables.simTable, tables.simTable2
      ensures Valid() && Abs().On(i) && Ongoing(done)
    {
      hide Has, AllSucceed, Scannable, MissingTables, Broken, ValidCoarse, Aligned, QueryTables.Shaped,
           QueryTables.QueryReady, SameShape, Config.Valid, PairScannable, InRange, Request.Valid;
      if !interrupted {
        BeginKeeps(Req(), Abs(), i, done);
      }
      Begin(i);
    }

    method ScanNext(i: nat, ik: nat, ghost done: seq<(nat, nat)>) returns (thrown: bool)
      requires Valid() && i < |x| && ik < nprobe && Abs().On(i) && Ongoing(done)
      modifies this`partials, this`nlistv, this`ndis, this`interrupted, tables.simTable, tables.residualVec, tables.decodedVec
      ensures Valid() && Abs().On(i)
      ensures thrown ==> !AllInRange()
      ensures !thrown ==> Ongoing(done + [(i, ik)])
    {
      hide Has, ScanList, AllSucceed, PairScannable, Aligned, QueryTables.Shaped, QueryTables.QueryReady, ValidCoarse,
           MissingTables, Broken, Request.Valid, SameShape, Config.Valid, Request.KeyAt;
      if !interrupted {
        ScanExtends(Req(), Abs(), i, ik, done);
      }
      if AllSucceed() {
        PairFromAll(i, ik);
      }
      PairInRange(i, ik, |x|, nprobe);
      thrown := ScanListFunc(i, ik);
    }

    /** The loops of modes 0 and 1, which are the same for a single worker: query by query, list by list. */
    method SearchByQuery() returns (thrown: bool)
      requires Valid() && Abs() == IDLE && !interrupted
      modifies Footprint()
      ensures Valid() && (thrown <==> !AllInRange())
      ensures !thrown ==> (interrupted <==> !AllSucceed())
      ensures !thrown ==> if interrupted then Hitless() else Has(Req(), Abs(), AllPairs(|x|, nprobe))
    {
      NothingDone();
      hide Ongoing, Valid, AllSucceed, Worker.On, AllInRange;
      var i := 0;
      while i < |x|
        invariant 0 <= i <= |x| && Valid() && Ongoing(AllPairs(i, nprobe))
      {
        BeginNext(i, AllPairs(i, nprobe));
        thrown := ScanRow(i);
        if thrown {
          return;
        }
        i := i + 1;
      }
      thrown := false;
      AllDone();
    }

    /** The lists of one query. */
    method ScanRow(i: nat) returns (thrown: bool)
      requires Valid() && i < |x| && Abs().On(i) && Ongoing(AllPairs(i, nprobe))
      modifies this`partials, this`nlistv, this`ndis, this`interrupted, tables.simTable, tables.residualVec, tables.decodedVec
      ensures Valid()
      ensures thrown ==> !AllInRange()
      ensures !thrown ==> Ongoing(AllPairs(i + 1, nprobe))
    {
      hide Ongoing, Valid, AllSucceed, Worker.On, AllInRange;
      ghost var done := AllPairs(i, nprobe);
      var ik := 0;
      assert done + PairsOf(i, Range(0)) == done;
      while ik < nprobe
        invariant 0 <= ik <= nprobe && Valid() && Abs().On(i) && Ongoing(done + PairsOf(i, Range(ik)))
      {
        thrown := ScanNext(i, ik, done + PairsOf(i, Range(ik)));
        if thrown {
          return;
        }
        assert done + PairsOf(i, Range(ik)) + [(i, ik)] == done + PairsOf(i, Range(ik + 1));
        ik := ik + 1;
      }
      thrown := false;
    }

    /** The loop of mode 2: flat numbers, with a new partial result whenever the query changes. */
    method SearchByPair() returns (thrown: bool)
      requires Valid() && Abs() == IDLE && !interrupted
      modifies Footprint()
      ensures Valid() && (thrown <==> !AllInRange())
      ensures !thrown ==> (interrupted <==> !AllSucceed())
      ensures !thrown ==> if interrupted then Hitless() else Has(Req(), Abs(), AllPairs(|x|, nprobe))
    {
      NothingDone();
      hide Ongoing, Valid, AllSucceed, PairAt, AllInRange;
      var iik := 0;
      assert Map(PairAt(nprobe), Range(0)) == [];
      while iik < |x| * nprobe
        invariant 0 <= iik <= |x| * nprobe && Valid() && Abs().Coherent()
        invariant Ongoing(Map(PairAt(nprobe), Range(iik)))
      {
        thrown := PairNext(iik);
        if thrown {
          return;
        }
        iik := iik + 1;
      }
      thrown := false;
      FlatPairs(|x|, nprobe);
      AllDone();
    }

    method PairNext(iik: nat) returns (thrown: bool)
      requires Valid() && Abs().Coherent() && iik < |x| * nprobe && Ongoing(Map(PairAt(nprobe), Range(iik)))
      modifies Footprint()
      ensures Valid() && Abs().Coherent()
      ensures thrown ==> !AllInRange()
      ensures !thrown ==> Ongoing(Map(PairAt(nprobe), Range(iik + 1)))
    {
      hide Ongoing, Valid, AllSucceed, PairAt, AllInRange;
      DivInRange(iik, |x|, nprobe);
      PairAtIs(nprobe, iik);
      ghost var done := Map(PairAt(nprobe), Range(iik));
      var i, ik := iik / nprobe, iik % nprobe;
      assert Map(PairAt(nprobe), Range(iik + 1)) == done + [(i, ik)];
      if partials == [] || partials[|partials| - 1].qno != i {
        BeginNext(i, done);
      }
      thrown := ScanNext(i, ik, done);
    }
  }

  /** One search call by a single worker. It fails on an empty probe count, an unknown mode, a list number out
      of range, tables that cannot be prepared, or polysemous filtering; otherwise each query's partial results
      and the totals are those of the nested loop. When only scanning fails, it goes through all lists and has found
      nothing at the end. */
  method CustomRangeSearchPreassigned(index: IndexIvfPq, x: seq<Vec>, keys: seq<int>, coarseDis: seq<real>,
                                      filter: Filter, nprobeParam: int, parallelMode: int, polysemousHt: int)
    returns (ok: bool, worker: RangeWorker?)
    requires index.Valid() && forall i :: 0 <= i < |x| ==> |x[i]| == index.cfg.ivf.D()
    requires ProbeCount(index, nprobeParam) > 0 ==>
      |keys| == |coarseDis| == |x| * ProbeCount(index, nprobeParam)
      && CoarseDistances(index.cfg, x, ProbeCount(index, nprobeParam), keys, coarseDis)
    ensures ok ==> worker != null && index.Valid()
    ensures ok <==> ProbeCount(index, nprobeParam) > 0 && 0 <= parallelMode <= 2
                    && AllScannable(index, keys, polysemousHt)
    ensures ok ==>
      var r := Request(index.cfg, index.Lists(), x, ProbeCount(index, nprobeParam), keys, filter);
      r.Valid() && (forall q: nat {:trigger Expected(r, q)} :: TallyOf(worker.Abs(), q) == Expected(r, q))
      && (forall q: nat, hit: Hit :: q < |x| ==>
            HitsFor(worker.partials, q)[hit] == Times(r, q, |keys|, hit)
            && (hit in HitsFor(worker.partials, q) <==> exists k: nat, o: nat :: ProbeAnswers(r, q, k, o, hit)))
      && (worker.nlistv, worker.ndis) == Visits(keys, r.lists)
    ensures ok <==>
      0 < index.cfg.ivf.nlist && 0 < nprobeParam && 0 <= parallelMode <= 2
      && forall k :: 0 <= k < |keys| ==>
        keys[k] < index.cfg.ivf.nlist
        && (0 <= keys[k] < |index.ids| && index.ids[keys[k]] != [] ==>
              polysemousHt <= 0
              && !(index.cfg.ivf.metric.L2? && index.cfg.ivf.byResidual && index.cfg.ivf.usePrecomputedTable == 2
                   && index.cfg.ivf.coarse.Flat?))
    ensures !ok && ProbeCount(index, nprobeParam) > 0 && 0 <= parallelMode <= 2 ==>
      worker != null && worker.index == index && worker.keys == keys && (worker.AllInRange() ==> worker.Hitless())
  {
    worker := null;
    var nprobe := ProbeCount(index, nprobeParam);
    if nprobe <= 0 {
      return false, null;
    }
    var w := new RangeWorker(index, x, nprobe, keys, coarseDis, filter, polysemousHt);
    worker := w;
    var thrown;
    if parallelMode == 0 || parallelMode == 1 {
      thrown := w.SearchByQuery();
    } else if parallelMode == 2 {
      thrown := w.SearchByPair();
    } else {
      return false, null;
    }
    ok := !thrown && !w.interrupted;
    if ok {
      HasExpected(w.Req(), w.Abs());
      TalliesAre(w.Req(), w.Abs());
    }
  }

  /** What the tallies say of the hits and totals, in terms of the request alone. */
  lemma TalliesAre(r: Request, w: Worker)
    requires r.Valid() && forall q: nat {:trigger Expected(r, q)} :: TallyOf(w, q) == Expected(r, q)
    ensures forall q: nat, hit: Hit :: q < |r.x| ==>
      HitsFor(w.partials, q)[hit] == Times(r, q, |r.keys|, hit)
      && (hit in HitsFor(w.partials, q) <==> exists k: nat, o: nat :: ProbeAnswers(r, q, k, o, hit))
    ensures (w.nlistv, w.ndis) == Visits(r.keys, r.lists)
  {
    hide Expected, Times, ProbeAnswers, Visits, HitsFor, Config.Valid;
    forall q: nat, hit: Hit | q < |r.x|
      ensures HitsFor(w.partials, q)[hit] == Times(r, q, |r.keys|, hit)
      ensures hit in HitsFor(w.partials, q) <==> exists k: nat, o: nat :: ProbeAnswers(r, q, k, o, hit)
    {
      assert TallyOf(w, q) == Expected(r, q);
      ExpectedIs(r, q, hit);
      HitsAre(r, q, hit);
    }
    assert TallyOf(w, 0) == Expected(r, 0);
    TotalsAre(r);
  }

  lemma HasExpected(r: Request, w: Worker)
    requires Has(r, w, AllPairs(|r.x|, r.nprobe))
    ensures forall q: nat {:trigger Expected(r, q)} :: TallyOf(w, q) == Expected(r, q)
  {
    forall q: nat
      ensures TallyOf(w, q) == Expected(r, q)
    {
      assert TallyOf(w, q) == TallyOf(w, q);
    }
  }

  /** After a search that succeeded at confidence 1, every selected entry of a list probed for a query whose vector is
      truly within the radius is among the hits the worker has for it, with its table distance. */
  lemma {:induction false} SearchFindsNeighbors(index: IndexIvfPq, r: Request, w: Worker, q: nat, ik: nat, e: Item)
    requires index.Valid() && r.Valid() && r.cfg == index.cfg && r.lists == index.Lists()
    requires q < |r.x| && TallyOf(w, q) == Expected(r, q)
    requires ik < r.nprobe && 0 <= r.KeyAt(q, ik) < |r.lists| && e in r.lists[r.KeyAt(q, ik)]
    requires r.cfg.ivf.metric.L2? && r.filter.confidence == 1.0 && r.filter.radius >= 0.0 && r.filter.Selects(e.id)
    requires |e.vector| == r.cfg.ivf.D() && SqDist(r.x[q], e.vector) <= r.filter.radius
    ensures ValidCode(e.code, |r.cfg.ivf.books|, r.cfg.ivf.ksub)
    ensures Hit(e.id, TableDistance(r.cfg, r.x[q], r.KeyAt(q, ik), e)) in TallyOf(w, q).hits
  {
    hide TallyOf, Expected, TableDistance, ItemAligned, Config.Valid, ValidCode, SqDist, Request.KeyAt;
    assert Aligned(r.cfg, Index(0, r.lists)) by {
      assert index.Abs().lists == r.lists;
    }
    NoFalseDismissals(r, q, ik, e);
  }

  function ProbeCount(index: IndexIvfPq, nprobeParam: int): int {
    if index.cfg.ivf.nlist < nprobeParam then index.cfg.ivf.nlist else nprobeParam
  }

  lemma EntryHit(cfg: Config, f: Filter, q: Vec, l: nat, e: Item, dis0: real, tab: seq<real>)
    requires cfg.Valid() && |q| == cfg.ivf.D() && l < cfg.ivf.nlist && ValidCode(e.code, |cfg.ivf.books|, cfg.ivf.ksub)
    requires |tab| == cfg.ivf.TableSize() && cfg.ivf.GivesTargets(q, l, dis0, tab)
    ensures !f.Selects(e.id) ==> HitOf(cfg, f, q, l, e) == []
    ensures f.Selects(e.id) ==>
      var dis := dis0 + TableSum(tab, e.code, cfg.ivf.ksub);
      HitOf(cfg, f, q, l, e) == if f.Accepts(cfg.root, cfg.ivf.metric, dis, e.error) then [Hit(e.id, dis)] else []
  {
    hide Config.Valid, IvfPq.Target, Filter.Accepts, Filter.Selects, TableSum;
    assert dis0 + TableSum(tab, e.code, cfg.ivf.ksub) == TableDistance(cfg, q, l, e);
  }

  lemma NoHits(cfg: Config, f: Filter, q: Vec, l: nat, items: seq<Item>)
    requires cfg.Valid() && |q| == cfg.ivf.D() && l < cfg.ivf.nlist
    ensures ValidItems(cfg, items[..0]) && ListHits(cfg, f, q, l, items[..0]) == []
  {
  }
}
