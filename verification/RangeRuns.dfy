/** How a range search is dealt out to workers: whichever worker scans which list for which query, the
    results and totals are those of the plain nested loop. */
module RangeRuns {
  import Bits
  import opened LookupTables
  import opened Vectors
  import opened ProductQuantizers
  import opened IvfPqSpec
  import opened Wrappers
  import opened RangeSearchSpec
  import opened Sequences

  /** A batch of queries and, per query, the lists to probe; keys and coarse distances are stored query by query. */
  datatype Request = Request(cfg: Config, lists: seq<seq<Item>>, x: seq<Vec>, nprobe: nat, keys: seq<int>, filter: Filter)
  {
    ghost predicate Valid() {
      cfg.Valid() && |lists| == cfg.ivf.nlist && nprobe > 0 && |keys| == |x| * nprobe
      && (forall l :: 0 <= l < |lists| ==> ValidItems(cfg, lists[l]))
      && (forall i :: 0 <= i < |x| ==> |x[i]| == cfg.ivf.D())
    }

    /** The list probed for query i at rank ik. */
    function KeyAt(i: nat, ik: nat): (key: int)
      requires |keys| == |x| * nprobe && i < |x| && ik < nprobe
      ensures key in keys
    {
      PairInRange(i, ik, |x|, nprobe);
      keys[i * nprobe + ik]
    }
  }

  lemma PairInRange(i: nat, ik: nat, nx: nat, nprobe: nat)
    requires i < nx && ik < nprobe
    ensures 0 <= i * nprobe + ik < nx * nprobe
  {
    assert i * nprobe + nprobe == (i + 1) * nprobe <= nx * nprobe;
  }

  // ---- what a scan contributes ----

  /** The hits found for one query, and the lists and entries visited for all. */
  datatype Tally = Tally(hits: multiset<Hit>, nlist: nat, ndis: nat)

  const ZERO := Tally(multiset{}, 0, 0)

  function Plus(a: Tally, b: Tally): Tally {
    Tally(a.hits + b.hits, a.nlist + b.nlist, a.ndis + b.ndis)
  }

  function Sum<T>(c: T -> Tally, s: seq<T>): Tally {
    if s == [] then ZERO else Plus(Sum(c, s[..|s| - 1]), c(s[|s| - 1]))
  }

  lemma PlusLaws(a: Tally, b: Tally, c: Tally)
    ensures Plus(Plus(a, b), c) == Plus(a, Plus(b, c)) && Plus(a, b) == Plus(b, a)
    ensures Plus(a, ZERO) == a && Plus(ZERO, a) == a
  {
  }

  lemma SumSnoc<T>(c: T -> Tally, s: seq<T>, x: T)
    ensures Sum(c, s + [x]) == Plus(Sum(c, s), c(x))
  {
    assert (s + [x])[..|s|] == s;
  }

  lemma {:induction false} SumAppend<T>(c: T -> Tally, a: seq<T>, b: seq<T>)
    ensures Sum(c, a + b) == Plus(Sum(c, a), Sum(c, b))
    decreases |b|
  {
    hide Plus;
    if b == [] {
      assert a + b == a && Sum(c, b) == ZERO;
      PlusLaws(Sum(c, a), ZERO, ZERO);
    } else {
      hide Sum;
      var b', x := b[..|b| - 1], b[|b| - 1];
      SumAppend(c, a, b');
      SumSnoc(c, a + b', x);
      SumSnoc(c, b', x);
      assert a + b == a + b' + [x] && b == b' + [x];
      PlusLaws(Sum(c, a), Sum(c, b'), c(x));
    }
  }

  /** The order of the summands does not matter. */
  lemma {:induction false} SumPermutation<T>(c: T -> Tally, a: seq<T>, b: seq<T>)
    requires multiset(a) == multiset(b)
    ensures Sum(c, a) == Sum(c, b)
    decreases |a|
  {
    if a == [] {
      assert |multiset(b)| == 0;
    } else {
      hide Plus, Sum;
      var a', x := a[..|a| - 1], a[|a| - 1];
      assert a == a' + [x] && x in multiset(b);
      var j :| 0 <= j < |b| && b[j] == x;
      var b', b'' := b[..j], b[j + 1..];
      assert b == b' + [x] + b'';
      MultisetMiddle(a', x, b', b'');
      SumPermutation(c, a', b' + b'');
      SumMiddle(c, b', x, b'');
      SumSnoc(c, a', x);
    }
  }

  lemma SumMiddle<T>(c: T -> Tally, s: seq<T>, x: T, t: seq<T>)
    ensures Sum(c, s + [x] + t) == Plus(Sum(c, s + t), c(x))
  {
    hide Plus, Sum;
    SumAppend(c, s + [x], t);
    SumAppend(c, s, t);
    SumSnoc(c, s, x);
    PlusLaws(Sum(c, s), c(x), Sum(c, t));
    PlusLaws(Sum(c, s), Sum(c, t), c(x));
    PlusLaws(c(x), Sum(c, t), ZERO);
  }

  function Compose<T, U>(c: U -> Tally, f: T -> U): T -> Tally {
    x => c(f(x))
  }

  lemma {:induction false} SumMap<T, U>(c: U -> Tally, f: T -> U, s: seq<T>)
    ensures Sum(c, Map(f, s)) == Sum(Compose(c, f), s)
    decreases |s|
  {
    if s != [] {
      SumMap(c, f, s[..|s| - 1]);
      assert Map(f, s)[..|s| - 1] == Map(f, s[..|s| - 1]);
    }
  }

  // ---- workers ----

  /** The results one worker has for one query. */
  datatype Partial = Partial(qno: nat, hits: seq<Hit>)

  /** A worker: the query its scanner is set to, its partial results in the order they were begun, its totals. */
  datatype Worker = Worker(query: Option<nat>, partials: seq<Partial>, nlistv: nat, ndis: nat)
  {
    /** The scanner and the partial result in use are both for query i. */
    predicate On(i: nat) {
      query == Some(i) && partials != [] && partials[|partials| - 1].qno == i
    }

    predicate Coherent() {
      partials != [] ==> query == Some(partials[|partials| - 1].qno)
    }
  }

  const IDLE := Worker(None, [], 0, 0)

  /** Setting the scanner to a query and opening a partial result for it. */
  function BeginQuery(w: Worker, i: nat): (w': Worker)
    ensures w'.On(i) && w'.Coherent()
  {
    w.(query := Some(i), partials := w.partials + [Partial(i, [])])
  }

  /** What a scanner set to one query finds in the list probed for query i at rank ik, and the list's size;
      an unassigned probe counts as an empty list, as does one out of range, which the search rejects. */
  ghost function Scanned(r: Request, query: nat, i: nat, ik: nat): (seq<Hit>, nat)
    requires r.Valid() && query < |r.x| && i < |r.x| && ik < r.nprobe
  {
    var key := r.KeyAt(i, ik);
    if key < 0 || key >= |r.lists| then ([], 0)
    else (ListHits(r.cfg, r.filter, r.x[query], key, r.lists[key]), |r.lists[key]|)
  }

  /** More hits in the partial result in use, and one more list of some size visited. */
  function WithHits(w: Worker, hits: seq<Hit>, size: nat): Worker
    requires w.partials != []
  {
    var last := w.partials[|w.partials| - 1];
    w.(partials := w.partials[..|w.partials| - 1] + [Partial(last.qno, last.hits + hits)],
       nlistv := w.nlistv + 1, ndis := w.ndis + size)
  }

  /** Scanning the list probed for query i at rank ik, with whatever query the scanner is set to, into the
      partial result in use. Unassigned and empty lists are passed over. */
  ghost function ScanList(r: Request, w: Worker, i: nat, ik: nat): (w': Worker)
    requires r.Valid() && i < |r.x| && ik < r.nprobe && w.query.Some? && w.query.value < |r.x| && w.partials != []
    ensures w'.query == w.query && |w'.partials| == |w.partials|
    ensures w'.partials[|w.partials| - 1].qno == w.partials[|w.partials| - 1].qno
  {
    var (hits, size) := Scanned(r, w.query.value, i, ik);
    if size == 0 then w else WithHits(w, hits, size)
  }

  lemma ScanListIs(r: Request, w: Worker, i: nat, ik: nat)
    requires r.Valid() && i < |r.x| && ik < r.nprobe && w.On(i)
    ensures var key := r.KeyAt(i, ik);
            if key < 0 || key >= |r.lists| || r.lists[key] == [] then ScanList(r, w, i, ik) == w
            else
              ScanList(r, w, i, ik)
              == WithHits(w, ListHits(r.cfg, r.filter, r.x[i], key, r.lists[key]), |r.lists[key]|)
  {
  }

  function HitsFor(ps: seq<Partial>, q: nat): multiset<Hit> {
    if ps == [] then multiset{}
    else HitsFor(ps[..|ps| - 1], q)
         + if ps[|ps| - 1].qno == q then multiset(ps[|ps| - 1].hits) else multiset{}
  }

  /** What a worker has for query q, with its totals over all queries. */
  function TallyOf(w: Worker, q: nat): Tally {
    Tally(HitsFor(w.partials, q), w.nlistv, w.ndis)
  }

  /** What scanning the list of one (query, rank) pair adds for query q. */
  ghost function Contribution(r: Request, q: nat, pair: (nat, nat)): Tally {
    if !r.Valid() || pair.0 >= |r.x| || pair.1 >= r.nprobe then ZERO
    else
      var (hits, size) := Scanned(r, pair.0, pair.0, pair.1);
      if size == 0 then ZERO else Tally(if pair.0 == q then multiset(hits) else multiset{}, 1, size)
  }

  ghost function ContributionTo(r: Request, q: nat): ((nat, nat)) -> Tally {
    pair => Contribution(r, q, pair)
  }

  lemma BeginAddsNothing(w: Worker, i: nat, q: nat)
    ensures TallyOf(BeginQuery(w, i), q) == TallyOf(w, q)
  {
    assert BeginQuery(w, i).partials[..|w.partials|] == w.partials;
  }

  lemma ScanAdds(r: Request, w: Worker, i: nat, ik: nat, q: nat)
    requires r.Valid() && i < |r.x| && ik < r.nprobe && w.On(i)
    ensures TallyOf(ScanList(r, w, i, ik), q) == Plus(TallyOf(w, q), Contribution(r, q, (i, ik)))
  {
    hide Scanned, Request.Valid, HitsFor;
    AppendHits(w.partials, Scanned(r, i, i, ik).0, q);
  }

  lemma AppendHits(ps: seq<Partial>, hits: seq<Hit>, q: nat)
    requires ps != []
    ensures var last := ps[|ps| - 1];
            HitsFor(ps[..|ps| - 1] + [Partial(last.qno, last.hits + hits)], q)
            == HitsFor(ps, q) + if last.qno == q then multiset(hits) else multiset{}
  {
    var last := ps[|ps| - 1];
    assert (ps[..|ps| - 1] + [Partial(last.qno, last.hits + hits)])[..|ps| - 1] == ps[..|ps| - 1];
    assert multiset(last.hits + hits) == multiset(last.hits) + multiset(hits);
  }

  /** A worker has, for every query, what the pairs scanned so far contribute. */
  ghost predicate Has(r: Request, w: Worker, done: seq<(nat, nat)>) {
    forall q: nat {:trigger TallyOf(w, q)} :: TallyOf(w, q) == Sum(ContributionTo(r, q), done)
  }

  lemma IdleHas(r: Request)
    ensures Has(r, IDLE, [])
  {
  }

  lemma BeginKeeps(r: Request, w: Worker, i: nat, done: seq<(nat, nat)>)
    requires Has(r, w, done)
    ensures Has(r, BeginQuery(w, i), done)
  {
    forall q: nat
      ensures TallyOf(BeginQuery(w, i), q) == Sum(ContributionTo(r, q), done)
    {
      BeginAddsNothing(w, i, q);
    }
  }

  lemma ScanExtends(r: Request, w: Worker, i: nat, ik: nat, done: seq<(nat, nat)>)
    requires r.Valid() && i < |r.x| && ik < r.nprobe && w.On(i) && Has(r, w, done)
    ensures Has(r, ScanList(r, w, i, ik), done + [(i, ik)])
  {
    hide ScanList, Plus, Sum, TallyOf;
    forall q: nat
      ensures TallyOf(ScanList(r, w, i, ik), q) == Sum(ContributionTo(r, q), done + [(i, ik)])
    {
      ScanAdds(r, w, i, ik, q);
      SumSnoc(ContributionTo(r, q), done, (i, ik));
    }
  }

  lemma {:induction false} AllPairsComplete(nx: nat, n: nat, p: (nat, nat))
    ensures p in AllPairs(nx, n) <==> p.0 < nx && p.1 < n
  {
    if nx > 0 {
      AllPairsComplete(nx - 1, n, p);
      var row := PairsOf(nx - 1, Range(n));
      if p.0 == nx - 1 && p.1 < n {
        assert row[p.1] == p;
      }
    }
  }

  // ---- runs ----

  datatype Step = Begin(worker: nat, i: nat) | Scan(worker: nat, i: nat, ik: nat)

  /** A step makes sense when its worker exists and, to scan for query i, is on query i. */
  ghost predicate Enabled(r: Request, ws: seq<Worker>, s: Step) {
    s.worker < |ws| && s.i < |r.x| && (s.Scan? ==> s.ik < r.nprobe && ws[s.worker].On(s.i))
  }

  ghost function Apply(r: Request, ws: seq<Worker>, s: Step): (ws': seq<Worker>)
    requires r.Valid()
    ensures |ws'| == |ws|
  {
    if !Enabled(r, ws, s) then ws
    else
      ws[s.worker := if s.Begin? then BeginQuery(ws[s.worker], s.i) else ScanList(r, ws[s.worker], s.i, s.ik)]
  }

  ghost function Run(r: Request, ws: seq<Worker>, trace: seq<Step>): (ws': seq<Worker>)
    requires r.Valid()
    ensures |ws'| == |ws|
    decreases |trace|
  {
    if trace == [] then ws else Apply(r, Run(r, ws, trace[..|trace| - 1]), trace[|trace| - 1])
  }

  /** Every scan of a trace is made by a worker that is on the scan's own query. */
  ghost predicate Proper(r: Request, ws: seq<Worker>, trace: seq<Step>)
    requires r.Valid()
    decreases |trace|
  {
    trace == []
    || (Proper(r, ws, trace[..|trace| - 1])
        && Enabled(r, Run(r, ws, trace[..|trace| - 1]), trace[|trace| - 1]))
  }

  function Scans(trace: seq<Step>): seq<(nat, nat)>
    decreases |trace|
  {
    if trace == [] then []
    else
      var s := trace[|trace| - 1];
      Scans(trace[..|trace| - 1]) + if s.Scan? then [(s.i, s.ik)] else []
  }

  /** What all workers together have for query q: their partial results are merged at the end. */
  function Merged(ws: seq<Worker>, q: nat): Tally {
    Sum(TallyFor(q), ws)
  }

  function TallyFor(q: nat): Worker -> Tally {
    w => TallyOf(w, q)
  }

  lemma MergedUpdate(ws: seq<Worker>, k: nat, w: Worker, q: nat, t: Tally)
    requires k < |ws| && TallyOf(w, q) == Plus(TallyOf(ws[k], q), t)
    ensures Merged(ws[k := w], q) == Plus(Merged(ws, q), t)
  {
    hide Plus, Sum, TallyOf;
    var c := TallyFor(q);
    var a, b := ws[..k], ws[k + 1..];
    assert ws == a + [ws[k]] + b && ws[k := w] == a + [w] + b;
    SumMiddle(c, a, w, b);
    SumMiddle(c, a, ws[k], b);
    PlusLaws(Sum(c, a + b), TallyOf(ws[k], q), t);
  }

  /** A proper run adds exactly what its scans contribute, whoever made them. */
  lemma {:induction false} RunAdds(r: Request, ws: seq<Worker>, trace: seq<Step>, q: nat)
    requires r.Valid() && Proper(r, ws, trace)
    ensures Merged(Run(r, ws, trace), q) == Plus(Merged(ws, q), Sum(ContributionTo(r, q), Scans(trace)))
    decreases |trace|
  {
    hide Plus, Sum, TallyOf, Merged, Contribution, ScanList, BeginQuery, Request.Valid;
    var c := ContributionTo(r, q);
    if trace == [] {
      SumNone(c);
      PlusLaws(Merged(ws, q), ZERO, ZERO);
    } else {
      var trace', s := trace[..|trace| - 1], trace[|trace| - 1];
      RunAdds(r, ws, trace', q);
      var ws' := Run(r, ws, trace');
      var w := ws'[s.worker];
      match s {
        case Begin(_, i) =>
          assert Scans(trace) == Scans(trace');
          BeginAddsNothing(w, i, q);
          PlusLaws(TallyOf(w, q), ZERO, ZERO);
          PlusLaws(Merged(ws', q), ZERO, ZERO);
          MergedUpdate(ws', s.worker, BeginQuery(w, i), q, ZERO);
        case Scan(_, i, ik) =>
          ScanAdds(r, w, i, ik, q);
          MergedUpdate(ws', s.worker, ScanList(r, w, i, ik), q, Contribution(r, q, (i, ik)));
          SumSnoc(c, Scans(trace'), (i, ik));
          PlusLaws(Merged(ws, q), Sum(c, Scans(trace')), Contribution(r, q, (i, ik)));
      }
    }
  }

  lemma SumNone<T>(c: T -> Tally)
    ensures Sum(c, []) == ZERO
  {
  }

  lemma {:induction false} RunAppend(r: Request, ws: seq<Worker>, a: seq<Step>, b: seq<Step>)
    requires r.Valid()
    ensures Run(r, ws, a + b) == Run(r, Run(r, ws, a), b)
    ensures Proper(r, ws, a + b) <==> Proper(r, ws, a) && Proper(r, Run(r, ws, a), b)
    ensures Scans(a + b) == Scans(a) + Scans(b)
    decreases |b|
  {
    hide Apply, Enabled, Request.Valid;
    if b == [] {
      assert a + b == a;
    } else {
      var b' := b[..|b| - 1];
      RunAppend(r, ws, a, b');
      assert (a + b)[..|a + b| - 1] == a + b';
    }
  }

  /** Work handed out: pairs of a worker and a number. */
  type Deal = seq<(nat, nat)>

  function Numbers(deal: Deal): (s: seq<nat>)
    ensures |s| == |deal|
  {
    seq(|deal|, k requires 0 <= k < |deal| => deal[k].1)
  }

  /** The numbers below n are each handed to exactly one of nw workers. */
  ghost predicate IsDeal(deal: Deal, nw: nat, n: nat) {
    multiset(Numbers(deal)) == multiset(Range(n)) && forall p :: p in deal ==> p.0 < nw
  }

  lemma DealInRange(deal: Deal, nw: nat, n: nat)
    requires IsDeal(deal, nw, n)
    ensures forall p :: p in deal ==> p.0 < nw && p.1 < n
  {
    forall k | 0 <= k < |deal|
      ensures deal[k].1 < n
    {
      assert Numbers(deal)[k] in multiset(Numbers(deal));
      assert Numbers(deal)[k] in Range(n);
    }
  }

  function PairsOf(i: nat, iks: seq<nat>): seq<(nat, nat)> {
    Map(PairWith(i), iks)
  }

  function PairWith(i: nat): nat -> (nat, nat) {
    ik => (i, ik)
  }

  lemma PairsPermutation(c: ((nat, nat)) -> Tally, i: nat, a: seq<nat>, b: seq<nat>)
    requires multiset(a) == multiset(b)
    ensures Sum(c, PairsOf(i, a)) == Sum(c, PairsOf(i, b))
  {
    SumMap(c, PairWith(i), a);
    SumMap(c, PairWith(i), b);
    SumPermutation(Compose(c, PairWith(i)), a, b);
  }

  /** Scans for query i, each handed to some worker. */
  function DealtScans(deal: Deal, i: nat): (trace: seq<Step>)
    ensures |trace| == |deal|
  {
    seq(|deal|, k requires 0 <= k < |deal| => Scan(deal[k].0, i, deal[k].1))
  }

  /** Workers that are on query i can share its scans in any way, and stay on it. */
  lemma {:induction false} DealtScansProper(r: Request, ws: seq<Worker>, deal: Deal, i: nat)
    requires r.Valid() && i < |r.x|
    requires forall p :: p in deal ==> p.0 < |ws| && ws[p.0].On(i) && p.1 < r.nprobe
    ensures Proper(r, ws, DealtScans(deal, i))
    ensures Scans(DealtScans(deal, i)) == PairsOf(i, Numbers(deal))
    ensures forall k :: 0 <= k < |ws| && ws[k].On(i) ==> Run(r, ws, DealtScans(deal, i))[k].On(i)
    decreases |deal|
  {
    hide Request.Valid, ScanList, BeginQuery;
    if deal != [] {
      var deal', p := deal[..|deal| - 1], deal[|deal| - 1];
      DealtScansProper(r, ws, deal', i);
      assert p in deal;
      assert DealtScans(deal, i)[..|deal| - 1] == DealtScans(deal', i);
      assert PairsOf(i, Numbers(deal)) == PairsOf(i, Numbers(deal')) + [(i, p.1)];
    }
  }

  // ---- the three ways of dealing ----

  function AllPairs(nx: nat, n: nat): seq<(nat, nat)> {
    if nx == 0 then [] else AllPairs(nx - 1, n) + PairsOf(nx - 1, Range(n))
  }

  /** What the nested loop over queries and probes finds for query q. */
  ghost function Expected(r: Request, q: nat): Tally {
    Sum(ContributionTo(r, q), AllPairs(|r.x|, r.nprobe))
  }

  ghost function Idle(nw: nat): (ws: seq<Worker>)
    ensures |ws| == nw
  {
    seq(nw, _ => IDLE)
  }

  lemma {:induction false} IdleHasNothing(nw: nat, q: nat)
    ensures Merged(Idle(nw), q) == ZERO
  {
    hide Plus;
    if nw > 0 {
      IdleHasNothing(nw - 1, q);
      assert Idle(nw) == Idle(nw - 1) + [IDLE];
      SumSnoc(TallyFor(q), Idle(nw - 1), IDLE);
      assert TallyOf(IDLE, q) == ZERO;
      PlusLaws(ZERO, ZERO, ZERO);
    }
  }

  /** Mode 0: whole queries are handed out; a worker begins each query it gets and scans its lists in order. */
  function Mode0(deal: Deal, n: nat): seq<Step>
    decreases |deal|
  {
    if deal == [] then []
    else
      var (w, i) := deal[|deal| - 1];
      Mode0(deal[..|deal| - 1], n) + WholeQuery(w, i, n)
  }

  function WholeQuery(w: nat, i: nat, n: nat): seq<Step> {
    [Begin(w, i)] + DealtScans(SameWorker(w, n), i)
  }

  lemma WholeQueryScans(w: nat, i: nat, n: nat)
    ensures Scans(WholeQuery(w, i, n)) == PairsOf(i, Range(n))
  {
    ScansOfDealt(SameWorker(w, n), i);
    ScansAppend([Begin(w, i)], DealtScans(SameWorker(w, n), i));
    assert Scans([Begin(w, i)]) == [];
  }

  function SameWorker(w: nat, n: nat): (deal: Deal)
    ensures Numbers(deal) == Range(n)
  {
    seq(n, k => (w, k))
  }

  lemma BeginProper(r: Request, ws: seq<Worker>, w: nat, i: nat)
    requires r.Valid() && w < |ws| && i < |r.x|
    ensures Proper(r, ws, [Begin(w, i)]) && Run(r, ws, [Begin(w, i)]) == ws[w := BeginQuery(ws[w], i)]
    ensures Scans([Begin(w, i)]) == []
  {
    var trace := [Begin(w, i)];
    assert trace[..|trace| - 1] == [] && Proper(r, ws, []) && Run(r, ws, []) == ws;
  }

  lemma {:induction false} Mode0Proper(r: Request, ws: seq<Worker>, deal: Deal)
    requires r.Valid() && forall p :: p in deal ==> p.0 < |ws| && p.1 < |r.x|
    ensures Proper(r, ws, Mode0(deal, r.nprobe))
    decreases |deal|
  {
    hide Request.Valid, BeginQuery, DealtScans;
    if deal != [] {
      var deal', p := deal[..|deal| - 1], deal[|deal| - 1];
      var (w, i) := p;
      assert p in deal;
      Mode0Proper(r, ws, deal');
      var ws' := Run(r, ws, Mode0(deal', r.nprobe));
      BeginProper(r, ws', w, i);
      DealtScansProper(r, ws'[w := BeginQuery(ws'[w], i)], SameWorker(w, r.nprobe), i);
      RunAppend(r, ws', [Begin(w, i)], DealtScans(SameWorker(w, r.nprobe), i));
      RunAppend(r, ws, Mode0(deal', r.nprobe), WholeQuery(w, i, r.nprobe));
    }
  }

  lemma ScansNone()
    ensures Scans([]) == []
  {
  }

  lemma {:induction false} ScansAppend(a: seq<Step>, b: seq<Step>)
    ensures Scans(a + b) == Scans(a) + Scans(b)
    decreases |b|
  {
    if b == [] {
      assert a + b == a;
    } else {
      ScansAppend(a, b[..|b| - 1]);
      assert (a + b)[..|a + b| - 1] == a + b[..|b| - 1];
    }
  }

  lemma {:induction false} ScansOfDealt(deal: Deal, i: nat)
    ensures Scans(DealtScans(deal, i)) == PairsOf(i, Numbers(deal))
    decreases |deal|
  {
    if deal != [] {
      var deal', p := deal[..|deal| - 1], deal[|deal| - 1];
      ScansOfDealt(deal', i);
      assert DealtScans(deal, i)[..|deal| - 1] == DealtScans(deal', i);
      assert PairsOf(i, Numbers(deal)) == PairsOf(i, Numbers(deal')) + [(i, p.1)];
    }
  }

  function RowTally(c: ((nat, nat)) -> Tally, n: nat): nat -> Tally {
    (i: nat) => Sum(c, PairsOf(i, Range(n)))
  }

  lemma {:induction false} AllPairsSum(c: ((nat, nat)) -> Tally, nx: nat, n: nat)
    ensures Sum(c, AllPairs(nx, n)) == Sum(RowTally(c, n), Range(nx))
  {
    hide Plus;
    if nx > 0 {
      var i: nat := nx - 1;
      AllPairsSum(c, i, n);
      SumAppend(c, AllPairs(i, n), PairsOf(i, Range(n)));
      assert Range(nx) == Range(i) + [i];
      SumSnoc(RowTally(c, n), Range(i), i);
    }
  }

  lemma {:induction false} Mode0Sum(c: ((nat, nat)) -> Tally, deal: Deal, n: nat)
    ensures Sum(c, Scans(Mode0(deal, n))) == Sum(RowTally(c, n), Numbers(deal))
    decreases |deal|
  {
    hide Plus, WholeQuery, Scans;
    if deal == [] {
      ScansNone();
      SumNone(c);
      SumNone(RowTally(c, n));
    } else {
      var deal', p := deal[..|deal| - 1], deal[|deal| - 1];
      var (w, i) := p;
      Mode0Sum(c, deal', n);
      WholeQueryScans(w, i, n);
      ScansAppend(Mode0(deal', n), WholeQuery(w, i, n));
      SumAppend(c, Scans(Mode0(deal', n)), PairsOf(i, Range(n)));
      assert Numbers(deal) == Numbers(deal') + [i];
      SumSnoc(RowTally(c, n), Numbers(deal'), i);
    }
  }

  /** Mode 0: however the queries are handed out, every query ends up with what the nested loop finds. */
  lemma Mode0Correct(r: Request, nw: nat, deal: Deal, q: nat)
    requires r.Valid() && IsDeal(deal, nw, |r.x|)
    ensures Merged(Run(r, Idle(nw), Mode0(deal, r.nprobe)), q) == Expected(r, q)
  {
    var c := ContributionTo(r, q);
    DealInRange(deal, nw, |r.x|);
    Mode0Proper(r, Idle(nw), deal);
    RunAdds(r, Idle(nw), Mode0(deal, r.nprobe), q);
    IdleHasNothing(nw, q);
    PlusLaws(Sum(c, Scans(Mode0(deal, r.nprobe))), ZERO, ZERO);
    Mode0Sum(c, deal, r.nprobe);
    AllPairsSum(c, |r.x|, r.nprobe);
    SumPermutation(RowTally(c, r.nprobe), Numbers(deal), Range(|r.x|));
  }

  /** Mode 1: for each query in turn every worker begins it, and its lists are handed out. */
  function Mode1(deals: seq<Deal>, nw: nat): seq<Step>
    decreases |deals|
  {
    if deals == [] then []
    else
      var i := |deals| - 1;
      Mode1(deals[..i], nw) + (Begins(nw, i) + DealtScans(deals[i], i))
  }

  function Begins(nw: nat, i: nat): (trace: seq<Step>)
    ensures |trace| == nw
  {
    seq(nw, (w: nat) => Begin(w, i))
  }

  lemma {:induction false} BeginsProper(r: Request, ws: seq<Worker>, n: nat, i: nat)
    requires r.Valid() && n <= |ws| && i < |r.x|
    ensures Proper(r, ws, Begins(n, i)) && Scans(Begins(n, i)) == []
    ensures forall k :: 0 <= k < n ==> Run(r, ws, Begins(n, i))[k].On(i)
    decreases n
  {
    hide Request.Valid, ScanList;
    if n > 0 {
      BeginsProper(r, ws, n - 1, i);
      assert Begins(n, i)[..n - 1] == Begins(n - 1, i);
    }
  }

  /** Each query's ranks are handed out once. */
  ghost predicate AreDeals(deals: seq<Deal>, nw: nat, n: nat) {
    forall i :: 0 <= i < |deals| ==> IsDeal(deals[i], nw, n)
  }

  lemma {:induction false} Mode1Proper(r: Request, ws: seq<Worker>, deals: seq<Deal>)
    requires r.Valid() && |deals| <= |r.x| && AreDeals(deals, |ws|, r.nprobe)
    ensures Proper(r, ws, Mode1(deals, |ws|))
    decreases |deals|
  {
    hide Request.Valid, DealtScans, Begins, Worker.On;
    if deals != [] {
      var i := |deals| - 1;
      var ws' := Run(r, ws, Mode1(deals[..i], |ws|));
      Mode1Proper(r, ws, deals[..i]);
      BeginsProper(r, ws', |ws|, i);
      DealInRange(deals[i], |ws|, r.nprobe);
      DealtScansProper(r, Run(r, ws', Begins(|ws|, i)), deals[i], i);
      RunAppend(r, ws', Begins(|ws|, i), DealtScans(deals[i], i));
      RunAppend(r, ws, Mode1(deals[..i], |ws|), Begins(|ws|, i) + DealtScans(deals[i], i));
    }
  }

  lemma {:induction false} BeginsScans(n: nat, i: nat)
    ensures Scans(Begins(n, i)) == []
    decreases n
  {
    if n > 0 {
      BeginsScans(n - 1, i);
      assert Begins(n, i)[..n - 1] == Begins(n - 1, i);
    }
  }

  lemma {:induction false} Mode1Sum(c: ((nat, nat)) -> Tally, deals: seq<Deal>, nw: nat, n: nat)
    requires AreDeals(deals, nw, n)
    ensures Sum(c, Scans(Mode1(deals, nw))) == Sum(c, AllPairs(|deals|, n))
    decreases |deals|
  {
    hide DealtScans, Begins, Plus, Sum, Scans, PairsOf;
    ScansNone();
    if deals != [] {
      var i := |deals| - 1;
      var before, row := Mode1(deals[..i], nw), Begins(nw, i) + DealtScans(deals[i], i);
      Mode1Sum(c, deals[..i], nw, n);
      BeginsScans(nw, i);
      ScansOfDealt(deals[i], i);
      ScansAppend(Begins(nw, i), DealtScans(deals[i], i));
      ScansAppend(before, row);
      assert Scans(row) == PairsOf(i, Numbers(deals[i]));
      SumAppend(c, Scans(before), Scans(row));
      SumAppend(c, AllPairs(i, n), PairsOf(i, Range(n)));
      PairsPermutation(c, i, Numbers(deals[i]), Range(n));
    }
  }

  /** Mode 1: however each query's lists are handed out, every query ends up with what the nested loop finds. */
  lemma Mode1Correct(r: Request, nw: nat, deals: seq<Deal>, q: nat)
    requires r.Valid() && |deals| == |r.x| && AreDeals(deals, nw, r.nprobe)
    ensures Merged(Run(r, Idle(nw), Mode1(deals, nw)), q) == Expected(r, q)
  {
    var c := ContributionTo(r, q);
    Mode1Proper(r, Idle(nw), deals);
    Mode1Sum(c, deals, nw, r.nprobe);
    RunAdds(r, Idle(nw), Mode1(deals, nw), q);
    IdleHasNothing(nw, q);
    PlusLaws(Sum(c, Scans(Mode1(deals, nw))), ZERO, ZERO);
  }

  /** The (query, rank) pair a flat iteration number stands for. */
  function PairAt(n: nat): nat -> (nat, nat) {
    (k: nat) => if n == 0 then (0, 0) else (k / n, k % n)
  }

  /** Mode 2: the (query, rank) pairs are handed out as flat numbers; a worker begins a query whenever its
      partial result in use is missing or for another query. */
  ghost function Mode2(r: Request, ws: seq<Worker>, deal: Deal): seq<Step>
    requires r.Valid()
    decreases |deal|
  {
    if deal == [] then []
    else
      var before := Mode2(r, ws, deal[..|deal| - 1]);
      before + NumberedScan(r, Run(r, ws, before), deal[|deal| - 1])
  }

  ghost function NumberedScan(r: Request, ws: seq<Worker>, p: (nat, nat)): seq<Step> {
    var (i, ik) := PairAt(r.nprobe)(p.1);
    var begin := p.0 < |ws|
              && (ws[p.0].partials == [] || ws[p.0].partials[|ws[p.0].partials| - 1].qno != i);
    (if begin then [Begin(p.0, i)] else []) + [Scan(p.0, i, ik)]
  }

  ghost predicate AllCoherent(ws: seq<Worker>) {
    forall k :: 0 <= k < |ws| ==> ws[k].Coherent()
  }

  lemma NumberedScanProper(r: Request, ws: seq<Worker>, p: (nat, nat))
    requires r.Valid() && p.0 < |ws| && p.1 < |r.x| * r.nprobe
    requires AllCoherent(ws)
    ensures Proper(r, ws, NumberedScan(r, ws, p))
    ensures Scans(NumberedScan(r, ws, p)) == [PairAt(r.nprobe)(p.1)]
    ensures AllCoherent(Run(r, ws, NumberedScan(r, ws, p)))
  {
    hide Request.Valid, Run, Proper, Scans, PairAt, BeginQuery;
    DivInRange(p.1, |r.x|, r.nprobe);
    PairAtIs(r.nprobe, p.1);
    var (i, ik) := PairAt(r.nprobe)(p.1);
    var scan := [Scan(p.0, i, ik)];
    if ws[p.0].On(i) {
      ScanProper(r, ws, p.0, i, ik);
      assert NumberedScan(r, ws, p) == scan;
    } else {
      BeginProper(r, ws, p.0, i);
      ScanProper(r, ws[p.0 := BeginQuery(ws[p.0], i)], p.0, i, ik);
      RunAppend(r, ws, [Begin(p.0, i)], scan);
      assert NumberedScan(r, ws, p) == [Begin(p.0, i)] + scan;
    }
  }

  lemma PairAtIs(n: nat, k: nat)
    requires n > 0
    ensures PairAt(n)(k) == (k / n, k % n)
  {
  }

  lemma ScanProper(r: Request, ws: seq<Worker>, w: nat, i: nat, ik: nat)
    requires r.Valid() && w < |ws| && i < |r.x| && ik < r.nprobe && ws[w].On(i) && AllCoherent(ws)
    ensures Proper(r, ws, [Scan(w, i, ik)]) && AllCoherent(Run(r, ws, [Scan(w, i, ik)]))
    ensures Scans([Scan(w, i, ik)]) == [(i, ik)]
  {
    hide Request.Valid, ScanList;
    var trace := [Scan(w, i, ik)];
    assert trace[..|trace| - 1] == [] && Proper(r, ws, []) && Run(r, ws, []) == ws && Scans([]) == [];
  }

  lemma DivInRange(k: nat, nx: nat, n: nat)
    requires k < nx * n
    ensures n > 0 && 0 <= k / n < nx && 0 <= k % n < n
  {
    if n == 0 {
      assert false;
    }
    if k / n >= nx {
      Bits.MulMonotone(n, nx, k / n);
      assert false;
    }
  }

  lemma {:induction false} Mode2Proper(r: Request, ws: seq<Worker>, deal: Deal)
    requires r.Valid() && forall p :: p in deal ==> p.0 < |ws| && p.1 < |r.x| * r.nprobe
    requires AllCoherent(ws)
    ensures Proper(r, ws, Mode2(r, ws, deal))
    ensures Scans(Mode2(r, ws, deal)) == Map(PairAt(r.nprobe), Numbers(deal))
    ensures AllCoherent(Run(r, ws, Mode2(r, ws, deal)))
    decreases |deal|
  {
    hide Request.Valid, NumberedScan, AllCoherent, PairAt, Apply, Enabled;
    if deal != [] {
      var deal', p := deal[..|deal| - 1], deal[|deal| - 1];
      Mode2Proper(r, ws, deal');
      assert p in deal;
      var before := Mode2(r, ws, deal');
      var ws' := Run(r, ws, before);
      NumberedScanProper(r, ws', p);
      RunAppend(r, ws, before, NumberedScan(r, ws', p));
      assert Map(PairAt(r.nprobe), Numbers(deal)) == Map(PairAt(r.nprobe), Numbers(deal')) + [PairAt(r.nprobe)(p.1)];
    }
  }

  /** The flat numbers, in order, are the pairs of the nested loop. */
  lemma {:induction false} FlatPairs(nx: nat, n: nat)
    requires n > 0
    ensures Map(PairAt(n), Range(nx * n)) == AllPairs(nx, n)
  {
    if nx > 0 {
      FlatPairs(nx - 1, n);
      var m := (nx - 1) * n;
      assert nx * n == m + n;
      var s, t := Map(PairAt(n), Range(m)), PairsOf(nx - 1, Range(n));
      forall k | 0 <= k < m + n
        ensures PairAt(n)(k) == (s + t)[k]
      {
        if k >= m {
          Bits.UniqueRemainder(k, n, nx - 1, k - m);
        }
      }
      assert Map(PairAt(n), Range(m + n)) == s + t;
    }
  }

  /** Mode 2: however the pairs are handed out, every query ends up with what the nested loop finds. */
  lemma Mode2Correct(r: Request, nw: nat, deal: Deal, q: nat)
    requires r.Valid() && IsDeal(deal, nw, |r.x| * r.nprobe)
    ensures Merged(Run(r, Idle(nw), Mode2(r, Idle(nw), deal)), q) == Expected(r, q)
  {
    var c := ContributionTo(r, q);
    DealInRange(deal, nw, |r.x| * r.nprobe);
    Mode2Proper(r, Idle(nw), deal);
    RunAdds(r, Idle(nw), Mode2(r, Idle(nw), deal), q);
    IdleHasNothing(nw, q);
    PlusLaws(Sum(c, Scans(Mode2(r, Idle(nw), deal))), ZERO, ZERO);
    SumMap(c, PairAt(r.nprobe), Numbers(deal));
    SumMap(c, PairAt(r.nprobe), Range(|r.x| * r.nprobe));
    SumPermutation(Compose(c, PairAt(r.nprobe)), Numbers(deal), Range(|r.x| * r.nprobe));
    FlatPairs(|r.x|, r.nprobe);
  }

  // ---- what the search as a whole reports ----

  lemma {:induction false} SumContains<T>(c: T -> Tally, s: seq<T>, hit: Hit)
    ensures hit in Sum(c, s).hits <==> exists p :: p in s && hit in c(p).hits
    decreases |s|
  {
    if s != [] {
      SumContains(c, s[..|s| - 1], hit);
      assert s == s[..|s| - 1] + [s[|s| - 1]];
    }
  }

  /** The hits for query q are those found in the lists probed for it. */
  lemma ExpectedAre(r: Request, q: nat, hit: Hit)
    requires r.Valid() && q < |r.x|
    ensures hit in Expected(r, q).hits <==> exists ik: nat :: ik < r.nprobe && hit in Scanned(r, q, q, ik).0
  {
    hide Request.Valid, Scanned, AllPairs;
    var c, s := ContributionTo(r, q), AllPairs(|r.x|, r.nprobe);
    SumContains(c, s, hit);
    if ik: nat :| ik < r.nprobe && hit in Scanned(r, q, q, ik).0 {
      AllPairsComplete(|r.x|, r.nprobe, (q, ik));
      EmptyScan(r, q, ik);
      assert hit in c((q, ik)).hits;
    }
    if p :| p in s && hit in c(p).hits {
      AllPairsComplete(|r.x|, r.nprobe, p);
      assert hit in Scanned(r, q, q, p.1).0;
    }
  }

  lemma EmptyScan(r: Request, q: nat, ik: nat)
    requires r.Valid() && q < |r.x| && ik < r.nprobe
    ensures Scanned(r, q, q, ik).1 == 0 ==> Scanned(r, q, q, ik).0 == []
  {
  }

  /** No false dismissals: at confidence 1, with the lists aligned, every entry of a list probed for the query
      that is selected and whose vector is truly within the radius is among the query's hits. */
  lemma NoFalseDismissals(r: Request, q: nat, ik: nat, e: Item)
    requires r.Valid() && q < |r.x| && ik < r.nprobe && 0 <= r.KeyAt(q, ik) < |r.lists|
    requires Aligned(r.cfg, Index(0, r.lists)) && e in r.lists[r.KeyAt(q, ik)]
    requires r.cfg.ivf.metric.L2? && r.filter.confidence == 1.0 && r.filter.radius >= 0.0 && r.filter.Selects(e.id)
    requires |e.vector| == r.cfg.ivf.D() && SqDist(r.x[q], e.vector) <= r.filter.radius
    ensures ValidCode(e.code, |r.cfg.ivf.books|, r.cfg.ivf.ksub)
    ensures Hit(e.id, TableDistance(r.cfg, r.x[q], r.KeyAt(q, ik), e)) in Expected(r, q).hits
  {
    var key := r.KeyAt(q, ik);
    AlignedAt(r.cfg, r.lists, key, e);
    var hit := Hit(e.id, TableDistance(r.cfg, r.x[q], key, e));
    NoFalseDismissal(r.cfg, r.filter, r.x[q], key, e);
    ListHitsAre(r.cfg, r.filter, r.x[q], key, r.lists[key], hit);
    ExpectedAre(r, q, hit);
    assert hit in Scanned(r, q, q, ik).0;
  }

  lemma AlignedAt(cfg: Config, lists: seq<seq<Item>>, l: nat, e: Item)
    requires cfg.Valid() && Aligned(cfg, Index(0, lists)) && l < |lists| && e in lists[l]
    ensures ItemAligned(cfg, l, e)
  {
    var o :| 0 <= o < |lists[l]| && lists[l][o] == e;
    assert Index(0, lists).lists[l][o] == e;
  }

  /** Full recall, from adding to searching: at confidence 1, with every list probed, each selected row that was
      assigned when it was added and is truly within the radius is among the query's hits, under its own id and with
      the distance from what its own code stands for. */
  lemma {:induction false} AddedRowsAreFound(r: Request, rows: seq<Row>, q: nat, i: nat)
    requires r.Valid() && ValidRows(r.cfg, rows) && q < |r.x| && i < |rows| && rows[i].key >= 0
    requires r.lists == AddAll(r.cfg, Empty(r.cfg.ivf.nlist), rows).lists
    requires forall l :: 0 <= l < |r.lists| ==> Probed(r, q, l)
    requires r.cfg.ivf.metric.L2? && r.filter.confidence == 1.0 && r.filter.radius >= 0.0
    requires r.filter.Selects(if rows[i].id.Some? then rows[i].id.value else i)
    requires ValidRow(r.cfg, rows[i]) && SqDist(r.x[q], rows[i].x) <= r.filter.radius
    ensures var id, key := if rows[i].id.Some? then rows[i].id.value else i, rows[i].key;
      var code := r.cfg.encode(if r.cfg.ivf.byResidual then Sub(rows[i].x, r.cfg.ivf.Centroid(key)) else rows[i].x);
      && ValidCode(code, |r.cfg.ivf.books|, r.cfg.ivf.ksub)
      && Hit(id, SqDist(r.x[q], r.cfg.ivf.Reconstruct(key, code))) in Expected(r, q).hits
  {
    hide Reported, TableDistance, Expected, AddAll, SqDist, Request.KeyAt;
    var e := AddedEntry(r.cfg, rows, i);
    ReportedIff(r.cfg, r.filter, r.x[q], rows[i].key, e);
    assert Probed(r, q, rows[i].key);
    var ik: nat :| ik < r.nprobe && r.KeyAt(q, ik) == rows[i].key;
    NoFalseDismissals(r, q, ik, e);
  }

  ghost predicate Probed(r: Request, q: nat, l: nat)
    requires r.Valid() && q < |r.x|
  {
    exists ik: nat :: ik < r.nprobe && r.KeyAt(q, ik) == l
  }

  /** Nothing else: a hit is a reported entry of a list probed for the query, with its table distance. */
  lemma OnlyReported(r: Request, q: nat, hit: Hit) returns (ik: nat, e: Item)
    requires r.Valid() && q < |r.x| && hit in Expected(r, q).hits
    ensures ik < r.nprobe && 0 <= r.KeyAt(q, ik) < |r.lists| && e in r.lists[r.KeyAt(q, ik)]
    ensures ValidCode(e.code, |r.cfg.ivf.books|, r.cfg.ivf.ksub)
    ensures Reported(r.cfg, r.filter, r.x[q], r.KeyAt(q, ik), e)
    ensures hit == Hit(e.id, TableDistance(r.cfg, r.x[q], r.KeyAt(q, ik), e))
  {
    hide Reported, TableDistance;
    ExpectedAre(r, q, hit);
    ik :| ik < r.nprobe && hit in Scanned(r, q, q, ik).0;
    var key := r.KeyAt(q, ik);
    ListHitsAre(r.cfg, r.filter, r.x[q], key, r.lists[key], hit);
    e :| e in r.lists[key] && Reported(r.cfg, r.filter, r.x[q], key, e)
      && hit == Hit(e.id, TableDistance(r.cfg, r.x[q], key, e));
  }
}
