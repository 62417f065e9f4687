/** What a range search over the IVF-PQ index reports, and why it misses nothing at confidence 1. */
module RangeSearchSpec {
  import opened Vectors
  import opened ProductQuantizers
  import opened LookupTables
  import opened IvfPqSpec
  import opened Wrappers

  datatype Hit = Hit(id: int, dis: real)

  /** How close the true point can be, given the distance p of its reconstruction and a share of its error. */
  function LowerBound(p: real, error: real, confidence: real): real {
    Abs(p - Share(error, confidence))
  }

  function Share(error: real, confidence: real): real {
    error * confidence
  }

  lemma ShareMonotone(error: real, c: real, c': real)
    requires error >= 0.0 && c <= c'
    ensures Share(error, c) <= Share(error, c')
  {
    ProductMonotone(c, c', error);
  }

  /** The parameters of a search that bear on one entry. */
  datatype Filter = Filter(radius: real, confidence: real, sel: Option<int -> bool>)
  {
    predicate UsesErrors() {
      0.0 < confidence <= 1.0
    }

    /** Whether an entry at a table distance is reported. With a confidence in (0, 1] the test is on the lower
        bound of its true distance; square roots of negative numbers compare false. Otherwise it is the metric's
        strict comparison with the radius. */
    predicate Accepts(root: real -> real, metric: Metric, dis: real, error: real) {
      if UsesErrors() then
        dis >= 0.0 && radius >= 0.0 && LowerBound(root(dis), error, confidence) <= root(radius)
      else
        match metric
        case L2 => radius > dis
        case InnerProduct => radius < dis
    }

    predicate Selects(id: int) {
      sel.Some? ==> sel.value(id)
    }
  }

  function TableDistance(cfg: Config, q: Vec, l: nat, e: Item): real
    requires cfg.Valid() && |q| == cfg.ivf.D() && l < cfg.ivf.nlist && ValidCode(e.code, |cfg.ivf.books|, cfg.ivf.ksub)
  {
    cfg.ivf.Target(q, l, e.code)
  }

  predicate Reported(cfg: Config, f: Filter, q: Vec, l: nat, e: Item)
    requires cfg.Valid() && |q| == cfg.ivf.D() && l < cfg.ivf.nlist && ValidCode(e.code, |cfg.ivf.books|, cfg.ivf.ksub)
  {
    f.Selects(e.id) && f.Accepts(cfg.root, cfg.ivf.metric, TableDistance(cfg, q, l, e), e.error)
  }

  ghost predicate ValidItems(cfg: Config, items: seq<Item>) {
    forall e :: e in items ==> ValidCode(e.code, |cfg.ivf.books|, cfg.ivf.ksub)
  }

  /** What scanning one list reports, in list order. */
  function ListHits(cfg: Config, f: Filter, q: Vec, l: nat, items: seq<Item>): seq<Hit>
    requires cfg.Valid() && |q| == cfg.ivf.D() && l < cfg.ivf.nlist && ValidItems(cfg, items)
    decreases |items|
  {
    if items == [] then []
    else
      var e := items[|items| - 1];
      ListHits(cfg, f, q, l, items[..|items| - 1]) + HitOf(cfg, f, q, l, e)
  }

  function HitOf(cfg: Config, f: Filter, q: Vec, l: nat, e: Item): seq<Hit>
    requires cfg.Valid() && |q| == cfg.ivf.D() && l < cfg.ivf.nlist && ValidCode(e.code, |cfg.ivf.books|, cfg.ivf.ksub)
  {
    if Reported(cfg, f, q, l, e) then [Hit(e.id, TableDistance(cfg, q, l, e))] else []
  }

  lemma ListHitsStep(cfg: Config, f: Filter, q: Vec, l: nat, items: seq<Item>, j: nat)
    requires cfg.Valid() && |q| == cfg.ivf.D() && l < cfg.ivf.nlist && ValidItems(cfg, items) && j < |items|
    ensures ValidCode(items[j].code, |cfg.ivf.books|, cfg.ivf.ksub)
    ensures ListHits(cfg, f, q, l, items[..j + 1]) == ListHits(cfg, f, q, l, items[..j]) + HitOf(cfg, f, q, l, items[j])
  {
    assert items[..j + 1][..j] == items[..j];
  }

  /** Exactly the reported entries are among the hits, each with its id and distance. */
  lemma {:induction false} ListHitsAre(cfg: Config, f: Filter, q: Vec, l: nat, items: seq<Item>, hit: Hit)
    requires cfg.Valid() && |q| == cfg.ivf.D() && l < cfg.ivf.nlist && ValidItems(cfg, items)
    ensures hit in ListHits(cfg, f, q, l, items) <==>
      exists e :: e in items && Reported(cfg, f, q, l, e) && hit == Hit(e.id, TableDistance(cfg, q, l, e))
    decreases |items|
  {
    hide TableDistance, Filter.Accepts, Filter.Selects;
    if items != [] {
      var rest, e := items[..|items| - 1], items[|items| - 1];
      ListHitsAre(cfg, f, q, l, rest, hit);
      assert items == rest + [e];
    }
  }

  /** Exactly when an entry is reported, in terms of the distance from its reconstruction: it is selected and, with a
      confidence in (0, 1], that distance differs from the share of its error by at most the radius; otherwise, by
      default, the distance is less than the radius, or the inner product greater. */
  lemma ReportedIff(cfg: Config, f: Filter, q: Vec, l: nat, e: Item)
    requires cfg.Valid() && |q| == cfg.ivf.D() && l < cfg.ivf.nlist && ValidCode(e.code, |cfg.ivf.books|, cfg.ivf.ksub)
    ensures var y := cfg.ivf.Reconstruct(l, e.code);
      var d := if cfg.ivf.metric.L2? then SqDist(q, y) else Dot(q, y);
      && TableDistance(cfg, q, l, e) == d
      && (Reported(cfg, f, q, l, e) <==>
            && (f.sel.Some? ==> f.sel.value(e.id))
            && if 0.0 < f.confidence <= 1.0 then
                 d >= 0.0 && f.radius >= 0.0
                 && -cfg.root(f.radius) <= cfg.root(d) - e.error * f.confidence <= cfg.root(f.radius)
               else if cfg.ivf.metric.L2? then d < f.radius else d > f.radius)
  {
  }

  /** By default, what is reported is within the radius up to its own error, and what is within the radius by more
      than its own error is reported, in true distances. */
  lemma DefaultBounds(cfg: Config, f: Filter, q: Vec, l: nat, e: Item)
    requires cfg.Valid() && |q| == cfg.ivf.D() && l < cfg.ivf.nlist && ItemAligned(cfg, l, e)
    requires cfg.ivf.metric.L2? && f.radius >= 0.0 && !(0.0 < f.confidence <= 1.0)
    ensures SqDist(q, e.vector) >= 0.0
    ensures Reported(cfg, f, q, l, e) ==> cfg.root(SqDist(q, e.vector)) < cfg.root(f.radius) + e.error
    ensures cfg.root(SqDist(q, e.vector)) + e.error < cfg.root(f.radius) && f.Selects(e.id) ==> Reported(cfg, f, q, l, e)
  {
    SqDistIsNorm(q, e.vector);
    SqNormNonNegative(Sub(q, e.vector));
    TrueDistanceBounds(cfg, q, l, e);
    hide TableDistance, ItemAligned, Config.Valid, SqDist;
    var p, t, r := cfg.root(TableDistance(cfg, q, l, e)), cfg.root(SqDist(q, e.vector)), cfg.root(f.radius);
    SquareOrder(t, p + e.error);
    AbsFromSquares(p - e.error, t);
    if p < r {
      SquareMonotone(p, r);
    } else if r < p {
      SquareMonotone(r, p);
    }
  }

  // ---- no false dismissals ----

  /** The true distance of the query from the vector that was added lies within the error of the table distance. */
  lemma TrueDistanceBounds(cfg: Config, q: Vec, l: nat, e: Item)
    requires cfg.Valid() && |q| == cfg.ivf.D() && l < cfg.ivf.nlist && ItemAligned(cfg, l, e)
    requires cfg.ivf.metric.L2?
    ensures TableDistance(cfg, q, l, e) >= 0.0
    ensures Square(cfg.root(TableDistance(cfg, q, l, e)) - e.error) <= SqDist(q, e.vector)
         <= Square(cfg.root(TableDistance(cfg, q, l, e)) + e.error)
  {
    var y := cfg.ivf.Reconstruct(l, e.code);
    SqDistIsNorm(q, y);
    SqNormNonNegative(Sub(q, y));
    TriangleThrough(q, e.vector, y, cfg.root(TableDistance(cfg, q, l, e)), e.error);
  }

  lemma AbsFromSquares(x: real, r: real)
    requires r >= 0.0 && Square(x) <= Square(r)
    ensures Abs(x) <= r
  {
    SquareOrder(x, r);
    SquareOrder(-x, r);
  }

  lemma SquaresFromAbs(x: real, r: real)
    requires Abs(x) <= r
    ensures Square(x) <= Square(r)
  {
    if Abs(x) < r {
      SquareMonotone(Abs(x), r);
    }
  }

  /** At confidence 1 every selected entry whose vector is truly within the radius is reported. */
  lemma NoFalseDismissal(cfg: Config, f: Filter, q: Vec, l: nat, e: Item)
    requires cfg.Valid() && |q| == cfg.ivf.D() && l < cfg.ivf.nlist && ItemAligned(cfg, l, e)
    requires cfg.ivf.metric.L2? && f.confidence == 1.0 && f.radius >= 0.0 && f.Selects(e.id)
    requires SqDist(q, e.vector) <= f.radius
    ensures Reported(cfg, f, q, l, e)
  {
    TrueDistanceBounds(cfg, q, l, e);
    AbsFromSquares(cfg.root(TableDistance(cfg, q, l, e)) - e.error, cfg.root(f.radius));
  }

  /** What is reported at confidence 1 is never farther than the radius plus twice its own error. */
  lemma ReportedIsNear(cfg: Config, f: Filter, q: Vec, l: nat, e: Item)
    requires cfg.Valid() && |q| == cfg.ivf.D() && l < cfg.ivf.nlist && ItemAligned(cfg, l, e)
    requires cfg.ivf.metric.L2? && f.confidence == 1.0 && Reported(cfg, f, q, l, e)
    ensures f.radius >= 0.0 && SqDist(q, e.vector) <= Square(cfg.root(f.radius) + 2.0 * e.error)
  {
    TrueDistanceBounds(cfg, q, l, e);
    SquaresFromAbs(cfg.root(TableDistance(cfg, q, l, e)) + e.error, cfg.root(f.radius) + 2.0 * e.error);
  }

  /** Among entries truly within the radius, raising the confidence within [0, 1] only adds reports. */
  lemma RecallMonotone(cfg: Config, f: Filter, c: real, q: Vec, l: nat, e: Item)
    requires cfg.Valid() && |q| == cfg.ivf.D() && l < cfg.ivf.nlist && ItemAligned(cfg, l, e)
    requires cfg.ivf.metric.L2? && f.radius >= 0.0 && 0.0 <= f.confidence <= c <= 1.0
    requires SqDist(q, e.vector) <= f.radius && Reported(cfg, f, q, l, e)
    ensures Reported(cfg, f.(confidence := c), q, l, e)
  {
    hide LowerBound;
    TrueDistanceBounds(cfg, q, l, e);
    var p, r := cfg.root(TableDistance(cfg, q, l, e)), cfg.root(f.radius);
    AbsFromSquares(p - e.error, r);
    LowerBoundEnds(p, e.error);
    if f.confidence == 0.0 {
      SquareOrder(p, r);
    }
    LowerBoundBetween(p, e.error, f.confidence, c, r);
  }

  /** Exactly which of the entries truly within the radius are missed at a confidence below 1. */
  lemma MissedIff(cfg: Config, f: Filter, q: Vec, l: nat, e: Item)
    requires cfg.Valid() && |q| == cfg.ivf.D() && l < cfg.ivf.nlist && ItemAligned(cfg, l, e)
    requires cfg.ivf.metric.L2? && f.radius >= 0.0 && f.UsesErrors() && f.Selects(e.id)
    requires SqDist(q, e.vector) <= f.radius
    ensures !Reported(cfg, f, q, l, e)
       <==> cfg.root(TableDistance(cfg, q, l, e)) > cfg.root(f.radius) + Share(e.error, f.confidence)
  {
    hide Share;
    TrueDistanceBounds(cfg, q, l, e);
    AbsFromSquares(cfg.root(TableDistance(cfg, q, l, e)) - e.error, cfg.root(f.radius));
    ShareMonotone(e.error, f.confidence, 1.0);
    ShareOne(e.error);
  }

  lemma ShareOne(e: real)
    ensures Share(e, 1.0) == e
  {
  }

  lemma LowerBoundEnds(p: real, e: real)
    ensures LowerBound(p, e, 0.0) == Abs(p) && LowerBound(p, e, 1.0) == Abs(p - e)
  {
  }

  /** Between two confidences at which the bound is within r, it is within r. */
  lemma LowerBoundBetween(p: real, e: real, c: real, c': real, r: real)
    requires 0.0 <= c <= c' <= 1.0 && e >= 0.0
    requires LowerBound(p, e, c) <= r && LowerBound(p, e, 1.0) <= r
    ensures LowerBound(p, e, c') <= r
  {
    hide Share;
    ShareMonotone(e, c, c');
    ShareMonotone(e, c', 1.0);
  }

  /** The whole reported set is not monotone: there is an index with an entry that lies outside the radius, is
      reported at confidence 1/2, and is no longer reported at confidence 1. */
  lemma ReportsNotMonotone(root: real -> real) returns (cfg: Config, q: Vec, e: Item)
    requires IsSqrt(root)
    ensures cfg.root == root && cfg.Valid() && cfg.ivf.metric.L2? && cfg.ivf.nlist > 0
    ensures |q| == cfg.ivf.D() && ItemAligned(cfg, 0, e) && SqDist(q, e.vector) > 1.0
    ensures Reported(cfg, Filter(1.0, 0.5, None), q, 0, e)
    ensures !Reported(cfg, Filter(1.0, 1.0, None), q, 0, e)
  {
    cfg, q, e := OneCentroid(root), [0.0], Item(0, [0], 4.0, [-2.0]);
    OneCentroidValid(root);
    OneCentroidDistances(root);
    SqrtUnique(root, 2.0, 4.0);
    SqrtUnique(root, 1.0, 1.0);
  }

  /** Exactly when an entry reported at one confidence is still reported at a higher one, the default of 0 included. */
  lemma RaisingConfidence(cfg: Config, f: Filter, c: real, q: Vec, l: nat, e: Item)
    requires cfg.Valid() && |q| == cfg.ivf.D() && l < cfg.ivf.nlist && ItemAligned(cfg, l, e)
    requires 0.0 <= f.confidence <= c <= 1.0 && (cfg.ivf.metric.L2? || 0.0 < f.confidence)
    requires Reported(cfg, f, q, l, e)
    ensures Reported(cfg, f.(confidence := c), q, l, e)
       <==> Share(e.error, c) <= cfg.root(TableDistance(cfg, q, l, e)) + cfg.root(f.radius)
  {
    hide Share, TableDistance;
    ShareMonotone(e.error, f.confidence, c);
    if f.confidence == 0.0 {
      TrueDistanceBounds(cfg, q, l, e);
      ShareZero(e.error);
      SquareOrder(cfg.root(TableDistance(cfg, q, l, e)), cfg.root(f.radius));
    }
  }

  lemma ShareZero(e: real)
    ensures Share(e, 0.0) == 0.0
  {
  }

  lemma SqrtUnique(root: real -> real, s: real, x: real)
    requires IsSqrt(root) && s >= 0.0 && Square(s) == x
    ensures root(x) == s
  {
    SquareNonNegative(s);
    SquareOrder(root(x), s);
    SquareOrder(s, root(x));
  }
}
