/**
  Pre-derived metrics: metrics whose elementary values come from a CubePL
  expression instead of a stored matrix. The inclusive variant reuses the
  native-inclusive calculations with its own elementary function, which
  honours the clustering remap of clustered call paths.
*/
module PreDerived {
  import opened CubeTypes
  import opened Trees
  import opened Aggregation
  import opened SimpleCache
  import opened BuildIn
  import InclusiveBuildIn
  import opened Values

  /** The normalisation divisor of a clustered call path for one process
      rank; 0 ("do not normalise") when the clustering names none. */
  function Norm(cl: Clustering, rank: int): int
  {
    if rank in cl.norm then cl.norm[rank] else 0
  }

  /** `get_sev_elementary`: the value of call path `cid` (with clustering
      information `cluster`) at location `l`. `eval(d, l)` is the
      expression evaluated on call path `d` (INCLUSIVE) at `l` (EXCLUSIVE).
      A clustered call path is evaluated on the representative its process
      rank maps to, 0 when there is none, and the result is divided by a
      positive normalisation divisor. */
  function Elementary(eval: (nat, Location) -> real, cluster: Option<Clustering>, cid: nat, l: Location): (v: real)
    ensures cluster.None? ==> v == eval(cid, l)
    ensures cluster.Some? && l.rank !in cluster.value.remap ==> v == 0.0
    ensures cluster.Some? && l.rank in cluster.value.remap && Norm(cluster.value, l.rank) > 0
            ==> v * (Norm(cluster.value, l.rank) as real) == eval(cluster.value.remap[l.rank], l)
    ensures cluster.Some? && l.rank in cluster.value.remap && Norm(cluster.value, l.rank) <= 0
            ==> v == eval(cluster.value.remap[l.rank], l)
  {
    match cluster
    case None => eval(cid, l)
    case Some(cl) =>
      var raw := if l.rank in cl.remap then eval(cl.remap[l.rank], l) else 0.0;
      var n := Norm(cl, l.rank);
      if n > 0 then raw / (n as real) else raw
  }

  /** With non-negative evaluations, the elementary value of a clustered
      call path lies between 0 and the evaluation on its representative:
      normalisation only ever shrinks it. */
  lemma ElementaryBounded(eval: (nat, Location) -> real, cl: Clustering, cid: nat, l: Location)
    requires forall d: nat :: eval(d, l) >= 0.0
    ensures 0.0 <= Elementary(eval, Some(cl), cid, l)
    ensures l.rank in cl.remap ==> Elementary(eval, Some(cl), cid, l) <= eval(cl.remap[l.rank], l)
  {
    var v := Elementary(eval, Some(cl), cid, l);
    if l.rank in cl.remap {
      var d := cl.remap[l.rank];
      var n := Norm(cl, l.rank);
      assert eval(d, l) >= 0.0;
      if n > 0 {
        assert v == eval(d, l) / (n as real);
        assert v >= 0.0;
        var r := n as real;
        assert r - 1.0 >= 0.0;
        assert v * (r - 1.0) >= 0.0;
        assert v * r == v + v * (r - 1.0);
        assert v * r == eval(d, l);
      }
    }
  }

  /** One event of an elementary evaluation: the expression is prepared
      for (call path, INCLUSIVE, location, EXCLUSIVE), evaluated on a call
      path, and cleaned up. */
  datatype Step = Prepare(cid: nat, loc: Location) | Evaluate(cid: nat, loc: Location) | Cleanup

  /** `get_sev_elementary` with its side effects on the expression: the
      evaluation is bracketed by the preparation for `c` and the cleanup,
      and runs at most once, on `c` itself or on its representative. */
  method GetSevElementary(eval: (nat, Location) -> real, c: Cnode, l: Location) returns (v: real, trace: seq<Step>)
    ensures v == Elementary(eval, c.cluster, c.id, l)
    ensures 2 <= |trace| <= 3
    ensures trace[0] == Prepare(c.id, l) && trace[|trace| - 1] == Cleanup
    ensures forall i :: 0 < i < |trace| - 1 ==> trace[i].Evaluate? && trace[i].loc == l
    ensures c.cluster.None? ==> trace == [Prepare(c.id, l), Evaluate(c.id, l), Cleanup]
    ensures c.cluster.Some? && l.rank !in c.cluster.value.remap ==> trace == [Prepare(c.id, l), Cleanup]
  {
    trace := [Prepare(c.id, l)];
    if c.cluster.None? {
      v := eval(c.id, l);
      trace := trace + [Evaluate(c.id, l)];
    } else {
      var cl := c.cluster.value;
      if l.rank in cl.remap {
        var d := cl.remap[l.rank];
        v := eval(d, l);
        trace := trace + [Evaluate(d, l)];
      } else {
        v := 0.0;
      }
      var n := Norm(cl, l.rank);
      if n > 0 {
        v := v / (n as real);
      }
    }
    trace := trace + [Cleanup];
  }

  /** The elementary function by call-path id, with the clustering of each
      id looked up in `clusterOf`. */
  function ElemFn(eval: (nat, Location) -> real, clusterOf: nat -> Option<Clustering>): (nat, Location) -> real
  {
    (cid: nat, l: Location) => Elementary(eval, clusterOf(cid), cid, l)
  }

  function RealId(x: real): real { x }

  /** The metric as the constructor leaves it: kind PREDERIVED_INCLUSIVE,
      no severity matrix, double values, and the clustering-aware
      elementary function. */
  function NewMetric(ops: Ops<real>, eval: (nat, Location) -> real, clusterOf: nat -> Option<Clustering>,
                     active: bool, cacheable: bool, sysv: seq<Location>): (m: Metric<real>)
    ensures m.kind == TypeOfMetric() && !m.hasData
    ensures m.sysv == sysv && m.active == active && m.cacheable == cacheable
    ensures forall cid: nat, l :: m.elem(cid, l) == Elementary(eval, clusterOf(cid), cid, l)
    ensures forall x :: m.toDouble(x) == x
  {
    Metric(PreDerivedInclusiveKind, ops, RealId, DblMax, active, false, cacheable, sysv, ElemFn(eval, clusterOf))
  }

  /** The cache the constructor selects: native flavour EXCLUSIVE, double
      entries. */
  function NewCache(numberCnodes: nat, numberLoc: nat, threshold: int): (c: Cache<real>)
    ensures c.myf == Exclusive && c.numberLoc == numberLoc && c.stride == numberLoc
    ensures c.stn == c.sum == c.tStn == c.tSum == map[] && c.rows == map[]
  {
    New(numberCnodes, numberLoc, 8, Exclusive, threshold, 0.0)
  }

  /** Because the cache's native flavour is EXCLUSIVE, EXCLUSIVE queries
      are never cached, while aggregated INCLUSIVE ones always are. */
  lemma CachesOnlyInclusive(numberCnodes: nat, numberLoc: nat, threshold: int, c: Cnode, sys: Option<Sysres>)
    ensures !Eligible(NewCache(numberCnodes, numberLoc, threshold), c, Exclusive, sys)
    ensures Eligible(NewCache(numberCnodes, numberLoc, threshold), c, Inclusive, None)
  {
  }

  /** Without a severity matrix the no-data guard of the inclusive value
      queries would answer zero; the kind PREDERIVED_INCLUSIVE bypasses
      it, so every query computes the inclusive value from the elementary
      function. */
  lemma NoDataGuardBypassed(ops: Ops<real>, eval: (nat, Location) -> real, clusterOf: nat -> Option<Clustering>,
                            active: bool, cacheable: bool, sysv: seq<Location>,
                            c: Cnode, cnf: Flavour, locs: seq<Location>)
    ensures var m := NewMetric(ops, eval, clusterOf, active, cacheable, sysv);
            !InclusiveBuildIn.NoData(m) && !InclusiveBuildIn.RowNoData(m)
            && InclusiveBuildIn.Expected(m, c, cnf, locs) == InclusiveKindValue(ops, m.elem, c, cnf, locs)
  {
  }

  /** On a report without clustering, the elementary function is the
      plain evaluation. */
  lemma UnclusteredIsEvaluation(eval: (nat, Location) -> real, clusterOf: nat -> Option<Clustering>, cid: nat, l: Location)
    requires clusterOf(cid).None?
    ensures ElemFn(eval, clusterOf)(cid, l) == eval(cid, l)
  {
  }

  /** `get_type_of_metric`, `get_metric_kind`, `get_index_format`,
      `isBuildIn` and `isDerived`. */
  function TypeOfMetric(): MetricKind { PreDerivedInclusiveKind }
  function MetricKindName(): string { "PREDERIVED_INCLUSIVE" }
  function IndexFormatOf(): IndexFormat { Sparse }
  predicate IsBuildIn() { true }
  predicate IsDerived() { true }

  /** A pre-derived metric reports its own kind, distinct from both
      build-in kinds, so neither of the inherited no-data guards fires; it
      is sparse, build-in and derived, under its own kind name. */
  lemma Descriptor<T>(m: Metric<T>)
    requires m.kind == TypeOfMetric()
    ensures TypeOfMetric() != InclusiveBuildIn.TypeOfMetric() && TypeOfMetric() != ExclusiveKind
    ensures !InclusiveBuildIn.NoData(m) && !InclusiveBuildIn.RowNoData(m)
    ensures IndexFormatOf() == Sparse && IsBuildIn() && IsDerived()
    ensures MetricKindName() == "PREDERIVED_INCLUSIVE" && MetricKindName() != InclusiveBuildIn.MetricKindName()
  {
  }

  /** `create_calltree_id_maps` keeps the row it is given. */
  function CalltreeIdMaps<R>(row: seq<R>): (r: seq<R>)
    ensures |r| == |row| && forall i :: 0 <= i < |row| ==> r[i] == row[i]
  {
    row
  }

  /** What `initialize` sees and changes: whether there is an evaluation
      (and its row size), whether the init expression is still pending
      (and its row size), and how often an init expression has run. */
  datatype Expressions = Expressions(
    hasEvaluation: bool,
    rowSize: nat,
    initPending: bool,
    initRowSize: nat,
    initRuns: nat)

  /** `initialize` of both pre-derived variants: set the evaluation's row
      size; run the pending init expression once, then drop it. */
  function Initialize(e: Expressions, ntid: nat): (e': Expressions)
    ensures e'.hasEvaluation == e.hasEvaluation && !e'.initPending
    ensures e'.rowSize == if e.hasEvaluation then ntid else e.rowSize
    ensures e'.initRuns == if e.initPending then e.initRuns + 1 else e.initRuns
    ensures e.initPending ==> e'.initRowSize == ntid
  {
    var withRows := if e.hasEvaluation then e.(rowSize := ntid) else e;
    if e.initPending then withRows.(initPending := false, initRowSize := ntid, initRuns := e.initRuns + 1)
    else withRows
  }

  /** A second `initialize` leaves everything as the first left it: in
      particular the init expression is not evaluated again. */
  lemma InitializeIdempotent(e: Expressions, ntid: nat)
    ensures Initialize(Initialize(e, ntid), ntid) == Initialize(e, ntid)
    ensures Initialize(Initialize(e, ntid), ntid).initRuns <= e.initRuns + 1
  {
  }

  /** `get_static_serialization_key` of the two pre-derived variants. */
  function InclusiveKey(): (k: string)
    ensures |k| > 17 && k[..17] == "PreDerivedMetric|"
  {
    "PreDerivedMetric|Inclusive"
  }

  function ExclusiveKey(): (k: string)
    ensures |k| > 17 && k[..17] == "PreDerivedMetric|"
  {
    "PreDerivedMetric|Exclusive"
  }

  /** The two variants serialise under different keys, and neither is a
      key of a stored (build-in or generic) metric. */
  lemma KeysDistinct(typeString: string)
    ensures InclusiveKey() != ExclusiveKey()
    ensures InclusiveKey() != InclusiveBuildIn.SerializationKey(typeString)
    ensures ExclusiveKey() != InclusiveBuildIn.SerializationKey(typeString)
  {
    assert InclusiveKey()[17] != ExclusiveKey()[17];
    assert InclusiveBuildIn.SerializationKey(typeString)[1] != InclusiveKey()[1];
  }
}
