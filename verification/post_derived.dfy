/**
  Post-derived metrics: metrics computed from other metrics' values by a
  CubePL expression, after aggregation. A scalar query evaluates the
  expression once, or, when an aggregation expression is given, once per
  system resource and folds the results with it. The system-tree query
  fills one inclusive and one exclusive value per system resource, indexed
  by system id.

  The expression evaluator is abstract: for the fixed list of call paths a
  query names, `eval(pairs)` is its value over a list of (system id,
  flavour) pairs and `row` its row over all locations (NULL when it has
  none). System resources are known here only by their dense system ids.
*/
module PostDerived {
  import opened CubeTypes
  import opened Aggregation
  import PreDerived

  /** One (system resource, flavour) entry of a resource list. */
  datatype SysPair = SysPair(sysId: nat, flavour: Flavour)

  /** The evaluation expression, for the call paths of one query. */
  datatype Evaluator = Evaluator(eval: seq<SysPair> -> real, row: Option<seq<real>>)

  /** A location group or system-tree node: its system id and the system
      ids of the locations the aggregation folds over (the group's own
      locations, or all locations below the node). */
  datatype Node = Node(sysId: nat, locs: seq<nat>)

  /** A post-derived metric and the system tree it reports on:
      - `evaluation` and `aggr` are the optional evaluation and
        aggregation expressions;
      - `numSysres` is the number of all system resources;
      - `sysv` holds the system ids of the locations, in row order;
      - `lgv` and `stnv` are the location groups and system-tree nodes. */
  datatype PostMetric = PostMetric(
    active: bool,
    evaluation: Option<Evaluator>,
    aggr: Option<(real, real) -> real>,
    numSysres: nat,
    sysv: seq<nat>,
    lgv: seq<Node>,
    stnv: seq<Node>)

  /** `get_child` past the last location of a group. */
  datatype PostError = ChildOutOfRange(group: nat, index: nat)

  /** `aggr_operator`: the aggregation expression, or plain addition when
      there is none. */
  function AggrOperator(m: PostMetric, a: real, b: real): (r: real)
    ensures m.aggr.None? ==> r == a + b
    ensures m.aggr.Some? ==> r == m.aggr.value(a, b)
  {
    match m.aggr
    case None => a + b
    case Some(g) => g(a, b)
  }

  /** Without an aggregation expression, `aggr_operator` is commutative and
      has 0 as its neutral element. */
  lemma DefaultAggrIsAddition(m: PostMetric, a: real, b: real)
    requires m.aggr.None?
    ensures AggrOperator(m, a, b) == AggrOperator(m, b, a)
    ensures AggrOperator(m, a, 0.0) == a
  {
  }

  // ---------------------------------------------------------------------
  // get_sev_native
  // ---------------------------------------------------------------------

  /** The value of the evaluation over one single resource, 0 without an
      evaluation. */
  function SingleOf(m: PostMetric): SysPair -> real
  {
    (p: SysPair) => if m.evaluation.Some? then m.evaluation.value.eval([p]) else 0.0
  }

  /** Every location, as an INCLUSIVE resource. */
  function Expand(ids: seq<nat>): (ps: seq<SysPair>)
    ensures |ps| == |ids|
    ensures forall i :: 0 <= i < |ids| ==> ps[i] == SysPair(ids[i], Inclusive)
  {
    if |ids| == 0 then [] else [SysPair(ids[0], Inclusive)] + Expand(ids[1..])
  }

  /** The resources an aggregated query folds over: those given, or all
      locations when none are. */
  function AggrPairs(m: PostMetric, sysres: seq<SysPair>): (ps: seq<SysPair>)
    ensures |sysres| > 0 ==> ps == sysres
    ensures |sysres| == 0 ==> |ps| == |m.sysv| && forall i :: 0 <= i < |ps| ==> ps[i] == SysPair(m.sysv[i], Inclusive)
  {
    if |sysres| == 0 then Expand(m.sysv) else sysres
  }

  /** `get_sev_native`: 0 when inactive; one evaluation over the whole
      resource list without an aggregation expression (0 without an
      evaluation); otherwise the aggregation expression folded from 0 over
      one evaluation per resource, in list order. */
  method SevNative(m: PostMetric, sysres: seq<SysPair>) returns (r: real)
    ensures !m.active ==> r == 0.0
    ensures m.active && m.aggr.None? && m.evaluation.None? ==> r == 0.0
    ensures m.active && m.aggr.None? && m.evaluation.Some? ==> r == m.evaluation.value.eval(sysres)
    ensures m.active && m.aggr.Some? ==> r == FoldLeft(m.aggr.value, 0.0, AggrPairs(m, sysres), SingleOf(m))
  {
    r := 0.0;
    if !m.active {
      return;
    }
    if m.aggr.None? {
      if m.evaluation.Some? {
        r := m.evaluation.value.eval(sysres);
      }
      return;
    }
    var g := m.aggr.value;
    var ps := if |sysres| == 0 then Expand(m.sysv) else sysres;
    var i := 0;
    while i < |ps|
      invariant 0 <= i <= |ps|
      invariant r == FoldLeft(g, 0.0, ps[..i], SingleOf(m))
    {
      var one := 0.0;
      if m.evaluation.Some? {
        one := m.evaluation.value.eval([ps[i]]);
      }
      assert ps[..i + 1][..i] == ps[..i];
      r := g(r, one);
      i := i + 1;
    }
    assert ps[..|ps|] == ps;
  }

  /** One more resource adds one more step of the aggregation. */
  lemma FoldSnoc(m: PostMetric, ps: seq<SysPair>, p: SysPair)
    requires m.aggr.Some?
    ensures FoldLeft(m.aggr.value, 0.0, ps + [p], SingleOf(m))
         == m.aggr.value(FoldLeft(m.aggr.value, 0.0, ps, SingleOf(m)), SingleOf(m)(p))
  {
    assert (ps + [p])[..|ps|] == ps;
  }

  /** An empty resource list is the same query as the list of all
      locations, each INCLUSIVE. */
  lemma EmptyMeansAllLocations(m: PostMetric)
    ensures AggrPairs(m, []) == Expand(m.sysv)
    ensures |m.sysv| > 0 ==> AggrPairs(m, Expand(m.sysv)) == AggrPairs(m, [])
  {
  }

  /** Real sum of `h` over `ps`, front to back. */
  function RealSum(ps: seq<SysPair>, h: SysPair -> real): real
  {
    if |ps| == 0 then 0.0 else h(ps[0]) + RealSum(ps[1..], h)
  }

  lemma {:induction false} RealSumSnoc(ps: seq<SysPair>, p: SysPair, h: SysPair -> real)
    ensures RealSum(ps + [p], h) == RealSum(ps, h) + h(p)
    decreases |ps|
  {
    if |ps| > 0 {
      assert (ps + [p])[1..] == ps[1..] + [p];
      RealSumSnoc(ps[1..], p, h);
    } else {
      assert ps + [p] == [p];
    }
  }

  /** With an aggregation expression that adds, an aggregated query is the
      sum of the single-resource evaluations. */
  lemma {:induction false} AdditiveAggregationIsSum(g: (real, real) -> real, ps: seq<SysPair>, h: SysPair -> real)
    requires forall a, b :: g(a, b) == a + b
    ensures FoldLeft(g, 0.0, ps, h) == RealSum(ps, h)
    decreases |ps|
  {
    if |ps| > 0 {
      var init := ps[..|ps| - 1];
      AdditiveAggregationIsSum(g, init, h);
      RealSumSnoc(init, ps[|ps| - 1], h);
      assert init + [ps[|ps| - 1]] == ps;
    }
  }

  /** `get_sevs_native`: the evaluation's row, NULL when inactive or
      without an evaluation. */
  function SevsNative(m: PostMetric): (r: Option<seq<real>>)
    ensures r.Some? <==> m.active && m.evaluation.Some? && m.evaluation.value.row.Some?
    ensures r.Some? ==> r.value == m.evaluation.value.row.value
  {
    if !m.active || m.evaluation.None? then None else m.evaluation.value.row
  }

  // ---------------------------------------------------------------------
  // get_system_tree_sevs_native
  // ---------------------------------------------------------------------

  function NodeIds(ns: seq<Node>): (ids: seq<nat>)
    ensures |ids| == |ns| && forall i :: 0 <= i < |ns| ==> ids[i] == ns[i].sysId
  {
    if |ns| == 0 then [] else [ns[0].sysId] + NodeIds(ns[1..])
  }

  predicate Distinct(s: seq<nat>)
  {
    forall i, j :: 0 <= i < j < |s| ==> s[i] != s[j]
  }

  /** How the report lays out its system resources: distinct system ids
      below `numSysres`; a group's and a node's locations are locations. */
  predicate Layout(m: PostMetric)
  {
    && Distinct(m.sysv) && Distinct(NodeIds(m.lgv)) && Distinct(NodeIds(m.stnv))
    && (forall i :: 0 <= i < |m.sysv| ==> m.sysv[i] < m.numSysres)
    && (forall i :: 0 <= i < |m.lgv| ==> m.lgv[i].sysId < m.numSysres && m.lgv[i].sysId !in m.sysv)
    && (forall i :: 0 <= i < |m.stnv| ==> m.stnv[i].sysId < m.numSysres && m.stnv[i].sysId !in m.sysv
                                            && m.stnv[i].sysId !in NodeIds(m.lgv))
    && (forall i, x :: 0 <= i < |m.lgv| && x in m.lgv[i].locs ==> x in m.sysv)
    && (forall i, x :: 0 <= i < |m.stnv| && x in m.stnv[i].locs ==> x in m.sysv)
  }

  /** The source reads the evaluation's row without a check: it must be
      there and cover every location. */
  predicate RowReady(m: PostMetric)
  {
    m.evaluation.Some? ==> m.evaluation.value.row.Some? && |m.evaluation.value.row.value| >= |m.sysv|
  }

  /** `std::vector::resize(n, 0.)`: truncate, or pad with zeros. */
  function Resize(v: seq<real>, n: nat): (r: seq<real>)
    ensures |r| == n
    ensures forall i :: 0 <= i < n ==> r[i] == (if i < |v| then v[i] else 0.0)
  {
    if |v| >= n then v[..n] else v + seq(n - |v|, _ => 0.0)
  }

  /** The entry at a system id, 0 beyond the vector. */
  function At(v: seq<real>): nat -> real
  {
    (x: nat) => if x < |v| then v[x] else 0.0
  }

  /** Each location's entry set to its row value, in row order. */
  function WriteLocations(v: seq<real>, ids: seq<nat>, row: seq<real>): (r: seq<real>)
    requires |row| >= |ids| && forall i :: 0 <= i < |ids| ==> ids[i] < |v|
    ensures |r| == |v|
    ensures forall j :: 0 <= j < |v| && j !in ids ==> r[j] == v[j]
    ensures Distinct(ids) ==> forall k :: 0 <= k < |ids| ==> r[ids[k]] == row[k]
    decreases |ids|
  {
    if |ids| == 0 then v
    else
      var n := |ids| - 1;
      var prev := WriteLocations(v, ids[..n], row);
      assert forall j :: j in ids[..n] ==> j in ids;
      prev[ids[n] := row[n]]
  }

  /** The value the query gives a group or node: two separate evaluations
      without an aggregation expression, otherwise the aggregation folded
      over its locations' entries, starting from its current entry. */
  function NodeValue(m: PostMetric, f: Flavour, v: seq<real>, n: Node): real
    requires m.evaluation.Some?
  {
    match m.aggr
    case None => m.evaluation.value.eval([SysPair(n.sysId, f)])
    case Some(g) => FoldLeft(g, At(v)(n.sysId), n.locs, At(v))
  }

  /** The nodes of `ns` updated in order, each from the vector as the
      previous updates left it. */
  function NodesPhase(m: PostMetric, f: Flavour, v: seq<real>, ns: seq<Node>): (r: seq<real>)
    requires m.evaluation.Some?
    requires forall i :: 0 <= i < |ns| ==> ns[i].sysId < |v|
    ensures |r| == |v|
    ensures forall j :: 0 <= j < |v| && j !in NodeIds(ns) ==> r[j] == v[j]
    decreases |ns|
  {
    if |ns| == 0 then v
    else
      var n := |ns| - 1;
      var prev := NodesPhase(m, f, v, ns[..n]);
      assert forall j :: j in NodeIds(ns[..n]) ==> j in NodeIds(ns);
      prev[ns[n].sysId := NodeValue(m, f, prev, ns[n])]
  }

  /** One of the two output vectors (`f` says which; the two never read
      each other): resized to all resources, then locations, groups and
      nodes filled in when there is an evaluation. */
  function SystemTreeVector(m: PostMetric, v: seq<real>, f: Flavour): (r: seq<real>)
    requires Layout(m) && RowReady(m)
    ensures |r| == m.numSysres
  {
    var sized := Resize(v, m.numSysres);
    if m.evaluation.None? then sized
    else
      var withLocs := WriteLocations(sized, m.sysv, m.evaluation.value.row.value);
      var withGroups := NodesPhase(m, f, withLocs, m.lgv);
      NodesPhase(m, f, withGroups, m.stnv)
  }

  /** `get_system_tree_sevs_native`, with the group loop stopping after
      the group's last location: nothing changes when inactive; otherwise
      both vectors have one entry per system resource. */
  function SystemTreeSevs(m: PostMetric, incl: seq<real>, excl: seq<real>): (r: (seq<real>, seq<real>))
    requires Layout(m) && RowReady(m)
    ensures !m.active ==> r == (incl, excl)
    ensures m.active ==> |r.0| == m.numSysres && |r.1| == m.numSysres
    ensures m.active && m.evaluation.None? ==> r.0 == Resize(incl, m.numSysres) && r.1 == Resize(excl, m.numSysres)
  {
    if !m.active then (incl, excl)
    else (SystemTreeVector(m, incl, Inclusive), SystemTreeVector(m, excl, Exclusive))
  }

  /** A fold only reads the entries of the ids it folds over. */
  lemma {:induction false} FoldReadsOnlyLocs(g: (real, real) -> real, acc: real, locs: seq<nat>, v: seq<real>, w: seq<real>)
    requires forall x :: x in locs ==> At(v)(x) == At(w)(x)
    ensures FoldLeft(g, acc, locs, At(v)) == FoldLeft(g, acc, locs, At(w))
    decreases |locs|
  {
    if |locs| > 0 {
      var n := |locs| - 1;
      assert forall x :: x in locs[..n] ==> x in locs;
      FoldReadsOnlyLocs(g, acc, locs[..n], v, w);
      assert locs[n] in locs;
    }
  }

  /** The locations of every node are apart from all node ids. */
  ghost predicate LocsApart(ns: seq<Node>)
  {
    forall i, j, x :: 0 <= i < |ns| && 0 <= j < |ns| && x in ns[i].locs ==> x != ns[j].sysId
  }

  /** Every node's entry after the phase is its value computed on the
      vector the phase started from: the updates of the other nodes touch
      neither its own entry nor its locations' entries. */
  lemma {:induction false} NodesPhaseEntries(m: PostMetric, f: Flavour, v: seq<real>, ns: seq<Node>)
    requires m.evaluation.Some?
    requires forall i :: 0 <= i < |ns| ==> ns[i].sysId < |v|
    requires Distinct(NodeIds(ns)) && LocsApart(ns)
    ensures forall k :: 0 <= k < |ns| ==> NodesPhase(m, f, v, ns)[ns[k].sysId] == NodeValue(m, f, v, ns[k])
    decreases |ns|
  {
    if |ns| > 0 {
      var n := |ns| - 1;
      var init := ns[..n];
      var prev := NodesPhase(m, f, v, init);
      assert Distinct(NodeIds(init)) by {
        forall i, j | 0 <= i < j < |init| ensures NodeIds(init)[i] != NodeIds(init)[j] {
          assert NodeIds(ns)[i] != NodeIds(ns)[j];
        }
      }
      assert LocsApart(init);
      NodesPhaseEntries(m, f, v, init);
      var last := ns[n];
      assert last.sysId !in NodeIds(init) by {
        forall i | 0 <= i < |init| ensures NodeIds(init)[i] != last.sysId {
          assert NodeIds(ns)[i] != NodeIds(ns)[n];
        }
      }
      if m.aggr.Some? {
        forall x | x in last.locs ensures At(prev)(x) == At(v)(x) {
          assert x !in NodeIds(init) by {
            forall i | 0 <= i < |init| ensures NodeIds(init)[i] != x {
              assert x != ns[i].sysId;
            }
          }
        }
        FoldReadsOnlyLocs(m.aggr.value, At(v)(last.sysId), last.locs, prev, v);
      }
      assert NodeValue(m, f, prev, last) == NodeValue(m, f, v, last);
      forall k | 0 <= k < |ns| ensures NodesPhase(m, f, v, ns)[ns[k].sysId] == NodeValue(m, f, v, ns[k]) {
        if k < n {
          assert NodeIds(ns)[k] != NodeIds(ns)[n];
          assert init[k] == ns[k];
        }
      }
    }
  }

  /** The facts the layout gives about the locations of the groups and
      the nodes. */
  lemma LayoutApart(m: PostMetric)
    requires Layout(m)
    ensures LocsApart(m.lgv) && LocsApart(m.stnv)
  {
    forall i, j, x | 0 <= i < |m.lgv| && 0 <= j < |m.lgv| && x in m.lgv[i].locs ensures x != m.lgv[j].sysId {
      assert x in m.sysv;
    }
    forall i, j, x | 0 <= i < |m.stnv| && 0 <= j < |m.stnv| && x in m.stnv[i].locs ensures x != m.stnv[j].sysId {
      assert x in m.sysv;
    }
  }

  /** What an active query with an evaluation leaves in one output vector:
      - every location's entry is its row value;
      - every group's and node's entry is its value computed on the vector
        holding the row values (`withLocs`): the two evaluations without an
        aggregation expression, the fold over its locations otherwise. */
  lemma {:induction false} SystemTreeEntries(m: PostMetric, v: seq<real>, f: Flavour)
    requires Layout(m) && RowReady(m) && m.evaluation.Some?
    ensures var row := m.evaluation.value.row.value;
            var withLocs := WriteLocations(Resize(v, m.numSysres), m.sysv, row);
            var r := SystemTreeVector(m, v, f);
            && (forall k :: 0 <= k < |m.sysv| ==> r[m.sysv[k]] == row[k])
            && (forall k :: 0 <= k < |m.lgv| ==> r[m.lgv[k].sysId] == NodeValue(m, f, withLocs, m.lgv[k]))
            && (forall k :: 0 <= k < |m.stnv| ==> r[m.stnv[k].sysId] == NodeValue(m, f, withLocs, m.stnv[k]))
  {
    var row := m.evaluation.value.row.value;
    var sized := Resize(v, m.numSysres);
    var withLocs := WriteLocations(sized, m.sysv, row);
    var withGroups := NodesPhase(m, f, withLocs, m.lgv);
    var r := NodesPhase(m, f, withGroups, m.stnv);
    LayoutApart(m);
    NodesPhaseEntries(m, f, withLocs, m.lgv);
    NodesPhaseEntries(m, f, withGroups, m.stnv);
    forall k | 0 <= k < |m.sysv| ensures r[m.sysv[k]] == row[k] {
      var x := m.sysv[k];
      assert x !in NodeIds(m.lgv) by {
        forall i | 0 <= i < |m.lgv| ensures NodeIds(m.lgv)[i] != x { assert m.lgv[i].sysId !in m.sysv; }
      }
      assert x !in NodeIds(m.stnv) by {
        forall i | 0 <= i < |m.stnv| ensures NodeIds(m.stnv)[i] != x { assert m.stnv[i].sysId !in m.sysv; }
      }
    }
    forall k | 0 <= k < |m.lgv| ensures r[m.lgv[k].sysId] == NodeValue(m, f, withLocs, m.lgv[k]) {
      var x := m.lgv[k].sysId;
      assert x !in NodeIds(m.stnv) by {
        forall i | 0 <= i < |m.stnv| ensures NodeIds(m.stnv)[i] != x {
          assert m.stnv[i].sysId !in NodeIds(m.lgv);
          assert NodeIds(m.lgv)[k] == x;
        }
      }
    }
    forall k | 0 <= k < |m.stnv| ensures r[m.stnv[k].sysId] == NodeValue(m, f, withLocs, m.stnv[k]) {
      var n := m.stnv[k];
      assert NodeValue(m, f, withGroups, n) == NodeValue(m, f, withLocs, n) by {
        if m.aggr.Some? {
          forall x | x in n.locs ensures At(withGroups)(x) == At(withLocs)(x) {
            assert x in m.sysv;
            assert x !in NodeIds(m.lgv) by {
              forall i | 0 <= i < |m.lgv| ensures NodeIds(m.lgv)[i] != x { assert m.lgv[i].sysId !in m.sysv; }
            }
          }
          assert n.sysId !in NodeIds(m.lgv);
          FoldReadsOnlyLocs(m.aggr.value, At(withLocs)(n.sysId), n.locs, withGroups, withLocs);
        }
      }
    }
  }

  /** With an aggregation expression the flavour plays no part: the
      inclusive and the exclusive vector are computed alike, so equal
      inputs (for instance two empty vectors) give equal outputs. */
  lemma {:induction false} AggregatedFlavourFree(m: PostMetric, ns: seq<Node>, v: seq<real>)
    requires m.evaluation.Some? && m.aggr.Some?
    requires forall i :: 0 <= i < |ns| ==> ns[i].sysId < |v|
    ensures NodesPhase(m, Inclusive, v, ns) == NodesPhase(m, Exclusive, v, ns)
    decreases |ns|
  {
    if |ns| > 0 {
      AggregatedFlavourFree(m, ns[..|ns| - 1], v);
    }
  }

  lemma AggregatedOutputsAgree(m: PostMetric, v: seq<real>)
    requires Layout(m) && RowReady(m) && m.active && m.aggr.Some?
    ensures SystemTreeSevs(m, v, v).0 == SystemTreeSevs(m, v, v).1
  {
    if m.evaluation.Some? {
      var sized := Resize(v, m.numSysres);
      var withLocs := WriteLocations(sized, m.sysv, m.evaluation.value.row.value);
      AggregatedFlavourFree(m, m.lgv, withLocs);
      var withGroups := NodesPhase(m, Inclusive, withLocs, m.lgv);
      AggregatedFlavourFree(m, m.stnv, withGroups);
    }
  }

  // ---------------------------------------------------------------------
  // The group loop as written
  // ---------------------------------------------------------------------

  /** The group loop as written: `s` runs up to and including the number
      of locations, so after the last location it asks for one more. */
  function GroupFoldAsWritten(g: (real, real) -> real, group: nat, acc: real, locs: seq<nat>, v: seq<real>, s: nat)
    : Result<real, PostError>
    requires s <= |locs|
    decreases |locs| - s
  {
    if s == |locs| then Failure(ChildOutOfRange(group, s))
    else GroupFoldAsWritten(g, group, g(acc, At(v)(locs[s])), locs, v, s + 1)
  }

  /** Every run of that loop ends asking for the location past the last. */
  lemma {:induction false} GroupFoldAsWrittenFails(g: (real, real) -> real, group: nat, acc: real, locs: seq<nat>,
                                                   v: seq<real>, s: nat)
    requires s <= |locs|
    ensures GroupFoldAsWritten(g, group, acc, locs, v, s) == Failure(ChildOutOfRange(group, |locs|))
    decreases |locs| - s
  {
    if s < |locs| {
      GroupFoldAsWrittenFails(g, group, g(acc, At(v)(locs[s])), locs, v, s + 1);
    }
  }

  /** The group phase as written. */
  function GroupsPhaseAsWritten(m: PostMetric, f: Flavour, v: seq<real>, ns: seq<Node>): (r: Result<seq<real>, PostError>)
    requires m.evaluation.Some?
    requires forall i :: 0 <= i < |ns| ==> ns[i].sysId < |v|
    ensures r.Success? ==> |r.value| == |v|
    decreases |ns|
  {
    if |ns| == 0 then Success(v)
    else
      var n := |ns| - 1;
      match GroupsPhaseAsWritten(m, f, v, ns[..n])
      case Failure(e) => Failure(e)
      case Success(prev) =>
        match m.aggr
          case None => Success(prev[ns[n].sysId := NodeValue(m, f, prev, ns[n])])
          case Some(g) =>
            match GroupFoldAsWritten(g, ns[n].sysId, At(prev)(ns[n].sysId), ns[n].locs, prev, 0)
            case Failure(e) => Failure(e)
            case Success(x) => Success(prev[ns[n].sysId := x])
  }

  /** The as-written group phase fails exactly when there is an
      aggregation expression and at least one group; otherwise it is the
      corrected phase. */
  lemma {:induction false} GroupsPhaseAsWrittenOutcome(m: PostMetric, f: Flavour, v: seq<real>, ns: seq<Node>)
    requires m.evaluation.Some?
    requires forall i :: 0 <= i < |ns| ==> ns[i].sysId < |v|
    ensures GroupsPhaseAsWritten(m, f, v, ns).Failure? <==> m.aggr.Some? && |ns| > 0
    ensures m.aggr.None? ==> GroupsPhaseAsWritten(m, f, v, ns) == Success(NodesPhase(m, f, v, ns))
    decreases |ns|
  {
    if |ns| > 0 {
      var n := |ns| - 1;
      GroupsPhaseAsWrittenOutcome(m, f, v, ns[..n]);
      if m.aggr.Some? && n == 0 {
        GroupFoldAsWrittenFails(m.aggr.value, ns[n].sysId, At(v)(ns[n].sysId), ns[n].locs, v, 0);
      }
    }
  }

  /** One output vector as written. */
  function SystemTreeVectorAsWritten(m: PostMetric, v: seq<real>, f: Flavour): Result<seq<real>, PostError>
    requires Layout(m) && RowReady(m)
  {
    var sized := Resize(v, m.numSysres);
    if m.evaluation.None? then Success(sized)
    else
      var withLocs := WriteLocations(sized, m.sysv, m.evaluation.value.row.value);
      match GroupsPhaseAsWritten(m, f, withLocs, m.lgv)
      case Failure(e) => Failure(e)
      case Success(withGroups) => Success(NodesPhase(m, f, withGroups, m.stnv))
  }

  /** `get_system_tree_sevs_native` as written. */
  function SystemTreeSevsAsWritten(m: PostMetric, incl: seq<real>, excl: seq<real>)
    : Result<(seq<real>, seq<real>), PostError>
    requires Layout(m) && RowReady(m)
  {
    if !m.active then Success((incl, excl))
    else match (SystemTreeVectorAsWritten(m, incl, Inclusive), SystemTreeVectorAsWritten(m, excl, Exclusive))
      case (Success(i), Success(e)) => Success((i, e))
      case (Failure(e), _) => Failure(e)
      case (_, Failure(e)) => Failure(e)
  }

  /** The as-written query fails exactly for an active metric with an
      evaluation, an aggregation expression and at least one group, and
      agrees with the corrected query everywhere else. */
  lemma AsWrittenOutcome(m: PostMetric, incl: seq<real>, excl: seq<real>)
    requires Layout(m) && RowReady(m)
    ensures SystemTreeSevsAsWritten(m, incl, excl).Failure?
            <==> m.active && m.evaluation.Some? && m.aggr.Some? && |m.lgv| > 0
    ensures SystemTreeSevsAsWritten(m, incl, excl).Success?
            ==> SystemTreeSevsAsWritten(m, incl, excl).value == SystemTreeSevs(m, incl, excl)
  {
    if m.active && m.evaluation.Some? {
      var row := m.evaluation.value.row.value;
      var li := WriteLocations(Resize(incl, m.numSysres), m.sysv, row);
      var le := WriteLocations(Resize(excl, m.numSysres), m.sysv, row);
      GroupsPhaseAsWrittenOutcome(m, Inclusive, li, m.lgv);
      GroupsPhaseAsWrittenOutcome(m, Exclusive, le, m.lgv);
    }
  }

  /** One location in one group, an aggregation expression that adds and
      an evaluation whose row is [5]: as written the query fails, while
      the corrected query gives the group the value of its location. */
  lemma GroupLoopCounterexample()
    ensures var m := PostMetric(true, Some(Evaluator(ZeroEval, Some([5.0]))), Some(PlusReal),
                                2, [0], [Node(1, [0])], []);
            && Layout(m) && RowReady(m)
            && SystemTreeSevsAsWritten(m, [], []) == Failure(ChildOutOfRange(1, 1))
            && SystemTreeSevs(m, [], []).0 == [5.0, 5.0]
  {
    var m := PostMetric(true, Some(Evaluator(ZeroEval, Some([5.0]))), Some(PlusReal), 2, [0], [Node(1, [0])], []);
    assert NodeIds(m.lgv) == [1];
    assert NodeIds(m.stnv) == [];
    assert Layout(m);
    var sized := Resize([], 2);
    assert sized == [0.0, 0.0];
    var withLocs := WriteLocations(sized, [0], [5.0]);
    assert [0][..0] == [];
    assert withLocs == [5.0, 0.0];
    GroupFoldAsWrittenFails(PlusReal, 1, At(withLocs)(1), [0], withLocs, 0);
    assert m.lgv[..0] == [];
    assert GroupsPhaseAsWritten(m, Inclusive, withLocs, m.lgv) == Failure(ChildOutOfRange(1, 1));
    var withGroups := NodesPhase(m, Inclusive, withLocs, m.lgv);
    var locs: seq<nat> := [0];
    assert locs[..0] == [];
    assert FoldLeft(PlusReal, At(withLocs)(1), locs, At(withLocs)) == PlusReal(0.0, 5.0);
    assert withGroups == [5.0, 5.0];
  }

  function ZeroEval(ps: seq<SysPair>): real { 0.0 }
  function PlusReal(a: real, b: real): real { a + b }

  /** `get_static_serialization_key`. */
  function SerializationKey(): (k: string)
    ensures |k| == 17 && k[..4] == "Post"
  {
    "PostDerivedMetric"
  }

  /** The post-derived key differs from both pre-derived keys. */
  lemma KeyDistinct()
    ensures SerializationKey() != PreDerived.InclusiveKey() && SerializationKey() != PreDerived.ExclusiveKey()
  {
    assert SerializationKey()[1] != PreDerived.InclusiveKey()[1];
    assert SerializationKey()[1] != PreDerived.ExclusiveKey()[1];
  }
}
