/**
  Build-in metrics that store INCLUSIVE values (kind INCLUSIVE, dense
  index): an INCLUSIVE value is the node's own value; an EXCLUSIVE value
  subtracts the values of the visible (not hidden) children. Results of the
  flavour that is not native are cached.
*/
module InclusiveBuildIn {
  import opened CubeTypes
  import opened Trees
  import opened Aggregation
  import opened SimpleCache
  import opened BuildIn

  /** `get_static_serialization_key`: the key names the value type. */
  function SerializationKey(typeString: string): (k: string)
    ensures |k| == 17 + |typeString|
    ensures k[..17] == "Metric|Inclusive|" && k[17..] == typeString
  {
    "Metric|Inclusive|" + typeString
  }

  /** `get_type_of_metric`, `get_index_format` and `get_metric_kind`. */
  function TypeOfMetric(): MetricKind { InclusiveKind }
  function IndexFormatOf(): IndexFormat { Dense }
  function MetricKindName(): string { "INCLUSIVE" }

  /** Whether the no-data guard of the value queries answers zero: only for
      a metric of kind INCLUSIVE itself whose severity matrix is absent. */
  predicate NoData<T>(m: Metric<T>)
  {
    !m.hasData && m.kind == InclusiveKind
  }

  /** The guard of the row query tests for kind EXCLUSIVE instead. */
  predicate RowNoData<T>(m: Metric<T>)
  {
    !m.hasData && m.kind == ExclusiveKind
  }

  /** A metric of this class reports kind INCLUSIVE: its value guards fire
      exactly when the severity matrix is absent, while the row guard,
      which tests for EXCLUSIVE, never fires. Its index is dense and its
      kind name is "INCLUSIVE". */
  lemma Descriptor<T>(m: Metric<T>)
    requires m.kind == TypeOfMetric()
    ensures NoData(m) <==> !m.hasData
    ensures !RowNoData(m)
    ensures IndexFormatOf() == Dense && MetricKindName() == "INCLUSIVE"
  {
  }

  /** The value a query should answer over the locations `locs`. */
  function Expected<T>(m: Metric<T>, c: Cnode, cnf: Flavour, locs: seq<Location>): T
  {
    if NoData(m) then m.ops.zero else InclusiveKindValue(m.ops, m.elem, c, cnf, locs)
  }

  /** Every cached aggregated value of a cnode of `cs` is the value the
      query should answer. */
  ghost predicate SumCoherent<T>(m: Metric<T>, cache: Cache<T>, cs: set<Cnode>)
  {
    forall d, f :: d in cs && 0 <= Key(cache, d, f, None, Inclusive) && Key(cache, d, f, None, Inclusive) in cache.tSum
      ==> cache.tSum[Key(cache, d, f, None, Inclusive)] == Expected(m, d, f, m.sysv)
  }

  /** Every cached system-tree value of a cnode of `cs` and a node of `ns`
      is the value the query should answer. */
  ghost predicate StnCoherent<T>(m: Metric<T>, cache: Cache<T>, cs: set<Cnode>, ns: set<SystemTreeNode>)
  {
    forall d, f, n, sf :: d in cs && n in ns && 0 <= Key(cache, d, f, Some(Stn(n)), sf)
                          && Key(cache, d, f, Some(Stn(n)), sf) in cache.tStn
      ==> cache.tStn[Key(cache, d, f, Some(Stn(n)), sf)] == Expected(m, d, f, StnLocations(n))
  }

  /** Every cached row of a cnode of `cs` is the row the query should answer. */
  ghost predicate RowsCoherent<T>(m: Metric<T>, cache: Cache<T>, cs: set<Cnode>)
  {
    forall d, f :: d in cs && 0 <= Key(cache, d, f, None, Inclusive) && Key(cache, d, f, None, Inclusive) in cache.rows
      ==> cache.rows[Key(cache, d, f, None, Inclusive)] == InclusiveRow(m.ops, m.elem, d, f, m.sysv)
  }

  /** The node's own location sum, minus the location sums of its visible
      children for an EXCLUSIVE query on a node with children. */
  method InclusiveSum<T>(m: Metric<T>, c: Cnode, cnf: Flavour, locs: seq<Location>) returns (v: T)
    ensures v == InclusiveKindValue(m.ops, m.elem, c, cnf, locs)
  {
    v := LocationSum(m, c.id, locs);
    if cnf == Exclusive && |c.children| > 0 {
      var vs := VisibleOf(c);
      v := SubtractEach(m, v, vs, locs);
    }
  }

  /** Minus-fold of the location sums of `vs`, starting at `own`. */
  method SubtractEach<T>(m: Metric<T>, own: T, vs: seq<Cnode>, locs: seq<Location>) returns (v: T)
    ensures v == FoldLeft(m.ops.minus, own, vs, LocSumOf(m.ops, m.elem, locs))
  {
    v := own;
    var i := 0;
    while i < |vs|
      invariant 0 <= i <= |vs|
      invariant v == FoldLeft(m.ops.minus, own, vs[..i], LocSumOf(m.ops, m.elem, locs))
    {
      assert vs[..i + 1][..i] == vs[..i];
      var w := LocationSum(m, vs[i].id, locs);
      v := m.ops.minus(v, w);
      i := i + 1;
    }
    assert vs[..|vs|] == vs;
  }

  /** `get_sev_aggregated`: the value of `c` over all locations. */
  method SevAggregated<T>(m: Metric<T>, cache: Cache<T>, c: Cnode, cnf: Flavour, ghost cs: set<Cnode>)
    returns (value: real, cache': Cache<T>)
    ensures !m.active ==> value == 0.0 && cache' == cache
    ensures m.active && m.cacheable && IsTCached(cache, c, cnf, None, Inclusive).0
            ==> value == m.toDouble(cache.tSum[Key(cache, c, cnf, None, Inclusive)])
    ensures m.active && !(m.cacheable && IsTCached(cache, c, cnf, None, Inclusive).0)
            ==> value == m.toDouble(Expected(m, c, cnf, m.sysv))
    ensures cache'.stn == cache.stn && cache'.sum == cache.sum && cache'.tStn == cache.tStn && cache'.rows == cache.rows
    ensures c in cs && UniqueCnodeIds(cs) && SumCoherent(m, cache, cs)
            ==> SumCoherent(m, cache', cs) && (m.active ==> value == m.toDouble(Expected(m, c, cnf, m.sysv)))
  {
    if !m.active {
      return 0.0, cache;
    }
    if m.cacheable {
      var hit := IsTCached(cache, c, cnf, None, Inclusive);
      if hit.0 {
        SameKeys(cache, hit.1);
        return m.toDouble(GetTCached(hit.1, c, cnf, None, Inclusive, true, m.maxT)), hit.1;
      }
    }
    if NoData(m) {
      return m.toDouble(m.ops.zero), cache;
    }
    var v := InclusiveSum(m, c, cnf, m.sysv);
    cache' := if m.cacheable then SetTCached(cache, v, c, cnf, None, Inclusive) else cache;
    value := m.toDouble(v);
    if c in cs && UniqueCnodeIds(cs) && SumCoherent(m, cache, cs) {
      SumStoreKeepsCoherence(m, cache, c, cnf, cs);
    }
  }

  /** Storing the expected value of one query keeps the cache coherent. */
  lemma SumStoreKeepsCoherence<T>(m: Metric<T>, cache: Cache<T>, c: Cnode, cnf: Flavour, cs: set<Cnode>)
    requires c in cs && UniqueCnodeIds(cs) && SumCoherent(m, cache, cs)
    ensures SumCoherent(m, SetTCached(cache, Expected(m, c, cnf, m.sysv), c, cnf, None, Inclusive), cs)
  {
    var v := Expected(m, c, cnf, m.sysv);
    var r := SetTCached(cache, v, c, cnf, None, Inclusive);
    forall d, f | d in cs && 0 <= Key(r, d, f, None, Inclusive) && Key(r, d, f, None, Inclusive) in r.tSum
      ensures r.tSum[Key(r, d, f, None, Inclusive)] == Expected(m, d, f, m.sysv)
    {
      var k := Key(r, d, f, None, Inclusive);
      assert k == Key(cache, d, f, None, Inclusive);
      if k == Key(cache, c, cnf, None, Inclusive) && k !in cache.tSum {
        CodeInjective(f, cnf);
      }
    }
  }

  /** `get_sev_pointlike`: the value of `c` over the locations of one system resource. */
  method SevPointlike<T>(m: Metric<T>, cache: Cache<T>, c: Cnode, cnf: Flavour, sys: Sysres, sf: Flavour,
                         ghost cs: set<Cnode>, ghost ns: set<SystemTreeNode>)
    returns (value: real, cache': Cache<T>)
    ensures !m.active ==> value == 0.0 && cache' == cache
    ensures m.active && !sys.Loc? && sf == Exclusive ==> value == 0.0 && cache' == cache
    ensures m.active && (sys.Loc? || sf == Inclusive) && NoData(m) ==> value == m.toDouble(m.ops.zero)
    ensures m.active && (sys.Loc? || sf == Inclusive) && !NoData(m) && m.cacheable && IsTCached(cache, c, cnf, Some(sys), sf).0
            ==> value == m.toDouble(cache.tStn[Key(cache, c, cnf, Some(sys), sf)])
    ensures m.active && (sys.Loc? || sf == Inclusive) && !(m.cacheable && IsTCached(cache, c, cnf, Some(sys), sf).0)
            ==> value == m.toDouble(Expected(m, c, cnf, Locations(sys)))
    ensures cache'.stn == cache.stn && cache'.sum == cache.sum && cache'.tSum == cache.tSum && cache'.rows == cache.rows
    ensures c in cs && UniqueCnodeIds(cs) && (sys.Stn? ==> sys.node in ns) && UniqueStnIds(ns) && IdsBelow(ns, cache.stride)
            && StnCoherent(m, cache, cs, ns)
            ==> StnCoherent(m, cache', cs, ns)
                && (m.active && (sys.Loc? || sf == Inclusive) ==> value == m.toDouble(Expected(m, c, cnf, Locations(sys))))
  {
    if !m.active {
      return 0.0, cache;
    }
    if !sys.Loc? && sf == Exclusive {
      return 0.0, cache;
    }
    if NoData(m) {
      return m.toDouble(m.ops.zero), cache;
    }
    if m.cacheable {
      var hit := IsTCached(cache, c, cnf, Some(sys), sf);
      if hit.0 {
        if c in cs && (sys.Stn? ==> sys.node in ns) && StnCoherent(m, cache, cs, ns) {
          StnHitIsExpected(m, cache, c, cnf, sys, sf, cs, ns);
        }
        SameKeys(cache, hit.1);
        return m.toDouble(GetTCached(hit.1, c, cnf, Some(sys), sf, true, m.maxT)), hit.1;
      }
    }
    var v := InclusiveSum(m, c, cnf, Locations(sys));
    cache' := if m.cacheable then SetTCached(cache, v, c, cnf, Some(sys), sf) else cache;
    value := m.toDouble(v);
    if c in cs && UniqueCnodeIds(cs) && (sys.Stn? ==> sys.node in ns) && UniqueStnIds(ns) && IdsBelow(ns, cache.stride)
       && StnCoherent(m, cache, cs, ns) && m.cacheable {
      StnStoreKeepsCoherence(m, cache, c, cnf, sys, sf, cs, ns);
    }
  }

  /** In a coherent cache a system-tree hit holds the expected value. */
  lemma StnHitIsExpected<T>(m: Metric<T>, cache: Cache<T>, c: Cnode, cnf: Flavour, sys: Sysres, sf: Flavour,
                            cs: set<Cnode>, ns: set<SystemTreeNode>)
    requires c in cs && (sys.Stn? ==> sys.node in ns) && StnCoherent(m, cache, cs, ns)
    requires IsTCached(cache, c, cnf, Some(sys), sf).0
    ensures cache.tStn[Key(cache, c, cnf, Some(sys), sf)] == Expected(m, c, cnf, Locations(sys))
  {
    assert sys.Stn?;
  }

  /** Storing the expected value of one system-tree query keeps the cache coherent. */
  lemma StnStoreKeepsCoherence<T>(m: Metric<T>, cache: Cache<T>, c: Cnode, cnf: Flavour, sys: Sysres, sf: Flavour,
                                  cs: set<Cnode>, ns: set<SystemTreeNode>)
    requires c in cs && UniqueCnodeIds(cs) && (sys.Stn? ==> sys.node in ns) && UniqueStnIds(ns)
    requires IdsBelow(ns, cache.stride) && StnCoherent(m, cache, cs, ns)
    ensures StnCoherent(m, SetTCached(cache, Expected(m, c, cnf, Locations(sys)), c, cnf, Some(sys), sf), cs, ns)
  {
    var v := Expected(m, c, cnf, Locations(sys));
    var r := SetTCached(cache, v, c, cnf, Some(sys), sf);
    var k0 := Key(cache, c, cnf, Some(sys), sf);
    forall d, f, n, g | d in cs && n in ns && 0 <= Key(r, d, f, Some(Stn(n)), g) && Key(r, d, f, Some(Stn(n)), g) in r.tStn
      ensures r.tStn[Key(r, d, f, Some(Stn(n)), g)] == Expected(m, d, f, StnLocations(n))
    {
      var k := Key(r, d, f, Some(Stn(n)), g);
      assert k == Key(cache, d, f, Some(Stn(n)), g);
      if k == k0 && k !in cache.tStn {
        assert sys.Stn?;
        assert f == cnf;
        KeyInjective(cache, d, n, g, c, sys.node, sf, f);
      }
    }
  }

  /** `get_sev_native`: aggregated over all locations without a system
      resource, point-like with one. */
  method SevNative<T>(m: Metric<T>, cache: Cache<T>, c: Cnode, cnf: Flavour, sys: Option<Sysres>, sf: Flavour,
                      ghost cs: set<Cnode>, ghost ns: set<SystemTreeNode>)
    returns (value: real, cache': Cache<T>)
    ensures !m.active ==> value == 0.0 && cache' == cache
    ensures c in cs && UniqueCnodeIds(cs) && SumCoherent(m, cache, cs) && sys.None? && m.active
            ==> value == m.toDouble(Expected(m, c, cnf, m.sysv)) && SumCoherent(m, cache', cs)
    ensures c in cs && UniqueCnodeIds(cs) && sys.Some? && (sys.value.Stn? ==> sys.value.node in ns) && UniqueStnIds(ns)
            && IdsBelow(ns, cache.stride) && StnCoherent(m, cache, cs, ns) && m.active
            ==> StnCoherent(m, cache', cs, ns)
                && value == (if !sys.value.Loc? && sf == Exclusive then 0.0
                             else m.toDouble(Expected(m, c, cnf, Locations(sys.value))))
  {
    if sys.None? {
      value, cache' := SevAggregated(m, cache, c, cnf, cs);
    } else {
      value, cache' := SevPointlike(m, cache, c, cnf, sys.value, sf, cs, ns);
    }
  }

  /** `get_sevs_raw`: one value per location, or NULL. Its no-data guard
      tests for kind EXCLUSIVE, so for this metric family it never fires. */
  method SevsRaw<T>(m: Metric<T>, cache: Cache<T>, c: Cnode, cnf: Flavour, ghost cs: set<Cnode>)
    returns (row: Option<seq<T>>, cache': Cache<T>)
    requires |m.sysv| == cache.numberLoc
    ensures !m.active || RowNoData(m) ==> row.None? && cache' == cache
    ensures m.active && !RowNoData(m) && m.cacheable && GetCachedRow(cache, c, cnf).Some?
            ==> row == GetCachedRow(cache, c, cnf) && cache' == cache
    ensures m.active && !RowNoData(m) && !(m.cacheable && GetCachedRow(cache, c, cnf).Some?)
            ==> row == Some(InclusiveRow(m.ops, m.elem, c, cnf, m.sysv))
    ensures cache'.stn == cache.stn && cache'.sum == cache.sum && cache'.tStn == cache.tStn && cache'.tSum == cache.tSum
    ensures RowsSized(cache) ==> RowsSized(cache')
    ensures c in cs && UniqueCnodeIds(cs) && RowsCoherent(m, cache, cs) && m.active && !RowNoData(m)
            ==> RowsCoherent(m, cache', cs) && row == Some(InclusiveRow(m.ops, m.elem, c, cnf, m.sysv))
  {
    if !m.active || RowNoData(m) {
      return None, cache;
    }
    if m.cacheable {
      var cached := GetCachedRow(cache, c, cnf);
      if cached.Some? {
        return cached, cache;
      }
    }
    var r := OwnRow(m, c);
    if cnf == Exclusive && |c.children| > 0 {
      var vs := VisibleOf(c);
      var k := 0;
      while k < |vs|
        invariant 0 <= k <= |vs|
        invariant |r| == |m.sysv|
        invariant forall j :: 0 <= j < |r| ==> r[j] == FoldLeft(m.ops.minus, m.elem(c.id, m.sysv[j]), vs[..k], AtLocation(m.elem, m.sysv[j]))
      {
        assert vs[..k + 1][..k] == vs[..k];
        var i := 0;
        while i < |m.sysv|
          invariant 0 <= i <= |m.sysv|
          invariant |r| == |m.sysv|
          invariant forall j :: 0 <= j < i ==> r[j] == FoldLeft(m.ops.minus, m.elem(c.id, m.sysv[j]), vs[..k + 1], AtLocation(m.elem, m.sysv[j]))
          invariant forall j :: i <= j < |r| ==> r[j] == FoldLeft(m.ops.minus, m.elem(c.id, m.sysv[j]), vs[..k], AtLocation(m.elem, m.sysv[j]))
        {
          r := r[i := m.ops.minus(r[i], m.elem(vs[k].id, m.sysv[i]))];
          i := i + 1;
        }
        k := k + 1;
      }
      assert vs[..|vs|] == vs;
    }
    assert r == InclusiveRow(m.ops, m.elem, c, cnf, m.sysv);
    row := Some(r);
    cache' := if m.cacheable then SetCachedRow(cache, r, c, cnf) else cache;
    if c in cs && UniqueCnodeIds(cs) && RowsCoherent(m, cache, cs) && m.cacheable {
      RowStoreKeepsCoherence(m, cache, c, cnf, cs);
    }
  }

  /** The elementary values of `c` itself, one per location. */
  method OwnRow<T>(m: Metric<T>, c: Cnode) returns (r: seq<T>)
    ensures |r| == |m.sysv|
    ensures forall j :: 0 <= j < |r| ==> r[j] == m.elem(c.id, m.sysv[j])
  {
    r := [];
    var i := 0;
    while i < |m.sysv|
      invariant 0 <= i <= |m.sysv|
      invariant |r| == i
      invariant forall j :: 0 <= j < i ==> r[j] == m.elem(c.id, m.sysv[j])
    {
      r := r + [m.elem(c.id, m.sysv[i])];
      i := i + 1;
    }
  }

  lemma RowStoreKeepsCoherence<T>(m: Metric<T>, cache: Cache<T>, c: Cnode, cnf: Flavour, cs: set<Cnode>)
    requires |m.sysv| == cache.numberLoc
    requires c in cs && UniqueCnodeIds(cs) && RowsCoherent(m, cache, cs)
    ensures RowsCoherent(m, SetCachedRow(cache, InclusiveRow(m.ops, m.elem, c, cnf, m.sysv), c, cnf), cs)
  {
    var r := SetCachedRow(cache, InclusiveRow(m.ops, m.elem, c, cnf, m.sysv), c, cnf);
    forall d, f | d in cs && 0 <= Key(r, d, f, None, Inclusive) && Key(r, d, f, None, Inclusive) in r.rows
      ensures r.rows[Key(r, d, f, None, Inclusive)] == InclusiveRow(m.ops, m.elem, d, f, m.sysv)
    {
      var k := Key(r, d, f, None, Inclusive);
      assert k == Key(cache, d, f, None, Inclusive);
      if k == Key(cache, c, cnf, None, Inclusive) && k !in cache.rows {
        CodeInjective(f, cnf);
      }
    }
  }

  /** `get_sevs_native`: the row as doubles, zeros when there is none. */
  method SevsNative<T>(m: Metric<T>, cache: Cache<T>, c: Cnode, cnf: Flavour, ghost cs: set<Cnode>)
    returns (row: seq<real>, cache': Cache<T>)
    requires |m.sysv| == cache.numberLoc && RowsSized(cache)
    ensures |row| == |m.sysv|
    ensures !m.active || RowNoData(m) ==> forall i :: 0 <= i < |row| ==> row[i] == 0.0
    ensures c in cs && UniqueCnodeIds(cs) && RowsCoherent(m, cache, cs) && m.active && !RowNoData(m)
            ==> RowsCoherent(m, cache', cs)
                && forall i :: 0 <= i < |row| ==> row[i] == m.toDouble(InclusiveRowEntry(m.ops, m.elem, c, cnf, m.sysv[i]))
  {
    var raw;
    raw, cache' := SevsRaw(m, cache, c, cnf, cs);
    row := ToDoubles(m, raw);
  }

  /** For every metric of this family (kind INCLUSIVE or PREDERIVED_INCLUSIVE)
      the row guard never fires: without data the value queries answer zero
      while the row query still computes a row from the elementary values. */
  lemma RowGuardNeverFires<T>(m: Metric<T>)
    requires m.kind == InclusiveKind || m.kind == PreDerivedInclusiveKind
    ensures !RowNoData(m)
    ensures !m.hasData && m.kind == InclusiveKind ==> NoData(m)
  {
  }
}
