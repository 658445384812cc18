/**
  Build-in metrics that store EXCLUSIVE values (kind EXCLUSIVE, sparse
  index): an INCLUSIVE value is the sum over the node and its whole
  subtree; an EXCLUSIVE value additionally absorbs hidden children and
  their subtrees. Results of the flavour that is not native are cached.
*/
module ExclusiveBuildIn {
  import opened CubeTypes
  import opened Trees
  import opened Aggregation
  import opened SimpleCache
  import opened BuildIn

  /** `get_static_serialization_key`: the key names the value type. */
  function SerializationKey(typeString: string): (k: string)
    ensures |k| == 17 + |typeString|
    ensures k[..17] == "Metric|Exclusive|" && k[17..] == typeString
  {
    "Metric|Exclusive|" + typeString
  }

  /** `get_type_of_metric`, `get_index_format` and `get_metric_kind`. */
  function TypeOfMetric(): MetricKind { ExclusiveKind }
  function IndexFormatOf(): IndexFormat { Sparse }
  function MetricKindName(): string { "EXCLUSIVE" }

  /** Whether the no-data guard answers zero: only for a metric of kind
      EXCLUSIVE itself whose severity matrix is absent. */
  predicate NoData<T>(m: Metric<T>)
  {
    !m.hasData && m.kind == ExclusiveKind
  }

  /** A metric of this class reports kind EXCLUSIVE, so its no-data guard
      fires exactly when the severity matrix is absent; its index is sparse
      and its kind name is "EXCLUSIVE". */
  lemma Descriptor<T>(m: Metric<T>)
    requires m.kind == TypeOfMetric()
    ensures NoData(m) <==> !m.hasData
    ensures IndexFormatOf() == Sparse && MetricKindName() == "EXCLUSIVE"
  {
  }

  /** The value a query should answer over the locations `locs`. */
  function Expected<T>(m: Metric<T>, c: Cnode, cnf: Flavour, locs: seq<Location>): T
  {
    if NoData(m) then m.ops.zero else ExclusiveKindValue(m.ops, m.elem, c, cnf, locs)
  }

  /** Every cached aggregated value of a cnode of `cs` is the value the
      query should answer. */
  ghost predicate SumCoherent<T>(m: Metric<T>, cache: Cache<T>, cs: set<Cnode>)
  {
    forall d, f :: d in cs && 0 <= Key(cache, d, f, None, Inclusive) && Key(cache, d, f, None, Inclusive) in cache.tSum
      ==> cache.tSum[Key(cache, d, f, None, Inclusive)] == Expected(m, d, f, m.sysv)
  }

  /** Every cached system-tree value of a cnode of `cs` and a node of `ns`
      is the value the query should answer. */
  ghost predicate StnCoherent<T>(m: Metric<T>, cache: Cache<T>, cs: set<Cnode>, ns: set<SystemTreeNode>)
  {
    forall d, f, n, sf :: d in cs && n in ns && 0 <= Key(cache, d, f, Some(Stn(n)), sf)
                          && Key(cache, d, f, Some(Stn(n)), sf) in cache.tStn
      ==> cache.tStn[Key(cache, d, f, Some(Stn(n)), sf)] == Expected(m, d, f, StnLocations(n))
  }

  /** Every cached row of a cnode of `cs` is the row the query should answer. */
  ghost predicate RowsCoherent<T>(m: Metric<T>, cache: Cache<T>, cs: set<Cnode>)
  {
    forall d, f :: d in cs && 0 <= Key(cache, d, f, None, Inclusive) && Key(cache, d, f, None, Inclusive) in cache.rows
      ==> cache.rows[Key(cache, d, f, None, Inclusive)] == ExclusiveRow(m.ops, m.elem, Collected(d, f), m.sysv)
  }

  /** `get_sev_aggregated`: the value of `c` summed over all locations. */
  method SevAggregated<T>(m: Metric<T>, cache: Cache<T>, c: Cnode, cnf: Flavour, ghost cs: set<Cnode>)
    returns (value: real, cache': Cache<T>)
    ensures !m.active ==> value == 0.0 && cache' == cache
    ensures m.active && m.cacheable && IsTCached(cache, c, cnf, None, Inclusive).0
            ==> value == m.toDouble(cache.tSum[Key(cache, c, cnf, None, Inclusive)])
    ensures m.active && !(m.cacheable && IsTCached(cache, c, cnf, None, Inclusive).0)
            ==> value == m.toDouble(Expected(m, c, cnf, m.sysv))
    ensures cache'.stn == cache.stn && cache'.sum == cache.sum && cache'.tStn == cache.tStn && cache'.rows == cache.rows
    ensures c in cs && UniqueCnodeIds(cs) && SumCoherent(m, cache, cs)
            ==> SumCoherent(m, cache', cs) && (m.active ==> value == m.toDouble(Expected(m, c, cnf, m.sysv)))
  {
    if !m.active {
      return 0.0, cache;
    }
    if m.cacheable {
      var hit := IsTCached(cache, c, cnf, None, Inclusive);
      if hit.0 {
        return m.toDouble(GetTCached(hit.1, c, cnf, None, Inclusive, true, m.maxT)), hit.1;
      }
    }
    if NoData(m) {
      return m.toDouble(m.ops.zero), cache;
    }
    var v := ExclusiveSum(m, c, cnf, m.sysv);
    cache' := if m.cacheable then SetTCached(cache, v, c, cnf, None, Inclusive) else cache;
    value := m.toDouble(v);
    if c in cs && UniqueCnodeIds(cs) && SumCoherent(m, cache, cs) {
      SumStoreKeepsCoherence(m, cache, c, cnf, cs);
    }
  }

  /** The sum over the collected cnodes of their location sums. */
  method ExclusiveSum<T>(m: Metric<T>, c: Cnode, cnf: Flavour, locs: seq<Location>) returns (v: T)
    ensures v == ExclusiveKindValue(m.ops, m.elem, c, cnf, locs)
  {
    var cnodes := CollectCnodes(c, cnf);
    v := m.ops.zero;
    var i := 0;
    while i < |cnodes|
      invariant 0 <= i <= |cnodes|
      invariant v == FoldLeft(m.ops.plus, m.ops.zero, cnodes[..i], LocSumOf(m.ops, m.elem, locs))
    {
      assert cnodes[..i + 1][..i] == cnodes[..i];
      var w := LocationSum(m, cnodes[i].id, locs);
      v := m.ops.plus(v, w);
      i := i + 1;
    }
    assert cnodes[..|cnodes|] == cnodes;
  }

  /** Storing the expected value of one query keeps the cache coherent. */
  lemma SumStoreKeepsCoherence<T>(m: Metric<T>, cache: Cache<T>, c: Cnode, cnf: Flavour, cs: set<Cnode>)
    requires c in cs && UniqueCnodeIds(cs) && SumCoherent(m, cache, cs)
    ensures SumCoherent(m, SetTCached(cache, Expected(m, c, cnf, m.sysv), c, cnf, None, Inclusive), cs)
  {
    var v := Expected(m, c, cnf, m.sysv);
    var r := SetTCached(cache, v, c, cnf, None, Inclusive);
    forall d, f | d in cs && 0 <= Key(r, d, f, None, Inclusive) && Key(r, d, f, None, Inclusive) in r.tSum
      ensures r.tSum[Key(r, d, f, None, Inclusive)] == Expected(m, d, f, m.sysv)
    {
      var k := Key(r, d, f, None, Inclusive);
      assert k == Key(cache, d, f, None, Inclusive);
      if k == Key(cache, c, cnf, None, Inclusive) && k !in cache.tSum {
        CodeInjective(f, cnf);
      }
    }
  }

  /** `get_sev_pointlike`: the value of `c` over the locations of one system resource. */
  method SevPointlike<T>(m: Metric<T>, cache: Cache<T>, c: Cnode, cnf: Flavour, sys: Sysres, sf: Flavour,
                         ghost cs: set<Cnode>, ghost ns: set<SystemTreeNode>)
    returns (value: real, cache': Cache<T>)
    ensures !m.active ==> value == 0.0 && cache' == cache
    ensures m.active && !sys.Loc? && sf == Exclusive ==> value == 0.0 && cache' == cache
    ensures m.active && (sys.Loc? || sf == Inclusive) && NoData(m) ==> value == m.toDouble(m.ops.zero)
    ensures m.active && (sys.Loc? || sf == Inclusive) && !NoData(m) && m.cacheable && IsTCached(cache, c, cnf, Some(sys), sf).0
            ==> value == m.toDouble(cache.tStn[Key(cache, c, cnf, Some(sys), sf)])
    ensures m.active && (sys.Loc? || sf == Inclusive) && !(m.cacheable && IsTCached(cache, c, cnf, Some(sys), sf).0)
            ==> value == m.toDouble(Expected(m, c, cnf, Locations(sys)))
    ensures cache'.stn == cache.stn && cache'.sum == cache.sum && cache'.tSum == cache.tSum && cache'.rows == cache.rows
    ensures c in cs && UniqueCnodeIds(cs) && (sys.Stn? ==> sys.node in ns) && UniqueStnIds(ns) && IdsBelow(ns, cache.stride)
            && StnCoherent(m, cache, cs, ns)
            ==> StnCoherent(m, cache', cs, ns)
                && (m.active && (sys.Loc? || sf == Inclusive) ==> value == m.toDouble(Expected(m, c, cnf, Locations(sys))))
  {
    if !m.active {
      return 0.0, cache;
    }
    if !sys.Loc? && sf == Exclusive {
      return 0.0, cache;
    }
    if NoData(m) {
      return m.toDouble(m.ops.zero), cache;
    }
    if m.cacheable {
      var hit := IsTCached(cache, c, cnf, Some(sys), sf);
      if hit.0 {
        if c in cs && (sys.Stn? ==> sys.node in ns) && StnCoherent(m, cache, cs, ns) {
          StnHitIsExpected(m, cache, c, cnf, sys, sf, cs, ns);
        }
        SameKeys(cache, hit.1);
        return m.toDouble(GetTCached(hit.1, c, cnf, Some(sys), sf, true, m.maxT)), hit.1;
      }
    }
    var v := ExclusiveSum(m, c, cnf, Locations(sys));
    cache' := if m.cacheable then SetTCached(cache, v, c, cnf, Some(sys), sf) else cache;
    value := m.toDouble(v);
    if c in cs && UniqueCnodeIds(cs) && (sys.Stn? ==> sys.node in ns) && UniqueStnIds(ns) && IdsBelow(ns, cache.stride)
       && StnCoherent(m, cache, cs, ns) && m.cacheable {
      StnStoreKeepsCoherence(m, cache, c, cnf, sys, sf, cs, ns);
    }
  }

  /** In a coherent cache a system-tree hit holds the expected value. */
  lemma StnHitIsExpected<T>(m: Metric<T>, cache: Cache<T>, c: Cnode, cnf: Flavour, sys: Sysres, sf: Flavour,
                            cs: set<Cnode>, ns: set<SystemTreeNode>)
    requires c in cs && (sys.Stn? ==> sys.node in ns) && StnCoherent(m, cache, cs, ns)
    requires IsTCached(cache, c, cnf, Some(sys), sf).0
    ensures cache.tStn[Key(cache, c, cnf, Some(sys), sf)] == Expected(m, c, cnf, Locations(sys))
  {
    assert sys.Stn?;
  }

  /** Storing the expected value of one system-tree query keeps the cache coherent. */
  lemma StnStoreKeepsCoherence<T>(m: Metric<T>, cache: Cache<T>, c: Cnode, cnf: Flavour, sys: Sysres, sf: Flavour,
                                  cs: set<Cnode>, ns: set<SystemTreeNode>)
    requires c in cs && UniqueCnodeIds(cs) && (sys.Stn? ==> sys.node in ns) && UniqueStnIds(ns)
    requires IdsBelow(ns, cache.stride) && StnCoherent(m, cache, cs, ns)
    ensures StnCoherent(m, SetTCached(cache, Expected(m, c, cnf, Locations(sys)), c, cnf, Some(sys), sf), cs, ns)
  {
    var v := Expected(m, c, cnf, Locations(sys));
    var r := SetTCached(cache, v, c, cnf, Some(sys), sf);
    var k0 := Key(cache, c, cnf, Some(sys), sf);
    forall d, f, n, g | d in cs && n in ns && 0 <= Key(r, d, f, Some(Stn(n)), g) && Key(r, d, f, Some(Stn(n)), g) in r.tStn
      ensures r.tStn[Key(r, d, f, Some(Stn(n)), g)] == Expected(m, d, f, StnLocations(n))
    {
      var k := Key(r, d, f, Some(Stn(n)), g);
      assert k == Key(cache, d, f, Some(Stn(n)), g);
      if k == k0 && k !in cache.tStn {
        assert sys.Stn?;
        assert f == cnf;
        KeyInjective(cache, d, n, g, c, sys.node, sf, f);
      }
    }
  }

  /** `get_sev_native`: aggregated over all locations without a system
      resource, point-like with one. */
  method SevNative<T>(m: Metric<T>, cache: Cache<T>, c: Cnode, cnf: Flavour, sys: Option<Sysres>, sf: Flavour,
                      ghost cs: set<Cnode>, ghost ns: set<SystemTreeNode>)
    returns (value: real, cache': Cache<T>)
    ensures !m.active ==> value == 0.0 && cache' == cache
    ensures c in cs && UniqueCnodeIds(cs) && SumCoherent(m, cache, cs) && sys.None? && m.active
            ==> value == m.toDouble(Expected(m, c, cnf, m.sysv)) && SumCoherent(m, cache', cs)
    ensures c in cs && UniqueCnodeIds(cs) && sys.Some? && (sys.value.Stn? ==> sys.value.node in ns) && UniqueStnIds(ns)
            && IdsBelow(ns, cache.stride) && StnCoherent(m, cache, cs, ns) && m.active
            ==> StnCoherent(m, cache', cs, ns)
                && value == (if !sys.value.Loc? && sf == Exclusive then 0.0
                             else m.toDouble(Expected(m, c, cnf, Locations(sys.value))))
  {
    if sys.None? {
      value, cache' := SevAggregated(m, cache, c, cnf, cs);
    } else {
      value, cache' := SevPointlike(m, cache, c, cnf, sys.value, sf, cs, ns);
    }
  }

  /** `get_sevs_raw`: one value per location, or NULL. */
  method SevsRaw<T>(m: Metric<T>, cache: Cache<T>, c: Cnode, cnf: Flavour, ghost cs: set<Cnode>)
    returns (row: Option<seq<T>>, cache': Cache<T>)
    requires |m.sysv| == cache.numberLoc
    ensures !m.active || NoData(m) ==> row.None? && cache' == cache
    ensures m.active && !NoData(m) && m.cacheable && GetCachedRow(cache, c, cnf).Some?
            ==> row == GetCachedRow(cache, c, cnf) && cache' == cache
    ensures m.active && !NoData(m) && !(m.cacheable && GetCachedRow(cache, c, cnf).Some?)
            ==> row == Some(ExclusiveRow(m.ops, m.elem, Collected(c, cnf), m.sysv))
    ensures cache'.stn == cache.stn && cache'.sum == cache.sum && cache'.tStn == cache.tStn && cache'.tSum == cache.tSum
    ensures RowsSized(cache) ==> RowsSized(cache')
    ensures c in cs && UniqueCnodeIds(cs) && RowsCoherent(m, cache, cs) && m.active && !NoData(m)
            ==> RowsCoherent(m, cache', cs) && row == Some(ExclusiveRow(m.ops, m.elem, Collected(c, cnf), m.sysv))
  {
    if !m.active || NoData(m) {
      return None, cache;
    }
    if m.cacheable {
      var cached := GetCachedRow(cache, c, cnf);
      if cached.Some? {
        return cached, cache;
      }
    }
    var cnodes := CollectCnodes(c, cnf);
    var r := seq(|m.sysv|, _ => m.ops.zero);
    var k := 0;
    while k < |cnodes|
      invariant 0 <= k <= |cnodes|
      invariant |r| == |m.sysv|
      invariant forall j :: 0 <= j < |r| ==> r[j] == ExclusiveRowEntry(m.ops, m.elem, cnodes[..k], m.sysv[j])
    {
      assert cnodes[..k + 1][..k] == cnodes[..k];
      var i := 0;
      while i < |m.sysv|
        invariant 0 <= i <= |m.sysv|
        invariant |r| == |m.sysv|
        invariant forall j :: 0 <= j < i ==> r[j] == ExclusiveRowEntry(m.ops, m.elem, cnodes[..k + 1], m.sysv[j])
        invariant forall j :: i <= j < |r| ==> r[j] == ExclusiveRowEntry(m.ops, m.elem, cnodes[..k], m.sysv[j])
      {
        r := r[i := m.ops.plus(r[i], m.elem(cnodes[k].id, m.sysv[i]))];
        i := i + 1;
      }
      k := k + 1;
    }
    assert cnodes[..|cnodes|] == cnodes;
    assert r == ExclusiveRow(m.ops, m.elem, cnodes, m.sysv);
    row := Some(r);
    cache' := if m.cacheable then SetCachedRow(cache, r, c, cnf) else cache;
    if c in cs && UniqueCnodeIds(cs) && RowsCoherent(m, cache, cs) && m.cacheable {
      RowStoreKeepsCoherence(m, cache, c, cnf, cs);
    }
  }

  lemma RowStoreKeepsCoherence<T>(m: Metric<T>, cache: Cache<T>, c: Cnode, cnf: Flavour, cs: set<Cnode>)
    requires |m.sysv| == cache.numberLoc
    requires c in cs && UniqueCnodeIds(cs) && RowsCoherent(m, cache, cs)
    ensures RowsCoherent(m, SetCachedRow(cache, ExclusiveRow(m.ops, m.elem, Collected(c, cnf), m.sysv), c, cnf), cs)
  {
    var r := SetCachedRow(cache, ExclusiveRow(m.ops, m.elem, Collected(c, cnf), m.sysv), c, cnf);
    forall d, f | d in cs && 0 <= Key(r, d, f, None, Inclusive) && Key(r, d, f, None, Inclusive) in r.rows
      ensures r.rows[Key(r, d, f, None, Inclusive)] == ExclusiveRow(m.ops, m.elem, Collected(d, f), m.sysv)
    {
      var k := Key(r, d, f, None, Inclusive);
      assert k == Key(cache, d, f, None, Inclusive);
      if k == Key(cache, c, cnf, None, Inclusive) && k !in cache.rows {
        CodeInjective(f, cnf);
      }
    }
  }

  /** `get_sevs_native`: the row as doubles, zeros when there is none. */
  method SevsNative<T>(m: Metric<T>, cache: Cache<T>, c: Cnode, cnf: Flavour, ghost cs: set<Cnode>)
    returns (row: seq<real>, cache': Cache<T>)
    requires |m.sysv| == cache.numberLoc && RowsSized(cache)
    ensures |row| == |m.sysv|
    ensures !m.active || NoData(m) ==> forall i :: 0 <= i < |row| ==> row[i] == 0.0
    ensures c in cs && UniqueCnodeIds(cs) && RowsCoherent(m, cache, cs) && m.active && !NoData(m)
            ==> RowsCoherent(m, cache', cs)
                && forall i :: 0 <= i < |row| ==> row[i] == m.toDouble(ExclusiveRowEntry(m.ops, m.elem, Collected(c, cnf), m.sysv[i]))
  {
    var raw;
    raw, cache' := SevsRaw(m, cache, c, cnf, cs);
    row := ToDoubles(m, raw);
  }
}
