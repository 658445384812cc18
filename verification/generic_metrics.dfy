/**
  The generic (value-object) metrics `ExclusiveMetric` and `InclusiveMetric`.
  Their values are objects that may be NULL; a sum starts at NULL, adopts
  the first value it meets and adds every later one ("adopt-or-add").
  Point-like queries recurse down the system tree, each recursive call
  going through the value cache; aggregated queries sum over all
  locations.
*/
module GenericMetrics {
  import opened CubeTypes
  import opened Trees
  import opened Aggregation
  import opened SimpleCache
  import opened BuildIn

  /** Which of the two generic classes a metric is. */
  datatype Family = ExclusiveFamily | InclusiveFamily

  /** A generic metric with values of type V.
      - `add` and `sub` are the value's `+=` and `-=`;
      - `blank` is the fresh value the severity matrix hands out;
      - `sysv` is the list of all locations, `elem(cnode id, location)` the
        stored elementary value. */
  datatype Generic<!V> = Generic(
    family: Family,
    add: (V, V) -> V,
    sub: (V, V) -> V,
    blank: V,
    active: bool,
    cacheable: bool,
    sysv: seq<Location>,
    elem: (nat, Location) -> V)

  function SerializationKey(f: Family): (k: string)
    ensures |k| == 24 && k[..7] == "Metric|" && k[16..] == "|Generic"
    ensures f == ExclusiveFamily <==> k[7..16] == "Exclusive"
  {
    var name := if f == ExclusiveFamily then "Exclusive" else "Inclusive";
    assert "Inclusive"[0] != "Exclusive"[0];
    "Metric|" + name + "|Generic"
  }

  // ---------------------------------------------------------------------
  // Adopt-or-add

  /** `v == NULL ? w : v += w`, where adding NULL leaves v as it is. */
  function AddOpt<V>(add: (V, V) -> V, v: Option<V>, w: Option<V>): Option<V>
  {
    if v.None? then w else if w.None? then v else Some(add(v.value, w.value))
  }

  /** `v -= w`. The source only subtracts from a non-NULL value. */
  function SubOpt<V>(sub: (V, V) -> V, v: Option<V>, w: Option<V>): Option<V>
  {
    if v.None? || w.None? then v else Some(sub(v.value, w.value))
  }

  /** Adopt-or-add of `g` over `s`, front to back, starting from `acc`. */
  function Accumulate<A, V>(add: (V, V) -> V, acc: Option<V>, s: seq<A>, g: A -> V): Option<V>
    decreases |s|
  {
    if |s| == 0 then acc else Accumulate(add, AddOpt(add, acc, Some(g(s[0]))), s[1..], g)
  }

  /** Subtraction of `g` over `s`, front to back, starting from `acc`. */
  function Deduct<A, V>(sub: (V, V) -> V, acc: Option<V>, s: seq<A>, g: A -> V): Option<V>
    decreases |s|
  {
    if |s| == 0 then acc else Deduct(sub, SubOpt(sub, acc, Some(g(s[0]))), s[1..], g)
  }

  /** Adopt-or-add over every (cnode, location) pair, cnode-major. */
  function AccumulateAll<V>(add: (V, V) -> V, acc: Option<V>, cs: seq<Cnode>, locs: seq<Location>,
                            elem: (nat, Location) -> V): Option<V>
    decreases |cs|
  {
    if |cs| == 0 then acc
    else AccumulateAll(add, Accumulate(add, acc, locs, AtCnode(elem, cs[0].id)), cs[1..], locs, elem)
  }

  /** Subtraction over every (cnode, location) pair, cnode-major. */
  function DeductAll<V>(sub: (V, V) -> V, acc: Option<V>, cs: seq<Cnode>, locs: seq<Location>,
                        elem: (nat, Location) -> V): Option<V>
    decreases |cs|
  {
    if |cs| == 0 then acc
    else DeductAll(sub, Deduct(sub, acc, locs, AtCnode(elem, cs[0].id)), cs[1..], locs, elem)
  }

  lemma {:induction false} AccumulateKeepsSome<A, V>(add: (V, V) -> V, acc: Option<V>, s: seq<A>, g: A -> V)
    ensures Accumulate(add, acc, s, g).Some? <==> acc.Some? || |s| > 0
    decreases |s|
  {
    if |s| > 0 {
      AccumulateKeepsSome(add, AddOpt(add, acc, Some(g(s[0]))), s[1..], g);
    }
  }

  // ---------------------------------------------------------------------
  // The value at one location

  /** Exclusive generic metric at a location: adopt-or-add of the
      elementary values of the collected cnodes. */
  function ExclusiveLocValue<V>(m: Generic<V>, c: Cnode, cnf: Flavour, l: Location): Option<V>
  {
    Accumulate(m.add, None, Collected(c, cnf), AtLocation(m.elem, l))
  }

  /** Inclusive generic metric at a location, as written: the node's own
      value, and for an EXCLUSIVE query on a node with children the values
      of the visible children ADDED to it. */
  function InclusiveLocValueAsWritten<V>(m: Generic<V>, c: Cnode, cnf: Flavour, l: Location): Option<V>
  {
    var own := Some(m.elem(c.id, l));
    if cnf == Exclusive && |c.children| > 0
    then Accumulate(m.add, own, VisibleChildren(c.children), AtLocation(m.elem, l))
    else own
  }

  /** Inclusive generic metric at a location, corrected: the values of the
      visible children are subtracted, as every other inclusive
      calculation does. */
  function InclusiveLocValue<V>(m: Generic<V>, c: Cnode, cnf: Flavour, l: Location): Option<V>
  {
    var own := Some(m.elem(c.id, l));
    if cnf == Exclusive && |c.children| > 0
    then Deduct(m.sub, own, VisibleChildren(c.children), AtLocation(m.elem, l))
    else own
  }

  /** The value a location query computes, with the inclusive family's
      children added as the code is written. */
  function LocValue<V>(m: Generic<V>, c: Cnode, cnf: Flavour, l: Location): Option<V>
  {
    match m.family
    case ExclusiveFamily => ExclusiveLocValue(m, c, cnf, l)
    case InclusiveFamily => InclusiveLocValueAsWritten(m, c, cnf, l)
  }

  // ---------------------------------------------------------------------
  // Point-like values without a cache: the reference the cached
  // recursion is measured against

  function PureStn<V>(m: Generic<V>, c: Cnode, cnf: Flavour, n: SystemTreeNode): Option<V>
    decreases n, 2
  {
    PureGroups(m, c, cnf, n.groups, PureStns(m, c, cnf, n.children, None))
  }

  function PureStns<V>(m: Generic<V>, c: Cnode, cnf: Flavour, ns: seq<SystemTreeNode>, acc: Option<V>): Option<V>
    decreases ns, 1
  {
    if |ns| == 0 then acc
    else PureStns(m, c, cnf, ns[1..], AddOpt(m.add, acc, PureStn(m, c, cnf, ns[0])))
  }

  function PureGroups<V>(m: Generic<V>, c: Cnode, cnf: Flavour, gs: seq<LocationGroup>, acc: Option<V>): Option<V>
    decreases gs, 1
  {
    if |gs| == 0 then acc
    else PureGroups(m, c, cnf, gs[1..], AddOpt(m.add, acc, PureGroup(m, c, cnf, gs[0])))
  }

  function PureGroup<V>(m: Generic<V>, c: Cnode, cnf: Flavour, g: LocationGroup): Option<V>
    decreases g, 2
  {
    PureLocs(m, c, cnf, g.locations, None)
  }

  function PureLocs<V>(m: Generic<V>, c: Cnode, cnf: Flavour, ls: seq<Location>, acc: Option<V>): Option<V>
    decreases ls
  {
    if |ls| == 0 then acc
    else PureLocs(m, c, cnf, ls[1..], AddOpt(m.add, acc, LocValue(m, c, cnf, ls[0])))
  }

  /** What a point-like query answers for an active metric: NULL for an
      EXCLUSIVE query on a node or group, the recursive sum otherwise. */
  function PureValue<V>(m: Generic<V>, c: Cnode, cnf: Flavour, sys: Sysres, sf: Flavour): Option<V>
  {
    if !sys.Loc? && sf == Exclusive then None
    else match sys
      case Stn(n) => PureStn(m, c, cnf, n)
      case Group(g) => PureGroup(m, c, cnf, g)
      case Loc(l) => LocValue(m, c, cnf, l)
  }

  // ---------------------------------------------------------------------
  // Point-like queries through the cache

  /** The early answers of `get_sev_pointlike`: NULL when inactive, NULL
      for an EXCLUSIVE query on a node or group, the cached copy on a hit;
      None when the value has to be computed. */
  function Shortcut<V>(m: Generic<V>, cache: Cache<V>, c: Cnode, cnf: Flavour, sys: Sysres, sf: Flavour): Option<Option<V>>
  {
    if !m.active then Some(None)
    else if !sys.Loc? && sf == Exclusive then Some(None)
    else if m.cacheable && GetCachedValue(cache, c, cnf, Some(sys), sf).Some?
    then Some(GetCachedValue(cache, c, cnf, Some(sys), sf))
    else None
  }

  /** The computed value is stored (if absent) when the metric is cacheable. */
  function Finish<V>(m: Generic<V>, cache: Cache<V>, c: Cnode, cnf: Flavour, sys: Sysres, sf: Flavour,
                     v: Option<V>): (Option<V>, Cache<V>)
  {
    (v, if m.cacheable then SetCachedValue(cache, v, c, cnf, Some(sys), sf) else cache)
  }

  function PointStn<V>(m: Generic<V>, cache: Cache<V>, c: Cnode, cnf: Flavour, n: SystemTreeNode, sf: Flavour)
    : (Option<V>, Cache<V>)
    decreases n, 2
  {
    var s := Shortcut(m, cache, c, cnf, Stn(n), sf);
    if s.Some? then (s.value, cache)
    else
      var a := PointStns(m, cache, c, cnf, n.children, None);
      var b := PointGroups(m, a.1, c, cnf, n.groups, a.0);
      Finish(m, b.1, c, cnf, Stn(n), sf, b.0)
  }

  function PointStns<V>(m: Generic<V>, cache: Cache<V>, c: Cnode, cnf: Flavour, ns: seq<SystemTreeNode>,
                        acc: Option<V>): (Option<V>, Cache<V>)
    decreases ns, 1
  {
    if |ns| == 0 then (acc, cache)
    else
      var r := PointStn(m, cache, c, cnf, ns[0], Inclusive);
      PointStns(m, r.1, c, cnf, ns[1..], AddOpt(m.add, acc, r.0))
  }

  function PointGroups<V>(m: Generic<V>, cache: Cache<V>, c: Cnode, cnf: Flavour, gs: seq<LocationGroup>,
                          acc: Option<V>): (Option<V>, Cache<V>)
    decreases gs, 1
  {
    if |gs| == 0 then (acc, cache)
    else
      var r := PointGroup(m, cache, c, cnf, gs[0], Inclusive);
      PointGroups(m, r.1, c, cnf, gs[1..], AddOpt(m.add, acc, r.0))
  }

  function PointGroup<V>(m: Generic<V>, cache: Cache<V>, c: Cnode, cnf: Flavour, g: LocationGroup, sf: Flavour)
    : (Option<V>, Cache<V>)
    decreases g, 2
  {
    var s := Shortcut(m, cache, c, cnf, Group(g), sf);
    if s.Some? then (s.value, cache)
    else
      var a := PointLocs(m, cache, c, cnf, g.locations, None);
      Finish(m, a.1, c, cnf, Group(g), sf, a.0)
  }

  function PointLocs<V>(m: Generic<V>, cache: Cache<V>, c: Cnode, cnf: Flavour, ls: seq<Location>,
                        acc: Option<V>): (Option<V>, Cache<V>)
    decreases ls
  {
    if |ls| == 0 then (acc, cache)
    else
      var r := PointLoc(m, cache, c, cnf, ls[0], Inclusive);
      PointLocs(m, r.1, c, cnf, ls[1..], AddOpt(m.add, acc, r.0))
  }

  function PointLoc<V>(m: Generic<V>, cache: Cache<V>, c: Cnode, cnf: Flavour, l: Location, sf: Flavour)
    : (Option<V>, Cache<V>)
  {
    var s := Shortcut(m, cache, c, cnf, Loc(l), sf);
    if s.Some? then (s.value, cache)
    else Finish(m, cache, c, cnf, Loc(l), sf, LocValue(m, c, cnf, l))
  }

  /** `get_sev_pointlike` on any system resource. */
  function SevPointlike<V>(m: Generic<V>, cache: Cache<V>, c: Cnode, cnf: Flavour, sys: Sysres, sf: Flavour)
    : (r: (Option<V>, Cache<V>))
    ensures !m.active ==> r == (None, cache)
    ensures !sys.Loc? && sf == Exclusive ==> r == (None, cache)
    ensures r.1.rows == cache.rows && r.1.tStn == cache.tStn && r.1.tSum == cache.tSum && r.1.sum == cache.sum
  {
    match sys
    case Stn(n) => PointStnKeeps(m, cache, c, cnf, n, sf); PointStn(m, cache, c, cnf, n, sf)
    case Group(g) => PointGroupKeeps(m, cache, c, cnf, g, sf); PointGroup(m, cache, c, cnf, g, sf)
    case Loc(l) => PointLoc(m, cache, c, cnf, l, sf)
  }

  /** The caches one call leaves behind have the same keys and touch only
      the system-tree value store. */
  ghost predicate Keeps<V>(a: Cache<V>, b: Cache<V>)
  {
    b.myf == a.myf && b.threshold == a.threshold && b.stride == a.stride
    && b.rows == a.rows && b.tStn == a.tStn && b.tSum == a.tSum && b.sum == a.sum
  }

  lemma {:induction false} PointStnKeeps<V>(m: Generic<V>, cache: Cache<V>, c: Cnode, cnf: Flavour,
                                            n: SystemTreeNode, sf: Flavour)
    ensures Keeps(cache, PointStn(m, cache, c, cnf, n, sf).1)
    decreases n, 2
  {
    if Shortcut(m, cache, c, cnf, Stn(n), sf).None? {
      var a := PointStns(m, cache, c, cnf, n.children, None);
      PointStnsKeeps(m, cache, c, cnf, n.children, None);
      PointGroupsKeeps(m, a.1, c, cnf, n.groups, a.0);
    }
  }

  lemma {:induction false} PointStnsKeeps<V>(m: Generic<V>, cache: Cache<V>, c: Cnode, cnf: Flavour,
                                             ns: seq<SystemTreeNode>, acc: Option<V>)
    ensures Keeps(cache, PointStns(m, cache, c, cnf, ns, acc).1)
    decreases ns, 1
  {
    if |ns| > 0 {
      var r := PointStn(m, cache, c, cnf, ns[0], Inclusive);
      PointStnKeeps(m, cache, c, cnf, ns[0], Inclusive);
      PointStnsKeeps(m, r.1, c, cnf, ns[1..], AddOpt(m.add, acc, r.0));
    }
  }

  lemma {:induction false} PointGroupsKeeps<V>(m: Generic<V>, cache: Cache<V>, c: Cnode, cnf: Flavour,
                                               gs: seq<LocationGroup>, acc: Option<V>)
    ensures Keeps(cache, PointGroups(m, cache, c, cnf, gs, acc).1)
    decreases gs, 1
  {
    if |gs| > 0 {
      var r := PointGroup(m, cache, c, cnf, gs[0], Inclusive);
      PointGroupKeeps(m, cache, c, cnf, gs[0], Inclusive);
      PointGroupsKeeps(m, r.1, c, cnf, gs[1..], AddOpt(m.add, acc, r.0));
    }
  }

  /** A location group is never cached (only system-tree nodes are), so
      the cache comes back unchanged. */
  lemma {:induction false} PointGroupKeeps<V>(m: Generic<V>, cache: Cache<V>, c: Cnode, cnf: Flavour,
                                              g: LocationGroup, sf: Flavour)
    ensures PointGroup(m, cache, c, cnf, g, sf).1 == cache
    decreases g, 2
  {
    if Shortcut(m, cache, c, cnf, Group(g), sf).None? {
      PointLocsKeeps(m, cache, c, cnf, g.locations, None);
    }
  }

  lemma {:induction false} PointLocsKeeps<V>(m: Generic<V>, cache: Cache<V>, c: Cnode, cnf: Flavour,
                                             ls: seq<Location>, acc: Option<V>)
    ensures PointLocs(m, cache, c, cnf, ls, acc).1 == cache
    decreases ls
  {
    if |ls| > 0 {
      PointLocsKeeps(m, cache, c, cnf, ls[1..], AddOpt(m.add, acc, PointLoc(m, cache, c, cnf, ls[0], Inclusive).0));
    }
  }

  // ---------------------------------------------------------------------
  // The cache never changes an answer

  /** Every stored system-tree value is the recursive sum of its query. */
  ghost predicate StnCoherent<V>(m: Generic<V>, cache: Cache<V>, cs: set<Cnode>, ns: set<SystemTreeNode>)
  {
    forall d, f, n, sf :: d in cs && n in ns && 0 <= Key(cache, d, f, Some(Stn(n)), sf)
                          && Key(cache, d, f, Some(Stn(n)), sf) in cache.stn
      ==> Some(cache.stn[Key(cache, d, f, Some(Stn(n)), sf)]) == PureStn(m, d, f, n)
  }

  /** The facts the coherence proofs carry along. */
  ghost predicate Setting<V>(m: Generic<V>, cache: Cache<V>, c: Cnode, cs: set<Cnode>, ns: set<SystemTreeNode>)
  {
    m.active && c in cs && UniqueCnodeIds(cs) && UniqueStnIds(ns) && IdsBelow(ns, cache.stride)
    && StnCoherent(m, cache, cs, ns)
  }

  lemma StoreKeepsCoherence<V>(m: Generic<V>, cache: Cache<V>, c: Cnode, cnf: Flavour, n: SystemTreeNode, sf: Flavour,
                               cs: set<Cnode>, ns: set<SystemTreeNode>)
    requires Setting(m, cache, c, cs, ns) && n in ns
    ensures StnCoherent(m, SetCachedValue(cache, PureStn(m, c, cnf, n), c, cnf, Some(Stn(n)), sf), cs, ns)
  {
    var v := PureStn(m, c, cnf, n);
    var r := SetCachedValue(cache, v, c, cnf, Some(Stn(n)), sf);
    var k0 := Key(cache, c, cnf, Some(Stn(n)), sf);
    SameKeys(cache, r);
    forall d, f, n', g | d in cs && n' in ns && 0 <= Key(r, d, f, Some(Stn(n')), g) && Key(r, d, f, Some(Stn(n')), g) in r.stn
      ensures Some(r.stn[Key(r, d, f, Some(Stn(n')), g)]) == PureStn(m, d, f, n')
    {
      var k := Key(r, d, f, Some(Stn(n')), g);
      if k == k0 && k !in cache.stn {
        assert f == cnf;
        KeyInjective(cache, d, n', g, c, n, sf, f);
      }
    }
  }

  lemma {:induction false} PointStnCoherent<V>(m: Generic<V>, cache: Cache<V>, c: Cnode, cnf: Flavour,
                                               n: SystemTreeNode, sf: Flavour, cs: set<Cnode>, ns: set<SystemTreeNode>)
    requires Setting(m, cache, c, cs, ns) && StnSet(n) <= ns
    ensures var r := PointStn(m, cache, c, cnf, n, sf);
            r.0 == PureValue(m, c, cnf, Stn(n), sf) && StnCoherent(m, r.1, cs, ns)
    decreases n, 2
  {
    PointStnKeeps(m, cache, c, cnf, n, sf);
    if Shortcut(m, cache, c, cnf, Stn(n), sf).None? {
      assert StnSetOf(n.children) <= ns;
      var a := PointStns(m, cache, c, cnf, n.children, None);
      PointStnsKeeps(m, cache, c, cnf, n.children, None);
      PointStnsCoherent(m, cache, c, cnf, n.children, None, cs, ns);
      PointGroupsPure(m, a.1, c, cnf, n.groups, a.0);
      var b := PointGroups(m, a.1, c, cnf, n.groups, a.0);
      PointGroupsKeeps(m, a.1, c, cnf, n.groups, a.0);
      assert b.0 == PureStn(m, c, cnf, n);
      if m.cacheable {
        StoreKeepsCoherence(m, b.1, c, cnf, n, sf, cs, ns);
      }
    }
  }

  lemma {:induction false} PointStnsCoherent<V>(m: Generic<V>, cache: Cache<V>, c: Cnode, cnf: Flavour,
                                                xs: seq<SystemTreeNode>, acc: Option<V>, cs: set<Cnode>, ns: set<SystemTreeNode>)
    requires Setting(m, cache, c, cs, ns) && StnSetOf(xs) <= ns
    ensures var r := PointStns(m, cache, c, cnf, xs, acc);
            r.0 == PureStns(m, c, cnf, xs, acc) && StnCoherent(m, r.1, cs, ns)
    decreases xs, 1
  {
    if |xs| > 0 {
      StnSetOfContains(xs, 0);
      assert StnSetOf(xs[1..]) <= StnSetOf(xs);
      var r := PointStn(m, cache, c, cnf, xs[0], Inclusive);
      PointStnKeeps(m, cache, c, cnf, xs[0], Inclusive);
      PointStnCoherent(m, cache, c, cnf, xs[0], Inclusive, cs, ns);
      PointStnsCoherent(m, r.1, c, cnf, xs[1..], AddOpt(m.add, acc, r.0), cs, ns);
    }
  }

  /** Groups are never cached, so their cached recursion is the plain sum. */
  lemma {:induction false} PointGroupsPure<V>(m: Generic<V>, cache: Cache<V>, c: Cnode, cnf: Flavour,
                                              gs: seq<LocationGroup>, acc: Option<V>)
    requires m.active
    ensures PointGroups(m, cache, c, cnf, gs, acc) == (PureGroups(m, c, cnf, gs, acc), cache)
    decreases gs, 1
  {
    if |gs| > 0 {
      PointGroupPure(m, cache, c, cnf, gs[0]);
      PointGroupsPure(m, cache, c, cnf, gs[1..], AddOpt(m.add, acc, PureGroup(m, c, cnf, gs[0])));
    }
  }

  lemma {:induction false} PointGroupPure<V>(m: Generic<V>, cache: Cache<V>, c: Cnode, cnf: Flavour, g: LocationGroup)
    requires m.active
    ensures PointGroup(m, cache, c, cnf, g, Inclusive) == (PureGroup(m, c, cnf, g), cache)
    decreases g, 2
  {
    IneligibleMisses(cache, c, cnf, Group(g), Inclusive);
    PointLocsPure(m, cache, c, cnf, g.locations, None);
    IneligibleStoreIsNoOp(cache, PureGroup(m, c, cnf, g), c, cnf, Group(g), Inclusive);
  }

  lemma {:induction false} PointLocsPure<V>(m: Generic<V>, cache: Cache<V>, c: Cnode, cnf: Flavour,
                                            ls: seq<Location>, acc: Option<V>)
    requires m.active
    ensures PointLocs(m, cache, c, cnf, ls, acc) == (PureLocs(m, c, cnf, ls, acc), cache)
    decreases ls
  {
    if |ls| > 0 {
      IneligibleMisses(cache, c, cnf, Loc(ls[0]), Inclusive);
      IneligibleStoreIsNoOp(cache, LocValue(m, c, cnf, ls[0]), c, cnf, Loc(ls[0]), Inclusive);
      PointLocsPure(m, cache, c, cnf, ls[1..], AddOpt(m.add, acc, LocValue(m, c, cnf, ls[0])));
    }
  }

  lemma IneligibleMisses<V>(cache: Cache<V>, c: Cnode, cnf: Flavour, sys: Sysres, sf: Flavour)
    requires !sys.Stn?
    ensures GetCachedValue(cache, c, cnf, Some(sys), sf).None?
  {
  }

  lemma IneligibleStoreIsNoOp<V>(cache: Cache<V>, v: Option<V>, c: Cnode, cnf: Flavour, sys: Sysres, sf: Flavour)
    requires !sys.Stn?
    ensures SetCachedValue(cache, v, c, cnf, Some(sys), sf) == cache
  {
  }

  /** A point-like query through a coherent cache answers what the
      uncached recursion answers, and leaves the cache coherent. */
  lemma PointlikeIsPure<V>(m: Generic<V>, cache: Cache<V>, c: Cnode, cnf: Flavour, sys: Sysres, sf: Flavour,
                           cs: set<Cnode>, root: SystemTreeNode)
    requires m.active && c in cs && UniqueCnodeIds(cs)
    requires UniqueStnIds(StnSet(root)) && IdsBelow(StnSet(root), cache.stride)
    requires sys.Stn? ==> sys.node in StnSet(root)
    requires StnCoherent(m, cache, cs, StnSet(root))
    ensures var r := SevPointlike(m, cache, c, cnf, sys, sf);
            r.0 == PureValue(m, c, cnf, sys, sf) && StnCoherent(m, r.1, cs, StnSet(root))
  {
    var ns := StnSet(root);
    match sys
    case Stn(n) =>
      StnSetClosed(root, n);
      PointStnCoherent(m, cache, c, cnf, n, sf, cs, ns);
    case Group(g) =>
      if sf == Inclusive {
        PointGroupPure(m, cache, c, cnf, g);
      }
    case Loc(l) =>
      IneligibleMisses(cache, c, cnf, Loc(l), sf);
      IneligibleStoreIsNoOp(cache, LocValue(m, c, cnf, l), c, cnf, Loc(l), sf);
  }

  /** The node set of a tree contains the node set of each of its nodes. */
  lemma {:induction false} StnSetClosed(root: SystemTreeNode, n: SystemTreeNode)
    requires n in StnSet(root)
    ensures StnSet(n) <= StnSet(root)
    decreases root, 1
  {
    if n != root {
      StnSetOfClosed(root.children, n);
    }
  }

  lemma {:induction false} StnSetOfClosed(xs: seq<SystemTreeNode>, n: SystemTreeNode)
    requires n in StnSetOf(xs)
    ensures StnSet(n) <= StnSetOf(xs)
    decreases xs, 0
  {
    if n in StnSet(xs[0]) {
      StnSetClosed(xs[0], n);
    } else {
      StnSetOfClosed(xs[1..], n);
    }
  }

  // ---------------------------------------------------------------------
  // Aggregated queries

  /** `v = tmp` at every location: only the last value survives. */
  function Overwrite<V>(acc: Option<V>, locs: seq<Location>, g: Location -> V): (r: Option<V>)
    decreases |locs|
  {
    if |locs| == 0 then acc else Overwrite(Some(g(locs[0])), locs[1..], g)
  }

  /** Exclusive generic aggregated value as written: while the first
      collected cnode is scanned each location REPLACES the value; the
      values of the later cnodes are added to it. */
  function ExclusiveAggregatedAsWritten<V>(m: Generic<V>, cs: seq<Cnode>): Option<V>
  {
    if |cs| == 0 then None
    else AccumulateAll(m.add, Overwrite(None, m.sysv, AtCnode(m.elem, cs[0].id)), cs[1..], m.sysv, m.elem)
  }

  /** Exclusive generic aggregated value, corrected: adopt-or-add over every
      collected cnode and every location. */
  function ExclusiveAggregatedValue<V>(m: Generic<V>, c: Cnode, cnf: Flavour): Option<V>
  {
    AccumulateAll(m.add, None, Collected(c, cnf), m.sysv, m.elem)
  }

  /** Inclusive generic aggregated value: the node's own values over all
      locations, minus those of the visible children for an EXCLUSIVE query
      on a node with children. */
  function InclusiveAggregatedValue<V>(m: Generic<V>, c: Cnode, cnf: Flavour): Option<V>
  {
    var own := Accumulate(m.add, None, m.sysv, AtCnode(m.elem, c.id));
    if cnf == Exclusive && |c.children| > 0
    then DeductAll(m.sub, own, VisibleChildren(c.children), m.sysv, m.elem)
    else own
  }

  /** The value an aggregated query computes, with the exclusive family's
      first-cnode overwrite as the code is written. */
  function AggregatedValue<V>(m: Generic<V>, c: Cnode, cnf: Flavour): Option<V>
  {
    match m.family
    case ExclusiveFamily => ExclusiveAggregatedAsWritten(m, Collected(c, cnf))
    case InclusiveFamily => InclusiveAggregatedValue(m, c, cnf)
  }

  /** `get_sev_aggregated`: a fresh value when inactive, the cached copy on
      a hit, otherwise the computed value, stored when cacheable. */
  function SevAggregated<V>(m: Generic<V>, cache: Cache<V>, c: Cnode, cnf: Flavour): (r: (Option<V>, Cache<V>))
    ensures !m.active ==> r == (Some(m.blank), cache)
    ensures m.active && m.cacheable && GetCachedValue(cache, c, cnf, None, Inclusive).Some?
            ==> r == (GetCachedValue(cache, c, cnf, None, Inclusive), cache)
    ensures m.active && !(m.cacheable && GetCachedValue(cache, c, cnf, None, Inclusive).Some?)
            ==> r.0 == AggregatedValue(m, c, cnf)
    ensures r.1 == cache || (m.cacheable && r.1 == SetCachedValue(cache, r.0, c, cnf, None, Inclusive))
  {
    if !m.active then (Some(m.blank), cache)
    else
      var hit := if m.cacheable then GetCachedValue(cache, c, cnf, None, Inclusive) else None;
      if hit.Some? then (hit, cache)
      else
        var v := AggregatedValue(m, c, cnf);
        (v, if m.cacheable then SetCachedValue(cache, v, c, cnf, None, Inclusive) else cache)
  }

  /** `get_sev_native`: aggregated without a system resource, point-like
      with one. The two differ for an inactive metric: a fresh value versus
      NULL. */
  function SevNative<V>(m: Generic<V>, cache: Cache<V>, c: Cnode, cnf: Flavour, sys: Option<Sysres>, sf: Flavour)
    : (r: (Option<V>, Cache<V>))
    ensures !m.active ==> r.1 == cache && (r.0.Some? <==> sys.None?)
    ensures m.active && sys.Some? && !sys.value.Loc? && sf == Exclusive ==> r == (None, cache)
  {
    if sys.None? then SevAggregated(m, cache, c, cnf) else SevPointlike(m, cache, c, cnf, sys.value, sf)
  }

  /** Every stored aggregated value is the value of its query. */
  ghost predicate SumCoherent<V>(m: Generic<V>, cache: Cache<V>, cs: set<Cnode>)
  {
    forall d, f, sf :: d in cs && 0 <= Key(cache, d, f, None, sf) && Key(cache, d, f, None, sf) in cache.sum
      ==> Some(cache.sum[Key(cache, d, f, None, sf)]) == AggregatedValue(m, d, f)
  }

  /** An aggregated query through a coherent cache answers the computed
      value and leaves the cache coherent. */
  lemma AggregatedIsCoherent<V>(m: Generic<V>, cache: Cache<V>, c: Cnode, cnf: Flavour, cs: set<Cnode>)
    requires m.active && c in cs && UniqueCnodeIds(cs) && SumCoherent(m, cache, cs)
    ensures var r := SevAggregated(m, cache, c, cnf);
            r.0 == AggregatedValue(m, c, cnf) && SumCoherent(m, r.1, cs)
  {
    var r := SevAggregated(m, cache, c, cnf);
    SameKeys(cache, r.1);
    forall d, f, sf | d in cs && 0 <= Key(r.1, d, f, None, sf) && Key(r.1, d, f, None, sf) in r.1.sum
      ensures Some(r.1.sum[Key(r.1, d, f, None, sf)]) == AggregatedValue(m, d, f)
    {
      var k := Key(cache, d, f, None, sf);
      var k0 := Key(cache, c, cnf, None, Inclusive);
      if k == k0 && k !in cache.sum {
        CodeInjective(f, cnf);
      }
    }
  }
}
