/**
  What the two build-in metric kinds share: the metric as the calculations
  see it, and the two loops every calculation is made of (collecting the
  cnodes to sum over, and folding one cnode's values over a list of
  locations).
*/
module BuildIn {
  import opened CubeTypes
  import opened Trees
  import opened Aggregation

  /** A build-in metric of value type T.
      - `kind` is what `get_type_of_metric` answers (derived metrics reuse
        these calculations under their own kind);
      - `hasData` is "the severity matrix is loaded";
      - `sysv` is the list of all locations, in row order;
      - `elem(cnode id, location)` is the stored elementary value;
      - `toDouble` is the conversion of a T to the double the queries
        return, `maxT` the largest T. */
  datatype Metric<!T> = Metric(
    kind: MetricKind,
    ops: Ops<T>,
    toDouble: T -> real,
    maxT: T,
    active: bool,
    hasData: bool,
    cacheable: bool,
    sysv: seq<Location>,
    elem: (nat, Location) -> T)

  /** Distinct call paths carry distinct ids. */
  ghost predicate UniqueCnodeIds(cs: set<Cnode>)
  {
    forall a, b :: a in cs && b in cs && a.id == b.id ==> a == b
  }

  /** Every system-tree node id lies below the cache's key stride. */
  ghost predicate IdsBelow(ns: set<SystemTreeNode>, stride: nat)
  {
    forall n :: n in ns ==> n.id < stride
  }

  /** Appending one child to the scanned prefix appends its block. */
  lemma {:induction false} CollectFromSnoc(xs: seq<Cnode>, x: Cnode, f: Flavour)
    ensures CollectFrom(xs + [x], f)
         == CollectFrom(xs, f) + (if x.hidden || f == Inclusive then [x] + WholeSubtree(x) else [])
    decreases |xs|
  {
    var blk := if x.hidden || f == Inclusive then [x] + WholeSubtree(x) else [];
    if |xs| == 0 {
      assert xs + [x] == [x];
      assert CollectFrom([x], f) == blk + CollectFrom([], f);
    } else {
      var ys := xs + [x];
      var h := xs[0];
      var hb := if h.hidden || f == Inclusive then [h] + WholeSubtree(h) else [];
      assert ys[0] == h && ys[1..] == xs[1..] + [x];
      CollectFromSnoc(xs[1..], x, f);
      assert CollectFrom(ys, f) == hb + CollectFrom(xs[1..] + [x], f);
      assert CollectFrom(xs, f) == hb + CollectFrom(xs[1..], f);
    }
  }

  /** The cnodes a native-exclusive calculation sums over, gathered child
      by child: the node itself, then each hidden child (or each child, for
      an INCLUSIVE query) followed by its whole subtree. */
  method CollectCnodes(c: Cnode, cnf: Flavour) returns (cs: seq<Cnode>)
    ensures cs == Collected(c, cnf)
  {
    cs := [c];
    var i := 0;
    while i < |c.children|
      invariant 0 <= i <= |c.children|
      invariant cs == [c] + CollectFrom(c.children[..i], cnf)
    {
      var ch := c.children[i];
      CollectFromSnoc(c.children[..i], ch, cnf);
      assert c.children[..i + 1] == c.children[..i] + [ch];
      if ch.hidden || cnf == Inclusive {
        cs := cs + [ch] + WholeSubtree(ch);
      }
      i := i + 1;
    }
    assert c.children[..|c.children|] == c.children;
  }

  /** The visible (not hidden) children, in order. */
  method VisibleOf(c: Cnode) returns (vs: seq<Cnode>)
    ensures vs == VisibleChildren(c.children)
  {
    vs := [];
    var i := 0;
    while i < |c.children|
      invariant 0 <= i <= |c.children|
      invariant vs == VisibleChildren(c.children[..i])
    {
      var ch := c.children[i];
      VisibleSnoc(c.children[..i], ch);
      assert c.children[..i + 1] == c.children[..i] + [ch];
      if !ch.hidden {
        vs := vs + [ch];
      }
      i := i + 1;
    }
    assert c.children[..|c.children|] == c.children;
  }

  lemma {:induction false} VisibleSnoc(xs: seq<Cnode>, x: Cnode)
    ensures VisibleChildren(xs + [x]) == VisibleChildren(xs) + (if x.hidden then [] else [x])
    decreases |xs|
  {
    var tail := if x.hidden then [] else [x];
    if |xs| == 0 {
      assert xs + [x] == [x];
      assert VisibleChildren([x]) == tail + VisibleChildren([]);
    } else {
      var ys := xs + [x];
      var h := xs[0];
      var hv := if h.hidden then [] else [h];
      assert ys[0] == h && ys[1..] == xs[1..] + [x];
      VisibleSnoc(xs[1..], x);
      assert VisibleChildren(ys) == hv + VisibleChildren(xs[1..] + [x]);
      assert VisibleChildren(xs) == hv + VisibleChildren(xs[1..]);
    }
  }

  /** Aggr-fold of one cnode's elementary values over the locations. */
  method LocationSum<T>(m: Metric<T>, cid: nat, locs: seq<Location>) returns (v: T)
    ensures v == LocSum(m.ops, m.elem, cid, locs)
  {
    v := m.ops.zero;
    var i := 0;
    while i < |locs|
      invariant 0 <= i <= |locs|
      invariant v == FoldLeft(m.ops.aggr, m.ops.zero, locs[..i], AtCnode(m.elem, cid))
    {
      assert locs[..i + 1][..i] == locs[..i];
      v := m.ops.aggr(v, m.elem(cid, locs[i]));
      i := i + 1;
    }
    assert locs[..|locs|] == locs;
  }

  /** The row of doubles handed out for a raw row: zeros when there is none. */
  method ToDoubles<T>(m: Metric<T>, raw: Option<seq<T>>) returns (row: seq<real>)
    requires raw.Some? ==> |raw.value| == |m.sysv|
    ensures |row| == |m.sysv|
    ensures raw.None? ==> forall i :: 0 <= i < |row| ==> row[i] == 0.0
    ensures raw.Some? ==> forall i :: 0 <= i < |row| ==> row[i] == m.toDouble(raw.value[i])
  {
    row := [];
    var i := 0;
    while i < |m.sysv|
      invariant 0 <= i <= |m.sysv|
      invariant |row| == i
      invariant raw.None? ==> forall j :: 0 <= j < i ==> row[j] == 0.0
      invariant raw.Some? ==> forall j :: 0 <= j < i ==> row[j] == m.toDouble(raw.value[j])
    {
      row := row + [if raw.Some? then m.toDouble(raw.value[i]) else 0.0];
      i := i + 1;
    }
  }
}
