/**
  The aggregation algorithms shared by the build-in metric kinds, stated
  once and parametrised by the elementary value function `elem(cnode id,
  location)` and by the plus / minus / aggr operators.

  - Native-exclusive kinds sum over a collected list of cnodes: the node
    itself, then every child that is hidden (or every child, for an
    INCLUSIVE query) together with that child's whole subtree.
  - Native-inclusive kinds take the node's own location sum and, for an
    EXCLUSIVE query, remove the location sums of the visible children.
*/
module Aggregation {
  import opened CubeTypes
  import opened Trees

  /** The three operators a metric combines values with, and its zero. */
  datatype Ops<!T> = Ops(zero: T, plus: (T, T) -> T, minus: (T, T) -> T, aggr: (T, T) -> T)

  /** The default arithmetic operators on integers. */
  function IntOps(): Ops<int>
  {
    Ops(0, (a, b) => a + b, (a, b) => a - b, (a, b) => a + b)
  }

  /** Left fold of `f`, starting at `acc`, over `g` applied to each element of `s`. */
  function FoldLeft<A, T>(f: (T, T) -> T, acc: T, s: seq<A>, g: A -> T): T
    decreases |s|
  {
    if |s| == 0 then acc else f(FoldLeft(f, acc, s[..|s| - 1], g), g(s[|s| - 1]))
  }

  /** Integer sum of `g` over `s`. */
  function Sum<A>(s: seq<A>, g: A -> int): int
    decreases |s|
  {
    if |s| == 0 then 0 else Sum(s[..|s| - 1], g) + g(s[|s| - 1])
  }

  // ---------------------------------------------------------------------
  // The collected cnode list of the native-exclusive kinds

  /** For each child in order: the child and its whole subtree when it is
      hidden or the query is INCLUSIVE. */
  function CollectFrom(cs: seq<Cnode>, f: Flavour): seq<Cnode>
  {
    if |cs| == 0 then []
    else (if cs[0].hidden || f == Inclusive then [cs[0]] + WholeSubtree(cs[0]) else [])
         + CollectFrom(cs[1..], f)
  }

  /** The list of cnodes a native-exclusive query sums over. */
  function Collected(c: Cnode, f: Flavour): (cs: seq<Cnode>)
    ensures |cs| >= 1 && cs[0] == c
  {
    [c] + CollectFrom(c.children, f)
  }

  /** `elem` with the cnode fixed, as a function of the location. */
  function AtCnode<T>(elem: (nat, Location) -> T, cid: nat): Location -> T
  {
    (l: Location) => elem(cid, l)
  }

  /** `elem` with the location fixed, as a function of the cnode. */
  function AtLocation<T>(elem: (nat, Location) -> T, loc: Location): Cnode -> T
  {
    (d: Cnode) => elem(d.id, loc)
  }

  /** Aggr-fold of `elem(cid, loc)` over the locations. */
  function LocSum<T>(ops: Ops<T>, elem: (nat, Location) -> T, cid: nat, locs: seq<Location>): T
  {
    FoldLeft(ops.aggr, ops.zero, locs, AtCnode(elem, cid))
  }

  /** The location sum as a function of the cnode. */
  function LocSumOf<T>(ops: Ops<T>, elem: (nat, Location) -> T, locs: seq<Location>): Cnode -> T
  {
    (d: Cnode) => LocSum(ops, elem, d.id, locs)
  }

  /** Plus-fold over the cnodes of their location sums. */
  function DeepSum<T>(ops: Ops<T>, elem: (nat, Location) -> T, cs: seq<Cnode>, locs: seq<Location>): T
  {
    FoldLeft(ops.plus, ops.zero, cs, LocSumOf(ops, elem, locs))
  }

  /** Value of a native-exclusive metric at `c` over the locations `locs`. */
  function ExclusiveKindValue<T>(ops: Ops<T>, elem: (nat, Location) -> T, c: Cnode, f: Flavour,
                                 locs: seq<Location>): T
  {
    DeepSum(ops, elem, Collected(c, f), locs)
  }

  /** Entry of a native-exclusive row at one location: plus-fold over the collected cnodes. */
  function ExclusiveRowEntry<T>(ops: Ops<T>, elem: (nat, Location) -> T, cs: seq<Cnode>, loc: Location): T
  {
    FoldLeft(ops.plus, ops.zero, cs, AtLocation(elem, loc))
  }

  /** The native-exclusive row: one entry per location. */
  function ExclusiveRow<T>(ops: Ops<T>, elem: (nat, Location) -> T, cs: seq<Cnode>, locs: seq<Location>): (row: seq<T>)
    ensures |row| == |locs|
  {
    seq(|locs|, i requires 0 <= i < |locs| => ExclusiveRowEntry(ops, elem, cs, locs[i]))
  }

  /** Value of a native-inclusive metric at `c` over the locations `locs`. */
  function InclusiveKindValue<T>(ops: Ops<T>, elem: (nat, Location) -> T, c: Cnode, f: Flavour,
                                 locs: seq<Location>): T
  {
    var own := LocSum(ops, elem, c.id, locs);
    if f == Exclusive && |c.children| > 0 then
      FoldLeft(ops.minus, own, VisibleChildren(c.children), LocSumOf(ops, elem, locs))
    else own
  }

  /** Entry of a native-inclusive row at one location. */
  function InclusiveRowEntry<T>(ops: Ops<T>, elem: (nat, Location) -> T, c: Cnode, f: Flavour, loc: Location): T
  {
    var own := elem(c.id, loc);
    if f == Exclusive && |c.children| > 0 then
      FoldLeft(ops.minus, own, VisibleChildren(c.children), AtLocation(elem, loc))
    else own
  }

  /** The native-inclusive row: one entry per location. */
  function InclusiveRow<T>(ops: Ops<T>, elem: (nat, Location) -> T, c: Cnode, f: Flavour, locs: seq<Location>): (row: seq<T>)
    ensures |row| == |locs|
  {
    seq(|locs|, i requires 0 <= i < |locs| => InclusiveRowEntry(ops, elem, c, f, locs[i]))
  }

  // ---------------------------------------------------------------------
  // Shape of the collected list

  lemma {:induction false} CollectFromInclusiveIsSubtrees(cs: seq<Cnode>)
    ensures CollectFrom(cs, Inclusive) == SubtreesOf(cs)
    decreases |cs|
  {
    if |cs| > 0 {
      CollectFromInclusiveIsSubtrees(cs[1..]);
    }
  }

  /** An INCLUSIVE query collects the node and its whole subtree. */
  lemma CollectedInclusiveIsWholeSubtree(c: Cnode)
    ensures Collected(c, Inclusive) == [c] + WholeSubtree(c)
  {
    CollectFromInclusiveIsSubtrees(c.children);
  }

  /** Keeps the elements of `s` whose mask bit is set. */
  function Filter<A>(s: seq<A>, m: seq<bool>): (r: seq<A>)
    requires |m| == |s|
    ensures |r| <= |s|
  {
    if |s| == 0 then [] else (if m[0] then [s[0]] else []) + Filter(s[1..], m[1..])
  }

  /** `a` is obtained from `b` by deleting elements. */
  ghost predicate IsSublist<A>(a: seq<A>, b: seq<A>)
  {
    exists m: seq<bool> :: |m| == |b| && Filter(b, m) == a
  }

  lemma {:induction false} FilterAppend<A>(s1: seq<A>, m1: seq<bool>, s2: seq<A>, m2: seq<bool>)
    requires |m1| == |s1| && |m2| == |s2|
    ensures Filter(s1 + s2, m1 + m2) == Filter(s1, m1) + Filter(s2, m2)
    decreases |s1|
  {
    if |s1| > 0 {
      FilterAppend(s1[1..], m1[1..], s2, m2);
      assert (s1 + s2)[1..] == s1[1..] + s2;
      assert (m1 + m2)[1..] == m1[1..] + m2;
    } else {
      assert s1 + s2 == s2;
      assert m1 + m2 == m2;
    }
  }

  lemma {:induction false} FilterConstant<A>(s: seq<A>, b: bool)
    ensures Filter(s, seq(|s|, _ => b)) == (if b then s else [])
    decreases |s|
  {
    if |s| > 0 {
      FilterConstant(s[1..], b);
      assert seq(|s|, _ => b)[1..] == seq(|s| - 1, _ => b);
    }
  }

  /** Mask over `CollectFrom(cs, Inclusive)` keeping exactly the blocks of hidden children. */
  function HiddenBlocksMask(cs: seq<Cnode>): (m: seq<bool>)
    ensures |m| == |CollectFrom(cs, Inclusive)|
  {
    if |cs| == 0 then []
    else seq(1 + |WholeSubtree(cs[0])|, _ => cs[0].hidden) + HiddenBlocksMask(cs[1..])
  }

  lemma {:induction false} HiddenBlocksMaskSelectsExclusive(cs: seq<Cnode>)
    ensures Filter(CollectFrom(cs, Inclusive), HiddenBlocksMask(cs)) == CollectFrom(cs, Exclusive)
    decreases |cs|
  {
    if |cs| > 0 {
      var block := [cs[0]] + WholeSubtree(cs[0]);
      var bm := seq(1 + |WholeSubtree(cs[0])|, _ => cs[0].hidden);
      HiddenBlocksMaskSelectsExclusive(cs[1..]);
      FilterAppend(block, bm, CollectFrom(cs[1..], Inclusive), HiddenBlocksMask(cs[1..]));
      FilterConstant(block, cs[0].hidden);
    }
  }

  /** The EXCLUSIVE collected list is the INCLUSIVE one with exactly the
      blocks (child and its subtree) of the visible children deleted. */
  lemma ExclusiveCollectedIsSublist(c: Cnode)
    ensures IsSublist(Collected(c, Exclusive), Collected(c, Inclusive))
    ensures Filter(Collected(c, Inclusive), [true] + HiddenBlocksMask(c.children)) == Collected(c, Exclusive)
  {
    var m := [true] + HiddenBlocksMask(c.children);
    HiddenBlocksMaskSelectsExclusive(c.children);
    FilterAppend([c], [true], CollectFrom(c.children, Inclusive), HiddenBlocksMask(c.children));
    assert |m| == |Collected(c, Inclusive)|;
    assert Filter(Collected(c, Inclusive), m) == Collected(c, Exclusive);
  }

  /** For a leaf both flavours of a native-exclusive query give the same value. */
  lemma LeafFlavoursAgree<T>(ops: Ops<T>, elem: (nat, Location) -> T, c: Cnode, locs: seq<Location>)
    requires |c.children| == 0
    ensures ExclusiveKindValue(ops, elem, c, Exclusive, locs) == ExclusiveKindValue(ops, elem, c, Inclusive, locs)
    ensures Collected(c, Exclusive) == Collected(c, Inclusive) == [c]
  {
  }

  // ---------------------------------------------------------------------
  // Integer sums

  /** A fold with an operator that adds is a sum. */
  lemma {:induction false} FoldAddIsSum<A>(f: (int, int) -> int, x: int, s: seq<A>, g: A -> int)
    requires forall a, b :: f(a, b) == a + b
    ensures FoldLeft(f, x, s, g) == x + Sum(s, g)
    decreases |s|
  {
    if |s| > 0 {
      FoldAddIsSum(f, x, s[..|s| - 1], g);
    }
  }

  /** A fold with an operator that subtracts removes a sum. */
  lemma {:induction false} FoldSubtractIsDifference<A>(f: (int, int) -> int, x: int, s: seq<A>, g: A -> int)
    requires forall a, b :: f(a, b) == a - b
    ensures FoldLeft(f, x, s, g) == x - Sum(s, g)
    decreases |s|
  {
    if |s| > 0 {
      FoldSubtractIsDifference(f, x, s[..|s| - 1], g);
    }
  }

  lemma {:induction false} SumAppend<A>(a: seq<A>, b: seq<A>, g: A -> int)
    ensures Sum(a + b, g) == Sum(a, g) + Sum(b, g)
    decreases |b|
  {
    if |b| == 0 {
      assert a + b == a;
    } else {
      assert (a + b)[..|a + b| - 1] == a + b[..|b| - 1];
      SumAppend(a, b[..|b| - 1], g);
    }
  }

  lemma {:induction false} SumCongruence<A>(s: seq<A>, f: A -> int, g: A -> int)
    requires forall i :: 0 <= i < |s| ==> f(s[i]) == g(s[i])
    ensures Sum(s, f) == Sum(s, g)
    decreases |s|
  {
    if |s| > 0 {
      SumCongruence(s[..|s| - 1], f, g);
    }
  }

  lemma {:induction false} SumOfPointwiseSum<A>(s: seq<A>, f: A -> int, g: A -> int, h: A -> int)
    requires forall i :: 0 <= i < |s| ==> h(s[i]) == f(s[i]) + g(s[i])
    ensures Sum(s, h) == Sum(s, f) + Sum(s, g)
    decreases |s|
  {
    if |s| > 0 {
      SumOfPointwiseSum(s[..|s| - 1], f, g, h);
    }
  }

  lemma {:induction false} SumOfZeros<A>(s: seq<A>, g: A -> int)
    requires forall i :: 0 <= i < |s| ==> g(s[i]) == 0
    ensures Sum(s, g) == 0
    decreases |s|
  {
    if |s| > 0 {
      SumOfZeros(s[..|s| - 1], g);
    }
  }

  /** Sum over the cnodes of the location sums. */
  function RowSums(e: (nat, Location) -> int, locs: seq<Location>): Cnode -> int
  {
    (d: Cnode) => Sum(locs, AtCnode(e, d.id))
  }

  /** Sum over the locations of the cnode sums. */
  function ColumnSums(e: (nat, Location) -> int, cs: seq<Cnode>): Location -> int
  {
    (l: Location) => Sum(cs, AtLocation(e, l))
  }

  /** The double sum of `e` over cnodes and locations may be taken in either order. */
  lemma {:induction false} SumSwap(cs: seq<Cnode>, locs: seq<Location>, e: (nat, Location) -> int)
    ensures Sum(cs, RowSums(e, locs)) == Sum(locs, ColumnSums(e, cs))
    decreases |cs|
  {
    if |cs| == 0 {
      SumOfZeros(locs, ColumnSums(e, cs));
    } else {
      var init := cs[..|cs| - 1];
      SumSwap(init, locs, e);
      SumOfPointwiseSum(locs, ColumnSums(e, init), AtCnode(e, cs[|cs| - 1].id), ColumnSums(e, cs));
    }
  }

  /** The identity, for summing a row of integers. */
  function Id(x: int): int { x }

  /** The row of values of `g` over `s`. */
  function Values<A>(s: seq<A>, g: A -> int): (row: seq<int>)
    ensures |row| == |s|
  {
    seq(|s|, i requires 0 <= i < |s| => g(s[i]))
  }

  /** Summing `g` over `s` is summing the row of its values. */
  lemma {:induction false} SumAsRow<A>(s: seq<A>, g: A -> int)
    ensures Sum(s, g) == Sum(Values(s, g), Id)
    decreases |s|
  {
    if |s| > 0 {
      var init := s[..|s| - 1];
      SumAsRow(init, g);
      assert Values(s, g)[..|s| - 1] == Values(init, g);
    }
  }

  // ---------------------------------------------------------------------
  // Integer facts about the two kinds

  lemma LocSumIsSum(elem: (nat, Location) -> int, cid: nat, locs: seq<Location>)
    ensures LocSum(IntOps(), elem, cid, locs) == Sum(locs, AtCnode(elem, cid))
  {
    FoldAddIsSum(IntOps().aggr, 0, locs, AtCnode(elem, cid));
  }

  /** With integer operators a native-exclusive value is the double sum of
      `elem` over the collected cnodes and the locations. */
  lemma ExclusiveKindIntValue(elem: (nat, Location) -> int, c: Cnode, f: Flavour, locs: seq<Location>)
    ensures ExclusiveKindValue(IntOps(), elem, c, f, locs) == Sum(Collected(c, f), RowSums(elem, locs))
  {
    var cs := Collected(c, f);
    FoldAddIsSum(IntOps().plus, 0, cs, LocSumOf(IntOps(), elem, locs));
    forall i | 0 <= i < |cs|
      ensures LocSumOf(IntOps(), elem, locs)(cs[i]) == RowSums(elem, locs)(cs[i])
    {
      LocSumIsSum(elem, cs[i].id, locs);
    }
    SumCongruence(cs, LocSumOf(IntOps(), elem, locs), RowSums(elem, locs));
  }

  /** With integer operators the aggregated native-exclusive value is the
      sum of the entries of the native-exclusive row. */
  lemma ExclusiveValueIsRowSum(elem: (nat, Location) -> int, c: Cnode, f: Flavour, locs: seq<Location>)
    ensures ExclusiveKindValue(IntOps(), elem, c, f, locs)
         == Sum(ExclusiveRow(IntOps(), elem, Collected(c, f), locs), Id)
  {
    var cs := Collected(c, f);
    var entry := (l: Location) => ExclusiveRowEntry(IntOps(), elem, cs, l);
    ExclusiveKindIntValue(elem, c, f, locs);
    SumSwap(cs, locs, elem);
    forall i | 0 <= i < |locs|
      ensures ColumnSums(elem, cs)(locs[i]) == entry(locs[i])
    {
      FoldAddIsSum(IntOps().plus, 0, cs, AtLocation(elem, locs[i]));
    }
    SumCongruence(locs, ColumnSums(elem, cs), entry);
    SumAsRow(locs, entry);
    assert Values(locs, entry) == ExclusiveRow(IntOps(), elem, cs, locs);
  }

  /** With integer operators: excl(c) = incl(c) - sum of incl(v) over the
      visible children v, where incl is the node's own location sum. Hidden
      children are never subtracted. */
  lemma InclusiveKindExclusiveFormula(elem: (nat, Location) -> int, c: Cnode, locs: seq<Location>)
    ensures InclusiveKindValue(IntOps(), elem, c, Exclusive, locs)
         == InclusiveKindValue(IntOps(), elem, c, Inclusive, locs)
            - Sum(VisibleChildren(c.children), LocSumOf(IntOps(), elem, locs))
  {
    var vs := VisibleChildren(c.children);
    if |c.children| > 0 {
      FoldSubtractIsDifference(IntOps().minus, LocSum(IntOps(), elem, c.id, locs), vs, LocSumOf(IntOps(), elem, locs));
    } else {
      assert vs == [];
    }
  }

  /** With integer operators, entry `loc` of a native-inclusive EXCLUSIVE
      row is `elem(c, loc)` minus `elem(v, loc)` for each visible child v. */
  lemma InclusiveRowEntryFormula(elem: (nat, Location) -> int, c: Cnode, loc: Location)
    ensures InclusiveRowEntry(IntOps(), elem, c, Exclusive, loc)
         == elem(c.id, loc) - Sum(VisibleChildren(c.children), AtLocation(elem, loc))
  {
    if |c.children| > 0 {
      FoldSubtractIsDifference(IntOps().minus, elem(c.id, loc), VisibleChildren(c.children), AtLocation(elem, loc));
    } else {
      assert VisibleChildren(c.children) == [];
    }
  }

  // ---------------------------------------------------------------------
  // The two storage conventions agree

  /** Sum of `g` over a node and its whole subtree. */
  function BlockSum(g: Cnode -> int): Cnode -> int
  {
    (v: Cnode) => Sum([v] + WholeSubtree(v), g)
  }

  lemma SumPrepend<A>(x: A, s: seq<A>, g: A -> int)
    ensures Sum([x] + s, g) == g(x) + Sum(s, g)
  {
    SumAppend([x], s, g);
    assert [x][..0] == [];
  }

  /** The subtrees of the children split into the blocks an EXCLUSIVE query
      collects (hidden children) and the blocks of the visible children. */
  lemma {:induction false} SubtreesSplit(cs: seq<Cnode>, g: Cnode -> int)
    ensures Sum(SubtreesOf(cs), g) == Sum(CollectFrom(cs, Exclusive), g) + Sum(VisibleChildren(cs), BlockSum(g))
    decreases |cs|
  {
    if |cs| > 0 {
      var block := [cs[0]] + WholeSubtree(cs[0]);
      var rest := cs[1..];
      SubtreesSplit(rest, g);
      assert SubtreesOf(cs) == block + SubtreesOf(rest);
      SumAppend(block, SubtreesOf(rest), g);
      assert BlockSum(g)(cs[0]) == Sum(block, g);
      if cs[0].hidden {
        assert CollectFrom(cs, Exclusive) == block + CollectFrom(rest, Exclusive);
        assert VisibleChildren(cs) == VisibleChildren(rest);
        SumAppend(block, CollectFrom(rest, Exclusive), g);
      } else {
        assert CollectFrom(cs, Exclusive) == CollectFrom(rest, Exclusive);
        assert VisibleChildren(cs) == [cs[0]] + VisibleChildren(rest);
        SumPrepend(cs[0], VisibleChildren(rest), BlockSum(g));
      }
    }
  }

  /** When the inclusive values `big` of `c` and of its visible children are
      the subtree sums of the exclusive values `small`, the native-inclusive
      row entry over `big` equals the native-exclusive row entry over
      `small`, for both flavours. */
  lemma KindsAgree(small: (nat, Location) -> int, big: (nat, Location) -> int, c: Cnode, f: Flavour, loc: Location)
    requires big(c.id, loc) == BlockSum(AtLocation(small, loc))(c)
    requires forall v :: v in VisibleChildren(c.children) ==> big(v.id, loc) == BlockSum(AtLocation(small, loc))(v)
    ensures InclusiveRowEntry(IntOps(), big, c, f, loc) == ExclusiveRowEntry(IntOps(), small, Collected(c, f), loc)
  {
    var g := AtLocation(small, loc);
    FoldAddIsSum(IntOps().plus, 0, Collected(c, f), g);
    SumPrepend(c, CollectFrom(c.children, f), g);
    SumPrepend(c, WholeSubtree(c), g);
    if f == Inclusive {
      CollectedInclusiveIsWholeSubtree(c);
    } else {
      var vs := VisibleChildren(c.children);
      InclusiveRowEntryFormula(big, c, loc);
      SubtreesSplit(c.children, g);
      SumCongruence(vs, AtLocation(big, loc), BlockSum(g));
    }
  }
}
