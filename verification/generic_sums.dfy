/**
  The generic metrics with integer values: what their adopt-or-add sums
  compute, how they relate to the build-in calculations, and the two
  places where the code as written departs from that.
*/
module GenericSums {
  import opened CubeTypes
  import opened Trees
  import opened Aggregation
  import opened GenericMetrics

  /** `+=` adds and `-=` subtracts. */
  ghost predicate IntArith(m: Generic<int>)
  {
    (forall a, b :: m.add(a, b) == a + b) && (forall a, b :: m.sub(a, b) == a - b)
  }

  /** NULL counts as nothing. */
  function OptVal(v: Option<int>): int
  {
    if v.Some? then v.value else 0
  }

  /** The sum of `g` over `s`, NULL when `s` is empty. */
  function OptSum<A>(s: seq<A>, g: A -> int): Option<int>
  {
    if |s| == 0 then None else Some(Sum(s, g))
  }

  // ---------------------------------------------------------------------
  // Adopt-or-add on integers

  lemma AddOptAssoc(add: (int, int) -> int, a: Option<int>, b: Option<int>, c: Option<int>)
    requires forall x, y :: add(x, y) == x + y
    ensures AddOpt(add, AddOpt(add, a, b), c) == AddOpt(add, a, AddOpt(add, b, c))
  {
    if a.Some? && b.Some? && c.Some? {
      var ab, bc := add(a.value, b.value), add(b.value, c.value);
      assert ab == a.value + b.value && bc == b.value + c.value;
      assert add(ab, c.value) == ab + c.value && add(a.value, bc) == a.value + bc;
    }
  }

  /** Adopt-or-add of two partial sums is the sum over the concatenation. */
  lemma AddOptSums<A>(add: (int, int) -> int, s: seq<A>, t: seq<A>, g: A -> int)
    requires forall x, y :: add(x, y) == x + y
    ensures AddOpt(add, OptSum(s, g), OptSum(t, g)) == OptSum(s + t, g)
  {
    SumAppend(s, t, g);
    if |s| == 0 {
      assert s + t == t;
    }
    if |t| == 0 {
      assert s + t == s;
    }
  }

  /** Adopt-or-add over a list, from `acc`, adds the list's sum to `acc`. */
  lemma {:induction false} AccumulateIsSum<A>(add: (int, int) -> int, acc: Option<int>, s: seq<A>, g: A -> int)
    requires forall x, y :: add(x, y) == x + y
    ensures Accumulate(add, acc, s, g) == AddOpt(add, acc, OptSum(s, g))
    decreases |s|
  {
    if |s| > 0 {
      AccumulateIsSum(add, AddOpt(add, acc, Some(g(s[0]))), s[1..], g);
      AddOptSums(add, [s[0]], s[1..], g);
      assert [s[0]] + s[1..] == s;
      assert Sum([s[0]], g) == g(s[0]) by { SumPrepend(s[0], [], g); }
    }
  }

  /** Subtraction over a list removes the list's sum. */
  lemma {:induction false} DeductIsDifference<A>(sub: (int, int) -> int, a: int, s: seq<A>, g: A -> int)
    requires forall x, y :: sub(x, y) == x - y
    ensures Deduct(sub, Some(a), s, g) == Some(a - Sum(s, g))
    decreases |s|
  {
    if |s| > 0 {
      DeductIsDifference(sub, a - g(s[0]), s[1..], g);
      SumPrepend(s[0], s[1..], g);
      assert [s[0]] + s[1..] == s;
    }
  }

  /** Adopt-or-add over all (cnode, location) pairs adds the double sum. */
  lemma {:induction false} AccumulateAllIsSum(add: (int, int) -> int, acc: Option<int>, cs: seq<Cnode>,
                                              locs: seq<Location>, elem: (nat, Location) -> int)
    requires forall x, y :: add(x, y) == x + y
    ensures AccumulateAll(add, acc, cs, locs, elem)
         == AddOpt(add, acc, if |locs| == 0 then None else OptSum(cs, RowSums(elem, locs)))
    decreases |cs|
  {
    if |cs| > 0 {
      var row := AtCnode(elem, cs[0].id);
      var next := Accumulate(add, acc, locs, row);
      AccumulateIsSum(add, acc, locs, row);
      AccumulateAllIsSum(add, next, cs[1..], locs, elem);
      if |locs| > 0 {
        assert RowSums(elem, locs)(cs[0]) == Sum(locs, row);
        AddOptSums(add, [cs[0]], cs[1..], RowSums(elem, locs));
        assert [cs[0]] + cs[1..] == cs;
        assert Sum([cs[0]], RowSums(elem, locs)) == Sum(locs, row) by {
          SumPrepend(cs[0], [], RowSums(elem, locs));
        }
      }
    }
  }

  /** Subtraction over all (cnode, location) pairs removes the double sum. */
  lemma {:induction false} DeductAllIsDifference(sub: (int, int) -> int, a: int, cs: seq<Cnode>,
                                                 locs: seq<Location>, elem: (nat, Location) -> int)
    requires forall x, y :: sub(x, y) == x - y
    ensures DeductAll(sub, Some(a), cs, locs, elem) == Some(a - Sum(cs, RowSums(elem, locs)))
    decreases |cs|
  {
    if |cs| > 0 {
      var row := AtCnode(elem, cs[0].id);
      DeductIsDifference(sub, a, locs, row);
      DeductAllIsDifference(sub, a - Sum(locs, row), cs[1..], locs, elem);
      assert RowSums(elem, locs)(cs[0]) == Sum(locs, row);
      SumPrepend(cs[0], cs[1..], RowSums(elem, locs));
      assert [cs[0]] + cs[1..] == cs;
    }
  }

  lemma {:induction false} DeductFromNothing<A, V>(sub: (V, V) -> V, s: seq<A>, g: A -> V)
    ensures Deduct(sub, None, s, g) == None
    decreases |s|
  {
    if |s| > 0 {
      DeductFromNothing(sub, s[1..], g);
    }
  }

  lemma {:induction false} DeductAllFromNothing<V>(sub: (V, V) -> V, cs: seq<Cnode>, locs: seq<Location>,
                                                   elem: (nat, Location) -> V)
    ensures DeductAll(sub, None, cs, locs, elem) == None
    decreases |cs|
  {
    if |cs| > 0 {
      DeductFromNothing(sub, locs, AtCnode(elem, cs[0].id));
      DeductAllFromNothing(sub, cs[1..], locs, elem);
    }
  }

  // ---------------------------------------------------------------------
  // Agreement with the build-in calculations

  /** The exclusive generic aggregated value is the build-in exclusive
      value (NULL when there are no locations). */
  lemma ExclusiveAggregatedIsKindValue(m: Generic<int>, c: Cnode, cnf: Flavour)
    requires IntArith(m)
    ensures ExclusiveAggregatedValue(m, c, cnf)
         == if |m.sysv| == 0 then None else Some(ExclusiveKindValue(IntOps(), m.elem, c, cnf, m.sysv))
  {
    AccumulateAllIsSum(m.add, None, Collected(c, cnf), m.sysv, m.elem);
    ExclusiveKindIntValue(m.elem, c, cnf, m.sysv);
  }

  /** The inclusive generic aggregated value is the build-in inclusive
      value (NULL when there are no locations). */
  lemma InclusiveAggregatedIsKindValue(m: Generic<int>, c: Cnode, cnf: Flavour)
    requires IntArith(m)
    ensures InclusiveAggregatedValue(m, c, cnf)
         == if |m.sysv| == 0 then None else Some(InclusiveKindValue(IntOps(), m.elem, c, cnf, m.sysv))
  {
    var locs := m.sysv;
    var own := Accumulate(m.add, None, locs, AtCnode(m.elem, c.id));
    var vs := VisibleChildren(c.children);
    AccumulateIsSum(m.add, None, locs, AtCnode(m.elem, c.id));
    LocSumIsSum(m.elem, c.id, locs);
    if cnf == Exclusive && |c.children| > 0 {
      if |locs| == 0 {
        DeductAllFromNothing(m.sub, vs, locs, m.elem);
      } else {
        DeductAllIsDifference(m.sub, Sum(locs, AtCnode(m.elem, c.id)), vs, locs, m.elem);
        FoldSubtractIsDifference(IntOps().minus, LocSum(IntOps(), m.elem, c.id, locs), vs, LocSumOf(IntOps(), m.elem, locs));
        forall i | 0 <= i < |vs|
          ensures LocSumOf(IntOps(), m.elem, locs)(vs[i]) == RowSums(m.elem, locs)(vs[i])
        {
          LocSumIsSum(m.elem, vs[i].id, locs);
        }
        SumCongruence(vs, LocSumOf(IntOps(), m.elem, locs), RowSums(m.elem, locs));
      }
    }
  }

  /** At one location the exclusive generic value is the build-in
      native-exclusive row entry. */
  lemma ExclusiveLocIsRowEntry(m: Generic<int>, c: Cnode, cnf: Flavour, l: Location)
    requires IntArith(m)
    ensures ExclusiveLocValue(m, c, cnf, l) == Some(ExclusiveRowEntry(IntOps(), m.elem, Collected(c, cnf), l))
  {
    AccumulateIsSum(m.add, None, Collected(c, cnf), AtLocation(m.elem, l));
    FoldAddIsSum(IntOps().plus, 0, Collected(c, cnf), AtLocation(m.elem, l));
  }

  /** At one location the corrected inclusive generic value is the
      build-in native-inclusive row entry. */
  lemma InclusiveLocIsRowEntry(m: Generic<int>, c: Cnode, cnf: Flavour, l: Location)
    requires IntArith(m)
    ensures InclusiveLocValue(m, c, cnf, l) == Some(InclusiveRowEntry(IntOps(), m.elem, c, cnf, l))
  {
    if cnf == Exclusive && |c.children| > 0 {
      var vs := VisibleChildren(c.children);
      DeductIsDifference(m.sub, m.elem(c.id, l), vs, AtLocation(m.elem, l));
      FoldSubtractIsDifference(IntOps().minus, m.elem(c.id, l), vs, AtLocation(m.elem, l));
    }
  }

  /** The same measurement stored exclusively (`small`) in an exclusive
      generic metric and inclusively (`big`, the subtree sums) in an
      inclusive generic metric gives the same value at every location, for
      both query flavours. */
  lemma GenericKindsAgree(small: Generic<int>, big: Generic<int>, c: Cnode, f: Flavour, l: Location)
    requires IntArith(small) && IntArith(big)
    requires big.elem(c.id, l) == BlockSum(AtLocation(small.elem, l))(c)
    requires forall v :: v in VisibleChildren(c.children) ==> big.elem(v.id, l) == BlockSum(AtLocation(small.elem, l))(v)
    ensures InclusiveLocValue(big, c, f, l) == ExclusiveLocValue(small, c, f, l)
  {
    InclusiveLocIsRowEntry(big, c, f, l);
    ExclusiveLocIsRowEntry(small, c, f, l);
    KindsAgree(small.elem, big.elem, c, f, l);
  }

  /** As written, an EXCLUSIVE location query on an inclusive generic
      metric answers the node's own value PLUS the values of its visible
      children. */
  lemma InclusiveLocAsWrittenIsSum(m: Generic<int>, c: Cnode, f: Flavour, l: Location)
    requires IntArith(m)
    ensures InclusiveLocValueAsWritten(m, c, f, l)
         == Some(m.elem(c.id, l) + if f == Exclusive then Sum(VisibleChildren(c.children), AtLocation(m.elem, l)) else 0)
  {
    var vs := VisibleChildren(c.children);
    if f == Exclusive {
      if |c.children| > 0 {
        AccumulateIsSum(m.add, Some(m.elem(c.id, l)), vs, AtLocation(m.elem, l));
      } else {
        assert vs == [];
      }
    }
  }

  /** The as-written inclusive location value exceeds the corrected one by
      twice the visible children's values, so the two agree exactly when
      the query is INCLUSIVE or the visible children add up to nothing. */
  lemma InclusiveLocAsWrittenOverCorrected(m: Generic<int>, c: Cnode, f: Flavour, l: Location)
    requires IntArith(m)
    ensures var extra := if f == Exclusive then Sum(VisibleChildren(c.children), AtLocation(m.elem, l)) else 0;
            OptVal(InclusiveLocValueAsWritten(m, c, f, l)) == OptVal(InclusiveLocValue(m, c, f, l)) + 2 * extra
    ensures InclusiveLocValueAsWritten(m, c, f, l) == InclusiveLocValue(m, c, f, l)
        <==> f == Inclusive || Sum(VisibleChildren(c.children), AtLocation(m.elem, l)) == 0
  {
    InclusiveLocAsWrittenIsSum(m, c, f, l);
    var vs := VisibleChildren(c.children);
    if f == Exclusive {
      if |c.children| > 0 {
        DeductIsDifference(m.sub, m.elem(c.id, l), vs, AtLocation(m.elem, l));
      } else {
        assert vs == [];
      }
    }
  }

  /** The same measurement in an exclusive and in an inclusive generic
      metric, as the code is written: the location values agree exactly
      when the query is INCLUSIVE or the visible children's values add up
      to nothing. */
  lemma GenericKindsAgreeAsWritten(small: Generic<int>, big: Generic<int>, c: Cnode, f: Flavour, l: Location)
    requires small.family == ExclusiveFamily && big.family == InclusiveFamily
    requires IntArith(small) && IntArith(big)
    requires big.elem(c.id, l) == BlockSum(AtLocation(small.elem, l))(c)
    requires forall v :: v in VisibleChildren(c.children) ==> big.elem(v.id, l) == BlockSum(AtLocation(small.elem, l))(v)
    ensures LocValue(big, c, f, l) == LocValue(small, c, f, l)
        <==> f == Inclusive || Sum(VisibleChildren(c.children), AtLocation(big.elem, l)) == 0
  {
    GenericKindsAgree(small, big, c, f, l);
    InclusiveLocAsWrittenOverCorrected(big, c, f, l);
    InclusiveLocAsWrittenIsSum(big, c, f, l);
    ExclusiveLocIsRowEntry(small, c, f, l);
  }

  // ---------------------------------------------------------------------
  // Point-like sums over the system tree

  /** Every location answers a value. */
  lemma LocValueIsSome<V>(m: Generic<V>, c: Cnode, cnf: Flavour, l: Location)
    ensures LocValue(m, c, cnf, l).Some?
  {
    AccumulateKeepsSome(m.add, None, Collected(c, cnf), AtLocation(m.elem, l));
    AccumulateKeepsSome(m.add, Some(m.elem(c.id, l)), VisibleChildren(c.children), AtLocation(m.elem, l));
  }

  /** A location's value as an integer. */
  function LocInt(m: Generic<int>, c: Cnode, cnf: Flavour): Location -> int
  {
    (l: Location) => OptVal(LocValue(m, c, cnf, l))
  }

  lemma {:induction false} PureLocsIsSum(m: Generic<int>, c: Cnode, cnf: Flavour, ls: seq<Location>, acc: Option<int>)
    requires IntArith(m)
    ensures PureLocs(m, c, cnf, ls, acc) == AddOpt(m.add, acc, OptSum(ls, LocInt(m, c, cnf)))
    decreases ls
  {
    if |ls| > 0 {
      var h := LocInt(m, c, cnf);
      LocValueIsSome(m, c, cnf, ls[0]);
      assert LocValue(m, c, cnf, ls[0]) == Some(h(ls[0]));
      PureLocsIsSum(m, c, cnf, ls[1..], AddOpt(m.add, acc, Some(h(ls[0]))));
      AddOptAssoc(m.add, acc, Some(h(ls[0])), OptSum(ls[1..], h));
      AddOptSums(m.add, [ls[0]], ls[1..], h);
      assert [ls[0]] + ls[1..] == ls;
      assert Sum([ls[0]], h) == h(ls[0]) by { SumPrepend(ls[0], [], h); }
    }
  }

  lemma {:induction false} PureGroupsIsSum(m: Generic<int>, c: Cnode, cnf: Flavour, gs: seq<LocationGroup>, acc: Option<int>)
    requires IntArith(m)
    ensures PureGroups(m, c, cnf, gs, acc) == AddOpt(m.add, acc, OptSum(GroupsLocations(gs), LocInt(m, c, cnf)))
    decreases gs
  {
    if |gs| > 0 {
      var h := LocInt(m, c, cnf);
      PureLocsIsSum(m, c, cnf, gs[0].locations, None);
      var first := PureGroup(m, c, cnf, gs[0]);
      PureGroupsIsSum(m, c, cnf, gs[1..], AddOpt(m.add, acc, first));
      AddOptAssoc(m.add, acc, first, OptSum(GroupsLocations(gs[1..]), h));
      AddOptSums(m.add, gs[0].locations, GroupsLocations(gs[1..]), h);
    }
  }

  /** With integer values the point-like value of a system-tree node is the
      sum of the values at the locations below it (NULL when there are
      none). */
  lemma {:induction false} PureStnIsSum(m: Generic<int>, c: Cnode, cnf: Flavour, n: SystemTreeNode)
    requires IntArith(m)
    ensures PureStn(m, c, cnf, n) == OptSum(StnLocations(n), LocInt(m, c, cnf))
    decreases n, 1
  {
    var h := LocInt(m, c, cnf);
    var a := PureStns(m, c, cnf, n.children, None);
    PureStnsIsSum(m, c, cnf, n.children, None);
    PureGroupsIsSum(m, c, cnf, n.groups, a);
    AddOptSums(m.add, StnsLocations(n.children), GroupsLocations(n.groups), h);
  }

  lemma {:induction false} PureStnsIsSum(m: Generic<int>, c: Cnode, cnf: Flavour, ns: seq<SystemTreeNode>, acc: Option<int>)
    requires IntArith(m)
    ensures PureStns(m, c, cnf, ns, acc) == AddOpt(m.add, acc, OptSum(StnsLocations(ns), LocInt(m, c, cnf)))
    decreases ns, 0
  {
    if |ns| > 0 {
      var h := LocInt(m, c, cnf);
      var first := PureStn(m, c, cnf, ns[0]);
      PureStnIsSum(m, c, cnf, ns[0]);
      PureStnsIsSum(m, c, cnf, ns[1..], AddOpt(m.add, acc, first));
      AddOptAssoc(m.add, acc, first, OptSum(StnsLocations(ns[1..]), h));
      AddOptSums(m.add, StnLocations(ns[0]), StnsLocations(ns[1..]), h);
    }
  }

  // ---------------------------------------------------------------------
  // The code as written

  /** Replacing the value at every location keeps only the last one. */
  lemma {:induction false} OverwriteKeepsLast<V>(acc: Option<V>, locs: seq<Location>, g: Location -> V)
    ensures Overwrite(acc, locs, g) == if |locs| == 0 then acc else Some(g(locs[|locs| - 1]))
    decreases |locs|
  {
    if |locs| > 0 {
      OverwriteKeepsLast(Some(g(locs[0])), locs[1..], g);
    }
  }

  /** As written, the exclusive generic aggregated value counts the first
      collected cnode only at the last location. */
  lemma ExclusiveAggregatedAsWrittenValue(m: Generic<int>, c: Cnode, cnf: Flavour)
    requires IntArith(m) && |m.sysv| > 0
    ensures var cs := Collected(c, cnf);
            ExclusiveAggregatedAsWritten(m, cs)
            == Some(m.elem(c.id, m.sysv[|m.sysv| - 1]) + Sum(cs[1..], RowSums(m.elem, m.sysv)))
  {
    var cs := Collected(c, cnf);
    var first := Overwrite(None, m.sysv, AtCnode(m.elem, cs[0].id));
    OverwriteKeepsLast(None, m.sysv, AtCnode(m.elem, cs[0].id));
    AccumulateAllIsSum(m.add, first, cs[1..], m.sysv, m.elem);
  }

  /** As written, the exclusive generic aggregated value falls short of the
      build-in exclusive value by the first cnode's values at every location
      but the last; the two agree exactly when those add up to nothing. */
  lemma ExclusiveAggregatedShortfall(m: Generic<int>, c: Cnode, cnf: Flavour)
    requires IntArith(m) && m.family == ExclusiveFamily
    ensures |m.sysv| == 0 ==> AggregatedValue(m, c, cnf) == None
    ensures |m.sysv| > 0 ==>
              AggregatedValue(m, c, cnf)
              == Some(ExclusiveKindValue(IntOps(), m.elem, c, cnf, m.sysv)
                      - Sum(m.sysv[..|m.sysv| - 1], AtCnode(m.elem, c.id)))
    ensures AggregatedValue(m, c, cnf) == ExclusiveAggregatedValue(m, c, cnf)
        <==> |m.sysv| == 0 || Sum(m.sysv[..|m.sysv| - 1], AtCnode(m.elem, c.id)) == 0
  {
    var cs := Collected(c, cnf);
    ExclusiveAggregatedIsKindValue(m, c, cnf);
    ExclusiveKindIntValue(m.elem, c, cnf, m.sysv);
    if |m.sysv| == 0 {
      AccumulateAllIsSum(m.add, None, cs[1..], m.sysv, m.elem);
    } else {
      ExclusiveAggregatedAsWrittenValue(m, c, cnf);
      SumPrepend(cs[0], cs[1..], RowSums(m.elem, m.sysv));
      assert [cs[0]] + cs[1..] == cs;
    }
  }

  /** Integer `+=` and `-=`. */
  function Plus(a: int, b: int): int { a + b }
  function Minus(a: int, b: int): int { a - b }

  /** Elementary values 1 and 2 at locations 0 and 1. */
  function ByLocation(cid: nat, l: Location): int { l.id + 1 }

  /** A leaf call path measured on two locations with values 1 and 2: the
      code as written answers 2, the sum is 3. */
  lemma ExclusiveAggregatedCounterexample()
    ensures var m := Generic(ExclusiveFamily, Plus, Minus, 0, true, false,
                             [Location(0, 0), Location(1, 0)], ByLocation);
            var leaf := Cnode(0, false, [], None);
            ExclusiveAggregatedAsWritten(m, Collected(leaf, Inclusive)) == Some(2)
            && ExclusiveAggregatedValue(m, leaf, Inclusive) == Some(3)
  {
    var m := Generic(ExclusiveFamily, Plus, Minus, 0, true, false, [Location(0, 0), Location(1, 0)], ByLocation);
    var leaf := Cnode(0, false, [], None);
    assert WholeSubtree(leaf) == [];
    assert Collected(leaf, Inclusive) == [leaf];
    ExclusiveAggregatedAsWrittenValue(m, leaf, Inclusive);
    ExclusiveAggregatedIsKindValue(m, leaf, Inclusive);
    ExclusiveKindIntValue(m.elem, leaf, Inclusive, m.sysv);
    var row := AtCnode(m.elem, 0);
    assert Sum(m.sysv, row) == 3 by {
      SumPrepend(m.sysv[0], m.sysv[1..], row);
      SumPrepend(m.sysv[1], [], row);
      assert m.sysv[1..] == [m.sysv[1]] + [];
    }
    assert Sum([leaf], RowSums(m.elem, m.sysv)) == 3 by {
      SumPrepend(leaf, [], RowSums(m.elem, m.sysv));
    }
  }

  /** Inclusive data: 5 at the parent (id 0), 2 at its one visible child (id 1). */
  function ParentFive(cid: nat, l: Location): int { if cid == 0 then 5 else 2 }

  /** Exclusive data of the same measurement: 3 at the parent, 2 at the child. */
  function ParentThree(cid: nat, l: Location): int { if cid == 0 then 3 else 2 }

  /** A node with one visible child: the code as written answers 5 + 2 for
      the EXCLUSIVE value, while the exclusive metric holding the same
      measurement, and the corrected inclusive one, answer 3. */
  lemma InclusiveLocationCounterexample()
    ensures var loc := Location(0, 0);
            var child := Cnode(1, false, [], None);
            var parent := Cnode(0, false, [child], None);
            var big := Generic(InclusiveFamily, Plus, Minus, 0, true, false, [loc], ParentFive);
            var small := Generic(ExclusiveFamily, Plus, Minus, 0, true, false, [loc], ParentThree);
            InclusiveLocValueAsWritten(big, parent, Exclusive, loc) == Some(7)
            && InclusiveLocValue(big, parent, Exclusive, loc) == Some(3)
            && ExclusiveLocValue(small, parent, Exclusive, loc) == Some(3)
  {
    var loc := Location(0, 0);
    var child := Cnode(1, false, [], None);
    var parent := Cnode(0, false, [child], None);
    var big := Generic(InclusiveFamily, Plus, Minus, 0, true, false, [loc], ParentFive);
    var small := Generic(ExclusiveFamily, Plus, Minus, 0, true, false, [loc], ParentThree);
    var vs := VisibleChildren(parent.children);
    assert vs == [child];
    assert vs[1..] == [];
    assert CollectFrom(parent.children, Exclusive) == [];
    assert Collected(parent, Exclusive) == [parent];
    assert Collected(parent, Exclusive)[1..] == [];
    assert Accumulate(Plus, Some(5), vs, AtLocation(ParentFive, loc))
        == Accumulate(Plus, Some(7), vs[1..], AtLocation(ParentFive, loc));
    assert Deduct(Minus, Some(5), vs, AtLocation(ParentFive, loc))
        == Deduct(Minus, Some(3), vs[1..], AtLocation(ParentFive, loc));
    assert Accumulate(Plus, None, [parent], AtLocation(ParentThree, loc))
        == Accumulate(Plus, Some(3), [parent][1..], AtLocation(ParentThree, loc));
  }
}
