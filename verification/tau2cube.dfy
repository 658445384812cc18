/**
  The TAU profile converter's structural decisions: how a call path finds
  its parent among the profile's call paths, which top-level paths become
  call-tree roots, how TAU locations become processes and threads, and
  which severities are written.

  A call path is the sequence of its regions' ids, caller first; the
  profile's call paths are known by their index in profile order.
*/
module Tau2Cube {
  import opened CubeTypes

  type Cpath = seq<nat>

  /** `p` is the call path `c` without its last region. */
  predicate IsParent(p: Cpath, c: Cpath)
  {
    |p| + 1 == |c| && p == c[..|p|]
  }

  /** The last call path among the first `n` of the profile that is a
      parent of `c`. */
  function LastParent(profile: seq<Cpath>, c: Cpath, n: nat): (r: Option<nat>)
    requires n <= |profile|
    ensures r.Some? ==> r.value < n && IsParent(profile[r.value], c)
                        && forall i :: r.value < i < n ==> !IsParent(profile[i], c)
    ensures r.None? ==> forall i :: 0 <= i < n ==> !IsParent(profile[i], c)
  {
    if n == 0 then None
    else if IsParent(profile[n - 1], c) then Some(n - 1)
    else LastParent(profile, c, n - 1)
  }

  /** `get_parent_cpath`: no parent for a one-region path; otherwise every
      call path one region shorter that agrees on the leading regions is a
      match, and the last match in profile order wins. No match is
      reported (the diagnostic) and answers NULL. */
  method GetParentCpath(profile: seq<Cpath>, c: Cpath) returns (result: Option<nat>, diagnostic: bool)
    ensures |c| == 1 ==> result.None? && !diagnostic
    ensures |c| != 1 ==> result == LastParent(profile, c, |profile|)
    ensures diagnostic <==> |c| != 1 && result.None?
  {
    result := None;
    diagnostic := false;
    if |c| == 1 {
      return;
    }
    var i := 0;
    while i < |profile|
      invariant 0 <= i <= |profile|
      invariant result == LastParent(profile, c, i)
    {
      var cand := profile[i];
      if |cand| + 1 == |c| {
        var j := 0;
        var matched := false;
        while j < |c|
          invariant 0 <= j <= |c|
          invariant forall k :: 0 <= k < j && k < |c| - 1 ==> c[k] == cand[k]
          invariant matched ==> j == |c| && IsParent(cand, c) && result == Some(i)
          invariant !matched ==> result == LastParent(profile, c, i)
          invariant !matched && j == |c| ==> false
        {
          if j == |c| - 1 {
            assert cand == c[..|cand|];
            result := Some(i);
            matched := true;
          } else if c[j] != cand[j] {
            break;
          }
          j := j + 1;
        }
      }
      i := i + 1;
    }
    diagnostic := result.None?;
  }

  /** The parent each call path is given while the program dimension is
      built. */
  function Parent(profile: seq<Cpath>, i: nat): (r: Option<nat>)
    requires i < |profile|
    ensures r.Some? ==> r.value < |profile| && IsParent(profile[r.value], profile[i])
    ensures |profile[i]| == 1 ==> r.None?
  {
    if |profile[i]| == 1 then None else LastParent(profile, profile[i], |profile|)
  }

  /** The call paths without a parent, in profile order. */
  function RootsBelow(profile: seq<Cpath>, n: nat): (rs: seq<nat>)
    requires n <= |profile|
    ensures forall r: nat :: r in rs <==> r < n && Parent(profile, r).None?
  {
    if n == 0 then [] else RootsBelow(profile, n - 1) + (if Parent(profile, n - 1).None? then [n - 1] else [])
  }

  function Roots(profile: seq<Cpath>): seq<nat>
  {
    RootsBelow(profile, |profile|)
  }

  predicate HasChildren(profile: seq<Cpath>, i: nat)
  {
    exists j :: 0 <= j < |profile| && Parent(profile, j) == Some(i)
  }

  /** The profile is flat when no root has a child. */
  predicate IsFlat(profile: seq<Cpath>)
  {
    forall r :: r in Roots(profile) ==> !HasChildren(profile, r)
  }

  /** Roots kept for the call tree: all of them for a flat profile, the
      roots with children otherwise. */
  function KeptRootsBelow(profile: seq<Cpath>, n: nat): (rs: seq<nat>)
    requires n <= |profile|
    ensures forall r: nat :: r in rs <==> r < n && Parent(profile, r).None? && (IsFlat(profile) || HasChildren(profile, r))
  {
    if n == 0 then []
    else
      KeptRootsBelow(profile, n - 1)
      + (if Parent(profile, n - 1).None? && (IsFlat(profile) || HasChildren(profile, n - 1)) then [n - 1] else [])
  }

  function KeptRoots(profile: seq<Cpath>): seq<nat>
  {
    KeptRootsBelow(profile, |profile|)
  }

  /** A flat profile keeps every root; otherwise exactly the roots with
      children are kept. */
  lemma KeptRootsChoice(profile: seq<Cpath>, r: nat)
    ensures IsFlat(profile) ==> (r in KeptRoots(profile) <==> r in Roots(profile))
    ensures !IsFlat(profile) ==> (r in KeptRoots(profile) <==> r in Roots(profile) && HasChildren(profile, r))
  {
  }

  /** The length of the longest call path. */
  function MaxLen(profile: seq<Cpath>): (n: nat)
    ensures forall i :: 0 <= i < |profile| ==> |profile[i]| <= n
  {
    if |profile| == 0 then 0
    else
      var rest := MaxLen(profile[1..]);
      assert forall i :: 1 <= i < |profile| ==> profile[i] == profile[1..][i - 1];
      if |profile[0]| > rest then |profile[0]| else rest
  }

  /** `create_call_tree`: the call paths given a call-tree node when the
      tree is built from `i`: `i` and, recursively, its children. */
  function Subtree(profile: seq<Cpath>, i: nat): set<nat>
    requires i < |profile|
    decreases MaxLen(profile) - |profile[i]|
  {
    {i} + set j, x | 0 <= j < |profile| && Parent(profile, j) == Some(i) && x in Subtree(profile, j) :: x
  }

  /** The top-level ancestor of a call path. */
  function RootOf(profile: seq<Cpath>, i: nat): (r: nat)
    requires i < |profile|
    ensures r < |profile| && Parent(profile, r).None?
    decreases |profile[i]|
  {
    match Parent(profile, i)
    case None => i
    case Some(p) => RootOf(profile, p)
  }

  /** `enter_severity` keeps a call path when a call-tree node was made
      for it. */
  predicate Mapped(profile: seq<Cpath>, j: nat)
    requires j < |profile|
  {
    exists r :: r in KeptRoots(profile) && r < |profile| && j in Subtree(profile, r)
  }

  lemma {:induction false} SubtreeSameRoot(profile: seq<Cpath>, i: nat, j: nat)
    requires i < |profile| && j in Subtree(profile, i)
    ensures j < |profile| && RootOf(profile, j) == RootOf(profile, i)
    decreases MaxLen(profile) - |profile[i]|
  {
    if j != i {
      var c :| 0 <= c < |profile| && Parent(profile, c) == Some(i) && j in Subtree(profile, c);
      SubtreeSameRoot(profile, c, j);
    }
  }

  lemma {:induction false} SubtreeHasChildren(profile: seq<Cpath>, i: nat, p: nat, j: nat)
    requires i < |profile| && p in Subtree(profile, i) && j < |profile| && Parent(profile, j) == Some(p)
    ensures j in Subtree(profile, i)
    decreases MaxLen(profile) - |profile[i]|
  {
    if p != i {
      var c :| 0 <= c < |profile| && Parent(profile, c) == Some(i) && p in Subtree(profile, c);
      SubtreeHasChildren(profile, c, p, j);
    } else {
      assert j in Subtree(profile, j);
    }
  }

  lemma {:induction false} InRootSubtree(profile: seq<Cpath>, j: nat)
    requires j < |profile|
    ensures j in Subtree(profile, RootOf(profile, j))
    decreases |profile[j]|
  {
    match Parent(profile, j)
    case None =>
    case Some(p) =>
      InRootSubtree(profile, p);
      SubtreeHasChildren(profile, RootOf(profile, p), p, j);
  }

  /** A call path gets a call-tree node exactly when its top-level
      ancestor is a kept root: the dropped roots take their whole subtree
      with them. */
  lemma MappedIffRootKept(profile: seq<Cpath>, j: nat)
    requires j < |profile|
    ensures Mapped(profile, j) <==> RootOf(profile, j) in KeptRoots(profile)
  {
    if Mapped(profile, j) {
      var r :| r in KeptRoots(profile) && r < |profile| && j in Subtree(profile, r);
      SubtreeSameRoot(profile, r, j);
      assert Parent(profile, r).None?;
    }
    if RootOf(profile, j) in KeptRoots(profile) {
      InRootSubtree(profile, j);
    }
  }

  // ---------------------------------------------------------------------
  // System dimension
  // ---------------------------------------------------------------------

  /** A TAU location: its process and thread ids (C `long`). */
  datatype TauLoc = TauLoc(procId: int, thrdId: int)

  /** The conversion of a `long` to a 32-bit `int` key. */
  function Trunc32(x: int): (r: int)
    ensures -0x8000_0000 <= r < 0x8000_0000
    ensures (r - x) % 0x1_0000_0000 == 0
  {
    var m := x % 0x1_0000_0000;
    if m >= 0x8000_0000 then m - 0x1_0000_0000 else m
  }

  function Id(x: int): int { x }

  /** The processes and threads made so far: `byKey` maps a process key to
      the index of its process in `procs` (the proc ids processes were
      made with); `threads` holds (process index, thread id) per location. */
  datatype SystemDim = SystemDim(byKey: map<int, nat>, procs: seq<int>, threads: seq<(nat, int)>)

  predicate DimWellFormed(d: SystemDim, key: int -> int)
  {
    && (forall k :: k in d.byKey ==> d.byKey[k] < |d.procs| && key(d.procs[d.byKey[k]]) == k)
    && (forall a :: 0 <= a < |d.procs| ==> key(d.procs[a]) in d.byKey && d.byKey[key(d.procs[a])] == a)
    && (forall t :: 0 <= t < |d.threads| ==> d.threads[t].0 < |d.procs|)
  }

  /** `create_system_dim` over the first `n` locations, with processes
      looked up by `key(procId)`: a process is made for the first location
      of each key, and one thread for every location. */
  function SystemDimOf(locs: seq<TauLoc>, key: int -> int, n: nat): (d: SystemDim)
    requires n <= |locs|
    ensures DimWellFormed(d, key)
    ensures |d.threads| == n
    ensures forall t :: 0 <= t < n ==> key(d.procs[d.threads[t].0]) == key(locs[t].procId)
                                       && d.threads[t].1 == locs[t].thrdId
  {
    if n == 0 then SystemDim(map[], [], [])
    else
      var prev := SystemDimOf(locs, key, n - 1);
      var loc := locs[n - 1];
      var k := key(loc.procId);
      if k in prev.byKey then
        SystemDim(prev.byKey, prev.procs, prev.threads + [(prev.byKey[k], loc.thrdId)])
      else
        var p := |prev.procs|;
        SystemDim(prev.byKey[k := p], prev.procs + [loc.procId], prev.threads + [(p, loc.thrdId)])
  }

  /** Keyed by the proc id itself, distinct processes have distinct proc
      ids and every thread's process carries its location's proc id. */
  lemma OneProcessPerProcId(locs: seq<TauLoc>)
    ensures var d := SystemDimOf(locs, Id, |locs|);
            && (forall a, b :: 0 <= a < b < |d.procs| ==> d.procs[a] != d.procs[b])
            && (forall t :: 0 <= t < |locs| ==> d.procs[d.threads[t].0] == locs[t].procId)
  {
    var d := SystemDimOf(locs, Id, |locs|);
    forall a, b | 0 <= a < b < |d.procs| ensures d.procs[a] != d.procs[b] {
      assert d.byKey[Id(d.procs[a])] == a && d.byKey[Id(d.procs[b])] == b;
    }
  }

  /** As written, the map is keyed by the proc id cut to 32 bits: two
      locations whose proc ids differ by 2^32 share one process, and the
      second location's thread lands in a process with the other proc id. */
  lemma TruncatedKeyMergesProcesses()
    ensures var locs := [TauLoc(0, 0), TauLoc(0x1_0000_0000, 0)];
            var d := SystemDimOf(locs, Trunc32, 2);
            |d.procs| == 1 && d.procs[d.threads[1].0] != locs[1].procId
  {
    var locs := [TauLoc(0, 0), TauLoc(0x1_0000_0000, 0)];
    var d1 := SystemDimOf(locs, Trunc32, 1);
    assert SystemDimOf(locs, Trunc32, 0) == SystemDim(map[], [], []);
    assert Trunc32(0) == 0;
    assert d1 == SystemDim(map[0 := 0], [0], [(0, 0)]);
    assert Trunc32(0x1_0000_0000) == 0;
  }

  // ---------------------------------------------------------------------
  // Severities
  // ---------------------------------------------------------------------

  /** What the profile holds for one (metric, call path, location). */
  datatype TauData = TauData(incl: real, ncalls: int)

  /** The metric a severity is written to: a TAU metric, or CALLS. */
  datatype Target = TauMetric(index: nat) | Calls

  datatype Write = Write(target: Target, cpath: nat, loc: nat, value: real)

  /** The writes of one (metric `i`, call path `j`, location `k`) step of
      `enter_severity`. */
  function Cell(profile: seq<Cpath>, isTime: nat -> bool, data: (nat, nat, nat) -> Option<TauData>,
                i: nat, j: nat, k: nat): (ws: seq<Write>)
    requires j < |profile|
    ensures !Mapped(profile, j) ==> ws == []
    ensures Mapped(profile, j) ==> |ws| == (if i == 0 then 2 else 1)
    ensures Mapped(profile, j) ==> ws[0].target == TauMetric(i) && ws[0].cpath == j && ws[0].loc == k
    ensures Mapped(profile, j) && data(i, j, k).None? ==> ws[0].value == 0.0
    ensures Mapped(profile, j) && data(i, j, k).Some? && isTime(i) ==> ws[0].value * 1000000.0 == data(i, j, k).value.incl
    ensures Mapped(profile, j) && data(i, j, k).Some? && !isTime(i) ==> ws[0].value == data(i, j, k).value.incl
    ensures Mapped(profile, j) && i == 0
            ==> ws[1] == Write(Calls, j, k, if data(0, j, k).Some? then data(0, j, k).value.ncalls as real else 0.0)
  {
    if !Mapped(profile, j) then []
    else
      var d := data(i, j, k);
      var value := if d.Some? then d.value.incl else 0.0;
      var ncalls := if d.Some? then d.value.ncalls else 0;
      var scaled := if isTime(i) then value / 1000000.0 else value;
      [Write(TauMetric(i), j, k, scaled)] + (if i == 0 then [Write(Calls, j, k, ncalls as real)] else [])
  }

  function LocCells(profile: seq<Cpath>, isTime: nat -> bool, data: (nat, nat, nat) -> Option<TauData>,
                    i: nat, j: nat, nk: nat): (ws: seq<Write>)
    requires j < |profile|
    ensures forall w :: w in ws ==> exists k :: 0 <= k < nk && w in Cell(profile, isTime, data, i, j, k)
  {
    if nk == 0 then []
    else LocCells(profile, isTime, data, i, j, nk - 1) + Cell(profile, isTime, data, i, j, nk - 1)
  }

  function CpathCells(profile: seq<Cpath>, isTime: nat -> bool, data: (nat, nat, nat) -> Option<TauData>,
                      i: nat, nj: nat, nlocs: nat): (ws: seq<Write>)
    requires nj <= |profile|
    ensures forall w :: w in ws ==> exists j, k :: 0 <= j < nj && 0 <= k < nlocs && w in Cell(profile, isTime, data, i, j, k)
  {
    if nj == 0 then []
    else CpathCells(profile, isTime, data, i, nj - 1, nlocs) + LocCells(profile, isTime, data, i, nj - 1, nlocs)
  }

  /** `enter_severity`: metrics, then call paths, then locations, in
      profile order. */
  function EnterSeverity(profile: seq<Cpath>, isTime: nat -> bool, data: (nat, nat, nat) -> Option<TauData>,
                         ni: nat, nlocs: nat): (ws: seq<Write>)
    ensures forall w :: w in ws ==> exists i, j, k :: 0 <= i < ni && 0 <= j < |profile| && 0 <= k < nlocs
                                                     && w in Cell(profile, isTime, data, i, j, k)
  {
    if ni == 0 then []
    else EnterSeverity(profile, isTime, data, ni - 1, nlocs) + CpathCells(profile, isTime, data, ni - 1, |profile|, nlocs)
  }

  /** Every write is for a call path that has a call-tree node, and every
      CALLS write carries the call count of the first metric. */
  lemma WritesAreMappedAndCallsFromFirstMetric(profile: seq<Cpath>, isTime: nat -> bool,
                                                data: (nat, nat, nat) -> Option<TauData>, ni: nat, nlocs: nat, w: Write)
    requires w in EnterSeverity(profile, isTime, data, ni, nlocs)
    ensures w.cpath < |profile| && Mapped(profile, w.cpath) && w.loc < nlocs
    ensures w.target.TauMetric? ==> w.target.index < ni
    ensures w.target.Calls? ==> w.value == (if data(0, w.cpath, w.loc).Some? then data(0, w.cpath, w.loc).value.ncalls as real else 0.0)
  {
    var i, j, k :| 0 <= i < ni && 0 <= j < |profile| && 0 <= k < nlocs && w in Cell(profile, isTime, data, i, j, k);
    var ws := Cell(profile, isTime, data, i, j, k);
    assert Mapped(profile, j);
    assert w == ws[0] || (i == 0 && w == ws[1]);
  }
}
