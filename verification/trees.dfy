/**
  The two read-only trees the metric engine walks: the call-path tree of
  Cnodes and the system-resource tree (SystemTreeNode, LocationGroup,
  Location). Both are immutable values; ids are the dense ids the report
  assigned at construction.
*/
module Trees {
  import opened CubeTypes

  /** Clustering remap of a clustered cnode: process rank to the
      representative cnode id, and rank to the normalisation divisor. */
  datatype Clustering = Clustering(remap: map<int, nat>, norm: map<int, int>)

  /** A call-path node: id, hidden ("collapsed into the parent") flag,
      ordered children and the optional clustering remap. */
  datatype Cnode = Cnode(id: nat, hidden: bool, children: seq<Cnode>, cluster: Option<Clustering>)

  /** All descendants of `c` (not `c` itself), in pre-order. The library's
      `get_whole_subtree` is not part of this model; every caller pushes
      the child itself and then its whole subtree, which is consistent only
      with a subtree that leaves the node out, so no node is counted
      twice. */
  function WholeSubtree(c: Cnode): seq<Cnode>
    decreases c, 1
  {
    SubtreesOf(c.children)
  }

  /** Each node of `cs` followed by its whole subtree, in order. */
  function SubtreesOf(cs: seq<Cnode>): seq<Cnode>
    decreases cs, 0
  {
    if |cs| == 0 then [] else [cs[0]] + WholeSubtree(cs[0]) + SubtreesOf(cs[1..])
  }

  /** `total_num_children`: the number of all descendants. */
  function TotalNumChildren(c: Cnode): nat
  {
    |WholeSubtree(c)|
  }

  /** The direct children that are not hidden, in order. */
  function VisibleChildren(cs: seq<Cnode>): (vs: seq<Cnode>)
    ensures |vs| <= |cs|
  {
    if |cs| == 0 then []
    else (if cs[0].hidden then [] else [cs[0]]) + VisibleChildren(cs[1..])
  }

  /** The visible children are exactly the children that are not hidden. */
  lemma {:induction false} VisibleChildrenMembers(cs: seq<Cnode>, v: Cnode)
    ensures v in VisibleChildren(cs) <==> v in cs && !v.hidden
    decreases |cs|
  {
    if |cs| > 0 {
      VisibleChildrenMembers(cs[1..], v);
      assert cs == [cs[0]] + cs[1..];
    }
  }

  /** Leaf of the system tree: one measurement stream. `rank` is the rank
      of the process (location group) that owns it. */
  datatype Location = Location(id: nat, rank: int)

  /** A process: its rank and its locations. */
  datatype LocationGroup = LocationGroup(id: nat, rank: int, locations: seq<Location>)

  /** An internal node of the system tree: child nodes and location groups. */
  datatype SystemTreeNode = SystemTreeNode(id: nat, children: seq<SystemTreeNode>, groups: seq<LocationGroup>)

  /** Any system resource, as a query names it. */
  datatype Sysres = Stn(node: SystemTreeNode) | Group(group: LocationGroup) | Loc(loc: Location)

  function SysresId(s: Sysres): nat
  {
    match s
    case Stn(n) => n.id
    case Group(g) => g.id
    case Loc(l) => l.id
  }

  /** The locations below a system-tree node: those under its child nodes
      first, then those of its own groups. */
  function StnLocations(n: SystemTreeNode): seq<Location>
    decreases n, 1
  {
    StnsLocations(n.children) + GroupsLocations(n.groups)
  }

  function StnsLocations(ns: seq<SystemTreeNode>): seq<Location>
    decreases ns, 0
  {
    if |ns| == 0 then [] else StnLocations(ns[0]) + StnsLocations(ns[1..])
  }

  function GroupsLocations(gs: seq<LocationGroup>): seq<Location>
  {
    if |gs| == 0 then [] else gs[0].locations + GroupsLocations(gs[1..])
  }

  /** `get_whole_subtree` of a system resource: the locations it covers. */
  function Locations(s: Sysres): seq<Location>
  {
    match s
    case Stn(n) => StnLocations(n)
    case Group(g) => g.locations
    case Loc(l) => [l]
  }

  /** All system-tree nodes of the tree rooted at `n`, `n` included. */
  function StnSet(n: SystemTreeNode): set<SystemTreeNode>
    decreases n, 1
  {
    {n} + StnSetOf(n.children)
  }

  function StnSetOf(ns: seq<SystemTreeNode>): set<SystemTreeNode>
    decreases ns, 0
  {
    if |ns| == 0 then {} else StnSet(ns[0]) + StnSetOf(ns[1..])
  }

  /** Distinct system-tree nodes carry distinct ids. */
  ghost predicate UniqueStnIds(s: set<SystemTreeNode>)
  {
    forall a, b :: a in s && b in s && a.id == b.id ==> a == b
  }

  lemma {:induction false} StnSetOfContains(ns: seq<SystemTreeNode>, i: nat)
    requires i < |ns|
    ensures StnSet(ns[i]) <= StnSetOf(ns)
    decreases i
  {
    if i > 0 {
      StnSetOfContains(ns[1..], i - 1);
      assert ns[1..][i - 1] == ns[i];
    }
  }
}
