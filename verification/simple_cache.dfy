/**
  The per-metric severity cache. It holds five independent stores keyed by
  one integer key: calculated values per (cnode, flavour) ("sum") and per
  (cnode, flavour, system-tree node, flavour) ("stn"), each once for the
  generic value objects and once for the build-in arithmetic type, plus
  whole rows per (cnode, flavour). Only the flavour that is NOT the metric's
  own is ever cached, and system-tree values only for call paths with many
  children. Every store inserts only if the key is absent: the first value
  stored under a key wins.
*/
module SimpleCache {
  import opened CubeTypes
  import opened Trees

  /** `stride` is the bound the key formula multiplies by; the source uses
      the number of locations there (see `New` and `NewCorrected`). */
  datatype Cache<T> = Cache(
    numberCnodes: nat,
    numberLoc: nat,
    locSize: nat,
    myf: Flavour,
    threshold: int,
    stride: nat,
    stn: map<int, T>,
    sum: map<int, T>,
    tStn: map<int, T>,
    tSum: map<int, T>,
    rows: map<int, seq<T>>,
    prepared: T)

  /** A fresh cache, as constructed: all stores empty. `threshold` is the
      truncated product 0.7 * numberCnodes, taken as given. */
  function New<T>(numberCnodes: nat, numberLoc: nat, locSize: nat, myf: Flavour, threshold: int, initial: T): (c: Cache<T>)
    ensures c.stn == c.sum == c.tStn == c.tSum == map[] && c.rows == map[]
    ensures c.stride == numberLoc && c.myf == myf
  {
    Cache(numberCnodes, numberLoc, locSize, myf, threshold, numberLoc, map[], map[], map[], map[], map[], initial)
  }

  /** The same cache with a key stride that covers every system-tree node id. */
  function NewCorrected<T>(numberCnodes: nat, numberLoc: nat, numberStns: nat, locSize: nat, myf: Flavour,
                           threshold: int, initial: T): (c: Cache<T>)
    ensures c.stride >= numberLoc && c.stride >= numberStns
    ensures c.stn == c.sum == c.tStn == c.tSum == map[] && c.rows == map[]
  {
    Cache(numberCnodes, numberLoc, locSize, myf, threshold,
          if numberStns > numberLoc then numberStns else numberLoc,
          map[], map[], map[], map[], map[], initial)
  }

  /** Children count the eligibility test uses: all descendants when the
      metric is natively exclusive, direct children otherwise. */
  function ChildCount<T>(cache: Cache<T>, c: Cnode): nat
  {
    if cache.myf == Exclusive then TotalNumChildren(c) else |c.children|
  }

  /** Whether a query is cached at all. */
  predicate Eligible<T>(cache: Cache<T>, c: Cnode, cf: Flavour, sys: Option<Sysres>)
  {
    cf != cache.myf && (sys.None? || (sys.value.Stn? && ChildCount(cache, c) > cache.threshold))
  }

  /** The cache key of a query, -1 for "do not cache". */
  function Key<T>(cache: Cache<T>, c: Cnode, cf: Flavour, sys: Option<Sysres>, sf: Flavour): (k: int)
    ensures k >= 0 <==> Eligible(cache, c, cf, sys)
    ensures k < 0 ==> k == -1
    ensures Eligible(cache, c, cf, sys) && sys.None? ==> k / 2 == c.id && k % 2 == Code(cf)
  {
    if cf == cache.myf then -1
    else if sys.None? then 2 * c.id + Code(cf)
    else if !sys.value.Stn? then -1
    else if ChildCount(cache, c) <= cache.threshold then -1
    else 2 * cache.stride * (2 * c.id + Code(cf)) + 2 * SysresId(sys.value) + Code(sf)
  }

  /** The key depends only on the native flavour, the threshold and the stride. */
  lemma SameKeys<T>(a: Cache<T>, b: Cache<T>)
    requires a.myf == b.myf && a.threshold == b.threshold && a.stride == b.stride
    ensures forall c, cf, sys, sf :: Key(a, c, cf, sys, sf) == Key(b, c, cf, sys, sf)
  {
  }

  /** Two eligible system-tree queries whose node ids lie below the stride
      have the same key only if they are the same query. */
  lemma KeyInjective<T>(cache: Cache<T>, c1: Cnode, s1: SystemTreeNode, sf1: Flavour,
                        c2: Cnode, s2: SystemTreeNode, sf2: Flavour, cf: Flavour)
    requires Eligible(cache, c1, cf, Some(Stn(s1))) && Eligible(cache, c2, cf, Some(Stn(s2)))
    requires s1.id < cache.stride && s2.id < cache.stride
    requires Key(cache, c1, cf, Some(Stn(s1)), sf1) == Key(cache, c2, cf, Some(Stn(s2)), sf2)
    ensures c1.id == c2.id && s1.id == s2.id && sf1 == sf2
  {
    var n := 2 * cache.stride;
    var a1, a2 := 2 * c1.id + Code(cf), 2 * c2.id + Code(cf);
    var b1, b2 := 2 * s1.id + Code(sf1), 2 * s2.id + Code(sf2);
    assert n * a1 + b1 == n * a2 + b2;
    DivModUnique(n, a1, b1, a2, b2);
    CodeInjective(sf1, sf2);
  }

  lemma DivModUnique(n: int, a1: int, b1: int, a2: int, b2: int)
    requires 0 <= b1 < n && 0 <= b2 < n
    requires n * a1 + b1 == n * a2 + b2
    ensures a1 == a2 && b1 == b2
  {
    if a1 < a2 {
      assert n * a2 == n * a1 + n * (a2 - a1);
      MulAtLeast(n, a2 - a1);
    } else if a2 < a1 {
      assert n * a1 == n * a2 + n * (a1 - a2);
      MulAtLeast(n, a1 - a2);
    }
  }

  lemma {:induction false} MulAtLeast(n: int, d: int)
    requires n > 0 && d >= 1
    ensures n * d >= n
    decreases d
  {
    if d > 1 {
      MulAtLeast(n, d - 1);
      assert n * d == n * (d - 1) + n;
    }
  }

  /** The chain of `n` cnodes with ids `first`, `first + 1`, ...: each is the
      only child of the one before. */
  function Chain(first: nat, n: nat): (c: Cnode)
    requires n >= 1
    ensures c.id == first
    ensures TotalNumChildren(c) == n - 1
    decreases n
  {
    if n == 1 then
      var leaf := Cnode(first, false, [], None);
      assert WholeSubtree(leaf) == SubtreesOf([]) == [];
      leaf
    else
      var child := Chain(first + 1, n - 1);
      assert SubtreesOf([child]) == [child] + WholeSubtree(child) + SubtreesOf([]);
      Cnode(first, false, [child], None)
  }

  /** With the source's stride (the number of locations) two different
      queries share a key as soon as a system-tree node id reaches twice the
      number of locations: one location, a chain of seven call paths, the
      natively exclusive cache asked for INCLUSIVE values of (cnode 0,
      node 2) and (cnode 1, node 0). */
  lemma KeyCollisionAsWritten()
    ensures var cache := New<int>(7, 1, 8, Exclusive, 4, 0);
            var c0 := Chain(0, 7);
            var c1 := Chain(1, 6);
            var n0 := SystemTreeNode(0, [], []);
            var n2 := SystemTreeNode(2, [], []);
            && Eligible(cache, c0, Inclusive, Some(Stn(n2)))
            && Eligible(cache, c1, Inclusive, Some(Stn(n0)))
            && Key(cache, c0, Inclusive, Some(Stn(n2)), Inclusive) == Key(cache, c1, Inclusive, Some(Stn(n0)), Inclusive) == 4
  {
  }

  /** With the corrected stride every system-tree node id lies below it. */
  lemma CorrectedKeyInjective<T>(numberCnodes: nat, numberLoc: nat, numberStns: nat, locSize: nat, myf: Flavour,
                                 threshold: int, initial: T, c1: Cnode, s1: SystemTreeNode, sf1: Flavour,
                                 c2: Cnode, s2: SystemTreeNode, sf2: Flavour, cf: Flavour)
    requires s1.id < numberStns && s2.id < numberStns
    requires var cache := NewCorrected(numberCnodes, numberLoc, numberStns, locSize, myf, threshold, initial);
             && Eligible(cache, c1, cf, Some(Stn(s1))) && Eligible(cache, c2, cf, Some(Stn(s2)))
             && Key(cache, c1, cf, Some(Stn(s1)), sf1) == Key(cache, c2, cf, Some(Stn(s2)), sf2)
    ensures c1.id == c2.id && s1.id == s2.id && sf1 == sf2
  {
    var cache := NewCorrected(numberCnodes, numberLoc, numberStns, locSize, myf, threshold, initial);
    KeyInjective(cache, c1, s1, sf1, c2, s2, sf2, cf);
  }

  // ---------------------------------------------------------------------
  // The build-in arithmetic stores

  /** `isTCachedValue`: a hit also remembers the found value as the prepared value. */
  function IsTCached<T>(cache: Cache<T>, c: Cnode, cf: Flavour, sys: Option<Sysres>, sf: Flavour): (r: (bool, Cache<T>))
    ensures var k := Key(cache, c, cf, sys, sf);
            var store := if sys.Some? then cache.tStn else cache.tSum;
            && (r.0 <==> k >= 0 && k in store)
            && (r.0 ==> r.1 == cache.(prepared := store[k]))
            && (!r.0 ==> r.1 == cache)
  {
    var k := Key(cache, c, cf, sys, sf);
    var store := if sys.Some? then cache.tStn else cache.tSum;
    if k < 0 then (false, cache)
    else if k in store then (true, cache.(prepared := store[k]))
    else (false, cache)
  }

  /** `getTCachedValue`: the prepared value, or a fresh lookup answering
      `maxT` (the type's maximum) on a miss. */
  function GetTCached<T>(cache: Cache<T>, c: Cnode, cf: Flavour, sys: Option<Sysres>, sf: Flavour,
                         usePrepared: bool, maxT: T): (v: T)
    ensures usePrepared ==> v == cache.prepared
    ensures !usePrepared ==>
              var k := Key(cache, c, cf, sys, sf);
              var store := if sys.Some? then cache.tStn else cache.tSum;
              v == (if k >= 0 && k in store then store[k] else maxT)
  {
    if usePrepared then cache.prepared
    else
      var k := Key(cache, c, cf, sys, sf);
      var store := if sys.Some? then cache.tStn else cache.tSum;
      if k < 0 then maxT
      else if k in store then store[k]
      else maxT
  }

  /** Stores `v` under `k` unless `k` is negative or already present. */
  function InsertIfAbsent<V>(store: map<int, V>, k: int, v: V): (s: map<int, V>)
    ensures k >= 0 ==> k in s
    ensures k >= 0 && k !in store ==> s == store[k := v]
    ensures k < 0 || k in store ==> s == store
  {
    if k < 0 || k in store then store else store[k := v]
  }

  /** `setTCachedValue`. */
  function SetTCached<T>(cache: Cache<T>, v: T, c: Cnode, cf: Flavour, sys: Option<Sysres>, sf: Flavour): (r: Cache<T>)
    ensures var k := Key(cache, c, cf, sys, sf);
            if sys.Some? then r == cache.(tStn := InsertIfAbsent(cache.tStn, k, v))
            else r == cache.(tSum := InsertIfAbsent(cache.tSum, k, v))
  {
    var k := Key(cache, c, cf, sys, sf);
    if sys.Some? then cache.(tStn := InsertIfAbsent(cache.tStn, k, v))
    else cache.(tSum := InsertIfAbsent(cache.tSum, k, v))
  }

  /** After a store, an eligible query finds a value, and it is the stored
      one unless a value was already present under that key (first write wins). */
  lemma SetThenGetT<T>(cache: Cache<T>, v: T, c: Cnode, cf: Flavour, sys: Option<Sysres>, sf: Flavour, maxT: T)
    requires Eligible(cache, c, cf, sys)
    ensures var after := SetTCached(cache, v, c, cf, sys, sf);
            var hit := IsTCached(after, c, cf, sys, sf);
            var before := IsTCached(cache, c, cf, sys, sf);
            && hit.0
            && GetTCached(after, c, cf, sys, sf, false, maxT)
               == (if before.0 then GetTCached(cache, c, cf, sys, sf, false, maxT) else v)
            && GetTCached(hit.1, c, cf, sys, sf, true, maxT) == GetTCached(after, c, cf, sys, sf, false, maxT)
  {
  }

  /** A query the cache does not take leaves it unchanged and never hits. */
  lemma IneligibleIsNoOp<T>(cache: Cache<T>, v: T, c: Cnode, cf: Flavour, sys: Option<Sysres>, sf: Flavour)
    requires !Eligible(cache, c, cf, sys)
    ensures SetTCached(cache, v, c, cf, sys, sf) == cache
    ensures SetCachedValue(cache, Some(v), c, cf, sys, sf) == cache
    ensures !IsTCached(cache, c, cf, sys, sf).0
    ensures GetCachedValue(cache, c, cf, sys, sf) == None
  {
  }

  // ---------------------------------------------------------------------
  // The generic value stores

  /** `getCachedValue`: a copy of the stored value, or NULL. */
  function GetCachedValue<T>(cache: Cache<T>, c: Cnode, cf: Flavour, sys: Option<Sysres>, sf: Flavour): (r: Option<T>)
    ensures var k := Key(cache, c, cf, sys, sf);
            var store := if sys.Some? then cache.stn else cache.sum;
            r.Some? <==> k >= 0 && k in store
    ensures r.Some? ==> r.value == (if sys.Some? then cache.stn else cache.sum)[Key(cache, c, cf, sys, sf)]
  {
    var k := Key(cache, c, cf, sys, sf);
    var store := if sys.Some? then cache.stn else cache.sum;
    if k >= 0 && k in store then Some(store[k]) else None
  }

  /** `setCachedValue`: stores a copy of `v` if the key is absent. A NULL
      value is not stored. */
  function SetCachedValue<T>(cache: Cache<T>, v: Option<T>, c: Cnode, cf: Flavour, sys: Option<Sysres>, sf: Flavour): (r: Cache<T>)
    ensures r.tStn == cache.tStn && r.tSum == cache.tSum && r.rows == cache.rows
    ensures v.None? ==> r == cache
    ensures v.Some? && Eligible(cache, c, cf, sys) ==> GetCachedValue(r, c, cf, sys, sf).Some?
    ensures v.Some? && GetCachedValue(cache, c, cf, sys, sf).None? && Eligible(cache, c, cf, sys)
            ==> GetCachedValue(r, c, cf, sys, sf) == v
    ensures GetCachedValue(cache, c, cf, sys, sf).Some? ==> r == cache
  {
    var k := Key(cache, c, cf, sys, sf);
    if v.None? then cache
    else if sys.Some? then cache.(stn := InsertIfAbsent(cache.stn, k, v.value))
    else cache.(sum := InsertIfAbsent(cache.sum, k, v.value))
  }

  // ---------------------------------------------------------------------
  // Rows

  /** Every cached row has one entry per location. */
  ghost predicate RowsSized<T>(cache: Cache<T>)
  {
    forall k :: k in cache.rows ==> |cache.rows[k]| == cache.numberLoc
  }

  /** `getCachedRow`: a copy of the cached row for (cnode, flavour), or NULL. */
  function GetCachedRow<T>(cache: Cache<T>, c: Cnode, cf: Flavour): (r: Option<seq<T>>)
    ensures r.Some? <==> cf != cache.myf && 2 * c.id + Code(cf) in cache.rows
    ensures r.Some? ==> r.value == cache.rows[2 * c.id + Code(cf)]
  {
    var k := Key(cache, c, cf, None, Inclusive);
    if k >= 0 && k in cache.rows then Some(cache.rows[k]) else None
  }

  /** `setCachedRow`: copies the row (one entry per location) if absent. */
  function SetCachedRow<T>(cache: Cache<T>, row: seq<T>, c: Cnode, cf: Flavour): (r: Cache<T>)
    requires |row| == cache.numberLoc
    ensures r.stn == cache.stn && r.sum == cache.sum && r.tStn == cache.tStn && r.tSum == cache.tSum
    ensures cf != cache.myf ==> GetCachedRow(r, c, cf)
                                 == (if GetCachedRow(cache, c, cf).Some? then GetCachedRow(cache, c, cf) else Some(row))
    ensures cf == cache.myf ==> r == cache
    ensures RowsSized(cache) ==> RowsSized(r)
  {
    cache.(rows := InsertIfAbsent(cache.rows, Key(cache, c, cf, None, Inclusive), row))
  }

  // ---------------------------------------------------------------------
  // Invalidation

  /** `invalidateCachedValue`: erases the query's key from all five stores. */
  function InvalidateCachedValue<T>(cache: Cache<T>, c: Cnode, cf: Flavour, sys: Option<Sysres>, sf: Flavour): (r: Cache<T>)
    ensures var k := Key(cache, c, cf, sys, sf);
            && k !in r.stn && k !in r.sum && k !in r.tStn && k !in r.tSum && k !in r.rows
            && (forall j :: j in cache.stn && j != k ==> j in r.stn && r.stn[j] == cache.stn[j])
            && (forall j :: j in cache.sum && j != k ==> j in r.sum && r.sum[j] == cache.sum[j])
            && (forall j :: j in cache.tStn && j != k ==> j in r.tStn && r.tStn[j] == cache.tStn[j])
            && (forall j :: j in cache.tSum && j != k ==> j in r.tSum && r.tSum[j] == cache.tSum[j])
            && (forall j :: j in cache.rows && j != k ==> j in r.rows && r.rows[j] == cache.rows[j])
    ensures r.stn.Keys <= cache.stn.Keys && r.sum.Keys <= cache.sum.Keys && r.rows.Keys <= cache.rows.Keys
  {
    var k := Key(cache, c, cf, sys, sf);
    cache.(stn := cache.stn - {k}, sum := cache.sum - {k}, tStn := cache.tStn - {k}, tSum := cache.tSum - {k},
           rows := cache.rows - {k})
  }

  /** After invalidation the query misses in every store it can be looked up in. */
  lemma InvalidateThenMiss<T>(cache: Cache<T>, c: Cnode, cf: Flavour, sys: Option<Sysres>, sf: Flavour)
    ensures var r := InvalidateCachedValue(cache, c, cf, sys, sf);
            && !IsTCached(r, c, cf, sys, sf).0
            && GetCachedValue(r, c, cf, sys, sf).None?
            && (sys.None? ==> GetCachedRow(r, c, cf).None?)
  {
  }

  /** `invalidate`: every store emptied; sizes and threshold kept. */
  function Invalidate<T>(cache: Cache<T>): (r: Cache<T>)
    ensures r.stn == r.sum == r.tStn == r.tSum == map[] && r.rows == map[]
    ensures r.numberCnodes == cache.numberCnodes && r.numberLoc == cache.numberLoc && r.myf == cache.myf
    ensures r.threshold == cache.threshold && r.stride == cache.stride
    ensures forall c, cf, sys, sf :: !IsTCached(r, c, cf, sys, sf).0 && GetCachedValue(r, c, cf, sys, sf).None?
  {
    cache.(stn := map[], sum := map[], tStn := map[], tSum := map[], rows := map[])
  }
}
