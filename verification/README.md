# Cube metric calculations, the TAU-to-Cube conversion and the OPARI2 adapter, in Dafny

This project models three parts of Score-P and its bundled Cube library:

- **Cube metric severities.** The Cube library (cubelib) computes a
  metric's severity for a call path (a *cnode*) and a system resource.
  The severity can be for one location, a location group, a system-tree
  node, or all locations. It can be INCLUSIVE (the node and everything
  below it) or EXCLUSIVE (the node without its visible children).
  The model covers:
  - the natively exclusive and natively inclusive build-in metrics, and
    the generic `Value` metrics;
  - the pre-derived metrics (CubePL expressions evaluated per location)
    and the post-derived metrics (CubePL expressions over aggregated
    values);
  - the `SimpleCache` that remembers computed severities;
  - the rows manager that hands out severity rows;
  - two value types (`uint16` and rate);
  - the CubePL `defined(...)` expression.
- **`tau2cube`.** This tool turns a TAU profile into a Cube:
  - it finds each call path's parent;
  - it builds the call tree, keeping or dropping roots;
  - it builds a one-node system tree;
  - it enters the severities.
- **The Score-P instrumenter's OPARI2 adapter.** It covers the adapter's
  options, its configuration and defaults, and the OPARI2 command line it
  builds.

Cube's trees are immutable datatypes (`Trees`):
- a `Cnode` holds an id, a hidden flag, its children and optional
  clustering data;
- the system tree is made of nodes, location groups and locations.

A metric's elementary data is a function `elem(cnode id, location)`. Its
`+`, `-` and aggregation operators are parameters (`CubeTypes.Ops`). The
cache and every query are pure functions or methods. Each one returns the
new cache next to its answer.

The central invariant is *coherence*: every value in the cache is the
value its query would compute. Each query's contract says two things:
- with a coherent cache, it answers the computed value;
- it leaves the cache coherent.

Two independent definitions of the computed value are tied together by
lemmas:
- the natively exclusive one, a sum over the collected cnodes;
- the natively inclusive one, the node's own value minus its visible
  children's values.

Where the code departs from what it evidently intends (see "## Findings"),
the model keeps the code as written and the corrected definition side by
side. The intended property is proved about the corrected one, and a lemma
states exactly where the two differ. The generic metrics' queries use the
values as written: the `v = tmp` overwrite in the exclusive aggregated sum
and the added children in the inclusive location value. The post-derived
system-tree query is modelled both ways, as `SystemTreeSevsAsWritten` and
`SystemTreeSevs`.

Doubles are modelled as `real`, and a `uint16` as an integer taken modulo
2^16. NULL values are `Option`.

## Model

| member | source | states |
|---|---|---|
| CubeTypes.Code | vendor/cubelib/src/cube/include/dimensions/metric/cache/CubeSimpleCache.h:365-368 | a flavour enters a cache key as 0 (INCLUSIVE) or 1 (EXCLUSIVE), and different flavours get different codes |
| Trees.VisibleChildrenMembers | vendor/cubelib/src/cube/include/dimensions/metric/CubeInclusiveMetricBuildInType.h:288-296 | a cnode is among the subtracted children exactly when it is a child and not hidden |
| Aggregation.Collected | vendor/cubelib/src/cube/include/dimensions/metric/CubeExclusiveMetricBuildInType.h:288-303 | the list of cnodes a natively exclusive query sums over starts with the queried cnode itself |
| Aggregation.CollectedInclusiveIsWholeSubtree | vendor/cubelib/src/cube/include/dimensions/metric/CubeExclusiveMetricBuildInType.h:288-303 | an INCLUSIVE query collects the cnode and its whole subtree |
| Aggregation.ExclusiveCollectedIsSublist | vendor/cubelib/src/cube/include/dimensions/metric/CubeExclusiveMetricBuildInType.h:288-303 | the EXCLUSIVE list is the INCLUSIVE list with exactly the blocks of the visible children removed |
| Aggregation.LeafFlavoursAgree | vendor/cubelib/src/cube/include/dimensions/metric/CubeExclusiveMetricBuildInType.h:288-317 | for a leaf, INCLUSIVE and EXCLUSIVE queries of a natively exclusive metric give the same value |
| Aggregation.ExclusiveValueIsRowSum | vendor/cubelib/src/cube/include/dimensions/metric/CubeExclusiveMetricBuildInType.h:304-317 | the aggregated value is the sum of the entries of the row `get_sevs_raw` builds for the same query |
| Aggregation.ExclusiveKindIntValue | vendor/cubelib/src/cube/include/dimensions/metric/CubeExclusiveMetricBuildInType.h:304-317 | with integer operators the aggregated value is the double sum of `elem` over collected cnodes and locations |
| Aggregation.InclusiveKindExclusiveFormula | vendor/cubelib/src/cube/include/dimensions/metric/CubeInclusiveMetricBuildInType.h:288-310 | natively inclusive: the EXCLUSIVE value is the INCLUSIVE value minus the location sums of the visible children; hidden children are never subtracted |
| Aggregation.InclusiveRowEntryFormula | vendor/cubelib/src/cube/include/dimensions/metric/CubeInclusiveMetricBuildInType.h:440-470 | a row entry of a natively inclusive EXCLUSIVE row is the node's own value minus each visible child's value at that location |
| Aggregation.KindsAgree | vendor/cubelib/src/cube/include/dimensions/metric/CubeInclusiveMetricBuildInType.h:256-316 | storing a measurement inclusively (subtree sums) or exclusively gives the same answer at every location, for both flavours |
| Aggregation.HiddenBlocksMaskSelectsExclusive | vendor/cubelib/src/cube/include/dimensions/metric/CubeExclusiveMetricBuildInType.h:288-303 | deleting the blocks of visible children from the INCLUSIVE collection gives the EXCLUSIVE collection |
| BuildIn.CollectCnodes | vendor/cubelib/src/cube/include/dimensions/metric/CubeExclusiveMetricBuildInType.h:288-303 | the collection loop gathers the cnode, then each hidden child (every child, for INCLUSIVE) with its whole subtree |
| BuildIn.VisibleOf | vendor/cubelib/src/cube/include/dimensions/metric/CubeInclusiveMetricBuildInType.h:288-296 | the loop picking out the children to subtract yields exactly the visible children, in order |
| BuildIn.LocationSum | vendor/cubelib/src/cube/include/dimensions/metric/CubeExclusiveMetricBuildInType.h:304-317 | the loop over the locations is the aggregation fold of one cnode's elementary values |
| BuildIn.ToDoubles | vendor/cubelib/src/cube/include/dimensions/metric/CubeExclusiveMetricBuildInType.h:460-478 | a raw row becomes one double per location, and a missing row becomes zeros |
| ExclusiveBuildIn.SerializationKey | vendor/cubelib/src/cube/include/dimensions/metric/CubeExclusiveMetricBuildInType.h:129-132 | the key is the prefix `Metric`, `Exclusive` (joined by vertical bars, 17 characters) followed by the value type |
| ExclusiveBuildIn.Descriptor | vendor/cubelib/src/cube/include/dimensions/metric/CubeExclusiveMetricBuildInType.h:133-150 | a metric reporting the class's kind (EXCLUSIVE) meets the no-data guard of lines 282, 347 and 406 exactly when its severity matrix is absent; the index format is SPARSE and the kind name "EXCLUSIVE" |
| ExclusiveBuildIn.SevAggregated | vendor/cubelib/src/cube/include/dimensions/metric/CubeExclusiveMetricBuildInType.h:270-323 | zero when inactive; on a cache hit the cached value; otherwise the collected sum. With a coherent cache it answers the collected sum and keeps the cache coherent |
| ExclusiveBuildIn.ExclusiveSum | vendor/cubelib/src/cube/include/dimensions/metric/CubeExclusiveMetricBuildInType.h:304-317 | the nested loop computes the natively exclusive value |
| ExclusiveBuildIn.SumStoreKeepsCoherence | vendor/cubelib/src/cube/include/dimensions/metric/CubeExclusiveMetricBuildInType.h:318-321 | storing the computed aggregated value keeps a coherent cache coherent |
| ExclusiveBuildIn.SevPointlike | vendor/cubelib/src/cube/include/dimensions/metric/CubeExclusiveMetricBuildInType.h:329-391 | zero when inactive or for an EXCLUSIVE query on a node or group; zero with no data; the cached value on a hit; otherwise the sum over the resource's locations. Keeps a coherent cache coherent |
| ExclusiveBuildIn.StnHitIsExpected | vendor/cubelib/src/cube/include/dimensions/metric/CubeExclusiveMetricBuildInType.h:352-355 | in a coherent cache a system-tree hit holds the value the query would compute |
| ExclusiveBuildIn.StnStoreKeepsCoherence | vendor/cubelib/src/cube/include/dimensions/metric/CubeExclusiveMetricBuildInType.h:386-389 | storing a computed system-tree value keeps the cache coherent |
| ExclusiveBuildIn.SevNative | vendor/cubelib/src/cube/include/dimensions/metric/CubeExclusiveMetricBuildInType.h:244-259 | without a system resource, the aggregated value; with one, the point-like value |
| ExclusiveBuildIn.SevsRaw | vendor/cubelib/src/cube/include/dimensions/metric/CubeExclusiveMetricBuildInType.h:398-456 | NULL when inactive or without data; the cached row on a hit; otherwise one collected sum per location. Keeps cached rows coherent |
| ExclusiveBuildIn.RowStoreKeepsCoherence | vendor/cubelib/src/cube/include/dimensions/metric/CubeExclusiveMetricBuildInType.h:451-454 | storing a computed row keeps the cached rows coherent |
| ExclusiveBuildIn.SevsNative | vendor/cubelib/src/cube/include/dimensions/metric/CubeExclusiveMetricBuildInType.h:460-478 | one double per location, zeros without data, each the row entry of the collected sum |
| InclusiveBuildIn.SerializationKey | vendor/cubelib/src/cube/include/dimensions/metric/CubeInclusiveMetricBuildInType.h:408-411 | the key is the prefix `Metric`, `Inclusive` (joined by vertical bars, 17 characters) followed by the value type |
| InclusiveBuildIn.Descriptor | vendor/cubelib/src/cube/include/dimensions/metric/CubeInclusiveMetricBuildInType.h:124-141 | a metric reporting the class's kind (INCLUSIVE) meets the value guards of lines 270 and 339 exactly when its severity matrix is absent and never the row guard of line 423; the index format is DENSE and the kind name "INCLUSIVE" |
| InclusiveBuildIn.InclusiveSum | vendor/cubelib/src/cube/include/dimensions/metric/CubeInclusiveMetricBuildInType.h:275-310 | the loops compute the natively inclusive value: own sum, minus the visible children for EXCLUSIVE |
| InclusiveBuildIn.SubtractEach | vendor/cubelib/src/cube/include/dimensions/metric/CubeInclusiveMetricBuildInType.h:298-310 | the subtraction loop is the minus-fold of the children's location sums |
| InclusiveBuildIn.SevAggregated | vendor/cubelib/src/cube/include/dimensions/metric/CubeInclusiveMetricBuildInType.h:256-316 | zero when inactive; the cached value on a hit; otherwise the inclusive formula. Keeps a coherent cache coherent |
| InclusiveBuildIn.SumStoreKeepsCoherence | vendor/cubelib/src/cube/include/dimensions/metric/CubeInclusiveMetricBuildInType.h:311-314 | storing the computed aggregated value keeps the cache coherent |
| InclusiveBuildIn.SevPointlike | vendor/cubelib/src/cube/include/dimensions/metric/CubeInclusiveMetricBuildInType.h:327-389 | as the exclusive point-like query, with the inclusive formula over the resource's locations |
| InclusiveBuildIn.StnHitIsExpected | vendor/cubelib/src/cube/include/dimensions/metric/CubeInclusiveMetricBuildInType.h:344-347 | in a coherent cache a system-tree hit holds the computed value |
| InclusiveBuildIn.StnStoreKeepsCoherence | vendor/cubelib/src/cube/include/dimensions/metric/CubeInclusiveMetricBuildInType.h:384-387 | storing a computed system-tree value keeps the cache coherent |
| InclusiveBuildIn.SevNative | vendor/cubelib/src/cube/include/dimensions/metric/CubeInclusiveMetricBuildInType.h:234-249 | without a system resource, the aggregated value; with one, the point-like value |
| InclusiveBuildIn.SevsRaw | vendor/cubelib/src/cube/include/dimensions/metric/CubeInclusiveMetricBuildInType.h:415-476 | NULL when inactive or when the row guard fires; the cached row on a hit; otherwise the inclusive row. Keeps cached rows coherent |
| InclusiveBuildIn.OwnRow | vendor/cubelib/src/cube/include/dimensions/metric/CubeInclusiveMetricBuildInType.h:440-444 | the row of the node's own elementary values, one per location |
| InclusiveBuildIn.RowStoreKeepsCoherence | vendor/cubelib/src/cube/include/dimensions/metric/CubeInclusiveMetricBuildInType.h:471-474 | storing a computed row keeps the cached rows coherent |
| InclusiveBuildIn.SevsNative | vendor/cubelib/src/cube/include/dimensions/metric/CubeInclusiveMetricBuildInType.h:481-499 | one double per location, zeros when there is no row, each the inclusive row entry |
| InclusiveBuildIn.RowGuardNeverFires | vendor/cubelib/src/cube/include/dimensions/metric/CubeInclusiveMetricBuildInType.h:423 | the row query's guard tests for kind EXCLUSIVE, so for inclusive metrics it never fires, even when the value queries answer zero for lack of data |
| SimpleCache.New | vendor/cubelib/src/cube/include/dimensions/metric/cache/CubeSimpleCache.h:84-91 | a new cache has all stores empty and uses the number of locations as its key stride |
| SimpleCache.Key | vendor/cubelib/src/cube/include/dimensions/metric/cache/CubeSimpleCache.h:354-390 | the key is non-negative exactly for cached queries, -1 otherwise; an aggregated key encodes cnode id and flavour |
| SimpleCache.SameKeys | vendor/cubelib/src/cube/include/dimensions/metric/cache/CubeSimpleCache.h:354-390 | the key depends only on the native flavour, the threshold and the stride |
| SimpleCache.KeyInjective | vendor/cubelib/src/cube/include/dimensions/metric/cache/CubeSimpleCache.h:388 | two system-tree keys are equal only for the same query, provided node ids lie below the stride |
| SimpleCache.KeyCollisionAsWritten | vendor/cubelib/src/cube/include/dimensions/metric/cache/CubeSimpleCache.h:388 | with the source's stride (number of locations) two different system-tree queries share a key |
| SimpleCache.NewCorrected | vendor/cubelib/src/cube/include/dimensions/metric/cache/CubeSimpleCache.h:84-91 | the corrected cache's stride covers both the locations and the system-tree nodes |
| SimpleCache.CorrectedKeyInjective | vendor/cubelib/src/cube/include/dimensions/metric/cache/CubeSimpleCache.h:388 | with the corrected stride, equal system-tree keys mean the same query |
| SimpleCache.IsTCached | vendor/cubelib/src/cube/include/dimensions/metric/cache/CubeSimpleCache.h:160-191 | a hit exactly when the key is cached in the store for the query's kind; a hit remembers the found value |
| SimpleCache.GetTCached | vendor/cubelib/src/cube/include/dimensions/metric/cache/CubeSimpleCache.h:193-229 | the remembered value, or the stored value, or the type's maximum on a miss |
| SimpleCache.InsertIfAbsent | vendor/cubelib/src/cube/include/dimensions/metric/cache/CubeSimpleCache.h:245-259 | a value is stored under a non-negative key only if the key is absent |
| SimpleCache.SetTCached | vendor/cubelib/src/cube/include/dimensions/metric/cache/CubeSimpleCache.h:231-261 | stores into the system-tree or aggregated store according to the query; first write wins |
| SimpleCache.SetThenGetT | vendor/cubelib/src/cube/include/dimensions/metric/cache/CubeSimpleCache.h:231-261 | after a store a cached query hits, and finds the stored value unless one was there before |
| SimpleCache.IneligibleIsNoOp | vendor/cubelib/src/cube/include/dimensions/metric/cache/CubeSimpleCache.h:354-390 | an uncached query changes nothing and never hits |
| SimpleCache.GetCachedValue | vendor/cubelib/src/cube/include/dimensions/metric/cache/CubeSimpleCache.h:287-318 | a copy of the stored value exactly when its key is present, NULL otherwise |
| SimpleCache.SetCachedValue | vendor/cubelib/src/cube/include/dimensions/metric/cache/CubeSimpleCache.h:320-352 | a non-NULL value is stored if absent and then found; a present value is never replaced |
| SimpleCache.GetCachedRow | vendor/cubelib/src/cube/include/dimensions/metric/cache/CubeSimpleCache.h:424-445 | a row is found only for the non-native flavour and when it was stored |
| SimpleCache.SetCachedRow | vendor/cubelib/src/cube/include/dimensions/metric/cache/CubeSimpleCache.h:447-468 | stores a row for the non-native flavour if absent; other stores unchanged |
| SimpleCache.InvalidateCachedValue | vendor/cubelib/src/cube/include/dimensions/metric/cache/CubeSimpleCache.h:392-422 | the query's key is erased from all five stores and every other entry kept |
| SimpleCache.InvalidateThenMiss | vendor/cubelib/src/cube/include/dimensions/metric/cache/CubeSimpleCache.h:392-422 | after invalidation the query misses everywhere |
| SimpleCache.Invalidate | vendor/cubelib/src/cube/include/dimensions/metric/cache/CubeSimpleCache.h:470-479 | every store emptied, sizes kept, and every query misses |
| GenericMetrics.SerializationKey | vendor/cubelib/src/cube/src/dimensions/metric/CubeExclusiveMetric.cpp:361-364 | the generic keys join `Metric`, the family name and `Generic` with vertical bars, and the family decides the middle word |
| GenericMetrics.SevPointlike | vendor/cubelib/src/cube/src/dimensions/metric/CubeExclusiveMetric.cpp:68-193 | NULL when inactive or for an EXCLUSIVE query on a node or group; only the system-tree value store changes. The inclusive family's get_sev_pointlike (CubeInclusiveMetric.cpp:75-200) is the same member, with the location value as written, children added |
| GenericMetrics.PointlikeIsPure | vendor/cubelib/src/cube/src/dimensions/metric/CubeExclusiveMetric.cpp:94-193 | through a coherent cache the recursive point-like query answers the uncached recursive sum of the as-written location values (for the inclusive family, own value plus visible children on an EXCLUSIVE query) and keeps the cache coherent |
| GenericMetrics.StoreKeepsCoherence | vendor/cubelib/src/cube/src/dimensions/metric/CubeExclusiveMetric.cpp:188-191 | storing the computed system-tree value, the sum of the as-written location values, keeps the cache coherent |
| GenericMetrics.PointGroupKeeps | vendor/cubelib/src/cube/src/dimensions/metric/CubeExclusiveMetric.cpp:130-149 | a location group is never cached, so its query leaves the cache as it was |
| GenericMetrics.IneligibleMisses | vendor/cubelib/src/cube/src/dimensions/metric/CubeExclusiveMetric.cpp:85-92 | a location or group never hits the cache |
| GenericMetrics.SevAggregated | vendor/cubelib/src/cube/src/dimensions/metric/CubeExclusiveMetric.cpp:201-262 | a fresh value when inactive; the cached copy on a hit; otherwise the value as written (for the exclusive family the first cnode's `v = tmp` overwrite), stored when cacheable |
| GenericMetrics.AggregatedIsCoherent | vendor/cubelib/src/cube/src/dimensions/metric/CubeInclusiveMetric.cpp:208-274 | through a cache whose every sum is the as-written aggregated value, the aggregated query answers that value and keeps the cache so |
| GenericMetrics.SevNative | vendor/cubelib/src/cube/src/dimensions/metric/CubeExclusiveMetric.cpp:269-284 | inactive: a fresh value without a system resource, NULL with one; NULL for an EXCLUSIVE node or group query |
| GenericMetrics.AccumulateKeepsSome | vendor/cubelib/src/cube/src/dimensions/metric/CubeExclusiveMetric.cpp:169-186 | adopt-or-add yields a value exactly when it started with one or saw an element |
| GenericSums.AccumulateIsSum | vendor/cubelib/src/cube/src/dimensions/metric/CubeExclusiveMetric.cpp:169-186 | with integer `+=`, adopt-or-add over a list adds the list's sum |
| GenericSums.DeductAllIsDifference | vendor/cubelib/src/cube/src/dimensions/metric/CubeInclusiveMetric.cpp:243-268 | with integer `-=`, the subtraction loop removes the double sum over children and locations |
| GenericSums.ExclusiveAggregatedIsKindValue | vendor/cubelib/src/cube/src/dimensions/metric/CubeExclusiveMetric.cpp:217-256 | the corrected exclusive generic aggregated value is the build-in natively exclusive value (NULL without locations) |
| GenericSums.InclusiveAggregatedIsKindValue | vendor/cubelib/src/cube/src/dimensions/metric/CubeInclusiveMetric.cpp:224-268 | the inclusive generic aggregated value is the build-in natively inclusive value (NULL without locations) |
| GenericSums.ExclusiveLocIsRowEntry | vendor/cubelib/src/cube/src/dimensions/metric/CubeExclusiveMetric.cpp:150-187 | the exclusive generic value at a location is the build-in row entry |
| GenericSums.InclusiveLocIsRowEntry | vendor/cubelib/src/cube/src/dimensions/metric/CubeInclusiveMetric.cpp:160-194 | the corrected inclusive generic value at a location is the build-in inclusive row entry |
| GenericSums.GenericKindsAgree | vendor/cubelib/src/cube/src/dimensions/metric/CubeInclusiveMetric.cpp:164-194 | the CORRECTED inclusive location value (children subtracted) of a metric holding inclusive data agrees, for both flavours, with the exclusive generic value of the same measurement held exclusively |
| GenericSums.GenericKindsAgreeAsWritten | vendor/cubelib/src/cube/src/dimensions/metric/CubeInclusiveMetric.cpp:164-194 | as written, the inclusive and the exclusive generic metric holding the same measurement agree at a location exactly when the query is INCLUSIVE or the visible children's values add up to zero |
| GenericSums.InclusiveLocAsWrittenIsSum | vendor/cubelib/src/cube/src/dimensions/metric/CubeInclusiveMetric.cpp:160-194 | as written, an EXCLUSIVE location query answers the node's own value plus its visible children's values |
| GenericSums.InclusiveLocAsWrittenOverCorrected | vendor/cubelib/src/cube/src/dimensions/metric/CubeInclusiveMetric.cpp:176-193 | the as-written inclusive location value exceeds the corrected one by twice the visible children's values; they agree exactly when the query is INCLUSIVE or those add up to zero |
| GenericSums.LocValueIsSome | vendor/cubelib/src/cube/src/dimensions/metric/CubeExclusiveMetric.cpp:150-187 | every location answers a non-NULL value |
| GenericSums.PureStnIsSum | vendor/cubelib/src/cube/src/dimensions/metric/CubeExclusiveMetric.cpp:94-129 | the value of a system-tree node is the sum over the locations below it |
| GenericSums.OverwriteKeepsLast | vendor/cubelib/src/cube/src/dimensions/metric/CubeExclusiveMetric.cpp:240-247 | replacing the value at each location keeps only the last location's value |
| GenericSums.ExclusiveAggregatedAsWrittenValue | vendor/cubelib/src/cube/src/dimensions/metric/CubeExclusiveMetric.cpp:235-256 | as written, the first collected cnode counts only at the last location |
| GenericSums.ExclusiveAggregatedShortfall | vendor/cubelib/src/cube/src/dimensions/metric/CubeExclusiveMetric.cpp:235-256 | the exclusive generic aggregated value is NULL without locations, and otherwise the build-in exclusive value minus the first cnode's values at all but the last location; it equals the corrected value exactly when those add up to zero |
| GenericSums.ExclusiveAggregatedCounterexample | vendor/cubelib/src/cube/src/dimensions/metric/CubeExclusiveMetric.cpp:235-256 | a leaf with values 1 and 2 at two locations: as written 2, the sum is 3 |
| GenericSums.InclusiveLocationCounterexample | vendor/cubelib/src/cube/src/dimensions/metric/CubeInclusiveMetric.cpp:176-193 | a parent 5 with a child 2: as written the EXCLUSIVE value is 7, corrected and exclusive-stored 3 |
| Values.UsDouble | vendor/cubelib/src/cube/include/dimensions/metric/value/CubeUnsignedShortValue.h:66-71 | the double of a uint16 is its integer value, in range |
| Values.UsAdd | vendor/cubelib/src/cube/include/dimensions/metric/value/CubeUnsignedShortValue.h:124-133 | `+=` is the sum modulo 2^16; exact without overflow; NULL changes nothing |
| Values.UsSub | vendor/cubelib/src/cube/include/dimensions/metric/value/CubeUnsignedShortValue.h:135-144 | `-=` is the difference modulo 2^16; exact without underflow; NULL changes nothing |
| Values.AddThenSubRestores | vendor/cubelib/src/cube/include/dimensions/metric/value/CubeUnsignedShortValue.h:124-144 | `-=` undoes `+=`, whatever wrap-around happened |
| Values.SubSelfIsZero | vendor/cubelib/src/cube/include/dimensions/metric/value/CubeUnsignedShortValue.h:135-144 | a value minus itself is zero |
| Values.AddAssociates | vendor/cubelib/src/cube/include/dimensions/metric/value/CubeUnsignedShortValue.h:124-133 | `+=` is associative |
| Values.CloneCopy | vendor/cubelib/src/cube/include/dimensions/metric/value/CubeUnsignedShortValue.h:111-122 | a clone is zero and a copy reads as the original |
| Values.RateDouble | vendor/cubelib/src/cube/include/dimensions/metric/value/CubeRateValue.h:71-85 | the quotient, or the largest double with the numerator's sign for a zero duration |
| Values.RateAdd | vendor/cubelib/src/cube/include/dimensions/metric/value/CubeRateValue.h:156-166 | `+=` adds componentwise; NULL changes nothing |
| Values.RateSub | vendor/cubelib/src/cube/include/dimensions/metric/value/CubeRateValue.h:168-178 | `-=` subtracts componentwise; NULL changes nothing |
| Values.RateMul | vendor/cubelib/src/cube/include/dimensions/metric/value/CubeRateValue.h:180-186 | `*=` scales both components |
| Values.RateDiv | vendor/cubelib/src/cube/include/dimensions/metric/value/CubeRateValue.h:188-199 | `/=` divides both components, using the smallest positive double for a zero divisor |
| Values.RateAddThenSubRestores | vendor/cubelib/src/cube/include/dimensions/metric/value/CubeRateValue.h:156-178 | `-=` undoes `+=` |
| Values.MulKeepsRatio | vendor/cubelib/src/cube/include/dimensions/metric/value/CubeRateValue.h:180-186 | for a rate with a non-zero duration, scaling by a non-zero factor keeps the rate's reading and its zero-ness (with a zero duration a negative factor flips the clamp from DBL_MAX to -DBL_MAX) |
| Values.MulByZeroClamps | vendor/cubelib/src/cube/include/dimensions/metric/value/CubeRateValue.h:180-186 | scaling by zero makes a rate read as the largest double and not zero |
| Values.DivKeepsRatio | vendor/cubelib/src/cube/include/dimensions/metric/value/CubeRateValue.h:188-199 | for a rate with a non-zero duration, division keeps the reading; dividing by zero is dividing by the smallest positive double |
| Values.RateCloneCopy | vendor/cubelib/src/cube/include/dimensions/metric/value/CubeRateValue.h:140-153 | a clone reads as the largest double and is not zero; a copy is the original |
| DefinedVariable.Eval | vendor/cubelib/src/cube/include/syntax/cubepl/evaluators/nullary/CubeDefinedVariableEvaluation.h:39-43 | 1 exactly when the variable is defined, 0 otherwise |
| DefinedVariable.StrEval | vendor/cubelib/src/cube/include/syntax/cubepl/evaluators/nullary/CubeDefinedVariableEvaluation.h:65-70 | the one-digit string "1" or "0", by the same test |
| DefinedVariable.EvalRow | vendor/cubelib/src/cube/include/syntax/cubepl/evaluators/nullary/CubeDefinedVariableEvaluation.h:75-81 | no row |
| DefinedVariable.OverloadsAgree | vendor/cubelib/src/cube/include/syntax/cubepl/evaluators/nullary/CubeDefinedVariableEvaluation.h:46-120 | every overload answers alike, and the string form spells the number |
| DefinedVariable.EvalMonotone | vendor/cubelib/src/cube/include/syntax/cubepl/evaluators/nullary/CubeDefinedVariableEvaluation.h:39-43 | defining more variables never turns 1 into 0 |
| PreDerived.Elementary | vendor/cubelib/src/cube/include/dimensions/metric/CubePreDerivedInclusiveMetric.h:166-190 | unclustered: the evaluation; clustered: 0 without a representative, else the representative's evaluation divided by a positive normalisation |
| PreDerived.ElementaryBounded | vendor/cubelib/src/cube/include/dimensions/metric/CubePreDerivedInclusiveMetric.h:176-187 | with non-negative evaluations, normalisation keeps a clustered value between 0 and the representative's value |
| PreDerived.GetSevElementary | vendor/cubelib/src/cube/include/dimensions/metric/CubePreDerivedInclusiveMetric.h:166-190 | the value, with at most one evaluation bracketed by preparation and cleanup |
| PreDerived.NewMetric | vendor/cubelib/src/cube/include/dimensions/metric/CubePreDerivedInclusiveMetric.h:50-73 | the new metric reports the kind of `get_type_of_metric` (PREDERIVED_INCLUSIVE), has no severity matrix, and uses the clustering-aware elementary function |
| PreDerived.Descriptor | vendor/cubelib/src/cube/include/dimensions/metric/CubePreDerivedInclusiveMetric.h:107-143 | the pre-derived kind differs from both build-in kinds, so neither inherited no-data guard fires; the index format is SPARSE, `isBuildIn` and `isDerived` are true, and the kind name "PREDERIVED_INCLUSIVE" differs from "INCLUSIVE" |
| PreDerived.NewCache | vendor/cubelib/src/cube/include/dimensions/metric/CubePreDerivedInclusiveMetric.h:72 | the selected cache is natively EXCLUSIVE, starts empty, and like every cache the source builds uses the number of locations as its key stride |
| PreDerived.CachesOnlyInclusive | vendor/cubelib/src/cube/include/dimensions/metric/CubePreDerivedInclusiveMetric.h:72 | with the EXCLUSIVE cache selection, EXCLUSIVE queries are never cached and aggregated INCLUSIVE ones always are |
| PreDerived.NoDataGuardBypassed | vendor/cubelib/src/cube/include/dimensions/metric/CubePreDerivedInclusiveMetric.h:50-73 | the no-data guards never fire for a pre-derived metric, so its values come from the expression |
| PreDerived.CalltreeIdMaps | vendor/cubelib/src/cube/include/dimensions/metric/CubePreDerivedInclusiveMetric.h:99-105 | the row passes through unchanged |
| PreDerived.Initialize | vendor/cubelib/src/cube/src/dimensions/metric/CubePreDerivedInclusiveMetric.cpp:46-59 | sets the row size when there is an expression, runs the init expression once and drops it |
| PreDerived.InitializeIdempotent | vendor/cubelib/src/cube/src/dimensions/metric/CubePreDerivedExclusiveMetric.cpp:44-57 | a second `initialize` changes nothing and does not run the init expression again |
| PreDerived.KeysDistinct | vendor/cubelib/src/cube/src/dimensions/metric/CubePreDerivedInclusiveMetric.cpp:84-88 | the two pre-derived keys differ from each other and from the build-in key |
| PostDerived.AggrOperator | vendor/cubelib/src/cube/src/dimensions/metric/CubePostDerivedMetric.cpp:62-73 | the aggregation expression, or plain addition without one |
| PostDerived.DefaultAggrIsAddition | vendor/cubelib/src/cube/src/dimensions/metric/CubePostDerivedMetric.cpp:62-73 | the default operator is commutative with 0 neutral |
| PostDerived.AggrPairs | vendor/cubelib/src/cube/src/dimensions/metric/CubePostDerivedMetric.cpp:114-127 | the given resources, or all locations as INCLUSIVE when none are given |
| PostDerived.SevNative | vendor/cubelib/src/cube/src/dimensions/metric/CubePostDerivedMetric.cpp:77-129 | 0 when inactive; one evaluation over the list without an aggregation expression; otherwise the fold of single evaluations |
| PostDerived.EmptyMeansAllLocations | vendor/cubelib/src/cube/src/dimensions/metric/CubePostDerivedMetric.cpp:114-127 | an empty resource list is the same query as all locations |
| PostDerived.AdditiveAggregationIsSum | vendor/cubelib/src/cube/src/dimensions/metric/CubePostDerivedMetric.cpp:114-127 | with an adding aggregation the result is the sum of the single evaluations |
| PostDerived.SevsNative | vendor/cubelib/src/cube/src/dimensions/metric/CubePostDerivedMetric.cpp:132-151 | the evaluation's row exactly when active with an evaluation that gives one |
| PostDerived.Resize | vendor/cubelib/src/cube/src/dimensions/metric/CubePostDerivedMetric.cpp:168-169 | truncates or pads with zeros to the given length |
| PostDerived.WriteLocations | vendor/cubelib/src/cube/src/dimensions/metric/CubePostDerivedMetric.cpp:178-182 | each location's entry is its row value; the others are untouched |
| PostDerived.NodesPhaseEntries | vendor/cubelib/src/cube/src/dimensions/metric/CubePostDerivedMetric.cpp:217-250 | each node's entry is its value computed from the vector the phase started with |
| PostDerived.SystemTreeSevs | vendor/cubelib/src/cube/src/dimensions/metric/CubePostDerivedMetric.cpp:154-253 | nothing changes when inactive; otherwise both vectors cover every resource, padded with zeros without an evaluation |
| PostDerived.SystemTreeEntries | vendor/cubelib/src/cube/src/dimensions/metric/CubePostDerivedMetric.cpp:178-250 | locations get their row values; groups and nodes get their values computed on the vector holding the row values |
| PostDerived.AggregatedOutputsAgree | vendor/cubelib/src/cube/src/dimensions/metric/CubePostDerivedMetric.cpp:184-250 | with an aggregation expression the inclusive and exclusive vectors are computed alike |
| PostDerived.GroupsPhaseAsWrittenOutcome | vendor/cubelib/src/cube/src/dimensions/metric/CubePostDerivedMetric.cpp:209-214 | as written, the group phase fails exactly with an aggregation expression and a group |
| PostDerived.AsWrittenOutcome | vendor/cubelib/src/cube/src/dimensions/metric/CubePostDerivedMetric.cpp:154-253 | the query as written fails exactly for active metrics with an evaluation, an aggregation and a group, and otherwise agrees with the corrected query |
| PostDerived.GroupLoopCounterexample | vendor/cubelib/src/cube/src/dimensions/metric/CubePostDerivedMetric.cpp:209-214 | one location in one group with row [5]: as written the loop asks for a second location; corrected, the group gets 5 |
| PostDerived.KeyDistinct | vendor/cubelib/src/cube/src/dimensions/metric/CubePostDerivedMetric.cpp:273-277 | the post-derived key differs from both pre-derived keys |
| RowsManager.SelectFileSupplier | vendor/cubelib/src/cube/src/dimensions/metric/data/rows/CubeRowsManager.cpp:166-195 | the first file supplier whose probe succeeds; an error exactly when none does |
| RowsManager.SelectMemorySupplier | vendor/cubelib/src/cube/src/dimensions/metric/data/rows/CubeRowsManager.cpp:197-207 | the in-memory supplier exactly when its probe succeeds |
| RowsManager.FillWanted | vendor/cubelib/src/cube/src/dimensions/metric/data/rows/CubeRowsManager.cpp:77-98 | only NULL wanted slots are filled, with the corrected row if the supplier has one; a wanted id beyond the slots is an error |
| RowsManager.SetStrategy | vendor/cubelib/src/cube/src/dimensions/metric/data/rows/CubeRowsManager.cpp:77-98 | succeeds exactly when the fill does, keeping supplier and drop mode |
| RowsManager.Create | vendor/cubelib/src/cube/src/dimensions/metric/data/rows/CubeRowsManager.cpp:34-58 | the in-memory supplier, which keeps its rows, exactly when a placement is unknown; an error when no supplier fits |
| RowsManager.ProvideRow | vendor/cubelib/src/cube/src/dimensions/metric/data/rows/CubeRowsManager.cpp:129-143 | a NULL slot (or a sentinel wanted for writing) is fetched and corrected; anything else is left alone |
| RowsManager.ProvideTwiceFetchesOnce | vendor/cubelib/src/cube/src/dimensions/metric/data/rows/CubeRowsManager.cpp:129-143 | a second `provideRow` does not fetch again |
| RowsManager.DropRow | vendor/cubelib/src/cube/src/dimensions/metric/data/rows/CubeRowsManager.cpp:147-160 | unless rows are kept, the slot is handed back and cleared (the sentinel stays); an id beyond the slots is an error |
| RowsManager.DropThenProvideRefetches | vendor/cubelib/src/cube/src/dimensions/metric/data/rows/CubeRowsManager.cpp:129-160 | after a drop, the next `provideRow` fetches again |
| RowsManager.DropAllRows | vendor/cubelib/src/cube/src/dimensions/metric/data/rows/CubeRowsManager.cpp:108-126 | unless rows are kept, every present row is handed back in slot order and cleared |
| RowsManager.Finalize | vendor/cubelib/src/cube/src/dimensions/metric/data/rows/CubeRowsManager.cpp:101-105 | the supplier is finalized and the slots stay |
| Tau2Cube.LastParent | vendor/cubelib/src/tools/tools/0040.Tau2Cube/tau2cube_calls.h:58-76 | the last call path in profile order one region shorter and agreeing on the leading regions, or none |
| Tau2Cube.GetParentCpath | vendor/cubelib/src/tools/tools/0040.Tau2Cube/tau2cube_calls.h:49-85 | NULL for a one-region path; otherwise the last parent; the diagnostic exactly when a longer path has none |
| Tau2Cube.Parent | vendor/cubelib/src/tools/tools/0040.Tau2Cube/tau2cube_calls.h:156-161 | a found parent is a call path of the profile one region shorter |
| Tau2Cube.RootsBelow | vendor/cubelib/src/tools/tools/0040.Tau2Cube/tau2cube_calls.h:156-161 | the roots are exactly the call paths without a parent, orphans included |
| Tau2Cube.KeptRootsBelow | vendor/cubelib/src/tools/tools/0040.Tau2Cube/tau2cube_calls.h:173-195 | a root is kept exactly when the profile is flat or the root has children |
| Tau2Cube.KeptRootsChoice | vendor/cubelib/src/tools/tools/0040.Tau2Cube/tau2cube_calls.h:185-195 | flat profile: every root; otherwise exactly the roots with children |
| Tau2Cube.MappedIffRootKept | vendor/cubelib/src/tools/tools/0040.Tau2Cube/tau2cube_calls.h:130-140 | a call path gets a cnode exactly when its root is kept |
| Tau2Cube.SystemDimOf | vendor/cubelib/src/tools/tools/0040.Tau2Cube/tau2cube_calls.h:212-243 | one thread per location with its thread id, under the process found by its location's key |
| Tau2Cube.OneProcessPerProcId | vendor/cubelib/src/tools/tools/0040.Tau2Cube/tau2cube_calls.h:218-239 | keyed by the full proc id: processes are distinct and each thread's process has its location's proc id |
| Tau2Cube.TruncatedKeyMergesProcesses | vendor/cubelib/src/tools/tools/0040.Tau2Cube/tau2cube_calls.h:218-238 | keyed by the `int` map as written, proc ids 0 and 2^32 share one process |
| Tau2Cube.Cell | vendor/cubelib/src/tools/tools/0040.Tau2Cube/tau2cube_calls.h:261-300 | nothing for a dropped call path; the inclusive value (0 without data, microseconds turned to seconds for time); the call count from the first metric |
| Tau2Cube.EnterSeverity | vendor/cubelib/src/tools/tools/0040.Tau2Cube/tau2cube_calls.h:253-304 | every write is the write of one (metric, call path, location) cell |
| Tau2Cube.WritesAreMappedAndCallsFromFirstMetric | vendor/cubelib/src/tools/tools/0040.Tau2Cube/tau2cube_calls.h:266-300 | every write is for a mapped call path; CALLS writes carry the first metric's call count |
| Opari.NewAdapter | src/tools/instrumenter/scorep_instrumenter_opari.cpp:92-110 | everything undecided, no TPD, no parameters, tool paths consistent |
| Opari.CheckOption | src/tools/instrumenter/scorep_instrumenter_opari.cpp:113-148 | accepted exactly for the five switches and `--opari=`; each switch sets its field; `--opari=` enables and appends its parameters; rejected arguments change nothing |
| Opari.LastSwitchWins | src/tools/instrumenter/scorep_instrumenter_opari.cpp:115-124 | of two OpenMP switches the last one wins |
| Opari.OpariArgsAccumulate | src/tools/instrumenter/scorep_instrumenter_opari.cpp:135-140 | `--opari=` parameters accumulate in order and enable the adapter |
| Opari.ConfigToolFlag | src/tools/instrumenter/scorep_instrumenter_opari.cpp:159-167 | ` --pomp` exactly when POMP is enabled |
| Opari.SetConfigValue | src/tools/instrumenter/scorep_instrumenter_opari.cpp:273-286 | a non-empty `OPARI_CONFIG` moves the config tool and its snippets; a non-empty `OPARI` replaces the binary; anything else is ignored |
| Opari.SetBuildCheck | src/tools/instrumenter/scorep_instrumenter_opari.cpp:260-270 | the build-tree binary unless OPARI2 is external; the snippets consistent |
| Opari.ConfigurationKeepsToolsConsistent | src/tools/instrumenter/scorep_instrumenter_opari.cpp:260-286 | both configuration steps keep the tool paths consistent |
| Opari.CheckDefaults | src/tools/instrumenter/scorep_instrumenter_opari.cpp:322-345 | nothing undecided afterwards; decided values kept; parallel follows OpenMP; enabled when parallel or POMP is |
| Opari.CheckDefaultsIdempotent | src/tools/instrumenter/scorep_instrumenter_opari.cpp:322-345 | applying the defaults twice is applying them once, and never turns an enabled adapter off |
| Opari.EnableOpenmpDefault | src/tools/instrumenter/scorep_instrumenter_opari.cpp:348-355 | parallel enabled, OpenMP enabled unless explicitly disabled |
| Opari.OpenmpDefaultThenDefaults | src/tools/instrumenter/scorep_instrumenter_opari.cpp:322-355 | with the OpenMP default the adapter is enabled, and `--noopenmp` leaves the parallel regions in |
| Opari.AddParam | src/tools/instrumenter/scorep_instrumenter_opari.cpp:359-367 | unchanged when the prefix occurs, otherwise the parameter appended |
| Opari.AddParamIdempotent | src/tools/instrumenter/scorep_instrumenter_opari.cpp:359-367 | adding a parameter twice is adding it once |
| Opari.DisableStringCases | src/tools/instrumenter/scorep_instrumenter_opari.cpp:398-422 | the six disable strings, from empty to `pomp+omp:all` |
| Opari.DisableStringEmptyIff | src/tools/instrumenter/scorep_instrumenter_opari.cpp:398-422 | empty exactly when neither POMP nor OpenMP is disabled; `:all` exactly when OpenMP and parallel are |
| Opari.CommandOptionsHasParams | src/tools/instrumenter/scorep_instrumenter_opari.cpp:374-397 | the command starts with the binary and user parameters and holds every parameter the adapter asks for |
| Opari.InvokeOpariDisables | src/tools/instrumenter/scorep_instrumenter_opari.cpp:369-427 | the command ends with input and output, and holds `--disable=` exactly when something is disabled |

## Left out

- File, network and terminal I/O are not modelled. This covers Cube's
  `def_*` builder calls, reading a TAU profile, the supplier bytes behind
  the rows manager, and the diagnostic printed by `get_parent_cpath`,
  which is a boolean out-parameter instead.
- The CubePL evaluator is a function parameter. Its internals,
  `pre_calculation_preparation` and `post_calculation_cleanup` are only
  steps in a trace.
- Each metric's elementary data `elem` is a parameter. The severity matrix,
  its storage and the endianness correction of rows are not modelled.
- Memory management is not modelled: destructors, `delete` of cached
  values, and the copy semantics of `Value` objects beyond what `copy` and
  `clone` return.
- SimpleCache.New: the threshold, the truncated product `0.7 *`
  `number_cnodes`, is a parameter, because the floating-point truncation
  adds nothing to the key logic.
- RowsManager.ProvideRow: the store into the slot array is unchecked in the
  source, so an id beyond the slots is allowed only when nothing is
  fetched.
- PostDerived.SystemTreeSevs: it requires the evaluation's row to exist
  and cover every location, because the source reads it without a check.
- Values.RateAddThenSubRestores: holds over exact reals only. With
  doubles, `(a + b) - b` rounds and need not give `a` back.
- Values.MulKeepsRatio: holds over exact reals only. With doubles both
  products round, and a large factor can overflow to infinity.
- Values.DivKeepsRatio: holds over exact reals only. With doubles the
  quotients round, and dividing by `DBL_MIN` overflows to infinity once a
  part's magnitude reaches about 4, so the reading becomes NaN.
- GenericMetrics.SevPointlike: a child value that is NULL after a
  non-NULL one is skipped. The source passes it to `operator+=`, which
  returns early on NULL, and then calls `_v->Free()` on it
  (CubeExclusiveMetric.cpp:110,126,146; CubeInclusiveMetric.cpp:119,135),
  which is undefined. This happens, for example, for a system-tree node
  whose first location group has a location and whose second is empty.
  PointlikeIsPure and StoreKeepsCoherence inherit the same skip.
- SimpleCache.SetCachedValue: a NULL value is not stored and the cache is
  returned unchanged. The source calls `value->copy()` on it
  (CubeSimpleCache.h:340,348), which is undefined. A generic metric passes
  NULL when no location lies below the queried resource.
- Flavour and CubeTypes.Code: `CUBE_CALCULATE_NONE`, the default system
  flavour of the build-in metrics' `get_sev`, is not a constructor. Its
  numeric value, which the key at CubeSimpleCache.h:388 adds as `sf`, is
  not part of this model. So a query with the default flavour cannot be
  expressed; the model covers only queries that name INCLUSIVE or
  EXCLUSIVE.
- The `uint16` value's `*=` and `/=` are not modelled. Neither are the
  `DoubleValue` size assumptions behind `RateSize`.
- The post-derived `initialize` (CubePostDerivedMetric.cpp:46-59) is left
  out. It is the pre-derived one, modelled as PreDerived.Initialize.
- The generic and build-in `create_calltree_id_maps` are left out. They
  only reorder ids for I/O.
- `tau2cube`'s `create_metric_dim` and the region definitions are left
  out. They only define metadata; the model keeps the metric's time flag
  as a parameter.
- Two details of `tau2cube` are not modelled:
  - cnodes are identified by profile index, so their creation order is
    not modelled;
  - an empty call path is not considered, as TAU never writes one.
- The OPARI2 adapter's `precompile`, `prelink`, `invoke_awk_script`,
  `compile_init_file`, `checkCommand`, `printHelp` and `set_fortran_form`
  are left out. They run external tools or only print.
- The adapter base class's `checkDefaults`, and the initial `usage` it
  sets, are not part of this model. NewAdapter takes `usage` as a
  parameter, and CheckDefaults models only the adapter's own rules.
- Opari.InvokeOpariDisables: it does not restate that every parameter of
  CommandOptionsHasParams survives into the final command. Only the
  disable and file parts are stated.

## Findings

| source | as written | input that shows it | evidently intended | confidence | as-written member | corrected member |
|---|---|---|---|---|---|---|
| vendor/cubelib/src/cube/include/dimensions/metric/cache/CubeSimpleCache.h:388 | system-tree keys use the number of locations as stride for the node id | one location, a chain of seven cnodes, natively exclusive cache, threshold 4: (cnode 0, node 2) and (cnode 1, node 0) both get key 4 | a stride that covers every system-tree node id, so distinct queries get distinct keys | not executed; medium | SimpleCache.KeyCollisionAsWritten | SimpleCache.CorrectedKeyInjective |
| vendor/cubelib/src/cube/src/dimensions/metric/CubeExclusiveMetric.cpp:235-256 | while scanning the first collected cnode each location replaces the value (`v = tmp`) | a leaf with values 1 and 2 at two locations answers 2 | the sum 3 over every location | not executed; high | GenericSums.ExclusiveAggregatedCounterexample | GenericSums.ExclusiveAggregatedIsKindValue |
| vendor/cubelib/src/cube/src/dimensions/metric/CubeInclusiveMetric.cpp:176-193 | for an EXCLUSIVE location query the visible children's values are added (`+=`) | parent 5 with one visible child 2 answers 7 | 3, the value subtracted as in every other inclusive calculation | not executed; high | GenericSums.InclusiveLocationCounterexample | GenericSums.GenericKindsAgree |
| vendor/cubelib/src/cube/src/dimensions/metric/CubePostDerivedMetric.cpp:209-214 | the group loop runs `s <=` the number of its locations | one group with one location and an aggregation expression asks for location index 1 | `s <` the number of locations | not executed; high | PostDerived.GroupLoopCounterexample | PostDerived.SystemTreeEntries |
| vendor/cubelib/src/tools/tools/0040.Tau2Cube/tau2cube_calls.h:218-238 | processes are looked up in a `std::map<int, ...>` keyed by a `long` proc id | proc ids 0 and 2^32 share one process, and the second thread's process carries the wrong rank | a map keyed by the full proc id | not executed; low | Tau2Cube.TruncatedKeyMergesProcesses | Tau2Cube.OneProcessPerProcId |
