# TenANN: a verified model of its cache, its indexes and its builders

TenANN is a library of approximate nearest-neighbour indexes over faiss. This project models the parts of it that
carry state or arithmetic worth proving, and proves what they keep. The modules follow the program's files.

| part | files | what it models |
|---|---|---|
| cache | `Bits`, `LruHandles`, `HandleTables`, `LruLists`, `LruSpec`, `LruRuns`, `LruStability`, `LruRecency`, `LruCaches`, `ShardedCaches`, `IndexCaches` | the reference-counted LRU cache: an intrusive chained hash table that rehashes in place, a circular doubly linked list, reference counts, two-pass priority eviction, two shards, and move-only handles on top |
| IVF-PQ index | `Vectors`, `ProductQuantizers`, `LookupTables`, `IvfPqSpec`, `IvfPqIndexes`, `RangeSearchSpec`, `RangeRuns`, `RangeResults`, `RangeSearches` | adding in blocks, distances from look-up tables in all modes, range search with stored reconstruction errors, and how a search is dealt out to threads |
| HNSW search | `HnswGraph`, `HnswSearch`, `HnswIndexes` | greedy descent and best-first range search over a layered graph |
| selection | `Sequences`, `Wrappers`, `TopK`, `DistanceUtil`, `BruteForce`, `IvfPqSearcher` | bounded heaps against sort-and-truncate, distance conversions, the brute-force searchers |
| inverted lists on disk | `BlockCache` | layout, aligned reads, and agreement of cache and file |
| building and profiling | `SeqViews`, `BuilderSpec`, `BuilderSessions`, `IndexBuilders`, `CounterForest` | columns as callers lay them out in memory, the buffered index builder, and the counters of a runtime profile |

The cache, the index, the searches and the builder are classes whose methods update their fields in loops, as in the
program. Each has an abstract value, and each method's contract says what the new value is. The laws are then proved
of those values, over every run where a run is what matters. Floating-point numbers are reals; a square root is any
function `s` with `s(x) >= 0` and `s(x) * s(x) == x` for `x >= 0`.

## Main results

- **Cache.** In every run of insert, lookup, release, erase, prune and capacity changes, reference counts, flags, hash
  table, list and usage agree; usage above the capacity means that only held entries are left; a deleter runs at most
  once, and exactly when the entry is neither cached nor held by a handle. A cached entry stays found until one of five
  named kinds of operation takes it out, and eviction within a priority goes by the order of last releases. All of it is
  proved of the pointer-level code, through `LruSpec`.
- **Recall.** At confidence 1 with all lists probed, every row that was added, assigned and lies truly within the radius
  is found under its own id (`RangeRuns.AddedRowsAreFound`, `RangeSearches.SearchFindsNeighbors`). The proof runs from block-wise adding through alignment of
  the errors, the table algebra, Cauchy-Schwarz and the triangle inequality to the merged result. At every confidence the
  hits are exactly the entries that answer, as often as the probes give them (`RangeResults`).
- **Scheduling.** In all three parallel modes, for every hand-out of work to threads, results and totals are those of
  the nested loop.
- **HNSW.** The descent ends on every graph, level by level, each time at the end of a steepest walk. Best-first search
  pops in order, reports only reachable vertices, each once, in order, and all of them when there are at most `efSearch`.
- **Selection.** The bounded heaps are sort-and-truncate, for all inputs and limits: nothing left out is better than
  anything returned, in the distances of the rows themselves.
- **Block cache.** Lists tile the file region, and hits and misses give the same bytes.
- **Builder, counters.** A session conserves its rows if and only if every call keeps its own: the rows have the right
  length, the call is none of three named cases, and the column starts with its first row (or its array repeats what
  precedes it). Removal of counters keeps a forest described alike by both maps.

## Where the code and its documentation differ

The model follows the code. Each point about results is proved, with its exact condition where it has one.

- `index_ivfpq.h:51-55` promises second-level residuals; an unassigned row clears the first row of its block instead of
  its own (`index_ivfpq.cc:147`): `IvfPqIndexes.ResidualsAsDocumented`, over all blocks of a call, and
  `UnassignedClearsFirst`.
- `index_ivfpq.h:39-44` says a larger confidence means higher recall and more wrong results. Recall does grow, but an
  entry outside the radius can be reported at a confidence and not at a larger one: `RangeSearchSpec.RecallMonotone`,
  `ReportsNotMonotone`, `RaisingConfidence`.
- `index_builder.h:68-77` supports adding after the first flush; null-flagged rows added then never reach the index:
  `BuilderSessions.NullFlaggedAfterTraining`. Mixing lifetimes can drop a borrowed batch: `BorrowedRowLost`.
- `faiss_index_builder.cc:152-159` checks row lengths in variable-length columns only, and the rows of an unflagged batch
  are read from the start of its array: a fixed-length column of another dimension is cut into other rows
  (`BuilderSessions.OtherDimensionRecut`) or read beyond its end (`ReadBeyondTheEnd`), and a first offset is ignored
  (`FirstOffsetIgnored`). `KeepsIff` and `SessionConserves` have the exact condition.
- `faiss_index_builder_with_buffer.cc:65` dereferences a null pointer when an untrained builder is flushed with nothing
  buffered. `IndexBuilders.FaissIndexBuilderWithBuffer.FlushBuffers` reports that call as one that does not succeed.
- `bruteforce.h:176` checks, in debug builds, that every query has k results; the padding right behind it is for queries
  that have fewer. `BruteForce.Search` follows release builds.
- The check on the number of bytes read cannot notice a list that reaches beyond the end of the file:
  `BlockCache.BlockCacheInvertedLists.TruncationUnnoticed`, `OneByteShort`.
- `ReserveTopK` keeps everything for a negative limit and cuts ids to 32 bits: `DistanceUtil.ReservedCount`,
  `StoredFaithfully`, `IdTooLarge`.

## Model

| member | source | states |
|---|---|---|
| Bits.MaskIsMod | tenann/store/lru_cache.cc:99-107 | masking a hash with a power of two minus one is the remainder, so the bucket index is always in range |
| HandleTables.HandleTable.FindPointer | tenann/store/lru_cache.cc:99-107 | the pointer-to-pointer found is the place of the one node with that key and hash, or the end of that bucket's chain when there is none in the whole table |
| HandleTables.HandleTable.Lookup | tenann/store/lru_cache.cc:62-64 | returns the node under the key and hash, or null exactly when there is none |
| HandleTables.HandleTable.Insert | tenann/store/lru_cache.cc:66-85 | replaces in place or appends, returns what it displaced, keeps every chain acyclic and in its bucket and the load at most one |
| HandleTables.HandleTable.Remove | tenann/store/lru_cache.cc:87-97 | unlinks exactly the node under the key and hash; every other node stays |
| HandleTables.HandleTable.GrownLength | tenann/store/lru_cache.cc:110-113 | the new length is the least of 4, 8, 16, ... that holds the elements |
| HandleTables.HandleTable.Rehash | tenann/store/lru_cache.cc:119-141 | in-place rehashing moves every node, once, to the chain of its new bucket, and counts them all |
| HandleTables.HandleTable.Resize | tenann/store/lru_cache.cc:109-150 | after growing, the table holds the same nodes and is valid again for the new length |
| HandleTables.FoundInView | tenann/store/lru_cache.cc:62-64 | lookup in the chains is lookup in the finite map the table stands for |
| HandleTables.SwappedView | tenann/store/lru_cache.cc:66-85 | insertion, displacing or not, is map update |
| HandleTables.RemovedView | tenann/store/lru_cache.cc:87-97 | removal is map removal |
| HandleTables.ViewSize | tenann/store/lru_cache.h:249-255 | the element count is the size of the map |
| LruLists.LruRemove | tenann/store/lru_cache.cc:166-170 | takes one entry out of the doubly linked circle: the others keep their order in both directions, and its own links become null |
| LruLists.LruAppend | tenann/store/lru_cache.cc:172-178 | puts an entry at the newest end of the circle |
| LruSpec.NeededIsLeast | tenann/store/lru_cache.cc:263-282 | eviction takes the shortest run of candidates that makes room: stopping one earlier would not fit |
| LruSpec.EvictMakesRoom | tenann/store/lru_cache.cc:263-282 | after the two passes the charge fits or nothing evictable is left |
| LruSpec.DurableLast | tenann/store/lru_cache.cc:263-282 | a DURABLE entry is given up only when no NORMAL entry stays in the list |
| LruSpec.OldestFirst | tenann/store/lru_cache.cc:263-282 | among entries of one priority, the older one goes first |
| LruSpec.SurvivorsKeepOrder | tenann/store/lru_cache.cc:263-292 | entries that stay keep their relative order |
| LruSpec.EvictKeepsInv | tenann/store/lru_cache.cc:284-292 | giving up evictable entries keeps reference counts, list, table and usage in agreement |
| LruSpec.ReleaseCases | tenann/store/lru_cache.cc:230-261 | the three outcomes of giving a handle back: one pin less, death, or back to the newest end of the list |
| LruSpec.EraseIs | tenann/store/lru_cache.cc:342-364 | table removal followed by list removal is erasure; the deleter runs exactly if nobody holds the entry |
| LruSpec.InsertIs | tenann/store/lru_cache.cc:294-340 | eviction, table insertion and retiring the displaced entry, in that order, are insertion as specified |
| LruCaches.LRUCache.constructor | tenann/store/lru_cache.cc:152-156 | an empty shard of capacity 0 |
| LruCaches.LRUCache.EvictFromLru | tenann/store/lru_cache.cc:263-282 | the two pointer-chasing passes give up exactly the specified victims, in order, and nothing else changes |
| LruCaches.LRUCache.EvictOneEntry | tenann/store/lru_cache.cc:284-292 | one eviction: off the list, out of the table, usage down by its charge |
| LruCaches.LRUCache.SecondPassStep | tenann/store/lru_cache.cc:275-281 | the check of the second pass always holds: what it evicts is DURABLE |
| LruCaches.LRUCache.SetCapacity | tenann/store/lru_cache.cc:180-191 | refines the specification: capacity changes, then eviction until the usage fits |
| LruCaches.LRUCache.Lookup | tenann/store/lru_cache.cc:213-228 | refines the specification: a hit is pinned and taken off the list; lookups and hits are counted |
| LruCaches.LRUCache.Release | tenann/store/lru_cache.cc:230-261 | refines the specification of giving a handle back; null is ignored |
| LruCaches.LRUCache.Insert | tenann/store/lru_cache.cc:294-340 | refines the specification: eviction for the charge, replacement under the same key, the new entry pinned once |
| LruCaches.LRUCache.Erase | tenann/store/lru_cache.cc:342-364 | refines the specification of erasure |
| LruCaches.LRUCache.Prune | tenann/store/lru_cache.cc:366-386 | empties the list, keeps what is pinned, and counts what went |
| LruRuns.StepSafe | tenann/store/lru_cache.cc:160-386 | every operation keeps the whole invariant and the capacity bound |
| LruRuns.RunSafe | tenann/store/lru_cache.h:127-188 | over every run of operations: reference counts, flags, list, table and usage agree, and only pinned entries can exceed the capacity |
| LruRuns.RunFreesOnce | tenann/store/lru_cache.cc:230-386 | over every run: each deleter is called at most once, never for a live entry, and has been called for every entry that left the cache |
| LruRuns.StepOutstanding | tenann/store/lru_cache.h:127-188 | the pins of an entry follow the handles given out and back and nothing else: eviction, erasure, pruning and replacement never touch a held entry |
| LruRuns.PruneSafe | tenann/store/lru_cache.cc:366-386 | after pruning nothing evictable is left and the invariant holds |
| LruStability.LookupIs | tenann/store/lru_cache.cc:213-228 | a lookup changes nothing but the counters and, on a hit, the references to the entry found: nothing leaves the cache, nothing is freed, the usage stays |
| LruStability.SetCapacityIs | tenann/store/lru_cache.cc:180-191 | setting the capacity gives up the shortest run of idle entries after which the usage fits, and nothing else |
| LruStability.InsertTakesLeast | tenann/store/lru_cache.cc:294-340 | an insertion gives up the shortest run of idle entries that makes room and the entry under the same key; every other cached entry stays |
| LruStability.StepCached | tenann/store/lru_cache.cc:180-386 | exactly which operations may take an entry out of the cache; under every other one it stays, and only its own insertion brings an entry in |
| LruStability.StepLeaves | tenann/store/lru_cache.cc:230-386 | an erasure of its key, a replacement, a prune while it is idle and its last release above the capacity do take it out |
| LruStability.StepCounts | tenann/store/lru_cache.cc:180-228 | the capacity changes only when it is set; every lookup is counted, and exactly those that find an entry as hits |
| LruStability.StaysFound | tenann/store/lru_cache.h:127-188 | over every run an entry is found under its key until an operation comes that may take it out |
| LruRecency.StepOrder | tenann/store/lru_cache.cc:160-386 | an entry comes into the list only when its last reference is released, at the newest end; all others keep their order |
| LruRecency.RunOrder | tenann/store/lru_cache.cc:160-261 | over every run the list is in the order of the last releases |
| LruRecency.LeastRecentlyReleased | tenann/store/lru_cache.cc:263-282 | from an empty list on, eviction takes an entry only together with every listed one of its priority that was last released before it |
| ShardedCaches.ShardedLRUCache.constructor | tenann/store/lru_cache.cc:394-399 | two empty shards that split the capacity |
| ShardedCaches.ShardedLRUCache.Insert | tenann/store/lru_cache.cc:425-430 | the insertion goes to the shard of the key's hash and leaves the other shard untouched |
| ShardedCaches.ShardedLRUCache.Lookup | tenann/store/lru_cache.cc:432-435 | the lookup goes to the shard of the key's hash and leaves the other shard untouched |
| ShardedCaches.ShardedLRUCache.Release | tenann/store/lru_cache.cc:437-440 | the release reaches the shard that owns the entry |
| ShardedCaches.ShardedLRUCache.Erase | tenann/store/lru_cache.cc:442-445 | the erasure goes to the shard of the key's hash and leaves the other shard untouched |
| ShardedCaches.ShardedLRUCache.SetCapacity | tenann/store/lru_cache.cc:401-413 | every shard gets its share, rounded up |
| ShardedCaches.ShardedLRUCache.AdjustCapacity | tenann/store/lru_cache.cc:415-423 | refuses exactly when the result would be below the minimum, and then changes nothing |
| ShardedCaches.ShardedLRUCache.Prune | tenann/store/lru_cache.cc:463-469 | prunes both shards and counts both |
| ShardedCaches.ShardedLRUCache.MemoryUsage | tenann/store/lru_cache.cc:471 | the memory usage is the sum of the charges of all live entries |
| ShardedCaches.StepOwned | tenann/store/lru_cache.cc:388-392 | an entry never leaves the shard its hash leads to, so routing by hash finds its owner in every run |
| ShardedCaches.SplitCapacity | tenann/store/lru_cache.cc:401-407 | the split loses no capacity and rounds up by less than one unit per shard |
| ShardedCaches.TotalWithinCapacity | tenann/store/lru_cache.cc:401-413 | over the whole cache, usage beyond the capacity (plus rounding) means some shard has only pinned entries left |
| IndexCaches.IndexCache.Create | tenann/index/index_cache.cc:26 | a new index cache, with no handles |
| IndexCaches.IndexCache.Lookup | tenann/index/index_cache.cc:36-43 | on a hit the handle holds the found entry, what it held before is given back, and the key is still found with that entry; on a miss it keeps what it held; both shards are exactly as a lookup and a release leave them |
| IndexCaches.HitStaysFound | tenann/index/index_cache.cc:36-43 | what a lookup has found is found again afterwards, also once the former holding is given back |
| IndexCaches.IndexCache.Insert | tenann/index/index_cache.cc:45-66 | the handle holds the new entry, what it held before is given back, both shards are exactly as an insertion and a release leave them, and the key is now found |
| IndexCaches.IndexCache.Destroy | tenann/index/index_cache.cc:93-97 | destruction gives back exactly what the handle held, to the shard that owns it; an empty handle changes nothing |
| IndexCaches.IndexCache.MoveConstruct | tenann/index/index_cache.cc:99-103 | the holding moves to the new handle and the old one is empty |
| IndexCaches.IndexCache.MoveAssign | tenann/index/index_cache.cc:105-109 | the two handles exchange what they hold, self-assignment included |
| IndexCaches.IndexCache.SetCapacity | tenann/index/index_cache.cc:68 | both shards are as setting their share leaves them; handles, holders and deleter calls stay consistent |
| IndexCaches.IndexCache.AdjustCapacity | tenann/index/index_cache.cc:70-72 | refuses exactly when the result would be below the minimum, and then changes nothing; otherwise as setting the sum |
| IndexCaches.IndexCache.HeldIsAlive | tenann/store/lru_cache.h:192-223 | no deleter has run for an entry a live handle points at |
| IndexCaches.IndexCache.FreedExactlyWhenUnreachable | tenann/store/lru_cache.cc:230-261 | in every reachable state a deleter has run at most once, and has run exactly when the entry is neither cached nor held by any handle |
| Vectors.CauchySchwarz | tenann/index/internal/index_ivfpq.cc:641-658 | the inequality behind the lower bound, for all real vectors |
| Vectors.TriangleThrough | tenann/index/internal/index_ivfpq.cc:641-658 | the true distance lies between |p - e| and p + e, with p the distance of the reconstruction and e its error |
| ProductQuantizers.TableSumIsWhole | tenann/index/internal/index_ivfpq.cc:372-386 | for each of the three kinds of table, the look-ups of any code add up to that quantity between the vector and the whole reconstruction |
| ProductQuantizers.DecodeAt | tenann/index/internal/index_ivfpq.cc:149-163 | a reconstruction is, stretch by stretch, the sub-centroid that the code names in that sub-quantizer's book |
| ProductQuantizers.TableSplit | tenann/index/internal/index_ivfpq.cc:540-574 | tables split where the sub-quantizers do |
| ProductQuantizers.MaddSum | tenann/index/internal/index_ivfpq.cc:529-538 | combining two tables element by element combines their look-ups |
| ProductQuantizers.ThreeTerms | tenann/index/internal/index_ivfpq.cc:372-386 | the three documented terms add up to the squared distance to centroid plus residual |
| LookupTables.DigitsAgree | tenann/index/internal/index_ivfpq.cc:540-574 | each part of a multi-index centroid is that part of the diagonal centroid at the matching digit of the list number |
| LookupTables.DigitsAt | tenann/index/internal/index_ivfpq.cc:540-574 | part n of a multi-index centroid is the one that digit n of the list number names |
| LookupTables.IvfPq.ReconstructAt | tenann/index/internal/index_ivfpq.cc:149-163 | what a code in a list stands for, element by element: the named sub-centroid, plus the centroid of the list when residuals are encoded |
| LookupTables.TableAgree | tenann/index/internal/index_ivfpq.cc:540-574 | vectors that agree on some sub-vectors have tables that agree on those rows |
| LookupTables.IvfPq.QueryTableTargets | tenann/index/internal/index_ivfpq.cc:439-450 | a table of the query itself, with the right offset, gives every code its distance or inner product |
| LookupTables.IvfPq.ResidualTableTargets | tenann/index/internal/index_ivfpq.cc:521-528 | the direct table of the residual gives every code its distance |
| LookupTables.IvfPq.PrecomputedTableTargets | tenann/index/internal/index_ivfpq.cc:529-538 | coarse distance plus stored table minus twice the inner products gives every code its distance |
| LookupTables.IvfPq.MultiIndexSlice | tenann/index/internal/index_ivfpq.cc:540-574 | the slices of the multi-index table, taken by digit, are the list's own table |
| LookupTables.QueryTables.InitQuery | tenann/index/internal/index_ivfpq.cc:430-450 | the buffers hold what the query alone determines, whatever they held before |
| LookupTables.QueryTables.PrecomputeListTables | tenann/index/internal/index_ivfpq.cc:466-478 | whatever the metric and table mode, offset plus look-ups give every code its exact target, and fails only for multi-index tables without a multi-index quantizer |
| LookupTables.QueryTables.PrecomputeListTablesL2 | tenann/index/internal/index_ivfpq.cc:518-577 | the same for the L2 residual case, in all table modes |
| LookupTables.QueryTables.MultiIndexTable | tenann/index/internal/index_ivfpq.cc:540-574 | the assembled table equals the one the whole centroid would give |
| LookupTables.QueryTables.DistanceSingleCode | tenann/index/internal/index_ivfpq.cc:807-821 | the scalar loop adds up the look-ups of the code |
| LookupTables.QueryTables.DistanceSingleCodeWide | tenann/index/internal/index_ivfpq.cc:714-803 | sixteen codes a round in eight lanes, the horizontal sum and the leftovers: the same sum as the scalar loop for every number of sub-quantizers |
| LookupTables.HorizontalSumIsSum | tenann/index/internal/index_ivfpq.cc:776-790 | the two horizontal additions and the final one add up all eight lanes |
| LookupTables.GatherSum | tenann/index/internal/index_ivfpq.cc:738-771 | gathering with multiples of ksub as offsets looks up one code per row |
| IvfPqSpec.AddAllAppend | tenann/index/internal/index_ivfpq.cc:89-103 | adding in two batches is adding their concatenation |
| IvfPqSpec.AddAllAppends | tenann/index/internal/index_ivfpq.cc:139-177 | each list grows by exactly the entries of the rows assigned to it, in order, with given ids or ids counted from ntotal; nothing already stored changes |
| IvfPqSpec.ItemOfAligned | tenann/index/internal/index_ivfpq.cc:155-164 | the stored error is the distance of the vector from its reconstruction, with and without residual encoding |
| IvfPqSpec.ItemOfIs | tenann/index/internal/index_ivfpq.cc:139-177 | an entry field by field: the id given or counted, the code the encoder gives for the residual or for the vector itself, and the distance of the vector from what that code stands for |
| IvfPqSpec.Residual2Is | tenann/index/internal/index_ivfpq.h:51-55 | the second-level residual added to the reconstruction gives the vector back |
| IvfPqSpec.AddAllAligned | tenann/index/internal/index_ivfpq.cc:139-177 | in every list at every offset the error stays the error of the entry there |
| IvfPqSpec.AddAllConserves | tenann/index/internal/index_ivfpq.cc:139-177 | every row is in exactly one list or was unassigned; both count towards ntotal |
| IvfPqSpec.AddedEntry | tenann/index/internal/index_ivfpq.cc:139-177 | every assigned row is in its list with its own id, the code the encoder gives for it, and as error its distance from what that code stands for |
| IvfPqSpec.AddedBehind | tenann/index/internal/index_ivfpq.cc:139-177 | adding to any index keeps what a list held and puts each assigned row behind it, with id, code and error field by field |
| IvfPqIndexes.IndexIvfPq.CustomAddCore | tenann/index/internal/index_ivfpq.cc:89-177 | for every number of rows and block size the index ends up as if the rows had been added one at a time: every assigned row is stored in its list behind what was there, with its id, the encoder's code and its distance from the reconstruction; untrained, nothing changes |
| IvfPqIndexes.IndexIvfPq.AddBlock | tenann/index/internal/index_ivfpq.cc:105-177 | one block: assigned, encoded, added, and ntotal moved at the end |
| IvfPqIndexes.IndexIvfPq.AddAssigned | tenann/index/internal/index_ivfpq.cc:151-165 | entry and error go to the same list at the same offset |
| IvfPqIndexes.IndexIvfPq.ComputeResiduals | tenann/index/internal/index_ivfpq.cc:56-68 | residuals of the assigned rows, zero for the others |
| IvfPqIndexes.ResidualsAsDocumented | tenann/index/internal/index_ivfpq.h:51-55 | the whole residual output of a call is what its documentation says if and only if in every block no row is unassigned, or the first row is, or its residual is zero |
| IvfPqIndexes.UnassignedClearsFirst | tenann/index/internal/index_ivfpq.cc:147 | a call whose output is wrong in one block of two rows and right in two blocks of one |
| RangeSearchSpec.TrueDistanceBounds | tenann/index/internal/index_ivfpq.cc:641-658 | the true distance is within the stored error of the table distance |
| RangeSearchSpec.NoFalseDismissal | tenann/index/internal/index_ivfpq.h:39-44 | at confidence 1 an entry truly within the radius is always reported |
| RangeSearchSpec.ReportedIsNear | tenann/index/internal/index_ivfpq.h:39-44 | what is reported at confidence 1 is within the radius plus twice its own error |
| RangeSearchSpec.RecallMonotone | tenann/index/internal/index_ivfpq.h:39-44 | among true neighbours, raising the confidence within [0, 1] only adds reports |
| RangeSearchSpec.MissedIff | tenann/index/internal/index_ivfpq.cc:641-658 | exactly which true neighbours are missed at a confidence in (0, 1] |
| RangeSearchSpec.ReportsNotMonotone | tenann/index/internal/index_ivfpq.cc:641-658 | the whole reported set is not monotone: an index with an aligned entry outside the radius that is reported at 1/2 and not at 1 |
| RangeSearchSpec.RaisingConfidence | tenann/index/internal/index_ivfpq.cc:641-658 | exactly when an entry reported at one confidence, the default 0 included, is still reported at a higher one |
| RangeSearchSpec.ListHitsAre | tenann/index/internal/index_ivfpq.cc:824-834 | scanning a list reports exactly its selected and accepted entries, with their ids and distances |
| RangeSearchSpec.ReportedIff | tenann/index/internal/index_ivfpq.cc:641-658 | exactly when an entry is reported, in terms of the query's distance from what the code stands for: the comparison with the radius by default, the bound with the error at a confidence in (0, 1] |
| RangeSearchSpec.DefaultBounds | tenann/index/internal/index_ivfpq.cc:641-658 | by default, what is reported is within the radius up to its own error, and what is within it by more than its error is reported |
| RangeResults.ExpectedIs | tenann/index/internal/index_ivfpq.cc:249-272 | every answer is found once for each probe and entry that gives it; the totals count the non-empty lists visited and their entries |
| RangeResults.HitsAre | tenann/index/internal/index_ivfpq.cc:249-272 | a query's hits are exactly the entries of its probed lists that answer it, with the query's distance from what their codes stand for, at every confidence and in both metrics |
| RangeResults.DefaultHitIsNear | tenann/index/internal/index_ivfpq.h:39-44 | at the default confidence every hit of a search is truly within the radius up to its own error |
| RangeResults.DefaultFinds | tenann/index/internal/index_ivfpq.h:39-44 | at the default confidence every probed entry truly within the radius by more than its error is a hit |
| RangeRuns.SumPermutation | tenann/index/internal/index_ivfpq.cc:313-320 | merging does not depend on order |
| RangeRuns.RunAdds | tenann/index/internal/index_ivfpq.cc:241-320 | whatever worker makes which scan, the merged results and totals grow by what the scans contribute, if each worker is on the query it scans for |
| RangeRuns.Mode0Correct | tenann/index/internal/index_ivfpq.cc:274-284 | for every hand-out of queries to workers, results and totals are those of the nested loop |
| RangeRuns.Mode1Correct | tenann/index/internal/index_ivfpq.cc:286-296 | the same for every hand-out of each query's lists |
| RangeRuns.Mode2Correct | tenann/index/internal/index_ivfpq.cc:297-309 | the same for every hand-out of flat numbers, with queries begun on demand |
| RangeRuns.FlatPairs | tenann/index/internal/index_ivfpq.cc:301-303 | the flat numbers, divided, are the pairs of the nested loop in order |
| RangeRuns.ExpectedAre | tenann/index/internal/index_ivfpq.cc:249-272 | a query's results are those of the lists probed for it, and of no other query's |
| RangeRuns.NoFalseDismissals | tenann/index/internal/index_ivfpq.h:39-44 | at confidence 1 a whole search misses no true neighbour in any probed list |
| RangeRuns.AddedRowsAreFound | tenann/index/internal/index_ivfpq.h:39-44 | from adding to searching: with all lists probed at confidence 1, every assigned row truly within the radius is in the results, under its own id and with the query's distance from the reconstruction of the code the encoder gives for it |
| RangeRuns.OnlyReported | tenann/index/internal/index_ivfpq.cc:249-272 | every result is an accepted entry of a list probed for that query, with its table distance |
| RangeSearches.RangeWorker.Begin | tenann/index/internal/index_ivfpq.cc:276-280 | sets the scanner to the query and opens its result |
| RangeSearches.RangeWorker.ScanListFunc | tenann/index/internal/index_ivfpq.cc:249-272 | one list into the result in use: unassigned and empty lists are passed over, a bad list number is thrown, and missing tables or polysemous filtering are noted and find nothing |
| RangeSearches.RangeWorker.ScanCodesRange | tenann/index/internal/index_ivfpq.cc:884-934 | looks up every selected entry and keeps those the filter accepts |
| RangeSearches.RangeWorker.SearchByQuery | tenann/index/internal/index_ivfpq.cc:274-296 | the query-by-query loop throws exactly on a bad list number; otherwise it goes through all lists and finds what the nested loop does, or nothing if it was interrupted, which it is exactly when some list cannot be scanned |
| RangeSearches.RangeWorker.SearchByPair | tenann/index/internal/index_ivfpq.cc:297-309 | the same of the flat loop |
| RangeSearches.CustomRangeSearchPreassigned | tenann/index/internal/index_ivfpq.cc:207-336 | a search fails exactly on an empty probe count, an unknown mode, a bad list number or a list that cannot be scanned; otherwise every query has each answer as often as its probes give it, and the totals count what was visited; a search that only could not scan has gone through all lists and found nothing |
| RangeSearches.SearchFindsNeighbors | tenann/index/internal/index_ivfpq.h:39-44 | on a valid index, what a successful search at confidence 1 returns contains every true neighbour in every probed list |
| HnswGraph.ClosedContains | tenann/searcher/faiss_hnsw_ann_searcher.cc:121-152 | a set that contains the start and its neighbours' neighbours contains everything reachable |
| HnswGraph.StepReachable | tenann/searcher/faiss_hnsw_ann_searcher.cc:127-145 | a listed neighbour of a reachable vertex is reachable |
| HnswSearch.GreedyUpdateNearest | tenann/searcher/faiss_hnsw_ann_searcher.cc:55-75 | ends on every finite graph, cycles included, having gone each time to a nearest listed neighbour, at a vertex with no closer one; the distance kept is that vertex's and never grew |
| HnswSearch.ScanNeighbors | tenann/searcher/faiss_hnsw_ann_searcher.cc:60-69 | a vertex or a listed neighbour, at least as near as all of them |
| HnswSearch.VisitKeeps | tenann/searcher/faiss_hnsw_ann_searcher.cc:131-144 | visiting a new neighbour keeps the search invariant |
| HnswSearch.PopKeeps | tenann/searcher/faiss_hnsw_ann_searcher.cc:121-124 | popping the nearest candidate keeps the search invariant |
| HnswSearch.FinishedIsComplete | tenann/searcher/faiss_hnsw_ann_searcher.cc:121-152 | with no candidate left and none dropped, exactly the reachable vertices were visited |
| HnswSearch.VisitedIsAround | tenann/searcher/faiss_hnsw_ann_searcher.cc:121-152 | what has been visited is exactly the start and the listed neighbours of what has been popped |
| HnswSearch.BestFirstGrows | tenann/searcher/faiss_hnsw_ann_searcher.cc:121-124 | popping a nearest waiting vertex continues a best-first sequence |
| HnswSearch.RangeSearchState.EnterCandidates | tenann/searcher/faiss_hnsw_ann_searcher.cc:110-119 | initial candidates are visited and reported like any other vertex |
| HnswSearch.RangeSearchState.Expand | tenann/searcher/faiss_hnsw_ann_searcher.cc:126-145 | all listed neighbours of a popped vertex are visited, up to the first negative entry |
| HnswSearch.RangeSearchState.FromCandidates | tenann/searcher/faiss_hnsw_ann_searcher.cc:102-155 | vertices are popped best first, efSearch + 1 of them unless they run out; the visited ones are exactly the start and the popped ones' neighbours, the results exactly the matching visited ones; if at most efSearch vertices are reachable, all of them are visited |
| HnswIndexes.PrefixIsAll | tenann/searcher/faiss_hnsw_ann_searcher.cc:176-184 | among ascending distances the leading ones within the radius are all within the radius |
| HnswIndexes.CutIs | tenann/searcher/faiss_hnsw_ann_searcher.cc:176-187 | the cut is the longest prefix within the radius that the limit allows |
| HnswIndexes.ResultsAre | tenann/searcher/faiss_hnsw_ann_searcher.cc:217-227 | the results are the selected visited vertices within the radius, with their distances, ascending by distance and then id |
| HnswIndexes.CutTopEf | tenann/searcher/faiss_hnsw_ann_searcher.cc:171-187 | with a limit: the leading results within the radius, cut to the limit |
| HnswIndexes.Descend | tenann/searcher/faiss_hnsw_ann_searcher.cc:204-209 | the descent has one stop per level from the top one to 1, each where steepest descent from the one before ends; without upper levels it stays at the entry point |
| HnswIndexes.DrainedIsResult | tenann/searcher/faiss_hnsw_ann_searcher.cc:217-227 | emptying the queue back to front gives each result once, by ascending distance and id |
| HnswIndexes.IndexHnswRangeSearch | tenann/searcher/faiss_hnsw_ann_searcher.cc:157-232 | without a limit: the descent, then best-first search from its last stop; exactly the selected visited vertices within the radius, each once, ascending by distance and id; all reachable ones when they number at most efSearch. With a limit: the longest prefix of the top results within the radius and the limit. Without an entry point: nothing |
| TopK.SelectionUnique | tenann/util/distance_util.h:77-117 | under a total order there is only one way to select the k least |
| TopK.SelectionIsSortedPrefix | tenann/searcher/faiss_ivf_pq_ann_searcher.cc:136-181 | a bounded heap selects what sorting and truncating would |
| TopK.SelectionImages | tenann/util/distance_util.h:77-117 | whatever the choice among ties, the keys selected are those of sorting and truncating the keys |
| TopK.SelectionPreimage | tenann/util/distance_util.h:77-117 | what is selected among images is the image of a part of the input, and what is left out is the image of the rest |
| TopK.KeepStep | tenann/util/distance_util.h:94-103 | one push and at most one pop keep the k least of the input so far |
| TopK.PushBounded | tenann/util/distance_util.h:94-103 | the bounded push on the queue itself |
| TopK.Drain | tenann/util/distance_util.h:105-117 | emptying a queue from the back gives a sorted sequence of exactly its elements |
| TopK.SelectLeast | tenann/util/distance_util.h:94-117 | pushing everything through a bounded queue and draining it selects the k least, best first |
| TopK.SortSorts | tenann/util/distance_util.h:77-117 | the reference sort sorts and permutes |
| DistanceUtil.L2DistanceToCosineSimilarity | tenann/util/distance_util.h:31-43 | converts the first k places, in place or not, and nothing else |
| DistanceUtil.SimilarityIsCosine | tenann/util/distance_util.h:31-43 | for unit vectors the converted distance is their cosine |
| DistanceUtil.ThresholdIsExact | tenann/util/distance_util.h:45-59 | the converted threshold accepts exactly the unit vectors at least that similar, and reverses the order |
| DistanceUtil.CosineInRange | tenann/util/distance_util.h:45-59 | every similarity of unit vectors is an allowed threshold and converts to their distance |
| DistanceUtil.ReserveTopK | tenann/util/distance_util.h:77-127 | fails exactly on lists of different length; otherwise returns the entries of distinct places, as many as the limit says or all for a negative one, with their distances and the low 32 bits of their ids; the distances never fall (ascending) or never rise (descending), and no place left out has a better one |
| DistanceUtil.BestAre | tenann/util/distance_util.h:62-75 | what a selection means for the distances: in order, and nothing left out is nearer (ascending) or farther (descending) than anything kept |
| DistanceUtil.BestOf | tenann/util/distance_util.h:62-117 | which numbered inputs a selection holds, and that those left out are no better |
| DistanceUtil.BestPlaces | tenann/util/distance_util.h:77-117 | which places of the lists a selection holds, what became of their ids, and that those left out are no better |
| DistanceUtil.ReservedDistances | tenann/util/distance_util.h:77-127 | the distances returned are those of sorting and truncating all distances |
| DistanceUtil.StoredFaithfully | tenann/util/distance_util.h:62-75 | the pairs kept are the pairs given exactly when every id fits 32 bits |
| DistanceUtil.IdTooLarge | tenann/util/distance_util.h:62-75 | the id 2^31 comes back as -2^31 |
| DistanceUtil.ReservedCount | tenann/util/distance_util.h:94-103 | min(k, n) results, and everything for a negative limit |
| BruteForce.EuclideanDistance | tenann/util/bruteforce.h:52-65 | the loop computes the squared distance |
| BruteForce.CosineSimilarityOf | tenann/util/bruteforce.h:67-87 | the loop computes the cosine, 0 for a null vector |
| BruteForce.CosineBounded | tenann/util/bruteforce.h:67-87 | the cosine is between -1 and 1 |
| BruteForce.CosineIs | tenann/util/bruteforce.h:67-87 | times the lengths of both vectors it is their dot product, and it is 0 for a null vector |
| BruteForce.Search | tenann/util/bruteforce.h:154-191 | accepts exactly the columns it should; returns the k best of all non-null rows, best first, padded with id -1 |
| BruteForce.AnswersAre | tenann/util/bruteforce.h:154-191 | the answers row by row: distinct non-null rows with their ids and distances, by ascending squared distance or descending cosine; no non-null row left out is better, and none is left out while there is room; the other places hold id -1 |
| BruteForce.NonNullRowsAre | tenann/util/bruteforce.h:163-170 | the rows considered are exactly those whose null flag is zero or absent, in row order |
| BruteForce.SearchAll | tenann/util/bruteforce.h:119-193 | every query has its answers at its own k places |
| BruteForce.KeepBest | tenann/util/bruteforce.h:158-174 | one pass with a bounded queue keeps the k best non-null rows |
| BruteForce.RangeSearch | tenann/util/bruteforce.h:196-255 | appends all non-null rows within range to what the vectors held and keeps the best places of that, best first, cut to a positive limit; fails exactly on a wrong order, null flags without ids, a wrong dimension or result vectors of different lengths |
| BruteForce.Collect | tenann/util/bruteforce.h:232-247 | one pass appends exactly the non-null rows within range, with their ids and distances, in row order |
| IvfPqSearcher.SelectNearest | tenann/searcher/faiss_ivf_pq_ann_searcher.cc:136-181 | the result holds the hits of distinct places, nearest first and by id among equals, as many as the limit says or all when it is negative, none left out being nearer; it is the sorted list of all hits, cut to the limit |
| IvfPqSearcher.SelectedAreNearest | tenann/searcher/faiss_ivf_pq_ann_searcher.cc:136-181 | the indices a heap selects are those of nearest hits, ties going to the smaller id |
| IvfPqSearcher.RangeSearch | tenann/searcher/faiss_ivf_pq_ann_searcher.cc:115-187 | fails exactly unless L2 is asked for in ascending or cosine in descending order with a range in [-1, 1], or when the index search within the range, or within 2 - 2 * range, fails; otherwise the nearest hits, all when the limit is negative, shown as distances or similarities |
| IvfPqSearcher.ShownInOrder | tenann/searcher/faiss_ivf_pq_ann_searcher.cc:115-187 | in the caller's own terms the results come best first and within the range asked for |
| IvfPqSearcher.BestIndices | tenann/searcher/faiss_ivf_pq_ann_searcher.cc:149-164 | the heap of indices selects the indices of the nearest hits |
| IvfPqSearcher.NearerIsTotal | tenann/searcher/faiss_ivf_pq_ann_searcher.cc:149-156 | distance then id is a total order on hits |
| IvfPqSearcher.ScanOrderFree | tenann/searcher/faiss_ivf_pq_ann_searcher.cc:136-181 | the answer does not depend on the order in which hits were found |
| BlockCache.ToStringInjective | tenann/index/index_ivfpq_reader.cc:354-360 | different list numbers have different decimal strings |
| BlockCache.KeysDistinct | tenann/index/index_ivfpq_reader.cc:354-360 | different lists of a file have different cache keys |
| BlockCache.TilesCover | tenann/index/index_ivfpq_reader.cc:362-371 | each byte of the laid-out region belongs to exactly one list |
| BlockCache.ExtentsOrdered | tenann/index/index_ivfpq_reader.cc:362-371 | lists lie in order and do not overlap |
| BlockCache.BlockCovers | tenann/index/index_ivfpq_reader.cc:250-262 | the aligned block covers the list, starts and ends on block boundaries and is less than two blocks longer |
| BlockCache.FilledIs | tenann/index/index_ivfpq_reader.cc:276-279 | what is read of a part inside the file is the file's bytes |
| BlockCache.BlockCacheInvertedLists.constructor | tenann/index/index_ivfpq_reader.cc:325-376 | the lists tile the region from the start offset, and agree with what an earlier reader of the file has left in the cache |
| BlockCache.BlockCacheInvertedLists.LayOut | tenann/index/index_ivfpq_reader.cc:362-371 | the layout loop places each list right behind the one before |
| BlockCache.BlockCacheInvertedLists.GetPtr | tenann/index/index_ivfpq_reader.cc:235-301 | hit or miss, the same buffer and position, which the file and the layout alone determine; fails exactly on a bad list number or a short read |
| BlockCache.BlockCacheInvertedLists.GetCodes | tenann/index/index_ivfpq_reader.cc:303-310 | the codes of the list, from a buffer that stays held |
| BlockCache.BlockCacheInvertedLists.GetIds | tenann/index/index_ivfpq_reader.cc:312-319 | the ids right behind the codes |
| BlockCache.BlockCacheInvertedLists.PartsAreFileBytes | tenann/index/index_ivfpq_reader.cc:303-319 | for a list inside the file, codes and ids are the file's own bytes |
| BlockCache.BlockCacheInvertedLists.TruncationUnnoticed | tenann/index/index_ivfpq_reader.cc:274-284 | exactly when a list that reaches beyond the file passes the read check and is handed out with bytes never read |
| BlockCache.BlockCacheInvertedLists.OneByteShort | tenann/index/index_ivfpq_reader.cc:274-284 | a file that is one byte short passes the check, and the last byte of the list was never read |
| BlockCache.ReadArrayInvertedLists | tenann/index/index_ivfpq_reader.cc:325-376 | opening fails exactly when the reader stands beyond the end of the file |
| SeqViews.FromStartIff | tenann/common/typed_seq_view.h:216-222 | reading a column of the right row length from the start of its array gives its rows if and only if the first offset is 0 or the array repeats what precedes the first row |
| SeqViews.ChunksAppend | tenann/builder/faiss_index_builder_with_buffer.cc:56-63 | whole vectors appended to a buffer of whole vectors are cut out again as they were |
| BuilderSessions.AddTotal | tenann/builder/faiss_index_builder_with_buffer.cc:81-144 | a call whose rows have the right length adds what it hands over, unless it is one of three named cases; then the index gets fewer rows |
| BuilderSessions.KeepsIff | tenann/builder/faiss_index_builder_with_buffer.cc:81-144 | exactly which accepted calls add their non-null rows, in order and with their own ids: the row length is right, none of the three cases applies, and reading from the start of the array finds the rows |
| BuilderSessions.FlushTotal | tenann/builder/faiss_index_builder_with_buffer.cc:43-79 | a flush gives the index what is pending; a second one gives nothing |
| BuilderSessions.SessionConserves | tenann/builder/faiss_index_builder_with_buffer.cc:43-144 | over every session: the index has or will get exactly the rows added if and only if every call kept its rows |
| BuilderSessions.UniformIsLossless | tenann/builder/faiss_index_builder_with_buffer.cc:81-144 | sessions with one lifetime, columns of the right dimension that start with their first row, and null flags only when copying and before the first flush, lose nothing |
| BuilderSessions.SessionRuns | tenann/builder/faiss_index_builder.cc:81-113 | ordinary sessions raise no error: ids exactly when the builder is made for them, null flags only with ids, rows of the right length, and an unflagged row before the first flush |
| BuilderSessions.RowsAre | tenann/builder/faiss_index_builder_with_buffer.cc:134-144 | the rows of a batch are its non-null rows, each at its place among them, with its own elements and id |
| BuilderSessions.OtherDimensionRecut | tenann/builder/faiss_index_builder.cc:147-158 | a fixed-length column of another dimension is accepted and cut into other rows |
| BuilderSessions.FirstOffsetIgnored | tenann/builder/faiss_index_builder_with_buffer.cc:81-86 | what precedes the first row of a variable-length column is taken for it |
| BuilderSessions.ReadBeyondTheEnd | tenann/builder/faiss_index_builder_with_buffer.cc:81-86 | a fixed-length column of a smaller dimension is read beyond its end |
| BuilderSessions.BorrowedRowLost | tenann/builder/faiss_index_builder_with_buffer.cc:81-144 | a mixed-lifetime session that loses its first row |
| BuilderSessions.NullFlaggedAfterTraining | tenann/builder/index_builder.h:68-77 | null-flagged rows added after the first flush never reach the index |
| BuilderSessions.ReopenedGivesOldRows | tenann/builder/faiss_index_builder.cc:52-79 | a reopened builder gives its new index the rows it still had buffered |
| IndexBuilders.FaissIndexBuilderWithBuffer.AddBatch | tenann/builder/faiss_index_builder.cc:81-113 | fails exactly on a closed builder, wrong ids or flags, or a wrong row length in a variable-length column, and then changes nothing; otherwise as specified |
| IndexBuilders.FaissIndexBuilderWithBuffer.CheckDimension | tenann/builder/faiss_index_builder.cc:221-227 | the loop accepts exactly the columns all of whose rows have the dimension |
| IndexBuilders.FaissIndexBuilderWithBuffer.MergeBatch | tenann/builder/faiss_index_builder_with_buffer.cc:81-132 | copying, borrowing, and copying what was borrowed |
| IndexBuilders.FaissIndexBuilderWithBuffer.AddWithRowIdsAndNullFlags | tenann/builder/faiss_index_builder_with_buffer.cc:134-144 | the loop buffers exactly the rows and ids whose flag is zero |
| IndexBuilders.FaissIndexBuilderWithBuffer.FlushBuffers | tenann/builder/faiss_index_builder_with_buffer.cc:43-79 | trains and gives the rows once, as many vectors as the buffered floats make; does neither when the builder is not open or nothing is buffered |
| IndexBuilders.FaissIndexBuilderWithBuffer.OpenBuilder | tenann/builder/faiss_index_builder.cc:52-79 | opens a builder that is not open, with a new index |
| IndexBuilders.FaissIndexBuilderWithBuffer.CloseBuilder | tenann/builder/faiss_index_builder.cc:130-134 | closes a builder that is open and keeps its buffers |
| CounterForest.RuntimeProfile.constructor | tenann/util/runtime_profile.cc:71-81 | the built-in counter hangs from the root in one map only |
| CounterForest.RuntimeProfile.AddCounter | tenann/util/runtime_profile.cc:240-253 | adds one counter under an existing parent; keeps the forest exactly when the name is not empty; an existing counter stays where it is |
| CounterForest.RuntimeProfile.RemoveCounter | tenann/util/runtime_profile.cc:480-511 | removes exactly a counter and its descendants from both maps |
| CounterForest.RuntimeProfile.RemoveBelow | tenann/util/runtime_profile.cc:493-510 | the worklist loop ends and removes exactly the subtree |
| CounterForest.RuntimeProfile.RemoveCounters | tenann/util/runtime_profile.cc:513-562 | keeps exactly the saved counters and their ancestors, in both maps |
| CounterForest.Climb | tenann/util/runtime_profile.cc:520-530 | climbing from parent to parent ends and collects exactly the ancestors |
| CounterForest.RemovingStep | tenann/util/runtime_profile.cc:495-510 | one round of the worklist keeps: each pending root once, everything to remove below some of them |
| CounterForest.RemovedKeepsForest | tenann/util/runtime_profile.cc:480-511 | what remains is a forest that both maps describe alike |
| CounterForest.KeptKeepsForest | tenann/util/runtime_profile.cc:532-562 | what is kept is a forest that both maps describe alike |
| CounterForest.ClosureIsUpClosed | tenann/util/runtime_profile.cc:517-530 | the saved names with their ancestors are closed under parents |
| CounterForest.SubtreeIsLeast | tenann/util/runtime_profile.cc:493-510 | what goes with a counter is the least set that holds it and the children of all it holds |
| CounterForest.ClosureIsLeast | tenann/util/runtime_profile.cc:517-530 | what is kept is the least set that holds the saved counters and the parents of all it holds |

## Left out

Weaker than the code, or stated under a condition:

- IndexCaches.IndexCache.Insert: models the sequence of the cache's insertion and the handle's move assignment; the size callback is a parameter, and the new entry is always NORMAL, as in the code.
- RangeSearches.CustomRangeSearchPreassigned: one worker. What several workers find is in the `RangeRuns` mode lemmas.
- RangeRuns.AddedRowsAreFound: is about the L2 metric, as the bound is; rows the first-level quantizer leaves unassigned are in no list and cannot be found.
- RangeResults.DefaultFinds: like RangeResults.DefaultHitIsNear about the L2 metric and a radius that is not negative, as the bound is; RangeResults.HitsAre is about both metrics and every radius.
- HnswIndexes.IndexHnswRangeSearch: the index's own search, which the limited branch calls, is a parameter; the candidate heap is a bounded set that drops nothing until it is full; without a limit `efSearch` must be positive, for the heap to have room for the start.
- IndexBuilders.FaissIndexBuilderWithBuffer.FlushBuffers: the null dereference of an untrained builder with nothing buffered is modelled as a failure that changes nothing.
- CounterForest.RuntimeProfile.RemoveCounter: not for the built-in counter once any other counter hangs from the root: it is in no child set, and the code erases an end iterator there.
- BlockCache.BlockCacheInvertedLists.GetPtr: the cache is a map from keys to buffers that may drop any entry no handle holds; what it holds under a file's keys is taken to come from that file, read with the same layout, although the key is a hash of the name with the modification time in seconds.
- LruCaches.LRUCache.Insert: takes the hash as given; `CacheKey::hash` is an arbitrary 32-bit function of the key.
- ShardedCaches.ShardedLRUCache.MemoryUsage: sums of charges are unbounded, as is every other size that the code keeps in `size_t`, except in `ReserveTopK` and the block cache's subtraction.

Not modelled:

- Mutexes, atomics and OpenMP: each locked operation is one step, and a parallel region is an interleaving of whole iterations. Concurrent `get_ptr` calls on one list are left out.
- Rounding, NaN and infinities; the square root of a negative number compares false, as it does in the code.
- faiss itself: training, assignment and encoding are functions that give an index or a code in range, graph construction is left out, and partial range-search results are merged as multisets per query.
- Bit-packed codes: a code is a sequence of sub-quantizer indices; the wide distance loop keeps its grouping of codes, gathers and horizontal additions.
- `range_search`'s own first-level search: keys and coarse distances are inputs, and coarse distances are those of the listed centroids.
- `direct_map`, `max_codes` (unused by the search), `store_pairs` (never set here), verbose output and timing.
- Polysemous code computation: only the error the range search raises for it.
- `precompute_list_table_pointers`: range search rejects the mode that uses it.
- The id filter of the brute-force range search, which the code accepts and ignores.
- Memory allocation failure; freeing is an entry in a log of deleter calls.
- The destructors of the cache and of the index cache, which the process runs at exit.
- `get_cache_status`, `new_id`, `starts_with` and key clearing: single expressions.
- File opening, `lseek` and direct I/O: a file is an immutable sequence of bytes.
- Index metadata, headers and the `.vi` and `.vd` file formats: serialization plumbing.
- `EnableCustomRowId` during a session, and faiss's own minimum number of training rows.
- Counter values, `copy_all_counters_from` and profile merging: bulk over the same two maps.
- Factories, parameter parsing, logging, Python bindings and examples.
