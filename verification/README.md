# A verified model of cachemoney

cachemoney is a single-node, in-memory cache that speaks the Redis protocol.  This project models
the parts of it that carry its guarantees and proves those guarantees with Dafny 4.11.
`dafny verify dfyconfig.toml` checks everything.

| part | files | modelled as |
|---|---|---|
| Robin Hood table | `Ring`, `RobinHoodLayout`, `RobinHoodTable`, `RobinHoodHistory`, `RobinHoodTermination`, `RobinHoodRestore`, `ResizeCost`, `RobinHoodRuns`, `TableScan` | a class over the four parallel arrays, proved against a finite map and a layout invariant |
| Sharded map | `Shards`, `ShardMap`, `Sampling` | a class over a power-of-two number of those tables in one heap, proved against one finite map; sampling as a function of the random stream |
| Cache engine | `CacheCost`, `CacheEngine`, `EngineDraws`, `EvictionMisses`, `CacheRefinement`, `UsageProtocol`, `UsageHistory`, `NoEvictionBound` | a class for one caller at a time, and a step system for any number of threads |
| W-TinyLFU | `PackedWords`, `PackedBits`, `CountMin`, `Sketch`, `RacingEstimate`, `FrequencyPolicy`, `PolicyStream`, `ResizeRace`, `AccessBuffer` | packed words in place, proved against plain counters and sets; step systems for the striped buffer, for estimates that race the drainer and for resizes that do |
| RESP codec and parsers | `RespNumbers`, `RespCodec`, `RespErrors`, `EventLoop`, `EventFrames` | reader, writer and incremental parser over byte sequences, the parsers proved against a grammar of the bytes |
| Server shutdown | `Shutdown`, `Serving` | a step system: one accept loop, any number of connections and Shutdown calls |

Choices that hold throughout:

- The hash functions and the mixing of fingerprints are arbitrary functions, so every result holds
  for every seed and every pattern of collisions.
- `hash & (capacity - 1)` is written `hash % capacity` with a power-of-two invariant, hashes are
  numbers below 2^64, and metadata words wrap at 16 bits.
- The table's growth is bounded by a parameter `limit`, the largest capacity the allocator can
  provide.  A call succeeds exactly when the keys fit (`Fits`) that capacity.  The source has no such
  bound and keeps doubling; `SomeCapacityFits` says for which keys that ends.
- Clock readings, random draws, contention on a lock and the moment a socket fails are parameters or
  free choices, so the results hold for all of them.
- In the step systems every load and store of shared state is its own step; what a mutex protects is
  one step, or several during which the mutex is held.  The sample of an eviction pass is one step whose
  victim is any key at all, stored or not, which allows for everything its many loads could have seen.
- `Option` is the module `Options`, and counting facts about finite sets are in `Finite`; everything else
  is defined where it is used.

## Where the code and its comments part

The model follows the code.  Where a comment promises more than the code does, a lemma gives a
concrete case and another says exactly when the promise holds:

- internal/shardmap/table.go:236-238 says deletion leaves exactly the state the table would have had
  without the key.  It does so for the map and for which slots are filled at which displacement, but
  not always for which key sits where (`DeleteMayReorder`).  It does so exactly when no two neighbours
  beyond the insertion point share a home (`DeleteRestores`).
- internal/shardmap/table.go:36-42 and 130-133 present the valve as a clean grow and `set` as never
  resizing.  The valve resizes, also from inside a resize, and with 256 keys of one hash it never stops
  (`SharedHashNeverEnds`); a run ends exactly when no insertion overcrowds a window of hash values
  (`RunEndsIff`).
- internal/shardmap/sample.go:29-30 says a sample is short only when the map is.  A random stream that
  repeats one number yields at most one entry of any map (`SampleMayFallShort`).  Whatever the stream,
  the promise holds for exactly those maps that hold fewer entries than are asked for, or have no empty
  shard when one entry is asked for (`SamplePromiseIff`); `SampleIff` says which lists a sample can be.
- internal/cache/evict.go:11-13 speaks of consecutive misses and of giving up only with the newcomer
  left.  The misses are counted over the whole pass, and a pass can give up with a victim still stored
  (`GivesUpTooSoon`).  Whatever the draws, a write's pass that gives up leaves only the newcomer exactly
  when usage is at or under the ceiling to begin with or only the newcomer is stored
  (`NothingLeftIff`), and its misses are consecutive exactly when removing any one other entry
  would reach the ceiling (`MissesConsecutiveIff`).  Fair draws, which offer an eligible key whenever one is
  stored, give both promises always (`FairMissesConsecutive`).  A draw here is exactly what the sampler can
  return for some random stream (`EngineSampleIff`).
- internal/cache/cache.go:322-334 reads the clock once for every entry it counts.  The count is that of
  no single instant; it lies between the live entries at the last reading and those at the first
  (`LenBetween`).
- internal/cache/cache.go:297-299 guarantees a positive remaining lifetime.  The clock is read twice, and
  the result can be zero, negative, or the -1 that means no expiry (`TTLMayLookEternal`); it is positive
  for every stored state exactly when the second reading is no later than the first (`PositiveTTLIff`).
- internal/cache/cache.go:336-341 expires lazily.  That is invisible to every run with given clock
  readings exactly when they have no peak, a rise followed by a fall (`LazinessInvisibleIff`,
  `PeakDiffers`), whatever is evicted on the way (`CacheRefinement.RunAll`).
- internal/cache/cache.go:233-261 checks a write against the ceiling before it stores it.  Threads that
  check together pass it, by at most one dearest write for each of them but one (`OvershootBounded`),
  and for every number of threads by that much (`OvershootReached`).
- internal/tinylfu/policy.go:154-156 says the sketch halves every window of increments.  A resize leaves
  the counter alone, so the first window after one can be short (`ResizeShortensWindow`); it is full
  exactly when the counter stood at zero (`ResizeWindowIff`), that is, when nothing had been counted since
  the last aging (`CounterSinceAging`).
- internal/tinylfu/policy.go:114-117 resizes in two stores.  A drain between them feeds the new sketch
  through the old filter, and a fingerprint then loses two sightings, not one.  It never loses more than
  one for each filter it came through (`RacingLowerBound`), and with enough racing resizes it loses just
  that, for every number of filters (`BoundReached`).
- internal/server/eventloop.go:127-130 waits while the buffer holds only a partial frame.  Some waits are
  in vain: nothing that can follow completes the frame (`WaitsInVain`).  A frame awaited can be
  completed exactly when its open header line starts a count and its payload does not already lack its
  CR (`AwaitedIff`).
- internal/server/eventloop.go:89-91 says a partial frame waits for more bytes.  A header of 64 bytes or
  more before its line end is accepted whole but refused when a chunk ends late inside it
  (`PaddedCountShows`); chunking shows exactly for streams with such an accepted header
  (`ChunkingInvisibleIff`).

## Model

| member | source | states |
|---|---|---|
| `RobinHoodTable.MetaRoundTrip` | internal/shardmap/table.go:76-86 | displacement and fragment are read back from the 16-bit word exactly for displacements up to 254; at 255 the word wraps and can look empty |
| `RobinHoodTable.CapacityFor` | internal/shardmap/table.go:95-103 | the smallest power of two, at least 8, whose three quarters reach the hint |
| `RobinHoodTable.Table.constructor` | internal/shardmap/table.go:95-103 | a valid empty table that takes the hinted number of entries before growing, and no larger than that needs |
| `RobinHoodTable.Table.Alloc` | internal/shardmap/table.go:108-117 | fresh arrays, no entries, thresholds derived from the capacity |
| `RobinHoodTable.Table.Locate` | internal/shardmap/table.go:189-209 | the probe finds a key exactly when the map has it: the fragment filter and the early exit never miss one |
| `RobinHoodTable.Table.Lookup` | internal/shardmap/table.go:189-209 | answers as the finite map |
| `RobinHoodTable.Table.Displace` | internal/shardmap/table.go:134-182 | the displacement loop ends holding an entry to land, to overwrite with or to grow for; at every step the table and the carried entry together are the old map with the new binding |
| `RobinHoodTable.Table.Set` | internal/shardmap/table.go:134-182 | the new map is the old one with the binding, validity and count restored, through any number of valve openings; it succeeds exactly when the keys fit an allocatable capacity, and the valve opens exactly when they do not fit this one |
| `RobinHoodTable.Table.Grow` | internal/shardmap/table.go:213-215 | doubling keeps every entry, nested growth included |
| `RobinHoodTable.Table.Resize` | internal/shardmap/table.go:220-228 | reinserting by cached hash loses and duplicates nothing, even when the valve opens during it; counts the entries moved |
| `RobinHoodTable.Table.Insert` | internal/shardmap/table.go:123-128 | the new map, the new capacity, the entries moved, and, for a new key without a resize, the exact new slots |
| `RobinHoodTable.Table.BackwardShift` | internal/shardmap/table.go:260-281 | the chain is repaired: one entry gone, all others kept, layout valid, and the new slots are those of the shift |
| `RobinHoodTable.Table.Delete` | internal/shardmap/table.go:239-285 | removes exactly the named entry and returns its value; a missing key changes nothing |
| `RobinHoodTable.Table.Shrink` | internal/shardmap/table.go:291-302 | halves below a quarter full and not under 8, keeping every entry |
| `RobinHoodLayout.ProbeAbsent` | internal/shardmap/table.go:184-204 | an empty slot, or a resident nearer home than the probe, proves the key absent |
| `RobinHoodLayout.PlaceKeepsLayout` | internal/shardmap/table.go:154-182 | landing or robbing at a slot the probe reached keeps the layout |
| `RobinHoodLayout.GapShift` | internal/shardmap/table.go:260-270 | pulling one displaced entry back keeps the layout around the moving hole |
| `RobinHoodLayout.ValveOverflows` | internal/shardmap/table.go:142-153 | when the valve opens, no order of insertion could have placed these keys in this capacity |
| `RobinHoodLayout.LayoutFits` | internal/shardmap/table.go:134-182 | conversely, a valid table shows that its keys fit its capacity |
| `RobinHoodHistory.SameOccupancy` | internal/shardmap/table.go:134-182 | which slots are filled depends only on the set of keys |
| `RobinHoodHistory.HistoryIndependent` | internal/shardmap/table.go:134-285 | two valid non-full tables of one capacity with the same keys have the same filled slots, homes and displacements, whatever happened before |
| `RobinHoodTermination.SomeCapacityFits` | internal/shardmap/table.go:142-153 | some capacity fits a set of keys if and only if no window of hash values holds more than 254 keys beyond its size; the condition of `RunEndsIff` and `InsertEndsIff` |
| `RobinHoodTermination.DistinctHashesSpread` | internal/shardmap/table.go:36-42 | pairwise distinct 64-bit hashes overcrowd no window; used by `RunEndsFor` |
| `RobinHoodTermination.FewKeysFit` | internal/shardmap/table.go:36-42 | up to 255 keys never open the valve, whatever their hashes |
| `RobinHoodTermination.SharedHashNeverFits` | internal/shardmap/table.go:142-153 | 256 keys of one hash fit no capacity |
| `RobinHoodRestore.CarryRestores` | internal/shardmap/table.go:154-182 | carrying an entry on and then closing the gap behind it restores the slots exactly when no entry passed shares its predecessor's home |
| `RobinHoodRestore.DeleteRestores` | internal/shardmap/table.go:230-285 | deleting a key just inserted restores the very slots if and only if no two neighbours beyond the insertion point share a home |
| `ResizeCost.ChangeIsPaid` | internal/shardmap/table.go:119-128 | one change keeps the load between a quarter and three quarters and pays for its own resize out of a potential |
| `ResizeCost.ResizesExactly` | internal/shardmap/table.go:123-302 | the capacity doubles exactly before an entry goes into a table three quarters full, and halves exactly on a removal that leaves less than a quarter, never under 8 |
| `ResizeCost.ResizesAmortized` | internal/shardmap/table.go:287-302 | n changes from an empty table move at most 3n + 6 entries in all resizes |
| `RobinHoodRuns.RunAll` | internal/shardmap/table.go:123-302 | every run of put, find and remove, for every hash function and with resizes anywhere, answers as a finite map; given room for the entries it completes exactly when every insertion's keys fit the limit; while no insertion brings the keys present above 255 the valve never opens; without a valve opening load and resize cost stay bounded |
| `RobinHoodRuns.RepliesFromHistory` | internal/shardmap/table.go:123-302 | the reference those runs answer by: a lookup or removal returns what the last put of its key put, nothing if the key was removed since or never put |
| `RobinHoodRuns.InsertEndsIff` | internal/shardmap/table.go:123-182 | with unbounded memory one insertion ends if and only if the resulting keys overcrowd no window of hash values |
| `RobinHoodRuns.RunEndsIff` | internal/shardmap/table.go:123-228 | with unbounded memory a run ends, completing at some limit, if and only if no insertion of it overcrowds a window of hash values |
| `RobinHoodRuns.RunEndsFor` | internal/shardmap/table.go:36-42 | a run always ends when the keys that each insertion meets, its own included, have pairwise distinct hashes or number at most 255 |
| `RobinHoodRuns.SharedHashNeverEnds` | internal/shardmap/table.go:142-153 | a run that brings 256 keys of one hash together ends at no limit |
| `RobinHoodRuns.InsertThenDelete` | internal/shardmap/table.go:123-285 | insert then delete: the map comes back always, the displacement layout when the capacity does, the exact slots if and only if no twins lie beyond |
| `RobinHoodRuns.DeleteMayReorder` | internal/shardmap/table.go:236-238 | four keys for which deletion does not restore the order of keys with one home |
| `TableScan.Walk` | internal/shardmap/map.go:212-225 | the walk over the slots visits each entry of the table exactly once, or stops at the first refusal |
| `TableScan.SampleSlot` | internal/shardmap/sample.go:82-93 | eight random probes and then a scan: it ends, at a filled slot, and is the slot the random stream determines |
| `TableScan.DrawnIsFirst` | internal/shardmap/sample.go:82-93 | the slot of the first of eight random numbers that names a filled one, otherwise the first filled slot at or after the one the ninth names; just the numbers looked at are used up |
| `Shards.ShardInRange` | internal/shardmap/map.go:119-126 | the high bits of any hash name an existing shard, a single shard included |
| `Shards.OwnsStretch` | internal/shardmap/map.go:119-126 | every shard owns one stretch of the hash values, all of the same length |
| `Shards.NextPow2` | internal/shardmap/options.go:53-73 | the smallest power of two at or above the request, with its logarithm |
| `Shards.OnlyInOwner` | internal/shardmap/map.go:119-138 | a key lives in the shard its hash names and nowhere else |
| `Shards.TotalIsSize` | internal/shardmap/map.go:186-195 | shards share no key, so their sizes add up |
| `ShardMap.Map.constructor` | internal/shardmap/map.go:71-117 | the requested shards, or four per processor, rounded up to a power of two: separate valid tables that make up the empty map, with room for the hint split evenly |
| `ShardMap.Map.PutIn` | internal/shardmap/map.go:143-149 | an insertion in one table leaves every other table and its validity alone; it succeeds exactly when that shard's keys fit |
| `ShardMap.Map.Get` | internal/shardmap/map.go:131-138 | a lookup in the owner's table reads the one map the shards make up |
| `ShardMap.Map.Swap` | internal/shardmap/map.go:143-166 | lookup and insert on the owner's table write that one map and return what was replaced; the call comes back exactly when the shard's keys fit an allocatable capacity |
| `ShardMap.Map.Delete` | internal/shardmap/map.go:172-179 | deletion on the owner's table removes from that one map and returns what was there |
| `ShardMap.Map.Len` | internal/shardmap/map.go:186-195 | the tables' counts add up to the size of the one map |
| `ShardMap.Map.Range` | internal/shardmap/map.go:202-225 | an unstopped walk over all tables visits every entry exactly once; a stopped one stops at the first refusal |
| `Sampling.DrawOne` | internal/shardmap/sample.go:65-93 | one draw is the resident that the random numbers and the tables determine, a genuine binding, or nothing exactly for an empty shard |
| `Sampling.Sample` | internal/shardmap/sample.go:33-55 | the sample is the first n different entries among the budget's draws, which are a function of the tables and the random stream; it is short if and only if those draws offer fewer than n keys |
| `Sampling.SampleMayFallShort` | internal/shardmap/sample.go:29-30 | whatever the tables hold, a random stream that repeats one number offers at most one key |
| `Sampling.SampleIff` | internal/shardmap/sample.go:33-93 | over all random streams a sample can be exactly the lists of at most n different residents that are empty only if some shard is |
| `Sampling.SamplePromiseIff` | internal/shardmap/sample.go:29-30 | a sample is short only when the map is, whatever the stream, if and only if the map holds fewer than n entries, or n is one and no shard is empty |
| `CacheCost.CostOfPut` | internal/cache/cost.go:9-16 | an overwrite changes the summed cost by exactly the difference |
| `CacheCost.CostOfRemove` | internal/cache/cost.go:9-16 | a removal lowers the summed cost by exactly what was charged |
| `CacheEngine.PickVictim` | internal/cache/evict.go:49-65 | never the excluded key; the first eligible under random, otherwise the first of least frequency; none exactly when all candidates are excluded |
| `CacheEngine.PickIsPicked` | internal/cache/evict.go:43-65 | the policy leaves no choice among the candidates of a draw |
| `CacheEngine.EvictedWasWorst` | internal/cache/evict.go:24-65 | every key a pass evicts was offered by one of its draws and was the worst there: the first that could be taken under random, otherwise none of those was estimated to be rarer |
| `CacheEngine.Cache.constructor` | internal/cache/cache.go:122-143 | an empty cache whose counter is exact |
| `CacheEngine.Cache.EvictUntilUnder` | internal/cache/evict.go:24-41 | the survivors are exactly what its draws leave, with bytes and expiry untouched; every draw is one the sampler can make of what is then stored; it ends under the ceiling or gives up after more than 100 draws without a victim, counted over the whole pass; it evicts no more than needed and spares the excluded key; with fair draws it ends over the ceiling only when nothing else is left |
| `EngineDraws.EngineSampleIff` | internal/cache/evict.go:24-27 | the lists of candidates that the engine model draws are exactly the key lists that the sampler over the tables returns for some random stream |
| `EvictionMisses.GivesUpTooSoon` | internal/cache/evict.go:11-34 | a pass over three keys whose misses are not consecutive and that gives up with a victim still stored |
| `EvictionMisses.NothingLeftIff` | internal/cache/evict.go:11-34 | whatever the draws, a pass that gives up leaves nothing to evict if and only if no rest at which draws can miss has a victim and is over the ceiling; with the newcomer stored: usage is at or under the ceiling, or there is no victim, to begin with |
| `EvictionMisses.MissesConsecutiveIff` | internal/cache/evict.go:11-34 | whatever the draws, the misses of a pass that gives up are consecutive if and only if, from every rest at which draws can miss, removing any one eligible entry reaches the ceiling; with the newcomer stored that rest is all that is stored |
| `EvictionMisses.FairMissesConsecutive` | internal/cache/evict.go:11-34 | with fair draws they are consecutive, and nothing eligible is left when the pass gives up |
| `CacheEngine.Cache.Get` | internal/cache/cache.go:196-208 | the bytes of a live key, nothing for an expired one |
| `CacheEngine.Cache.Set` | internal/cache/cache.go:224-269 | refused exactly under noeviction when the bytes of key and value grow usage past the ceiling, changing nothing; otherwise the key holds the written bytes and expires the time to live after now, or never without one, survivors are unchanged, and usage ends under the ceiling, or the pass gave up, and with fair draws only with the newcomer left |
| `CacheEngine.Cache.Del` | internal/cache/cache.go:276-288 | physically removes the key, refunds its cost, reports whether it was live |
| `CacheEngine.Cache.TTL` | internal/cache/cache.go:300-312 | liveness judged by the first clock reading, the remaining lifetime by the second, -1 without expiry |
| `CacheEngine.PositiveTTLIff` | internal/cache/cache.go:297-312 | the remaining lifetime of a live key that expires is positive, whatever is stored, if and only if the second reading is no later than the first |
| `CacheEngine.TTLMayLookEternal` | internal/cache/cache.go:297-312 | two readings apart, a key that expires can report the -1 that means it never does |
| `CacheEngine.Cache.Len` | internal/cache/cache.go:322-341 | the number of entries that are live at the clock reading taken when the walk reaches them, each entry once |
| `CacheEngine.LenBetween` | internal/cache/cache.go:322-341 | with readings anywhere between a first and a last instant, the count lies between the live entries at the last and those at the first |
| `CacheRefinement.SetThenRead` | internal/cache/cache.go:196-312 | after a stored write a read at any instant returns the written bytes exactly until the expiry instant, and the lifetime reported is -1 without one, what is left of it before that instant, nothing from it on |
| `CacheEngine.Cache.SetMaxMemory` | internal/cache/cache.go:348-359 | lowering the ceiling under an evicting policy evicts to it at once or gives up, and touches nothing otherwise |
| `CacheRefinement.RunAll` | internal/cache/cache.go:196-341 | every run under any policy and ceiling answers each call as the history of writes, deletions, evictions and clock readings before it determines, and, if the clock has no peak, as a store that drops expired entries at once, less the keys evicted; only writes evict, what a pass over the stored entries takes and never the key written; refusals need a ceiling and noeviction, which then keeps usage at or under it |
| `CacheRefinement.AnswersFromHistory` | internal/cache/cache.go:196-341 | a read, lifetime, deletion or count answers by the last write to the key that nothing has removed, and by whether its time to live has run out: bytes, rest of the lifetime, existence and number of such keys |
| `CacheRefinement.LazyAgrees` | internal/cache/cache.go:336-341 | without a peak in the clock every answer of the lazy store is the eager store's |
| `CacheRefinement.PeakDiffers` | internal/cache/cache.go:336-341 | for every clock with a peak, a run of the engine whose answers the eager store does not give |
| `CacheRefinement.LazinessInvisibleIff` | internal/cache/cache.go:196-341 | lazy expiry is invisible to all runs with given clock readings, whatever is evicted during them, if and only if these have no peak |
| `CacheRefinement.LiveLaterIff` | internal/cache/cache.go:336-341 | dropping what has expired at one instant changes nothing seen at another, whatever is stored, if and only if the other is no earlier |
| `UsageProtocol.StepAccounted` | internal/cache/cache.go:252-269 | every step of every thread keeps counter plus pending deltas equal to the stored cost |
| `UsageProtocol.UsageExact` | internal/cache/cache.go:224-288 | in every interleaving of any number of threads that account is exact, so the counter is exact whenever nothing is pending |
| `UsageProtocol.SetKeepsItsKey` | internal/cache/evict.go:17-41 | from its swap on, a Set never touches the key it wrote, whatever the others do |
| `UsageProtocol.CounterMayLag` | internal/cache/cache.go:252-288 | mid-flight the counter alone can even be negative |
| `UsageHistory.StoredIsLastSwap` | internal/cache/cache.go:252-288 | in every interleaving a key is stored if and only if the last step that touched it was a swap, and it holds what that swap wrote |
| `UsageHistory.CeilingIsLast` | internal/cache/cache.go:348-359 | the ceiling in force is the one the last SetMaxMemory has stored, and every Set that begins goes by it |
| `UsageHistory.ReturnsUnder` | internal/cache/evict.go:24-41 | in every interleaving a Set that has read an evicting policy, or a SetMaxMemory, returns only on seeing the counter at or under its ceiling or after just 101 samples without a victim |
| `UsageHistory.RefusedIff` | internal/cache/cache.go:237-250 | under noeviction a Set is turned away if and only if it grows the incumbent it has read and the counter it sees would pass the ceiling |
| `NoEvictionBound.OvershootBounded` | internal/cache/cache.go:233-261 | in every interleaving of N threads under noeviction and a fixed ceiling, what is stored never costs more than the ceiling and N - 1 of the dearest writes; one thread alone never passes it |
| `NoEvictionBound.OvershootReached` | internal/cache/cache.go:237-256 | for every N a reachable state of N threads that costs just that much: all admitted into the room for one |
| `PackedWords.RaiseNibble` | internal/tinylfu/sketch.go:85-93 | adding one at an unsaturated counter's bit position changes that counter and none of the other fifteen; at a saturated one it would wrap |
| `PackedWords.HalveNibble` | internal/tinylfu/sketch.go:131-141 | one shift and mask halves all sixteen counters of a word |
| `PackedWords.ShiftIsFour` | internal/tinylfu/sketch.go:79-92 | counter k of a word starts at bit 4k |
| `Sketch.WidthFor` | internal/tinylfu/sketch.go:55-60 | the smallest power of two at or above the request and at least 16 |
| `Sketch.PackedSketch.constructor` | internal/tinylfu/sketch.go:55-66 | zero counters, in the next power of two at or above the width and at least 16 |
| `Sketch.PackedSketch.Read` | internal/tinylfu/sketch.go:79-83 | the plain counter at that index |
| `Sketch.PackedSketch.Raise` | internal/tinylfu/sketch.go:89-93 | one plain counter goes up by one, the rest stay |
| `Sketch.PackedSketch.Increment` | internal/tinylfu/sketch.go:98-117 | the conservative update of the plain counters |
| `Sketch.PackedSketch.Query` | internal/tinylfu/sketch.go:121-129 | the least of the four plain counters |
| `Sketch.PackedSketch.Halve` | internal/tinylfu/sketch.go:134-141 | every plain counter halved |
| `CountMin.IncrementOwn` | internal/tinylfu/sketch.go:95-117 | an increment raises its own estimate by exactly one, up to 15 |
| `CountMin.IncrementOthers` | internal/tinylfu/sketch.go:95-117 | and lowers nobody's |
| `CountMin.IncrementIsLeast` | internal/tinylfu/sketch.go:95-117 | conservative update is the least one: any counters that have not fallen and show the sighting are nowhere below the updated ones |
| `CountMin.NeverUnder` | internal/tinylfu/sketch.go:95-141 | over every stream of increments and agings the estimate is at least a private saturating counter |
| `CountMin.NeverAbovePlain` | internal/tinylfu/sketch.go:95-141 | and never above a plain Count-Min sketch fed the same stream |
| `CountMin.ExactWhenAlone` | internal/tinylfu/sketch.go:95-141 | one row without a collision makes the estimate exact |
| `RacingEstimate.RacingBounds` | internal/tinylfu/policy.go:107-112 | an estimate whose four loads race the drainer is at least the estimate at its first load halved as often as any of its counters was before its load, so at least half across one aging, and at most that estimate plus the raises of one counter |
| `RacingEstimate.BetweenEstimates` | internal/tinylfu/policy.go:107-112 | with none of its counters halved in between it lies between the estimates at its first and its last load |
| `RacingEstimate.IncrementIsRaises` | internal/tinylfu/sketch.go:98-117 | an increment is a run of such stores, each raising one counter by one |
| `RacingEstimate.HalveIsHalvings` | internal/tinylfu/sketch.go:134-141 | an aging is a run of such stores, each halving one word |
| `PackedBits.WithHas` | internal/tinylfu/doorkeeper.go:50-55 | setting one bit of a word sets it and touches no other |
| `FrequencyPolicy.BitsFor` | internal/tinylfu/doorkeeper.go:27-40 | six bits an entry, rounded up to a power of two and to at least one word |
| `FrequencyPolicy.Doorkeeper.constructor` | internal/tinylfu/doorkeeper.go:27-40 | a filter of that size with every bit clear |
| `FrequencyPolicy.Doorkeeper.PutOrHas` | internal/tinylfu/doorkeeper.go:42-58 | sets the fingerprint's four bits in the packed words and says whether all were set before |
| `FrequencyPolicy.Doorkeeper.Reset` | internal/tinylfu/doorkeeper.go:60-67 | clears every word, and with it everything seen |
| `FrequencyPolicy.Policy.Admit` | internal/tinylfu/policy.go:161-172 | one drained fingerprint through filter, sketch and aging is one fold of the plain state |
| `PolicyStream.AgingHalves` | internal/tinylfu/policy.go:161-172 | an aging halves every estimate, its own after it has counted, and empties the filter, so that no fingerprint passes next |
| `PolicyStream.FilterIsHashedSince` | internal/tinylfu/doorkeeper.go:42-67 | a bit of the filter is set if and only if a fingerprint drained since the last aging hashes to it |
| `PolicyStream.PassesIff` | internal/tinylfu/policy.go:154-173 | a fingerprint reaches the sketch if and only if each of its four bits has been hashed to since the last aging |
| `PolicyStream.SketchOfIncrements` | internal/tinylfu/policy.go:154-173 | the counters are those of the plain sketch fed the fingerprints that pass, with an aging after the first window of them and after every width from there on |
| `PolicyStream.PolicyIsSketch` | internal/tinylfu/policy.go:118-173 | over every run of drains and resizes that holds from the last resize on, so each estimate lies between a private counter and a textbook Count-Min sketch on that stream |
| `FrequencyPolicy.Policy.DrainOnce` | internal/tinylfu/policy.go:157-173 | a batch is folded in order |
| `FrequencyPolicy.Policy.Resize` | internal/tinylfu/policy.go:118-121 | new sketch and filter of the new sizes, aging counter untouched |
| `FrequencyPolicy.Policy.Query` | internal/tinylfu/policy.go:110-112 | the estimate of the current sketch |
| `FrequencyPolicy.FrequencyLowerBound` | internal/tinylfu/policy.go:154-173 | a fingerprint drained k times since the last aging or resize has an estimate of at least min(15, k - 1), whatever else was drained |
| `FrequencyPolicy.AgingPeriod` | internal/tinylfu/policy.go:154-173 | agings are exactly one width of increments apart, except that the first window is shortened by what the counter already held |
| `FrequencyPolicy.AgesEveryWidth` | internal/tinylfu/policy.go:154-173 | from a new policy, increments are agings times width plus the counter, which stays below the width |
| `FrequencyPolicy.CounterSinceAging` | internal/tinylfu/policy.go:161-172 | over every run with resizes, the counter is the number of increments since the last aging |
| `FrequencyPolicy.ResizeWindowIff` | internal/tinylfu/policy.go:118-173 | after any run and a resize, the first window is a full width whatever is drained, if and only if the counter stood at zero |
| `FrequencyPolicy.ResizeShortensWindow` | internal/tinylfu/policy.go:118-173 | two sightings and a resize leave the counter at one, and the next window one short |
| `ResizeRace.RacingLowerBound` | internal/tinylfu/policy.go:118-173 | in every interleaving of any number of resizes with the drainer, a fingerprint folded k times into the current sketch since it was made or halved, through f filters, has an estimate of at least min(15, k - f) |
| `ResizeRace.OneResizeBound` | internal/tinylfu/policy.go:118-173 | with one resize, at least min(15, k - 2) |
| `ResizeRace.BoundReached` | internal/tinylfu/policy.go:118-173 | for every number f of filters and every k that an unaged sketch can hold, an interleaving of f - 1 resizes after which the estimate is exactly min(15, k - f) |
| `AccessBuffer.Buffer.constructor` | internal/tinylfu/buffer.go:24-38 | empty stripes at least one deep, their number rounded up to a power of two |
| `AccessBuffer.Buffer.Push` | internal/tinylfu/buffer.go:44-57 | appends to the fingerprint's stripe, or drops when contended or full, and reports filling |
| `AccessBuffer.Buffer.DrainAll` | internal/tinylfu/buffer.go:62-78 | hands out all that was held, in order, and leaves every stripe empty |
| `AccessBuffer.EveryAcceptedKept` | internal/tinylfu/buffer.go:40-78 | in every interleaving each accepted fingerprint is folded exactly once or still held, in order, and no stripe is over its depth |
| `AccessBuffer.DrainerCatchesUp` | internal/tinylfu/buffer.go:62-78 | from every reachable state the drainer by itself can fold all that was accepted and leave every stripe empty |
| `AccessBuffer.RoomIsTaken` | internal/tinylfu/buffer.go:44-57 | a fingerprint whose stripe has room can be accepted, last of its stripe |
| `RespNumbers.ParsesExactlyDecimals` | internal/resp/reader.go:140-169 | the strict parser accepts exactly the canonical decimals of 0 to the largest int |
| `RespNumbers.ParseInt` | internal/resp/reader.go:146-169 | the digit loop, overflow test included, is that parser |
| `RespNumbers.DecimalFits` | internal/resp/writer.go:88-93 | a written length takes at most nineteen digits |
| `RespCodec.RoundTripIff` | internal/resp/reader.go:47-138 | a written command is read back as exactly its arguments, leaving the rest of the stream, if and only if its sizes are within the limits and its header lines fit the read buffer |
| `RespCodec.TruncatedCommand` | internal/resp/reader.go:106-126 | every strict prefix of a command fails with the unexpected end, the empty one with the clean end, and either with the transport's own error if there is one |
| `RespErrors.ErrorsExactly` | internal/resp/reader.go:37-72 | for every stream that is refused: a protocol error if and only if no bytes that could follow would change the outcome; otherwise the transport's error, or the end of file, clean just when nothing was read |
| `RespErrors.HeaderErrors` | internal/resp/reader.go:47-138 | which protocol error each header line gets, by its length, its end, its type byte and its digits |
| `RespErrors.OpenLineErrors` | internal/resp/reader.go:110-126 | a line without its end is too long for the buffer or the end of the stream |
| `RespErrors.PayloadErrors` | internal/resp/reader.go:92-104 | a payload too short is an unexpected end, one that CRLF does not follow a missing CRLF |
| `RespErrors.ErrorInArgument` | internal/resp/reader.go:63-72 | after any arguments that were fine, the error of the next one is the command's |
| `RespErrors.PingOnTheWire` | internal/resp/writer.go:136-173 | the bytes of a one-word command |
| `RespCodec.Reader.ReadSize` | internal/resp/reader.go:106-138 | one size header off the stream, with the same error for each way it can fail, transport errors included |
| `RespCodec.Reader.ReadBulkArg` | internal/resp/reader.go:76-104 | one bulk string off the stream |
| `RespCodec.Reader.ReadCommand` | internal/resp/reader.go:47-72 | one command off the stream |
| `RespCodec.Writer.Write` | internal/resp/writer.go:65-84 | through the buffer or past it, sink and buffer together hold all that was written, in order, or the sink has failed and holds as much as it could take; the first error sticks and nothing reaches the sink after it |
| `RespCodec.Writer.Flush` | internal/resp/writer.go:52-61 | afterwards the sink holds all that was written, as far as it could take it, and the call fails exactly if that is not all |
| `RespCodec.Writer.WriteArrayHeader` | internal/resp/writer.go:168-173 | writes the header of the encoding |
| `RespCodec.Writer.WriteBulk` | internal/resp/writer.go:136-143 | writes one encoded bulk string |
| `RespCodec.WriteThenRead` | internal/resp/writer.go:136-173 | any commands within the limits, written to a sink that may fail at any byte and read with repeated calls: every complete command comes back in order, and then the transport's error or the end of file, clean exactly when it falls between commands |
| `EventLoop.IndexCRLF` | internal/server/eventloop.go:183-190 | the first CRLF, or -1 |
| `EventLoop.ReadHead` | internal/server/eventloop.go:135-148 | a size header: incomplete, malformed, or a count within its maximum |
| `EventLoop.ReadBulk` | internal/server/eventloop.go:152-175 | one argument at a position of the buffer |
| `EventLoop.ReadBulks` | internal/server/eventloop.go:149-178 | the argument loop with its advancing index is the recursive parse |
| `EventLoop.ParseCommand` | internal/server/eventloop.go:131-181 | the frame at the start of the buffer: incomplete, malformed, or arguments and length |
| `EventFrames.AcceptsExactly` | internal/server/eventloop.go:131-181 | a frame is accepted if and only if the grammar has it at the front of the buffer, with these arguments and this length |
| `EventFrames.RefusesExactly` | internal/server/eventloop.go:135-175 | a buffer is refused if and only if its first frame goes wrong: another byte where a header is due, a complete line that is no count within its maximum, more than the longest line without its end, or a payload that CRLF does not follow |
| `EventFrames.AwaitedIff` | internal/server/eventloop.go:127-172 | a frame that is awaited can be completed by further bytes if and only if its open header line starts a count within the maximum and its payload does not already lack its CR |
| `EventFrames.WaitsInVain` | internal/server/eventloop.go:169-172 | a buffer that is awaited though nothing can complete it |
| `EventFrames.MalformedCloses` | internal/server/eventloop.go:92-125 | commands and then a malformed frame, in any chunks: the commands are dispatched and the connection is closed |
| `EventLoop.ParseLocal` | internal/server/eventloop.go:131-181 | a complete parse depends only on the bytes it used, so appending changes nothing |
| `EventLoop.FramePrefix` | internal/server/eventloop.go:137-162 | a frame with short headers that is not malformed is malformed on no prefix |
| `EventLoop.FrameCutAt` | internal/server/eventloop.go:137-162 | a frame that is accepted or awaited but has a long header is called malformed on some prefix |
| `EventLoop.DrainInTwo` | internal/server/eventloop.go:92-125 | with short headers, bytes in two parts are treated as bytes at once |
| `EventLoop.ChunkingInvisibleIff` | internal/server/eventloop.go:89-181 | for every stream: all splits into chunks end alike if and only if every header accepted in it is short |
| `EventLoop.PaddedCountShows` | internal/server/eventloop.go:137-143 | a count padded with zeros past 64 bytes is a stream whose chunking shows |
| `EventLoop.CommandsInOrder` | internal/server/eventloop.go:89-125 | any commands within the limits, any part of their encoding delivered, any chunks: dispatched in order up to the first that asks to close, with only an incomplete frame kept |
| `EventLoop.ParsersAgree` | internal/server/eventloop.go:131-181 | the blocking reader under default limits accepts exactly the frames the event loop accepts whose headers are canonical, with the same arguments and length |
| `EventLoop.LenientCount` | internal/server/eventloop.go:144-147 | a signed count is accepted by the event loop only |
| `EventLoop.EvConn.constructor` | internal/server/eventloop.go:84-87 | a connection with nothing received and nothing dispatched |
| `EventLoop.EvConn.Traffic` | internal/server/eventloop.go:92-125 | the parse, dispatch and discard loop is one step of the chunk-by-chunk specification |
| `Shutdown.NeverOverCapacity` | internal/server/server.go:87-149 | in every run, tracked connections never exceed the slots taken, nor those the limit |
| `Shutdown.ReleaseNeverBlocks` | internal/server/server.go:94-97 | a connection that ends always finds its slot to free |
| `Shutdown.ListenerIsClosed` | internal/server/server.go:66-78 | once a Shutdown call and Serve are both past their critical sections and closes, the listener is closed, whichever came first |
| `Shutdown.NothingAfterDrained` | internal/server/shutdown.go:22-49 | once any Shutdown call has returned by the drained path no command is ever dispatched again |
| `Serving.OneLateDispatch` | internal/server/conn.go:62-101 | from any moment after the flag is up a connection dispatches at most one command more, and none unless it is then past its check |
| `Shutdown.FewLateCommands` | internal/server/conn.go:62-101 | from any moment after the flag, at most one more command per connection then past its check |
| `Shutdown.NoNewConnections` | internal/server/server.go:79-102 | once the listener is closed no connection is admitted except one already accepted |
| `Shutdown.BoundedDrain` | internal/server/conn.go:62-101 | with flag up and listener closed, the accept loop and all connections together take at most nine steps per connection and nine more |
| `Shutdown.PollWakesReaders` | internal/server/shutdown.go:37-48 | after a poll, whatever others did meanwhile, a connection inside its read on an open socket entered that read during the poll |
| `Shutdown.ReadsOnce` | internal/server/conn.go:62-83 | after the flag no connection enters its read twice |
| `Shutdown.PollThenProgress` | internal/server/shutdown.go:37-48 | after a poll with nobody else moving, the call can return drained, or every connection still tracked can move without its client |
| `Serving.FramesAreServed` | internal/server/conn.go:82-97 | in every run the frames read are the commands dispatched and those in hand: none lost, none twice, none invented |
| `Serving.EachIsServed` | internal/server/conn.go:82-97 | the same of each connection by itself |
| `Serving.CanDispatchMany` | internal/server/conn.go:64-100 | with the flag down a connection at its check can have any number of commands dispatched, one after the other |
| `Serving.NewClientIsServed` | internal/server/server.go:79-102 | with the flag down, the listener open and a slot free, a new connection can be accepted, tracked, started and have a command dispatched |
| `Serving.AcceptNeverWedged` | internal/server/server.go:87-101 | with the mutex free the accept loop can always move, all slots taken included |
| `Serving.InFlightSpared` | internal/server/server.go:151-162 | while a connection dispatches or replies and no call is past its deadline, no Shutdown call closes its socket |
| `Serving.DeadlineClosesAll` | internal/server/shutdown.go:43-45 | a call that returns at its deadline leaves no tracked connection with an open socket |
| `Serving.DeadlineReturns` | internal/server/shutdown.go:37-48 | a waiting call past its deadline can close every tracked connection and return by itself once the mutex is free |

## Left out

- Hash quality, seeds, collision rates, false-positive rates and hit ratios: the functions are arbitrary here and the claims about them statistical.
- Overflow of Go's `int` in sizes and capacities, and running out of memory other than at `limit`.
- ShardMap.Map.Swap: one caller at a time; the shards' read-write locks are the atomicity of the steps in `UsageProtocol`.
- CacheEngine.Cache.Set: works on one finite map, which `ShardMap` justifies; copying of values in and out, contexts and the hit and miss counters are not modelled.
- CacheEngine.Cache.EvictUntilUnder: its draws are taken at one instant each; the loads of a sample that races writers are the free choice of `UsageProtocol`.
- CacheEngine.Cache.SetMaxMemory: the rebuilding of the frequency sketch it may trigger is `FrequencyPolicy.Policy.Resize`.
- RespCodec.Reader.ReadCommand: bufio appears only as the size limit on a header line.
- RespCodec.Writer.WriteBulk: bulk strings and array headers only; the other replies and the RESP3 types are not modelled.
- EventLoop.EvConn.Traffic: arguments are copied, where the code aliases the receive buffer and reuses one slice of arguments; replies and the dispatch table are not modelled, and whether a command asks to close is an arbitrary function of everything dispatched so far.
- Shutdown.NothingAfterDrained: the deadline path closes sockets without waiting, and nothing is claimed of commands after it; nor is it claimed that in-flight replies are delivered, since a frame can be read before the connection marks itself active.
- The gnet engine, idle timeouts, tickers, the drainer's wake-up and Close.
- Command handlers, CONFIG, HELLO, SELECT, error texts and the parsing of SET options: one-branch facts.
- Cache-line padding and allocation counts: not functional properties.
- internal/bench, cmd and bench: tooling.
