# SIM.c cache simulator, modelled in Dafny

SIM.c simulates a set-associative cache with 64-byte blocks. main reads a cache size, an
associativity, a replacement policy (`replace`: 0 = LRU, 1 = FIFO) and a write policy
(`wb`: 0 = write-through, 1 = write-back). It then feeds every `R`/`W` record of a trace to
`simulate`, counting accesses, misses, memory reads and memory writes.

The model has six modules:

- **AddressDecode** (`decode.dfy`) splits an address into a set index and a tag, as `simulate`
  does, and proves the split is unique.
- **Rows** (`rows.dfy`) holds what `find_max`, `find_min` and the two lookup scans compute over
  one row of a set, plus the stamp refresh of `update_lru` / `update_fifo`.
- **CacheSpec** (`access.dfy`) is one call of `simulate` as a function on values.
  - `Access` covers one set: a hit, a fill of the lowest empty way, or an eviction.
  - `Step` covers the whole cache; `Play` is main's loop over a trace.
- **CacheProperties** (`properties.dfy`) states what an access does and which invariants it
  keeps, and lifts them to whole traces.
- **Simulator** (`simulator.dfy`) is the imperative simulator.
  - Class `Cache` holds the four `numSets x assoc` arrays (`cache_array`, `lru`, `fifo`,
    `dirty`) and the counters, updated in place.
  - `FindMax`, `FindMin`, `UpdateLru`, `UpdateFifo` and `Simulate` are methods with the source's
    loops. `FindMax` and `FindMin` are proved against `Rows.Max` and `Rows.FirstMin`,
    `UpdateLru` and `UpdateFifo` against `Rows.Touch` and `Rows.FirstMin`, and `Simulate`
    against `CacheSpec.Access`.
  - `Run` is main's loop. It ends in the state `Play` gives, and keeps the invariant `Valid`.
- **Scenarios** (`scenarios.dfy`) works three concrete traces through `Play`.

The model keeps three behaviours of the code that a reader might not expect:

- **Tag 0 is also the empty-way marker.** An access whose tag is 0 (any address in the first
  `numSets` blocks) "hits" an empty way without counting a miss.
  - On a 1024-byte direct-mapped cache, the trace W 0x0, R 0x0, W 0x400 might be expected to
    cost two misses, two memory reads and, under write-back, one memory write.
  - The code gives one miss, one memory read and no memory write under write-back (two under
    write-through). `Scenarios.DirectMappedRun` proves those numbers.
- **FIFO does not evict the oldest block.** A FIFO eviction takes its victim from the `lru`
  array, not from `fifo`. FIFO never stamps `lru`, so the victim is always way 0, whatever the
  arrival order (`CacheProperties.FifoEvictsWayZero`).
  - `Scenarios.FifoRun` shows a trace where the newest block is the one evicted.
  - `Scenarios.LruRun` shows the same trace under LRU.
- **An operation letter other than `R` or `W` changes nothing.** No branch of `simulate`
  matches it, but main still counts it as an access.

## Model

| member | source | states |
|---|---|---|
| AddressDecode.SetIndex | SIM.c:266-267 | the set index (address / 64) mod numSets is below numSets |
| AddressDecode.Tag | SIM.c:269-271 | tag * numSets + set index recomposes the block number address / 64 |
| AddressDecode.DecodeUnique | SIM.c:266-271 | any (index, tag) with index < numSets that recomposes the block number is the decoded pair |
| AddressDecode.SameDecodeSameBlock | SIM.c:266-271 | two addresses share set index and tag if and only if they lie in the same 64-byte block |
| Rows.Max | SIM.c:228-239 | find_max's result bounds every entry of the row and is 0 or one of them |
| Rows.FirstMin | SIM.c:243-257 | find_min's result is an index holding the minimum, and every earlier entry is strictly larger |
| Rows.IndexOf | SIM.c:274-277 | the lookup scan stops at the first way holding the value, or at the row length when no way does |
| Rows.Touch | SIM.c:146-152 | a refresh changes only the touched way, and gives it a stamp above every old stamp |
| Rows.TouchIsUniqueMax | SIM.c:146-152 | after a refresh the touched way is the strict maximum, so it is never the next victim unless the set has one way |
| Rows.FirstMinOfConstant | SIM.c:243-257 | on a row of equal stamps find_min returns way 0 |
| CacheSpec.Victim | SIM.c:156-158 | the evicted way holds the smallest lru stamp, and every earlier way a larger one |
| CacheSpec.Way | SIM.c:274-431 | an access lands in the first way holding the tag, else in the lowest empty way, else in the victim |
| CacheSpec.ApplyWrite | SIM.c:293-301 | a 'W' under write-through adds one memory write; under write-back it marks the way dirty; nothing else changes |
| CacheSpec.Hit | SIM.c:276-321 | the hit block keeps the four rows the set's width |
| CacheSpec.Fill | SIM.c:326-383 | the empty-way block keeps the four rows the set's width |
| CacheSpec.Replace | SIM.c:389-431 | the full-set block keeps the four rows the set's width |
| CacheSpec.Access | SIM.c:260-433 | one access keeps the set well shaped; CacheProperties states its effect |
| CacheSpec.Step | SIM.c:260-271 | one record leaves every set other than the one its address maps to unchanged; every set keeps its width |
| CacheSpec.Play | SIM.c:472-484 | main's loop keeps the number of sets and every set's width |
| CacheSpec.SetPlay | SIM.c:472-484 | the records of one set, applied in order, keep the set well shaped |
| CacheSpec.EmptySet | SIM.c:47-51 | a freshly created row is all zero: empty tags, zero stamps, clean ways |
| CacheProperties.MissesAndReads | SIM.c:337-338 | an access adds one miss and one memory read exactly when it misses, and neither otherwise |
| CacheProperties.AccessHit | SIM.c:274-323 | a hit keeps every tag and the fifo row and counts no miss; under LRU the hit way becomes the strict newest and the other stamps stay; a write-back 'W' dirties only the hit way, a write-through 'W' adds one memory write, and the dirty row is otherwise kept |
| CacheProperties.AccessFill | SIM.c:326-383 | a miss with an empty way installs the tag in the lowest empty way and stamps it in the policy's own array; it counts one miss and one read, a write-through 'W' adds one memory write, and the dirty row changes only by a write-back 'W' marking that way |
| CacheProperties.DirtyBitKept | SIM.c:170 | an access clears no dirty bit except that of the victim it evicts |
| CacheProperties.StaleDirtyBitOnEmptyWay | SIM.c:277-380 | under write-back a 'W' of tag 0 dirties an empty way without a miss, and a later 'R' filling that way keeps the stale dirty bit |
| CacheProperties.AccessEvict | SIM.c:389-431 | a miss on a full set replaces the first least-stamped way. Its dirty bit is cleared (set again for a write-back 'W'), and memoryWrites grows by the dirty write-back plus the write-through write |
| CacheProperties.FifoEvictsWayZero | SIM.c:198-200 | under FIFO a full-set miss always evicts way 0 |
| CacheProperties.WriteThroughCountsEveryWrite | SIM.c:293-295 | under write-through every 'W' writes memory once, nothing else writes it, and no way becomes dirty |
| CacheProperties.WriteBackDefersWrites | SIM.c:160-167 | under write-back memory is written only when a dirty victim is evicted, and a 'W' leaves its way dirty |
| CacheProperties.ReadSetsNoDirtyBit | SIM.c:306-321 | an 'R' access never sets a dirty bit |
| CacheProperties.AccessLeavesTagResident | SIM.c:274-431 | after an 'R' or 'W' the first way holding the tag is the way the access landed in |
| CacheProperties.RepeatedAccessHits | SIM.c:274-323 | repeating an access to the same block right away is a hit and adds no miss |
| CacheProperties.InstallKeepsTagsDistinct | SIM.c:336 | installing a tag no way holds keeps the non-empty tags of a set distinct |
| CacheProperties.AccessPreservesInvariant | SIM.c:260-433 | every access keeps a set free of duplicate tags, keeps lru all zero under FIFO, and keeps every way clean under write-through |
| CacheProperties.PlayPrefix | SIM.c:472-484 | the run of k + 1 records is the run of k records followed by record k |
| CacheProperties.PlayKeepsInvariant | SIM.c:472-484 | over any trace every set keeps the set invariant, misses grow by at most one per record, and memory reads stay equal to misses plus their initial gap |
| CacheProperties.PlayOnOneSet | SIM.c:266-267 | when every record maps to set i, the run changes only set i, and that set goes through the records' accesses in order |
| Scenarios.SetPlayThrough | SIM.c:472-484 | a run on one set whose every record takes states[k] to states[k + 1] ends in the last state |
| Scenarios.DirectMappedRun | SIM.c:460-484 | W 0x0, R 0x0, W 0x400 on a 1024-byte direct-mapped cache cost one miss and one read; memory writes are 2 under write-through and 0 under write-back; only set 0 changes |
| Scenarios.FifoRun | SIM.c:185-224 | reads of blocks 1, 2, 1, 3, 2, 4 on one 2-way FIFO set end with tags [4, 2] after four misses: block 4 evicts block 3, the newest |
| Scenarios.LruRun | SIM.c:138-179 | the same reads under LRU end with tags [2, 4] and lru stamps [5, 6] after five misses |
| Simulator.Cache.constructor | SIM.c:460-467 | numSets = cacheSize / 64 / assoc, all four arrays zero, all counters zero, every set empty, and the invariant Valid holds |
| Simulator.Cache.FindMax | SIM.c:228-239 | the result bounds every entry of the row, is 0 or one of them, and equals Rows.Max |
| Simulator.Cache.FindMin | SIM.c:243-257 | the result is the first index holding the row's minimum (Rows.FirstMin) |
| Simulator.Cache.UpdateLru | SIM.c:138-179 | Refresh gives the column the newest stamp and returns 0. Evict returns FirstMin of the lru row, counts a dirty write-back under write-back, cleans that way and stamps it newest. Other rows stay |
| Simulator.Cache.UpdateFifo | SIM.c:185-224 | Refresh gives the column the newest fifo stamp. Evict takes its victim from the lru row, counts a dirty write-back, cleans the way, zeroes its fifo stamp and then stamps it newest. Other rows stay |
| Simulator.Cache.WritePolicyTail | SIM.c:293-301 | the row and counters become ApplyWrite of the old ones; other dirty rows stay |
| Simulator.Cache.SimulateHit | SIM.c:276-321 | the row and counters become Hit of the old ones; other rows stay |
| Simulator.Cache.SimulateFill | SIM.c:329-381 | the row and counters become Fill of the old ones; other rows stay |
| Simulator.Cache.EvictAndInstall | SIM.c:393-406 | the evicted column is Victim of the set; the dirty write-back is counted; the victim is cleaned, stamped and takes the tag; other rows stay |
| Simulator.Cache.SimulateEvict | SIM.c:389-431 | the row and counters become Replace of the old ones; other rows stay |
| Simulator.Cache.AccessSet | SIM.c:274-431 | after the two scans, the row and counters become Access of the old ones; other rows stay |
| Simulator.Cache.Simulate | SIM.c:260-433 | the set the address maps to becomes Access of its old value, the counters follow, every other set stays, and Valid is kept |
| Simulator.Cache.Run | SIM.c:472-484 | one access is counted per record, the cache ends as Play of the trace says, Valid is kept, and misses grow by at most the number of records |

## Left out

- Argument parsing, the argument-count check, opening the trace file and reading it with
  `fscanf` are not modelled. The trace is a parameter of `Run`, already split into
  (operation letter, address) records.
- `print_output` and the miss ratio it prints (floating point) are not modelled. The model keeps
  the counters the report is made from.
- The debug printers and `malloc` / `free` are not modelled.
- `replace` and `wb` values other than 0 and 1 are not modelled; they are two-valued enums. With
  another `replace` value no stamp is ever updated and a full-set miss installs no tag (it only
  counts the miss and the read), and a write-back 'W' on a full set sets the dirty bit of an
  uninitialised column.
- C integer widths are not modelled. Addresses, tags, stamps and counters are unbounded, so an
  `int` counter or stamp overflow is absent. `dirty` holds booleans where the source stores 0
  and 1.
- Simulator.Cache.FindMin: starts its running minimum from way 0 instead of from `INT_MAX`. With
  unbounded stamps the first iteration of the source takes way 0 anyway.
- Simulator.Cache.FindMax, Simulator.Cache.FindMin, Simulator.Cache.UpdateLru and
  Simulator.Cache.UpdateFifo: take the row's contents as extra ghost parameters. This only names
  the row in their contracts; the code they run reads the arrays.
- Simulator.Cache.UpdateFifo: on eviction the `column` argument is unused, as in the source. The
  model passes `assoc` on both the 'R' and 'W' paths, where the source passes `i` (equal to
  `assoc`) and 0.
- Simulator.Cache.Run: the source's loop reads a record, simulates it and only then tests for
  end of file. An empty trace file therefore still counts one access. Its operation letter is
  the zero-initialised `op`, which simulate ignores, so that access changes no set and no
  counter other than `accesses`. The model counts exactly one access per record.
