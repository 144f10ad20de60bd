# A verified model of the LSM flash-translation engine

The engine presents an overwritable block device on top of append-only zones. Every 4 KiB block written goes to the
write pointer of some zone; a log-structured table of logical-to-physical mappings says where the newest copy of each
block is; garbage collection moves live blocks out of full zones and resets them. Four structures have to agree at all
times: the read path (three MemTable generations, then SSTables, newest first), the forward map used by garbage
collection, the per-zone reverse maps with their counters, and the allocator's write pointers, which must match the
device. This project models those structures and proves that they do agree, in every run and after every failure, and
what follows from it for a user of the device.

## Main results

* **Refinement over every run.** `Runs.Serve` takes any sequence of block requests. Whatever fails along the way
  (allocations, reads, data writes with arbitrary movement of the device's pointer, zone reports, resets) and however the
  flush worker interleaves, a read returns the last acknowledged contents or an error, and a failed write changes no block.
  `PartialIo.HandleRead` and `PartialIo.HandleWrite` lift this to sector ranges of any size and segmentation over a flat
  array of bytes; a write that stops early has changed exactly a prefix that ends on a block boundary.
* **Progress and its sharp limit.** On equal zones and without failures a write succeeds if and only if fewer than
  (N-1)C blocks are mapped, for N zones of C blocks. That limit is the exposed capacity, so the first write of any exposed
  block always succeeds and an overwrite is refused exactly when every exposed block has been written
  (`Capacity.WritesUpToCapacity`, `Capacity.ExposedCapacity`). On zones of any sizes reads succeed without failures, a write is refused for want of
  space only, and it succeeds if and only if some ordinary zone has room or the
  policy's victim has fewer live blocks than the reserve has free blocks (`Space.WriteFits`).
* **Refusals on zones of different sizes.** With zones that can all be reset, a refusal is for good exactly if every
  zone besides the reserve is full and either entirely live or holds more live blocks than the reserve has slots
  (`UnevenZones.StuckExactly`); then no sequence of requests gets the engine out of it (`UnevenZones.ServeStuck`). Any
  other refusal concerns this write only: the victim filled the reserve, a larger zone became the reserve, and a user
  who repeats the write at most as often as there are zones sees it accepted or the engine stuck
  (`UnevenZones.Retry`). Both happen in runs without failures before the exposed capacity is used up, from the
  formatting of the device on: zones of 4, 4 and 2 blocks refuse a write once, with four of six exposed blocks mapped,
  and zones of 4, 4, 4 and 2 blocks refuse every write for ever, with nine of ten mapped
  (`UnevenZones.NewThenRefusedThenAccepted`, `UnevenZones.NewThenRefusedEver`).
* **Write amplification.** With greedy victim selection, at most m < (N-1)C mapped blocks and v = m/(N-1) rounded down,
  the blocks moved by collection satisfy moved·(C-v) <= v·(written + C-v) over every failure-free run.
* **The two-worker protocol.** `FlushProtocol` is a step relation with program counters for both workers, one step per
  lock-protected section. In every interleaving the view is exactly the acknowledged insertions, a lookup that takes its
  two locks one after the other still returns the current mapping, no wakeup is lost, the flush worker comes to rest, every
  table is freed exactly once, and published tables are disjoint and carry the checksum of what was written. Memory is
  kept in bounds: without failed allocations the active table never reaches the threshold, without failed table writes
  nothing waits once both workers rest, and after a failed one the next insertion has the oldest waiting table retried.
  `Stores.Store` carries every step out on the MemTable objects, the SSTable list and the media, so that objects, media
  and protocol state agree at all times.
* **SSTables byte by byte.** Writing a MemTable with `zns_sst_write` and searching it with `zns_sst_lookup` answers as the
  MemTable does, for every key (`FlushWorkers.WriteThenLookup`); the header codec is a round trip in both directions, and
  the layout of every block on the media is stated byte by byte; the search terminates on any media.
* **Restart.** On any content of the metadata zone, and without failures, attach succeeds if and only if the zone carries
  a superblock for this device or is empty, every table that the log walk lists carries its checksum, an index can
  represent what those tables map, newest first, and some data zone is empty (`Attach.AttachEngine`). The walk inverts the
  flushes on a log of complete tables. If nothing has gone wrong with the log, a shutdown is complete if and only if the
  log as it stands plus one table for every generation that is not in it fits the metadata zone (`Shutdown.Detach`), and
  then attach gives an engine with the same acknowledged contents and the very same index (`Attach.DetachAndAttach`). What
  the log grows to changes only with insertions, by at most two blocks each, and while a MemTable may hold more than all
  mapped blocks, it is at most one table of those, however often they are written or moved (`Stores.Store.Bounds`).
* **Going on after a failure.** A failed data write stops writes only if the device took something other than this block
  or nothing, if its report fails too, or if the zone does not start on a block boundary of the device
  (`Engines.Engine.AppendWrite`, `EngineState.DamageIsSeen`).
* **Recreation after a failure.** The round trip also holds for an engine whose writes are stopped, if the zone report is
  usable and some zone is empty. For a failed collection the second is not certain: the driver's message asks for
  recreation (`src/engines/zns-engine-lsm.c:884`), but once the collection has allocated a block in the reserve no zone is
  empty, and every later attach is refused with NoSpace. `Recreate.WriteAndRecreate` states both directions,
  `Recreate.Stranded` gives a device on which it happens.
* **Whole lifetimes.** `Lifetimes.ServeSessions` runs any number of sessions with a shutdown and an attach after each:
  every read returns the last contents acknowledged in this or any earlier session, or an error; without failures all
  sessions are served if the metadata zone has room for two blocks for every insertion, or, where a MemTable may hold more
  than all blocks of the device, for one table of them for every session. The latter is the case with the default
  threshold and less than 2^20 blocks (`Lifetimes.ServeNewDevice`, which begins with the formatting of the device).

## How it is organised

| file | subject |
|---|---|
| `Prelude`, `Sums`, `Zones`, `LittleEndian` | return codes, blocks, counting facts, zone descriptors, integers in bytes |
| `Host`, `MetaZone` | what lies under the engine and may fail: kernel memory, data zones, the metadata zone |
| `Allocator`, `GcIndex`, `GcPolicy` | the zone allocator, the garbage-collection index, victim selection |
| `Generations`, `FlushProtocol`, `MemTable` | the MemTable generations as values, the two workers, the tables as objects |
| `SstLayout`, `SsTable`, `FlushWorker` | SSTable layout, codec, writer and search; the flush worker's write on the media |
| `Store` | the mapping store: slots, SSTable list, metadata zone and flush worker under one invariant |
| `EngineState`, `Space`, `Engine`, `Runs` | the engine invariant, space arithmetic, the engine, whole runs |
| `PartialIo`, `Capacity`, `Uneven` | requests of any range, the exposed capacity, zones of different sizes |
| `SuperBlock`, `Recovery`, `Rebuild` | opening the metadata zone, the log walk, the index rebuild |
| `Shutdown`, `Attach` | the shutdown flush, attach and the round trip |
| `Recreate`, `Lifetimes` | recreation after a failed collection, any number of sessions |

Failures are nondeterministic outcomes of the methods of `Host` and `MetaZone`; a counter of failures lets contracts
say what holds when nothing failed. The device rule is that of the NVMe Zoned Namespace Command Set (TP 4053): a zone
takes a block only at its write pointer, a reset empties it. The fault-injection hooks of the engine are among the
nondeterministic failures. The checksum is an arbitrary function of its running value and a block, passed as a parameter.

Where the repository's documentation and its code differ, the code is followed. `tests/README.md:298-308`
says that payload checksums are not verified and that a table torn in the middle of the log can make a lookup return a
wrong sector; `zns_lsm_gc_rebuild` (`src/engines/zns-engine-lsm.c:371-374`) does compare the payload checksum of every
listed table and refuses to attach otherwise, which `Rebuild.GcRebuild` states for arbitrary media. `SsTables.LoadWritten`
gives the exact condition under which the walk lists a table whose header was written: it fits below the end of the log,
whether or not its payload ever arrived.

## Model

| member | source | states |
|---|---|---|
| `Runs.Serve` | src/engines/zns-engine-lsm.c:1072-1135 | for every request sequence, failures anywhere: reads return the last acknowledged contents or fail; without failures, on zones of any sizes, reads succeed and a write is refused for want of space only, on even zones iff (N-1)C blocks are mapped; greedy collection keeps the amortised move bound; insertions into the mapping store are the moved blocks plus the acknowledged writes |
| `Runs.ServeOne` | src/engines/zns-engine-lsm.c:1085-1123 | one request: its effect on the acknowledged store, what it may answer, and its cost in moved blocks |
| `Engines.Engine.AppendWrite` | src/engines/zns-engine-lsm.c:925-983 | keeps the engine invariant; the acknowledged store changes in this one block on success and not at all on failure; stopped writes refuse; without failures succeeds iff a block is free or the victim leaves room, on even zones iff mapped < (N-1)C, and is refused either with nothing changed for good or with a larger reserve; a failed write after which the device has taken at most its block, with no second failure, does not stop writes, and if a single failure stops them outside a collection some zone is damaged |
| `Engines.Engine.ReadBlock` | src/engines/zns-engine-lsm.c:1101-1127 | returns the acknowledged contents, zeros for an unmapped block, or an error caused by a failure |
| `Engines.Engine.Lookup` | src/engines/zns-engine-lsm.c:585-602 | with the flush worker running before, between and after the two locked phases, the result is the current mapping |
| `Engines.Engine.PublishWrite` | src/engines/zns-engine-lsm.c:702-728 | on success mapping, index and acknowledged contents move together; on failure none of them changes and writes are not stopped, so the stop branch is never taken |
| `Stores.Store.constructor` | src/engines/zns-engine-lsm.c:1412-1436 | one empty table over a recovered list whose tables are on the media in order, also when it ends below the write pointer because the walk dropped a tail: objects, media and protocol state agree, the view is that of the list |
| `Stores.Store.WorkerStep` | src/engines/zns-engine-lsm.c:528-583 | one flush-worker step on objects and media keeps their agreement with the protocol and the view, and comes closer to rest |
| `Stores.Store.Background` | src/engines/zns-engine-lsm.c:528-583 | any number of flush-worker steps keeps the store's invariant and its view |
| `Stores.Store.Drain` | src/engines/zns-engine-lsm.c:1520-1522 | the flush worker runs to its end with the view unchanged |
| `Stores.Store.Lookup` | src/engines/zns-engine-lsm.c:585-602 | MemTables under one lock, SSTables from the media under another, flush steps in between: the current mapping, or an error caused by a failure |
| `Stores.Store.Insert` | src/lsm-memtable.c:232-312 | changes the view in one key or refuses for want of memory and changes nothing; unless an allocation fails the active table ends up below the threshold: one that reaches it is emptied and becomes, or overrides, the immutable one; with a failed allocation it just grows |
| `Stores.Store.Bounds` | src/engines/zns-engine-lsm.c:1352-1367 | what the log will grow to, from where it ended at attach: without failures at most two metadata blocks further for every insertion; with fewer mapped blocks than a MemTable may hold, in any case at most one table of the mapped blocks |
| `Stores.Store.MaybeQueueFlush` | src/engines/zns-engine-lsm.c:513-526 | leaves the flush worker queued or running if any table waits, also after a failed flush; the view stays |
| `Engines.Engine.ValidateVictim` | src/engines/zns-engine-lsm.c:756-777 | accepts exactly the resettable non-reserve zones whose live blocks fit the reserve |
| `Engines.Engine.RelocateBlock` | src/engines/zns-engine-lsm.c:780-812 | a completed move puts the block at the reserve's old pointer and keeps its contents; a failure without a fault can only be a full reserve, and any failure changes at most the reserve's pointer |
| `Engines.Engine.MoveLiveBlocks` | src/engines/zns-engine-lsm.c:840-854 | at every iteration and every abort all blocks keep their contents; a complete pass leaves no live block in the victim |
| `Engines.Engine.ResetVictim` | src/engines/zns-engine-lsm.c:856-879 | the reset comes only when no mapping points into the victim; then the victim is the empty reserve, and no block's contents changed |
| `Engines.Engine.GcClean` | src/engines/zns-engine-lsm.c:815-889 | moves exactly the victim's live blocks, keeps all contents, rotates the reserve; any failure after something changed stops writes |
| `Engines.Engine.RunGcIfNeeded` | src/engines/zns-engine-lsm.c:891-919 | collects only when no ordinary block is left, and then the policy's victim; without failures refuses only if no zone is eligible; a failure changes no zone but the reserve, which it fills at most |
| `Engines.Engine.AppendOrdinary` | src/engines/zns-engine-lsm.c:941-983 | allocation, device write and publication: the block lands at an ordinary zone's pointer, or the store is unchanged |
| `Engines.Engine.RecoverFailedWrite` | src/engines/zns-engine-lsm.c:958-979 | after a failed write with arbitrary pointer movement writes resume only if, and without further failures exactly if, the reported pointer is where it was or one block further in a zone that is open, empty at its start or full at its end, on a block boundary; allocator and device then agree |
| `EngineState.DeviceAcceptsNext` | src/zns-allocator.c:194-218 | in step with the device, the allocator's next sector is the device's write pointer in an open zone with room |
| `EngineState.ResyncInStep` | src/zns-allocator.c:114-192 | an accepted report puts allocator and device back in step, one block further or none |
| `EngineState.UntouchedNotDamaged` | src/zns-allocator.c:149-185 | a zone in step that a failed write left alone, or filled by just its block, is one whose report is accepted |
| `EngineState.DamageIsSeen` | src/engines/zns-engine-lsm.c:958-980 | if a failed write stops the engine without a second failure, the device has taken something other than just this block or nothing |
| `EngineState.StoredAfterFailedWrite` | src/engines/zns-engine-lsm.c:958-980 | whatever a failed write spoils, every mapped block keeps its contents |
| `EngineState.NoMappingInto` | src/engines/zns-engine-lsm.c:856-860 | a zone whose valid counter is zero is the target of no current mapping |
| `EngineState.StoredAfterReset` | src/engines/zns-engine-lsm.c:861-871 | a reset, complete or failed, of a zone without live blocks loses no acknowledged contents |
| `GcIndexes.GcIndex.constructor` | src/engines/zns-engine-lsm.c:211-230 | an empty index, consistent over any zones |
| `GcIndexes.GcIndex.PhysicalToSlot` | src/engines/zns-engine-lsm.c:173-196 | accepts exactly the sectors that start a whole written block of the first zone that holds them, and gives their slot |
| `GcIndexes.GcIndex.UpdateLocation` | src/engines/zns-engine-lsm.c:238-298 | succeeds exactly if the target is a written unowned slot and the old location still records the block; then forward map, reverse maps and counters move together, else nothing changes |
| `GcIndexes.MoveAllowedIffUnowned` | src/engines/zns-engine-lsm.c:254-281 | in a consistent index the overwrite checks cannot fail: an update is refused only for a target that is unwritten or owned |
| `GcIndexes.MovedConsistent` | src/engines/zns-engine-lsm.c:283-297 | moving a block to a written unowned slot keeps both maps and all counters in agreement |
| `GcIndexes.MappedSlotsDistinct` | src/engines/zns-engine-lsm.c:101-108 | no two blocks own one physical slot |
| `GcIndexes.ConsistentUnderZoneChange` | src/engines/zns-engine-lsm.c:173-196 | the index survives every change of write pointers and conditions that keeps owned blocks written |
| `GcIndexes.IndexDetermined` | src/engines/zns-engine-lsm.c:101-108 | the forward map determines reverse maps and counters |
| `GcIndexes.GcIndex.RestoreEntry` | src/engines/zns-engine-lsm.c:301-332 | the first entry restored for a block wins; refused exactly for a block out of range, or a new one whose slot is unwritten or owned |
| `Allocators.Allocator.InitZoned` | src/zns-allocator.c:70-102 | accepts exactly non-empty reports in which every zone has a length, a capacity within it and below the last sector, and, unless it is full, read-only or offline, its pointer inside; adopts them |
| `Allocators.Allocator.Alloc` | src/zns-allocator.c:194-218 | takes one block from the first ordinary zone in round-robin order from the active one, passing over zones without room and the reserve only; refuses iff there is none |
| `Allocators.Allocator.HasSpace` | src/zns-allocator.c:239-254 | true iff some ordinary zone can take a block |
| `Allocators.Allocator.AllocGc` | src/zns-allocator.c:256-272 | takes one block from the reserve and only from it |
| `Allocators.Allocator.SetReserve` | src/zns-allocator.c:220-237 | accepts exactly a writable, empty zone of at least one block |
| `Allocators.Allocator.SetReserveAfterReset` | src/zns-allocator.c:274-288 | rotates: the victim becomes the empty reserve, the former reserve ordinary |
| `Allocators.Allocator.Resync` | src/zns-allocator.c:114-192 | believes exactly the reports of the failed zone whose pointer did not move or moved by this one block, with a condition that fits; any other changes nothing |
| `GcPolicies.SelectGreedy` | src/gc-policy/zns-gc-greedy.c:16-37 | the eligible zone with the fewest live blocks, lowest number among equals; refuses iff none is eligible |
| `GcPolicies.SelectSimple` | src/gc-policy/zns-gc-simple.c:10-24 | the first eligible zone; refuses iff none is eligible |
| `GcPolicies.EligibleExactly` | src/engines/zns-engine-lsm.c:733-754 | in terms of the report: eligible are the zones besides the reserve that are neither read-only nor offline, have no room for a block, keep fewer live blocks than whole blocks, and not more than the reserve can take |
| `Space.VictimExists` | src/gc-policy/zns-gc-greedy.c:16-37 | on even zones with no ordinary block and mapped < (N-1)C some zone is eligible |
| `Space.FullDeviceStuck` | src/gc-policy/zns-gc-simple.c:10-24 | with (N-1)C mapped blocks nothing is free and nothing is eligible |
| `Space.GreedyBelowAverage` | src/gc-policy/zns-gc-greedy.c:16-37 | the greedy victim holds at most the average number of live blocks |
| `Space.CollectionGain` | src/engines/zns-engine-lsm.c:815-889 | one collection on even zones yields C minus the victim's live blocks, at least one |
| `Space.CollectionLeavesRoom` | src/engines/zns-engine-lsm.c:773-776 | on any zones a collection leaves an ordinary block iff the victim's live blocks do not fill the reserve |
| `Capacity.EngineCapacity` | src/engines/zns-engine-lsm.c:140-167 | zero for at most two zones; otherwise at most the whole-block sectors of the zones before the last besides any one of them, and equal to that for one |
| `Capacity.EvenCapacity` | src/engines/zns-engine-lsm.c:140-167 | on even zones the exposed capacity is the space limit (N-1)C |
| `Capacity.ExposedCapacity` | src/engines/zns-engine-lsm.c:140-167 | from the report of an engine's even data zones and a metadata zone behind them, the exposed sectors are the space limit of that engine |
| `Capacity.WritesUpToCapacity` | src/engines/zns-engine-lsm.c:925-944 | without failures on even zones a first write of an exposed block succeeds, and a write is refused iff all exposed blocks are mapped |
| `UnevenZones.StuckExactly` | src/engines/zns-engine-lsm.c:891-919 | with an empty reserve and resettable zones, nothing ordinary and nothing eligible iff every other zone is full and entirely live or holds more live blocks than the reserve has slots |
| `UnevenZones.StuckAtLargest` | src/engines/zns-engine-lsm.c:891-919 | when the reserve is a largest zone, refusal for good means that every slot outside it is live |
| `UnevenZones.Retry` | src/engines/zns-engine-lsm.c:925-944 | a write repeated at most as often as there are zones is accepted, without failures, unless the engine is stuck |
| `UnevenZones.ServeStuck` | src/engines/zns-engine-lsm.c:891-919 | from a stuck engine, without failures, every write of every sequence of requests is refused, reads are unaffected, zones and index never change |
| `UnevenZones.RefusedOnce` | src/engines/zns-engine-lsm.c:756-777 | a healthy disk of zones of 4, 4 and 2 blocks, four of six exposed blocks mapped: a victim exists and no write fits, under either policy |
| `UnevenZones.RefusedThenAccepted` | src/engines/zns-engine-lsm.c:925-983 | eight writes lead there from fresh zones; without failures the next write is refused and the same write again accepted |
| `UnevenZones.NewThenRefusedThenAccepted` | src/engines/zns-engine-lsm.c:925-983 | the same from the formatting of a new device on |
| `UnevenZones.RefusedForGood` | src/engines/zns-engine-lsm.c:756-777 | a healthy disk of zones of 4, 4, 4 and 2 blocks, nine of ten exposed blocks mapped, is stuck |
| `UnevenZones.RefusedEver` | src/engines/zns-engine-lsm.c:925-983 | twelve writes lead there from fresh zones; without failures every later write is refused, whatever else is requested |
| `UnevenZones.NewThenRefusedEver` | src/engines/zns-engine-lsm.c:925-983 | the same from the formatting of a new device on |
| `FlushProtocol.FlushInv` | src/engines/zns-engine-lsm.c:463-583 | every flush-worker step, with any outcome of the table write, keeps the protocol invariant and the view |
| `FlushProtocol.PutInv` | src/lsm-memtable.c:232-312 | an insertion under any allocation outcome changes the view in one key or not at all, also during a flush |
| `FlushProtocol.QueueInv` | src/engines/zns-engine-lsm.c:513-526 | queueing a flush keeps the invariant, under which at most one flush is in flight, and the view |
| `FlushProtocol.QueueStartsFlush` | src/engines/zns-engine-lsm.c:513-526 | after an insertion, a table waiting in the immutable or the flushing slot means a flush in flight, whether or not the last attempt failed |
| `FlushProtocol.RetryAfterFailure` | src/engines/zns-engine-lsm.c:561-566 | with both workers at rest and a table waiting, the next insertion makes the flush worker come to write the oldest waiting table |
| `FlushProtocol.RunRefinesAcknowledged` | src/engines/zns-engine-lsm.c:401-583 | in every interleaving the view equals the acknowledged insertions in order |
| `FlushProtocol.LookupsAreCurrent` | src/engines/zns-engine-lsm.c:401-447 | a two-phase lookup in any interleaving returns the last acknowledged insertion |
| `FlushProtocol.TablesFreedOnce` | src/engines/zns-engine-lsm.c:457-486 | in every interleaving slots never alias and each table is live in one place or freed exactly once |
| `FlushProtocol.PublishedTableSound` | src/engines/zns-engine-lsm.c:493-573 | in every interleaving, torn writes included, each published table lies below the write pointer, is as long as its entries need, and holds what its checksum was computed from |
| `FlushProtocol.PublishedTablesDisjoint` | src/engines/zns-engine-lsm.c:493-573 | in every interleaving a newer published table lies above every older one and has the higher sequence number |
| `FlushProtocol.NoLostWakeup` | src/engines/zns-engine-lsm.c:513-583 | when both workers rest, nothing waits to be flushed unless the last attempt failed |
| `FlushProtocol.EverythingFlushed` | src/engines/zns-engine-lsm.c:513-583 | in every interleaving without failed table writes, the immutable and the flushing slot are empty when both workers rest |
| `FlushProtocol.ActiveStaysBelow` | src/lsm-memtable.c:262-312 | in every interleaving without failed allocations the active table stays below the threshold |
| `FlushProtocol.FlushComesToRest` | src/engines/zns-engine-lsm.c:528-583 | left alone, whatever its table writes return, the flush worker ends after at most Rank steps, idle and not queued, with the view unchanged |
| `FlushProtocol.PutReach` | src/lsm-memtable.c:232-312 | an insertion changes the end the log is heading for, with all resident tables written, by at most two metadata blocks |
| `FlushProtocol.FlushReach` | src/engines/zns-engine-lsm.c:463-583 | a flush step without a torn write leaves that end exactly where it is |
| `FlushProtocol.PutCalm` | src/lsm-memtable.c:232-312 | as long as fewer blocks are mapped than a table may hold, insertions leave everything in the active table, and no flush is wanted |
| `FlushProtocol.CalmReach` | src/engines/zns-engine-lsm.c:1353-1366 | then the log is heading for one table of the mapped blocks behind where it ends now |
| `FlushProtocol.UntornRun` | src/engines/zns-engine-lsm.c:493-511 | without torn metadata writes the published tables fill the metadata zone without gaps |
| `Generations.PutActiveView` | src/lsm-memtable.c:232-312 | success updates one key of the view, an error nothing; the table being flushed is untouched |
| `Generations.PutActiveFills` | src/lsm-memtable.c:262-312 | a table that reaches the threshold is replaced by an empty one and becomes, or overrides, the immutable one; below it, or when an allocation fails, the active table grows and the immutable one stays |
| `Generations.PutActiveMemory` | src/lsm-memtable.c:232-312 | under every allocation outcome slots stay distinct and tables are neither leaked nor freed twice |
| `MemTables.MemTable.Lookup` | src/lsm-memtable.c:359-380 | the descent finds exactly what the ordered tree maps |
| `MemTables.MemTable.Put` | src/lsm-memtable.c:452-500 | replaces or links one entry; order, entry count and sequence numbers stay right; a failed allocation changes nothing |
| `MemTables.SizeIsMapped` | src/lsm-memtable.c:190-202 | nr_entries is the number of distinct mapped blocks |
| `MemTables.CompactCopy` | src/lsm-memtable.c:64-82 | the destination becomes its old mapping overridden by the source |
| `MemTables.Compact` | src/lsm-memtable.c:88-124 | a fresh table in which the newer generation wins |
| `MemTables.Slots.Freeze` | src/lsm-memtable.c:133-149 | refused for want of a new table and while an immutable table waits; otherwise the objects do what freezing does to the protocol's values |
| `MemTables.Slots.PutActive` | src/lsm-memtable.c:232-312 | the objects do what PutActive does to the protocol's values, for whichever allocations fail; in terms of the objects: grown below the threshold, else emptied into the immutable table, unless an allocation fails |
| `MemTables.Slots.Lookup` | src/engines/zns-engine-lsm.c:401-424 | newest generation first gives the combined view of the three slots |
| `MemTables.Slots.Claim` | src/engines/zns-engine-lsm.c:463-476 | a table parked by a failed flush comes first, else the immutable one moves over; the objects do what claiming does to the protocol's values |
| `MemTables.Slots.ClearFlushing` | src/engines/zns-engine-lsm.c:478-491 | the flushed table leaves its slot and is nowhere but with the flush worker, which then frees it |
| `SstLayout.NrBlocks` | src/lsm-sstable.c:24-27 | one header block and exactly as many payload blocks as the entries need |
| `SstLayout.EntriesInBlock` | src/lsm-sstable.c:29-37 | full blocks and an exact tail for every block of the table, the 32-bit product included |
| `SsTables.HeaderRoundTrip` | src/lsm-sstable.c:39-83 | decoding an encoded header returns it iff it has entries, the number of blocks that these need, and keys in order |
| `SsTables.HeaderLayout` | src/lsm-sstable.h:22-36 | the header block byte by byte: magic, version and little-endian fields at their offsets, zeros behind them |
| `LittleEndian.FourBytes` | src/lsm-sstable.h:27-36 | the first byte of a field is the lowest |
| `SsTables.PaddingIgnored` | src/lsm-sstable.c:55-83 | decoding looks at the first 48 bytes only |
| `SsTables.DecodedIsEncoded` | src/lsm-sstable.c:55-83 | a block that decodes holds the encoding of what it decodes to |
| `SsTables.PayloadBlockHolds` | src/lsm-sstable.c:219-226 | a payload block gives back its entries, which lie in sixteen bytes each at their offsets, with zeros behind them |
| `SsTables.CrcOfTwo` | src/lsm-sstable.c:186-201 | the checksum starts at zero and takes in one block after the other |
| `SsTables.WriteContext.ConsumeBlock` | src/lsm-sstable.c:186-201 | extends the checksum; in the writing pass appends at the context's sector |
| `SsTables.EmitPayload` | src/lsm-sstable.c:211-245 | consumes exactly the payload blocks of the table in order, tail padded; on failure a proper prefix is on the media |
| `SsTables.ScanMemTable` | src/lsm-sstable.c:247-265 | count, smallest and largest block |
| `SsTables.SstWrite` | src/lsm-sstable.c:267-349 | on success the media holds the table's image behind everything older, and the header has the count, the block count and the smallest and largest key of the mapping; consumed is what reached the zone; without failures success iff non-empty and it fits |
| `SsTables.SstLoad` | src/lsm-sstable.c:351-401 | finds a complete header that fits, refuses it otherwise, reports failures as such |
| `SsTables.LoadWritten` | src/lsm-sstable.c:376-386 | a written header is listed iff the whole table fits below the limit |
| `SsTables.BlockFind` | src/lsm-sstable.c:96-123 | binary search of one block: found iff present when keys increase |
| `SsTables.ReadPayloadBlock` | src/lsm-sstable.c:403-422 | the buffer holds the requested block, read or cached |
| `SsTables.SstLookup` | src/lsm-sstable.c:424-481 | terminates on any media; on a stored table answers as the MemTable it was written from, or fails because of a failure |
| `FlushWorkers.WriteVictim` | src/engines/zns-engine-lsm.c:533-558 | the worker's write step on the media refines the protocol's step, disturbs nothing below the zone's pointer, and what is then published is stored; on success, and without failures in any case, the pointer ends behind what was consumed |
| `FlushWorkers.WriteThenLookup` | src/lsm-sstable.c:267-481 | a table written and then searched answers, for any block, as the MemTable does |
| `Recovery.LookupSstables` | src/engines/zns-engine-lsm.c:431-447 | newest-first search over stored tables equals the protocol's lookup |
| `Recovery.WalkSound` | src/engines/zns-engine-lsm.c:1178-1218 | on arbitrary content the walk ends inside the log with chained tables only |
| `Recovery.ChainDisjoint` | src/engines/zns-engine-lsm.c:1194-1203 | chained tables do not overlap |
| `Recovery.WalkInverts` | src/engines/zns-engine-lsm.c:1178-1218 | on a log of complete tables the walk lists exactly those, newest first, and stops where no complete table begins |
| `Recovery.LostBehindTail` | src/engines/zns-engine-lsm.c:1178-1218 | a dropped tail without a header hides everything behind it: however far the log has grown, the walk lists only the tables before it |
| `Recovery.TailListed` | src/engines/zns-engine-lsm.c:1194-1203 | a dropped tail with a valid header is listed as a table as soon as the log has grown as far as the header says, and not before |
| `Recovery.RecoverSstables` | src/engines/zns-engine-lsm.c:1178-1218 | performs the walk on any content and resumes sequence numbers just above the highest listed |
| `Rebuild.RestoreTable` | src/engines/zns-engine-lsm.c:347-375 | on any media, one table put under the newer ones: the first entry of a block wins; success only if the payload found carries the header's checksum, refused only if it does not or an index cannot represent the result |
| `Rebuild.GcRebuild` | src/engines/zns-engine-lsm.c:335-379 | on any media, the index represents what the listed tables map, the first entry of a block winning; without failures success iff every checksum is right and an index can represent that |
| `Rebuild.StoredLog` | src/engines/zns-engine-lsm.c:335-379 | on stored tables the checksums are right and the scan yields the map of newest-first lookup |
| `Shutdown.FlushAllSync` | src/engines/zns-engine-lsm.c:1463-1504 | the log gains an oldest-first prefix of the generations; without failures all of what is resident iff the sizes of its tables fit the zone |
| `Shutdown.UntornLog` | src/engines/zns-engine-lsm.c:493-511 | an engine without torn writes has a log that the walk recovers completely |
| `Shutdown.Detach` | src/engines/zns-engine-lsm.c:1506-1537 | if nothing has gone wrong with the log, the shutdown is complete iff the log plus one table for every generation not in it fits the zone; then it holds exactly the current mapping and ends at the write pointer, just there |
| `SuperBlocks.SuperRoundTrip` | src/lsm-super.c:32-71 | a superblock reads back as it was written |
| `SuperBlocks.SuperLayout` | src/lsm-super.h:24-38 | the superblock byte by byte: magic, version and little-endian fields at their offsets, the checksum over everything from the uuid on, zeros behind |
| `SuperBlocks.SuperDecodes` | src/lsm-super.c:51-71 | a block decodes iff it starts with magic and version and carries its checksum |
| `SuperBlocks.Matches` | src/lsm-super.c:84-111 | accepts iff all fields but the uuid agree |
| `SuperBlocks.OpenMetadata` | src/engines/zns-engine-lsm.c:1244-1325 | without failures succeeds iff there are two zones, the last holds a block, its pointer lies inside or the zone is full, and it is empty or carries a superblock for this device; formats only an empty zone, counts a full one as written to its capacity |
| `Attach.ChooseReserve` | src/engines/zns-engine-lsm.c:1400-1410 | the highest-numbered empty zone, refused iff there is none |
| `Attach.AttachEngine` | src/engines/zns-engine-lsm.c:1327-1441 | on any content of the metadata zone, without failures: an engine iff the threshold is positive, the superblock is absent or right, all listed tables carry their checksums, an index can represent what they map and some zone is empty; it represents just that. On a log of complete tables, up to a dropped tail, over the data they map, the engine is in a valid state |
| `Attach.Reattach` | src/engines/zns-engine-lsm.c:1327-1441 | on a complete log over the data it maps, without failures: an engine iff the log fits the zone, an index can represent its mappings and some zone is empty; it accepts writes and nothing has gone wrong with its log |
| `Attach.AttachNew` | src/engines/zns-engine-lsm.c:1312-1324 | without failures a new device is formatted with a superblock that later attaches accept, and yields an engine that maps nothing and keeps the last zone in reserve |
| `Attach.DetachEngine` | src/engines/zns-engine-lsm.c:1506-1537 | shutting an engine down, writes stopped or not: if nothing went wrong with the log, all mappings are left in it over the data they map iff they fit |
| `Attach.DetachAndAttach` | src/engines/zns-engine-lsm.c:1327-1537 | the round trip of any engine, writes stopped or not: same acknowledged contents, same index, the highest empty zone in reserve; if nothing went wrong with the log and nothing fails now, a new engine iff the threshold is positive, what is resident fits the zone, the zone report is usable, an index can represent the mappings and some zone is empty; the last three are certain unless writes are stopped |
| `EngineState.OnlyReserveEmpty` | src/zns-allocator.c:194-218 | where nothing is ordinary, a zone in step with the device is empty there only if it is the reserve and that is empty |
| `Recreate.AttachableAfterAbort` | src/engines/zns-engine-lsm.c:881-886 | a collection that failed in step with the device leaves an empty zone, and so a device that can be attached, iff it had allocated no block in the reserve |
| `Recreate.WriteAndRecreate` | src/engines/zns-engine-lsm.c:881-1441 | a write whose collection fails that way, then detach and attach: without further failures and with room a new engine with the same contents iff no block was allocated in the reserve, and else no zone is empty for any later attach |
| `Recreate.Stranded` | src/engines/zns-engine-lsm.c:780-889 | a device of 4, 4 and 2 blocks where recreation is refused: the first block was copied and not published, the index represents everything, no zone is empty |
| `Lifetimes.Session` | src/engines/zns-engine-lsm.c:1072-1537 | one session: correct replies; without failures in closing a next session iff the log fits the zone and the device can be attached, which is certain if nothing failed; the log grows by at most two blocks for every write or move, or by one table of the mapped blocks |
| `Lifetimes.Threshold` | src/engines/zns-engine-lsm.c:1352-1367 | with the default threshold and less than 2^20 blocks a MemTable may hold more than all blocks of the device |
| `Lifetimes.ServeSessions` | src/engines/zns-engine-lsm.c:1072-1537 | any number of sessions, each served, shut down and attached again, also after stopped writes where attach succeeds: every reply is the one a single block store living through all of them owes; without failures, and with room for two blocks for every insertion or one table of all blocks for every session, all are served, exactly so on even zones |
| `Lifetimes.ServeNewDevice` | src/engines/zns-engine-lsm.c:1244-1537 | the same from the formatting of the device on; with the default threshold and less than 2^20 blocks, one table of all blocks for every session is room enough |
| `PartialIo.Bio.CopyIn` | src/engines/zns-engine-lsm.c:605-640 | across any segment borders exactly the addressed bytes of the request are replaced |
| `PartialIo.Bio.CopyOut` | src/engines/zns-engine-lsm.c:605-640 | the addressed bytes of the request, across any segment borders |
| `PartialIo.ReadPartial` | src/engines/zns-engine-lsm.c:647-694 | every byte of the request is the current byte at its address |
| `PartialIo.WritePartial` | src/engines/zns-engine-lsm.c:985-1045 | exactly the completed prefix of the range is overwritten, all of it on success |
| `PartialIo.HandleRead` | src/engines/zns-engine-lsm.c:1072-1150 | a non-empty read of whole 512-byte sectors that ends at the end of the device or before succeeds unless something failed, with the current bytes; any other is refused |
| `PartialIo.HandleWrite` | src/engines/zns-engine-lsm.c:1072-1150 | overwrites exactly a prefix ending at a block boundary, the whole range on success; for a non-empty range of whole 512-byte sectors that ends inside the device, without failures, stops early only for lack of space, on even zones only at the limit; any other range is refused |

## Left out

- The linear allocator mode (`zns_allocator_init`) and the 4 KiB append engine: an array map and a counter, subsumed by this engine.
- The `none` policy of `src/gc-policy/`: it never collects.
- Crash consistency, and recovery of what lies behind a torn table: the repository does not provide them; `Recovery.LostBehindTail` and `Recovery.TailListed` state what the walk makes of such a log.
- Zone reporting (`src/zns-zone.c`): an arbitrary report; at attach it is in address order, without overlap and without conventional zones, and write pointers lie on block boundaries.
- Allocators.Allocator.Resync: takes the sector of the failed write as aligned to the device, as the source does; sector arithmetic is unbounded except where a check of the source bounds it.
- MemTables.MemTable.Put: red-black rebalancing is any restructuring that keeps the order; the tree is a value with an explicit descent path, not linked nodes; a table never gets 2^32 entries, memory being taken to run out before; `memtable_insert` and `memtable_update`, which the engine does not call, are not modelled.
- GcIndexes.GcIndex.UpdateLocation: the reverse maps are sequences that the methods reassign, not arrays updated in place; the reserved XArray store cannot fail, as the reservation guarantees.
- Stores.Store.Background: runs the flush worker between the I/O worker's locked sections; inside a section the lock excludes it. The data and the metadata zones are separate objects, because no operation touches both.
- Engines.Engine.PublishWrite: tables replaced by compaction are freed in the same step that replaces them, while the source frees them right after the lock.
- FlushWorkers.WriteVictim: performs the block writes of one table in one protocol step; nothing else touches the metadata zone and the table cannot change meanwhile.
- PartialIo.HandleWrite: a request that device mapper kills, out of range or for want of a work item, is an I/O error here; flush requests carry no data and are not modelled.
- Hosts.Host.ReadBlock: what a failed direct read leaves in the request's pages is not described.
- MetaZones.MetaZone.WriteBlock: a failed metadata write may move the pointer forward to anywhere in the zone, never back, as a zone that is not reset behaves.
- SuperBlocks.OpenMetadata: the warning about data zones that hold writes while the metadata zone is empty is only a message; the uuid and the checksum function are parameters.
- Attach.DetachAndAttach: ends without a new engine, where the source would go on to attach, if the zone report is unusable, a metadata operation failed since attach, attach had dropped a tail, or the shutdown flush could not write every generation; `Attach.AttachEngine` holds for what is then found, and `Shutdown.FlushAllSync` says what such a shutdown leaves in the log.
- Recreate.WriteAndRecreate: is exact for a collection that fails in step with the device; after a failed write or reset one zone may be in any state, and `Attach.DetachAndAttach` gives the condition on the zone report.
- Checksum arithmetic and collision strength, PREFLUSH and FUA flags, discard, status text, module parameters, workqueue and device-mapper plumbing.
