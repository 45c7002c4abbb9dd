# A verified model of the zone translation layer, the discovery-log fetch and the list check

This project models three parts of the repository in Dafny and proves what they promise.

**The translation layer** (`src/m23-ftl/zns_device.cpp`) offers a flat, randomly writable block device
on top of zones that accept only sequential writes. Writes are appended to log zones and mapped block
by block; when the log reaches its watermark a collector thread overlays the log on the old data zones,
writes each merged zone elsewhere (or in place when no zone is empty), remaps it and resets the log.
The specification is the flat device of `src/m23-ftl/backup_zns_device_file.cpp`.

**The discovery-log fetch** (`libnvme/src/nvme/fabrics.c` over `libnvme/src/nvme/util.c`) reads a page
in many transfers while the target may change it, and relies on a generation counter to notice.

**The list check** (`libnvme/ccan/ccan/list/list.c`) validates a circular doubly linked list whose
links may be corrupt.

Notation below: `N` blocks per zone, `L` log zones, `D` data zones, `w` the watermark,
`C = (L-w)*N - 1` the number of blocks the log takes.

## How it is organised

| files | role |
|---|---|
| `Arith`, `Collections` | products, quotients and remainders; finite sets, maps and enumerations |
| `Geometry` | device layout, 32-bit arithmetic, splitting addresses, the free-zone guard |
| `FtlState`, `Allocator` | the state as a value, its invariant, address translation, the zone allocator |
| `Collector`, `GcRound`, `ZeroFill`, `StaleBlocks` | grouping, merging one zone, a whole round, never-written blocks |
| `LogWrite`, `Runs`, `GcCost`, `ReadPath` | appends, whole runs against the flat device, costs, reads of several blocks |
| `Handshake`, `CallHistory`, `Progress`, `LostWakeup` | the mutex and condition-variable protocol for any number of writers |
| `Flash`, `Transfer`, `Ftl`, `FlatDevice`, `Shadow` | the device, split transfers, the two devices as classes, and both side by side |
| `LogPage`, `Discovery` | chunked log-page fetch, generation-checked snapshot |
| `ListCheck` | the ring check over a heap of nodes |

The classes hold the fields the C code updates; each of their methods is tied to a function on
`FtlState.State`, and `Ftl.Valid` says that the object is in the state its own history of appends and
rounds leads to. A zone is the sequence of blocks written since its last reset, so its write pointer is
the length of that sequence and reading above it is not possible. The device also records the commands it
is given, and takes no command above MDTS. The order in which an unordered map
is walked is arbitrary everywhere. Products and quotients over the device geometry are written with
`Arith.Mul`, `Arith.Quot` and `Arith.Rem`; `Arith.MulIs` and `Arith.QuotRemIs` show that these are
`*`, `/` and `%`, so no statement depends on how they are defined.

## Properties of the code that do not hold, and exactly when they do

- A never-written block does not always read as zeros: the merge buffer is cleared once per round
  (line 216), so a freshly merged zone takes over what an earlier iteration left in the buffer.
  `ZeroFill.ZeroFillExactly` gives the exact condition under which the block reads as zeros whatever the
  order; `StaleBlocks.NeverWrittenReadsStale` is a run that breaks it, on every device that has room for
  it, and `StaleBlocks.NeverWrittenZeroIff` says which devices have none.
- A read of several blocks zeroes its whole buffer as soon as one block is in neither map (line 497).
  `ReadPath.MultiBlockReadExactly` says when the result is still that of the flat device, and
  `ReadPath.WrittenBlockReadAsZeros` is a one-write run after which it is not.
- A write of several blocks moves the log head by one (line 551). The blocks themselves read back
  (`LogWrite.BlocksReadBack`), but the next write does not: `LogWrite.NextWriteReadsBackIff` says exactly
  when it does, `LogWrite.ThirdBlockReadsAsSecond` is the failure on a fresh device.
- With two or more writers a write can sleep for good, because `stop_gc` is signalled once per round
  (line 317) while several writers may wait on it. `LostWakeup.StuckIffSeveralWriters` makes this an
  if-and-only-if; with one writer `Progress.CallBounded` bounds every call.
- With `(L-w)*N = 1` no write ever passes the guard: `Geometry.Geometry.EmptyLogAdmitsWrite`.
- The guard of the write loop does not stop every write to a full log: for enough blocks the unsigned
  free-zone count wraps around. `Geometry.Geometry.GuardExactly` says for which, and
  `Geometry.Geometry.GuardWraps` gives the smallest such number.
- The zone starts that `next_empty_zone` returns are truncated to an `int` (line 204).
  `Geometry.Geometry.ZoneStartExactly` says which survive.
- The size of the discovery log is stored in 32 bits (`fabrics.c` line 539). `Discovery.LogSizeExactly`
  says for which record counts the buffer holds all records, `Discovery.WrappingPageTruncates` gives one
  for which it holds none.

## Model

| member | source | states |
|---|---|---|
| Geometry.Geometry.SplitThenJoin | src/m23-ftl/zns_device.cpp:495-501 | splitting an address into logical zone and offset loses nothing and lands in an existing data zone |
| Geometry.Geometry.JoinThenSplit | src/m23-ftl/zns_device.cpp:295-300 | every pair of data zone and offset is the split of exactly the address computed from it, so the decomposition is a bijection |
| Geometry.Geometry.NeedsGcExactly | src/m23-ftl/zns_device.cpp:196-198 | the unsigned 32-bit free-zone count never wraps up to the log capacity, and the guard of a one-block write fires exactly when the log holds C blocks |
| Geometry.Geometry.GuardExactly | src/m23-ftl/zns_device.cpp:196-198 | the guard for n blocks at head e fires if and only if (L-w)*N <= e+n < (L+1)*N: beyond the log the unsigned count wraps |
| Geometry.Geometry.GuardWraps | src/m23-ftl/zns_device.cpp:536-540 | with the log full, (w+1)*N+1 is the smallest number of blocks that the guard lets through |
| Geometry.Geometry.EmptyLogAdmitsWrite | src/m23-ftl/zns_device.cpp:536-540 | an empty log passes the guard if and only if (L-w)*N >= 2 |
| Geometry.Geometry.ZoneStartExactly | src/m23-ftl/zns_device.cpp:201-208 | on any device a zone start passes unchanged through the 32-bit `int` that carries it if and only if it is below 2^31, and is taken for the failure value if and only if it is one below a multiple of 2^32 |
| Geometry.Geometry.InNativeArithmetic | src/m23-ftl/zns_device.cpp:495-501 | the layout functions are the C expressions: zone of an address, offset in it, block and zone of a block number, C |
| FtlState.InitInv | src/m23-ftl/zns_device.cpp:441-452 | the state after initialisation with a forced reset satisfies the full invariant |
| FtlState.LogReadable | src/m23-ftl/zns_device.cpp:243 | every block below the log head is below its zone's write pointer and outside the last log zone |
| FtlState.LastLogZoneEmpty | src/m23-ftl/zns_device.cpp:224-258 | the log never reaches its last zone, so resetting that zone in the fallback loses nothing |
| FtlState.TranslateReadable | src/m23-ftl/zns_device.cpp:487-502 | every address the read path translates leads to a block the device can read |
| FtlState.TranslationInjective | src/m23-ftl/zns_device.cpp:487-502 | two user addresses never resolve to the same device block; log and data blocks do not alias |
| FtlState.TranslateRegion | src/m23-ftl/zns_device.cpp:487-502 | log entries resolve into the log region and all other translated addresses into the data region |
| Allocator.FirstEmpty | src/m23-ftl/zns_device.cpp:201-208 | the result is the smallest EMPTY data zone, and -1 exactly when there is none |
| Allocator.AllocatorBalance | src/m23-ftl/zns_device.cpp:228-270 | EMPTY data zones and mapped logical zones add up to D |
| Allocator.AlwaysHome | src/m23-ftl/zns_device.cpp:221-237 | when no data zone is EMPTY every logical zone is already mapped, so the fallback's previous zone exists |
| Collector.GroupsPartition | src/m23-ftl/zns_device.cpp:294-301 | an address is in the log if and only if its offset is in the group of its zone, with the same block number |
| Collector.GroupsFromLog | src/m23-ftl/zns_device.cpp:294-301 | every grouped entry is a log entry at its own address, and no group is empty |
| Collector.GroupsInsert | src/m23-ftl/zns_device.cpp:296-300 | entering one more log entry adds one new offset to one group, so `insert` never drops an entry |
| Collector.MergeZoneFallback | src/m23-ftl/zns_device.cpp:250-258 | rewriting in place keeps the allocator invariant, the log, and all other logical zones |
| Collector.MergeZoneFresh | src/m23-ftl/zns_device.cpp:259-270 | moving a logical zone to the first EMPTY data zone keeps the zone map injective, FULL iff mapped, the log, and all other logical zones |
| Collector.MergeZoneKeeps | src/m23-ftl/zns_device.cpp:219-272 | a merge iteration stores the image for its logical zone and changes no other contents |
| GcRound.MergeAllExactly | src/m23-ftl/zns_device.cpp:211-274 | for any order of the groups the merge loop leaves the log intact and gives every merged zone the image described from the state before the loop |
| GcRound.MergeAllCost | src/m23-ftl/zns_device.cpp:250-266 | the merge loop programs exactly one zone per group |
| GcRound.CollectExactly | src/m23-ftl/zns_device.cpp:292-317 | a round restores the invariant, empties the log, and determines the contents of every data zone |
| GcRound.RoundImageAt | src/m23-ftl/zns_device.cpp:228-248 | a merged image holds the logical value at every offset that had one and the carried buffer elsewhere |
| GcRound.CollectPreserves | src/m23-ftl/zns_device.cpp:292-317 | no round, in any order, changes the value of an address in the log or in a mapped zone, nor the zeros of an address whose zone stays unmapped |
| GcRound.ReadDuringRound | src/m23-ftl/zns_device.cpp:302-302 | between the grouping and the end of the round the log map sends every logged address to log block 0 |
| ZeroFill.FreshReads | src/m23-ftl/zns_device.cpp:216-248 | a never-written block of a freshly merged zone reads what the buffer held before that iteration |
| ZeroFill.ZeroFillExactly | src/m23-ftl/zns_device.cpp:216-248 | such a block reads as zeros in every merge order if and only if every other zone of the round that supplies its offset supplies zeros there |
| ZeroFill.StaleOrder | src/m23-ftl/zns_device.cpp:216-248 | otherwise some merge order makes it read the block of the supplying zone |
| StaleBlocks.NeverWrittenReadsStale | src/m23-ftl/zns_device.cpp:216-248 | on every device with two data zones, two blocks in a zone and C >= 2: a run that fills the log, lets the collector start, and ends with a never-written block reading as the block written elsewhere |
| StaleBlocks.NeverWrittenZeroIff | src/m23-ftl/zns_device.cpp:216-248 | in every run every never-written block reads as zeros if and only if the device lacks two data zones, two blocks in a zone, or C >= 2 |
| LogWrite.HeadInLog | src/m23-ftl/zns_device.cpp:542-545 | the log head is the write pointer of the zone it lies in, and that zone has room |
| LogWrite.AppendInv | src/m23-ftl/zns_device.cpp:542-562 | an append below the capacity keeps the invariant and every data zone |
| LogWrite.AppendUpdates | src/m23-ftl/zns_device.cpp:542-562 | an append gives its address the new block and leaves every other address as it was |
| LogWrite.BlocksReadBack | src/m23-ftl/zns_device.cpp:542-562 | after a write of several blocks that passes guard, MDTS bound and zone room, each of them reads back |
| LogWrite.OtherAddressesKept | src/m23-ftl/zns_device.cpp:542-562 | such a write neither adds, drops nor changes the log entry of any address it does not cover, so what read back before still does |
| LogWrite.HeadTracksIffOneBlock | src/m23-ftl/zns_device.cpp:536-562 | such a write keeps the invariant, so the head on the device's write pointer, if and only if it is of one block |
| LogWrite.NextWriteReadsBackIff | src/m23-ftl/zns_device.cpp:536-562 | the one-block write that follows reads back if and only if the earlier write was of one block or its second block is the same; otherwise it reads as that second block |
| LogWrite.ThirdBlockReadsAsSecond | src/m23-ftl/zns_device.cpp:536-562 | on a fresh device: two blocks, then one block behind them, which reads as the second of the two |
| Runs.RunRefinesFlat | src/m23-ftl/backup_zns_device_file.cpp:115-165 | after any run of writes and rounds a written address reads what the flat file holds, and a never-written address in a never-merged zone reads zeros on both |
| Runs.StepRefinesFlat | src/m23-ftl/zns_device.cpp:477-566 | one write or one round keeps the agreement with the flat file at every address |
| Runs.LastWriteWins | src/m23-ftl/zns_device.cpp:477-566 | after any run a read returns the block of the last write to the address |
| GcCost.LogHeadAccount | src/m23-ftl/zns_device.cpp:314-551 | writes = rounds * C + log head, after every run |
| GcCost.ExactRounds | src/m23-ftl/zns_device.cpp:536-551 | W >= 1 finished writes have triggered exactly (W-1)/C rounds, in native integer division |
| GcCost.RoundZones | src/m23-ftl/zns_device.cpp:294-303 | a round merges at most D zones and at most as many as the log has blocks |
| GcCost.WriteAmplification | src/m23-ftl/zns_device.cpp:250-266 | blocks programmed = writes + N per merged zone, and at most min(D, C) zones are merged per round |
| GcCost.WriteAmplificationBound | src/m23-ftl/zns_device.cpp:250-266 | W writes program at most W + (W-1)/C * min(D, C) * N blocks |
| GcCost.RoundBound | src/m23-ftl/zns_device.cpp:294-303 | the number of zones in the bound is the smaller of D and C |
| ReadPath.FlatReadIsSlice | src/m23-ftl/backup_zns_device_file.cpp:126-136 | reading n blocks of the flat device returns the slice of the file at the address |
| ReadPath.FlatZeroExactly | src/m23-ftl/backup_zns_device_file.cpp:115-165 | after any run the flat device holds zeros at an address if and only if the last write there, if any, was of zeros |
| ReadPath.MultiBlockReadExactly | src/m23-ftl/zns_device.cpp:484-521 | a read of several blocks agrees with the flat device if and only if no block is a hole or no block of the range was last written with anything but zeros |
| ReadPath.WrittenBlockReadAsZeros | src/m23-ftl/zns_device.cpp:497-499 | one write to the last block of a zone, then a read of that block and the next: the block reads back alone but as zeros in the pair |
| Handshake.StepSafe | src/m23-ftl/zns_device.cpp:278-319 | every atomic step of any thread keeps mutual exclusion, the trigger discipline and the sequential history |
| Handshake.HandshakeSafety | src/m23-ftl/zns_device.cpp:535-564 | for any number of writers and any interleaving with spurious wakeups: one mutex holder, the collector runs only with the log at C blocks, appends happen only with more than w zones free |
| Handshake.ConcurrentRefinement | src/m23-ftl/zns_device.cpp:535-564 | every reachable concurrent state agrees with the flat device after its history, which `CallHistory` ties to the calls |
| CallHistory.HistoryOfSteps | src/m23-ftl/zns_device.cpp:535-564 | for any number of writers and any interleaving the appends and rounds of a run are those of its steps in their order, each append with the address and block of its writer's last call |
| CallHistory.CallsAppendedOnce | src/m23-ftl/zns_device.cpp:535-564 | each call of each writer has been appended exactly once or is still on its way to its append: no write is lost or doubled |
| CallHistory.CallReadsBack | src/m23-ftl/zns_device.cpp:535-564 | once a call has appended, its address reads as its block through all rounds and other appends until a later append to the address |
| CallHistory.ConcurrentRunRefinesFlat | src/m23-ftl/zns_device.cpp:535-564 | after every concurrent run the contents agree with the flat device after what the calls asked for, in the order of their appends |
| Progress.OneWriterStep | src/m23-ftl/zns_device.cpp:281-318 | with one writer: asleep on stop_gc implies the trigger is set or about to be signalled off, collector asleep implies it is clear or about to be signalled |
| Progress.SomeProgress | src/m23-ftl/zns_device.cpp:536-540 | with one writer some thread can always take a step while a call runs: no deadlock and no lost wakeup |
| Progress.StartOneWriter | src/m23-ftl/zns_device.cpp:278-285 | the start of the threads, with one writer, satisfies that invariant |
| Progress.RankDecreases | src/m23-ftl/zns_device.cpp:536-564 | every step of either thread brings the call of the only writer closer to its end |
| Progress.CallBounded | src/m23-ftl/zns_device.cpp:535-566 | with one writer and k spurious wakeups a call takes at most 90*(k+1) steps besides the wakeups and at most one collector round |
| LostWakeup.TwoWritersGetStuck | src/m23-ftl/zns_device.cpp:317 | a reachable state of two writers in which one sleeps and no thread can move |
| LostWakeup.StuckIffSeveralWriters | src/m23-ftl/zns_device.cpp:314-318 | a stuck state is reachable if and only if there are at least two writers |
| Transfer.TilesOnce | src/m23-ftl/zns_device.cpp:158-191 | every block of a split transfer is moved by exactly one command, at its own place on the device |
| Transfer.IoWithMdts | src/m23-ftl/zns_device.cpp:150-193 | a split transfer equals one large command; the commands the device sees are exactly its chunks, which tile the buffer and the blocks in order, none above MDTS, each write at the write pointer |
| Transfer.MoveChunks | src/m23-ftl/zns_device.cpp:158-191 | the loop terminates; every command is accepted by the device, and the commands it sees are those of the tiling |
| Ftl.Ftl.constructor | src/m23-ftl/zns_device.cpp:441-472 | initialisation of a device with arbitrary contents yields a valid object with an empty history |
| Ftl.Ftl.NextEmptyZone | src/m23-ftl/zns_device.cpp:201-208 | returns the start of the first EMPTY data zone, or -1 |
| Ftl.Ftl.LoadGroup | src/m23-ftl/zns_device.cpp:239-248 | reading a group in any order overlays exactly its blocks on the buffer |
| Ftl.Ftl.MergeOneZone | src/m23-ftl/zns_device.cpp:219-272 | one iteration in place on device, maps, states and buffer computes the modelled merge; every device command is accepted |
| Ftl.Ftl.StoreInPlace | src/m23-ftl/zns_device.cpp:250-258 | without an EMPTY data zone: the device sees a reset of the old zone, writes that tile it, and a reset of the last log zone, in this order |
| Ftl.Ftl.StoreFresh | src/m23-ftl/zns_device.cpp:259-270 | with one: the new zone is written completely before the old one, if any, is reset |
| Ftl.Ftl.ZoneMerge | src/m23-ftl/zns_device.cpp:211-274 | the loop over the unordered map computes the modelled merge for some enumeration of the groups |
| Ftl.Ftl.GroupLog | src/m23-ftl/zns_device.cpp:292-303 | the loop over the log map computes the groups and leaves every entry reduced to its sign bit |
| Ftl.Ftl.RunCollector | src/m23-ftl/zns_device.cpp:292-317 | one pass of the collector is one modelled round; it ends with an empty log and a clear trigger |
| Ftl.Ftl.ResetLogZones | src/m23-ftl/zns_device.cpp:310-312 | every log zone is reset, first to last, and no other zone changes |
| Ftl.Ftl.AppendToLog | src/m23-ftl/zns_device.cpp:542-562 | for any number of blocks below MDTS that pass the guard and fit the zone: one append command at the start of the head's zone, the head follows the answer, and exactly these blocks are entered into the map |
| Ftl.Ftl.Write | src/m23-ftl/zns_device.cpp:524-566 | a one-block write runs at most one round, then the address has the new value and every other value is kept; a misaligned size returns -1 and changes nothing |
| Ftl.Ftl.Read | src/m23-ftl/zns_device.cpp:477-522 | a read at any address fills the buffer with the per-block translations, or with zeros when some block is a hole, and touches nothing else |
| FlatDevice.FlatDevice.Write | src/m23-ftl/backup_zns_device_file.cpp:139-165 | succeeds exactly on aligned ranges inside the capacity; then every block of the range is the block of the buffer and every other block is as before |
| FlatDevice.FlatDevice.WriteThenRead | src/m23-ftl/m2.cpp:74-94 | a buffer of any number of blocks written to an aligned range reads back whole, and the pair of calls succeeds exactly on such ranges |
| FlatDevice.FlatDevice.Read | src/m23-ftl/backup_zns_device_file.cpp:115-137 | returns the range, -EINVAL when misaligned, -1 beyond the capacity unless nothing is asked for |
| Shadow.WriteBoth | src/m23-ftl/m3.cpp:133-142 | writing a block to both devices keeps them mirrored |
| Shadow.ReadBoth | src/m23-ftl/m3.cpp:169-182 | a written address reads the same from both devices, and the result is the comparison of what was read |
| Shadow.FreshMirrored | src/m23-ftl/m3.cpp:102-118 | a fresh translation layer and an empty file mirror each other, so the check can start |
| Shadow.WriteAndVerify | src/m23-ftl/m3.cpp:129-187 | for any list of addresses, repetitions included, what is read back is the translated block, equals the file's block, and is the block written last to the address; so the check always passes |
| LogPage.PlanCovers | libnvme/src/nvme/util.c:434-455 | the transfers cover [0, data_len) in order with sizes in (0, xfer_len]; retain is set on all but the last, which carries the caller's choice |
| LogPage.ByteInTransfer | libnvme/src/nvme/util.c:434-455 | byte i is moved by transfer i / xfer_len and by no other |
| LogPage.GetLogPage | libnvme/src/nvme/util.c:422-458 | on success exactly the planned commands were issued and each byte comes from its transfer; otherwise the first refusal stops the fetch and its error is returned |
| Discovery.LogSizeExactly | libnvme/src/nvme/fabrics.c:539-540 | the 32-bit buffer size is exact if and only if numrec < 2^22 - 1, and zero if and only if 2^22 divides numrec + 1 |
| Discovery.FieldsOfLog | libnvme/src/nvme/fabrics.c:531-532 | two 64-bit little-endian numbers at the start of a log are its generation counter and record count |
| Discovery.WrappingPageTruncates | libnvme/src/nvme/fabrics.c:539-540 | for a page that announces 2^22 records the buffer is that of the header alone |
| Discovery.OneGeneration | libnvme/src/nvme/fabrics.c:561-571 | equal generation counters at both ends of a window mean one page throughout |
| Discovery.PassIsSnapshot | libnvme/src/nvme/fabrics.c:553-571 | a pass whose counters agree has read generation, count and all records from one single page |
| Discovery.PassEnds | libnvme/src/nvme/fabrics.c:561-582 | a pass that ends in a mismatch of counter or count proves that the target changed |
| Discovery.FetchPass | libnvme/src/nvme/fabrics.c:553-570 | one pass: its two generation counters tell a match from a mismatch, a match with the expected count is a snapshot, and a refusal ends the call with the error of the refused transfer |
| Discovery.OneExplanation | libnvme/src/nvme/fabrics.c:530-591 | what the target answers fixes the passes, the outcome and the last transfer of a call that does not run out of memory |
| Discovery.StillFromLastPass | libnvme/src/nvme/fabrics.c:530-591 | a target that holds still from the header that sized the last pass on is not refused |
| Discovery.RetryOnStillTarget | libnvme/src/nvme/fabrics.c:571-572 | after a mismatch with a pass left the call tries again, and a target that holds still from then on is not refused |
| Discovery.AgainMeansChanges | libnvme/src/nvme/fabrics.c:574-577 | EAGAIN comes after exactly max(1, max_retries) passes, and the target changed during every one of them |
| Discovery.BadSlotMeansChange | libnvme/src/nvme/fabrics.c:578-582 | EBADSLT means that the target changed between the header that sized the last pass and the start of that pass |
| Discovery.OutcomeTells | libnvme/src/nvme/fabrics.c:503-591 | success comes from one answered page, either retry error means a change during the call, and a target that holds still throughout is never refused |
| Discovery.GetDiscoveryLog | libnvme/src/nvme/fabrics.c:503-591 | every pass but the last ended in a mismatch; EAGAIN: the last did too and none is left; EBADSLT: it matched with another record count; success: a snapshot of one generation or a header without records, with room for all records if and only if there are fewer than 2^22 - 1; the transfers are the planned ones, and only the whole-log fetches release the event |
| ListCheck.PathInRing | libnvme/ccan/ccan/list/list.c:26-30 | the part of the list already confirmed is a prefix of any well-formed ring through the start |
| ListCheck.BlameUnique | libnvme/ccan/ccan/list/list.c:5-18 | the node and the count of a diagnostic are determined by the graph |
| ListCheck.ListCheckNode | libnvme/ccan/ccan/list/list.c:20-36 | ends on every finite closed graph; returns the node if and only if it lies on a well-formed ring; an abort names the first node whose prev is wrong, all nodes before it being linked correctly |
| ListCheck.RingFromNext | libnvme/ccan/ccan/list/list.h:75-91 | a list that checks out from one node checks out from the next |
| ListCheck.ListCheck | libnvme/ccan/ccan/list/list.c:38-43 | the check of a list head is the check of its node |

## Left out

- Ftl.Ftl.Write: one aligned in-range block per call; writes of several blocks go through `AppendToLog` and are shown to misplace the next write, and sizes of MDTS or more take a path that does not advance the log head at all.
- Ftl.Ftl.Read: requests below MDTS, while no write or collection is under way; larger requests overrun the buffer, reads take no lock, and during a round the log map holds only sign bits.
- Ftl.Ftl.Write: calls the collector directly where the C code signals and waits; the threads themselves are the subject of `Handshake`, `Progress` and `LostWakeup`.
- Handshake.StepSafe: the steps of the collector between lines 292 and 315 are one atomic step, since everything they touch is otherwise touched only under the same mutex.
- Device faults: a device command does not fail when its `requires` holds, so the error returns that follow commands are not modelled (a failing append would return with the mutex held).
- Transfer.IoWithMdts: sizes of whole blocks inside one zone; for other sizes the last command covers a block of which the buffer holds only a part, and whether a device reads across zones is its own choice.
- Transfer.MoveChunks: the same sizes and ranges as `IoWithMdts`.
- Bytes inside a block: a block is one value; buffers are arrays of blocks, with byte sizes and offsets kept and divided by the block size.
- Device memory in place: `Flash` keeps zones as sequence values in a field rather than as one array of blocks.
- 64-bit wrap-around of addresses and sizes near 2^64, and the `int` counter of the list check.
- The geometry `Geometry.Valid` assumes: zone size equals zone capacity, zone bytes below 2^32, total blocks at most 2^31 because zone starts pass through an `int`, blocks of at least 512 bytes that divide MDTS.
- Device queries during initialisation, restart persistence, thread creation and `deinit_ss_zns_device`: only the fresh state after a forced reset is modelled.
- FlatDevice.FlatDevice.Read: the contents of the buffer after a short read are unspecified.
- Discovery.GetDiscoveryLog: a wrapped size of zero ends in the outcome `Undefined`, because the C code then reads outside its buffer; a failing allocation is a nondeterministic choice.
- Discovery.OneGeneration: assumes that a transfer of at most 512 bytes is atomic and that the 64-bit generation counter strictly increases on every change.
- ioctl and passthru wrappers, discovery over sysfs, JSON configuration, the RocksDB layer, printing and string tables: no property beyond packing and forwarding.
- `src/m1/m1_assignment.cpp`: its chunk loop repeats `io_with_mdts`.
