# Matrix DB: a verified model of the engine core

Matrix DB is a small database with two halves. The *point-op* half is a
fixed-capacity hash table kept durable by a write-ahead log and checkpoints. The
*analytical* half keeps typed columns that move between RAM and SSD (and VRAM in a
CUDA build) under a heat-driven planner, and answers scalar and grouped
aggregates. A server lets many threads use one engine through a reader/writer
lock. This project models that logic in Dafny and proves what it is for.

The modules follow the program:

| module | models |
|---|---|
| `Bytes`, `Crc32`, `Crc32Rfc`, `ColdStore`, `WalCrash`, `LogFormat` | the framed log of cold_store.hpp, its checksum against RFC 1952, crashes at any byte of it, and its bytes |
| `KvStore`, `Durability`, `PointStore`, `PointRuns` | the hash table, the checkpoint protocol, transactions, the ordered index, and whole runs of them |
| `Slots`, `RingBuffer` | the lock-free single-producer single-consumer ring |
| `Monoids`, `Reduce`, `ReduceLaws`, `GpuKernels` | CPU reducers, what they mean, and the GPU kernels against them |
| `Tiers`, `TierPlan`, `TierManager`, `TierPasses`, `TierHeat`, `TieredColumns` | tier physics, the planner, whole passes of it over a live DEVICE tier, heat and thresholds in numbers, column bytes and their moves |
| `Query`, `QueryAnswers`, `Joins`, `TieredEngine`, `TieredRuns`, `RunAnswers`, `NullRows` | query execution, its answers in terms of the numbers stored, joins, borrow-and-return, whole runs with tiering, what happens to NULL rows |
| `Dictionary`, `Tokenizer` | string columns as codes, WHERE translation, the tokenizer |
| `BatchBinning` | page-binned batches against arrival order |
| `Snapshot`, `CatalogSnapshot`, `TieredSnapshot` | the catalog file, saving and restoring, also from one live engine into another |
| `WireCodec`, `Formats`, `ServerCore`, `ServedRequests`, `ConcurrentServer` | the wire form, wire and snapshot byte by byte, `serve_core`, what clients are answered, and the concurrent server |

Main results:

- **Linearizability.** In every interleaving of any number of threads, through
  the shared fast path, the drop-and-retry escalation and the micro-steps of a
  PUT, the requests form one sequential history; every returned reply is the one
  `serve_core` gives on the logical state at an instant between call and return;
  nothing outside the exclusive lock changes a non-atomic field; nothing
  deadlocks (`ConcurrentServer.Linearizable`, `SharedLockInert`, `NoDeadlock`).
- **Crash at any byte, checkpoint at any moment.** Replay applies exactly the
  units wholly inside the cut; every run that checkpoints after a recovery before
  it writes again loses no committed unit, and without that checkpoint a run can;
  appending is safe exactly for clean logs, and a crash leaves one exactly when it
  falls between units (`WalCrash.CrashAtAnyByte`, `Durability.DisciplineSuffices`,
  `Durability.CommittedPutLost`, `WalCrash.CleanIffAppendable`, `WalCrash.CleanCutIff`).
- **Tier transparency.** Over any run of loads, appends, masks, queries, joins, join
  counts, gathers and group derivations, with the rebalances they trigger, every
  reply is that of a catalog that never tiers, and store and planner stay in lockstep
  (`TieredRuns.PerformAll`).
- **An index that is never wrong.** In every run, with a log or without, restarts on
  any readable files included, the ordered index equals the table (`PointRuns.PerformAll`).
- **Fast forms refine simple ones.** GPU grids against CPU loops, shared against
  exclusive execution, binned against in-order batches, dictionary codes against
  strings, hash joins against nested loops, grouped against scalar.
- **Answers in numbers.** A query returns the count, the sum modulo 2^64, the least or
  the greatest of exactly the rows that satisfy an integer comparison and are not NULL,
  scalar, grouped and under a filter on another column; a PUT followed by a GET, from
  request bytes to reply, returns the value; a COLD column read five times over is
  promoted (`QueryAnswers.ScalarAnswer`, `ServedRequests.PutThenGet`,
  `TierHeat.HotIsPromoted`).
- **Formats.** Every field of the log, the checkpoint, the snapshot and the wire form
  stands at a stated byte, replay is characterised on arbitrary bytes, and the checksum
  is that of RFC 1952 (`LogFormat`, `Formats`, `Crc32Rfc.CrcIsRfc`).
- **Round trips.** Snapshot, checkpoint, wire form, tokenizer, each with its exact
  domain where it does not hold everywhere.

Where a promise does not hold for all inputs the code is modelled as it is and the
exact condition is proved (for the HOST tier, in the cases named):

- string BETWEEN: `Dictionary.BetweenExact`;
- appending to an unclean log: `WalCrash.CleanIffAppendable`, and the crashes that
  leave one: `WalCrash.CleanCutIff`;
- binned batches in a store that overflows: `BatchBinning.BinnedMapIff` for the map,
  `BatchBinning.ReadIff` for every read;
- HOST within its capacity while DEVICE is live: it is unless a pass takes a column out
  of DEVICE, which shows before the pass (`TierPasses.HostWithinUnlessMayLeave`). With
  DEVICE over its capacity a pass does so exactly when it holds a rested column
  (`TierPasses.OverfullLeavesIff`); with DEVICE within it, exactly when some candidate,
  offered after the better ones have been packed, is worth the place of the
  lowest-scored rested column (`TierPasses.LeavesIff`). HOST then overflows if what
  leaves does not fit (`TierPasses.FirstMoveLeaves`, `TierPasses.HostOverflows`);
- null masks shorter than their column: `Query.FaultIffOutgrown`; NULL rows under
  cross-column filters: `NullRows.CrossCountIff`;
- derived group counts: `ReduceLaws.DerivedCoversKeys` for the keys,
  `ReduceLaws.DerivedCountIff` for the counts;
- the index after a restore: `PointStore.RestoreKeepsIff`;
- wrapped ring cursors: `RingBuffer.PopTestWraps`;
- snapshot bounds: `Snapshot.FileRoundTrip`.

Two places where comments and code disagree, and the model follows the code: the
BETWEEN comment says codes `[lb(lo), ub(hi)-1]` are the strings `[lo, hi]`
(compute_mock.cpp:1428), which the clamp at 0 breaks; `restore` is described as
restoring the point-op store (compute_mock.cpp:684-690) but leaves the ordered
index as it was.

## Model

| member | source | states |
|---|---|---|
| Crc32.Compute | cold_store.hpp:33-41 | the byte loop yields the reflected register's value for every byte string; what that value is says `Crc32Rfc.CrcIsRfc` |
| Crc32.Mix | cold_store.hpp:36-38 | eight shift-and-xor rounds on the 32-bit value are eight turns of the bit register |
| Crc32.TableForm | cold_store.hpp:33-41 | the bitwise register equals the one updated byte by byte through eight-turn lookups, for every start value and byte string |
| Crc32Rfc.CrcIsRfc | cold_store.hpp:33-41 | for every byte string the checksum has exactly the bits of the table-driven computation of section 8 of RFC 1952, done on 32-bit words with its constants written out |
| Crc32Rfc.PolyPowers | cold_store.hpp:38 | the feedback word is the reflected polynomial with the powers 26, 23, 22, 16, 12, 11, 10, 8, 7, 5, 4, 2, 1 and 0 |
| Crc32Rfc.EmptyCrc | cold_store.hpp:34-40 | the checksum of no bytes is 0 |
| Crc32Rfc.CheckValue | cold_store.hpp:33-41 | the checksum of the digits 123456789 is 0xCBF43926 |
| Crc32.TurnInjective | cold_store.hpp:38 | one register step never merges two different registers |
| Crc32.BurstDetected | cold_store.hpp:33-41 | two payloads of any length that differ only within four consecutive bytes have different checksums |
| ColdStore.WriteAheadLog.AppendFrame | cold_store.hpp:135-148 | one framed record is added at the end of the file and counted; under SYNC_EACH the synced length is then the whole file, under SYNC_OFF it does not move |
| ColdStore.WriteAheadLog.AppendPut | cold_store.hpp:65 | an auto-commit put adds exactly its unit's bytes |
| ColdStore.WriteAheadLog.AppendGroup | compute_mock.cpp:399-402 | a transaction adds its buffered puts and then the marker, as one unit's bytes |
| ColdStore.WriteAheadLog.Truncate | cold_store.hpp:85-94 | the log is empty and the record count is zero |
| ColdStore.WriteAheadLog.ReadRecord | cold_store.hpp:104-111 | reads the next intact record or stops at a short, oversized or corrupt one |
| ColdStore.WriteAheadLog.Replay | cold_store.hpp:99-128 | the loop applies exactly the puts the recursive reading of the file gives, dropping uncommitted ones |
| ColdStore.Dispatch | cold_store.hpp:112-125 | what one record applies and holds back: puts, transactional puts, markers, and unknown records skipped |
| LogFormat.AutoLayout | cold_store.hpp:135-148 | an auto-commit put is 28 bytes: length 20, checksum, key, value, opcode 2, each number lowest byte first |
| LogFormat.GroupLayout | cold_store.hpp:69-82 | a transaction is its puts in order, 28 bytes each with opcode 4, and a 12-byte marker 0x434F4D4D |
| LogFormat.PutReplays | cold_store.hpp:112-119 | an intact 20-byte record at the front of any bytes: opcode 2 applies its put, 4 holds it, any other does nothing |
| LogFormat.MarkerReplays | cold_store.hpp:120-123 | an intact 4-byte record releases what is held exactly if it is the marker |
| LogFormat.OtherSkipped | cold_store.hpp:124 | intact records of other lengths are skipped |
| LogFormat.StopsAtDamage | cold_store.hpp:104-111 | at anything but an intact record of 1 to 4096 bytes replay stops |
| WalCrash.ReplayConcat | cold_store.hpp:99-128 | replaying a longer log continues where replaying the shorter one stopped |
| WalCrash.ReplayUnits | cold_store.hpp:64-82 | a log of units replays to their puts in order and leaves nothing held |
| WalCrash.WholeIsMaximal | cold_store.hpp:99-128 | a unit counts as surviving exactly when its last byte is inside the cut |
| WalCrash.CrashAtAnyByte | cold_store.hpp:99-128 | from a clean log, after any run of units and any cut of the new bytes, replay applies the old log and exactly the units wholly inside the cut, in order |
| WalCrash.SyncedUnitsSurvive | cold_store.hpp:80 | a crash at or after the synced length, the unit being appended included, replays a prefix of the units with every synced one |
| WalCrash.AppendRun | cold_store.hpp:64-82 | after any run of appends to a clean log, a crash during the next one keeps every unit whose append returned under SYNC_EACH, and a prefix of the units under SYNC_OFF |
| WalCrash.CleanAppend | cold_store.hpp:48 | a clean log stays clean and replays every later unit |
| WalCrash.UncleanLoses | cold_store.hpp:48 | every unclean log has a later unit that replay loses, changes or invents; which crashes leave such a log is `CleanCutIff` |
| WalCrash.CleanIffAppendable | cold_store.hpp:48 | appending is safe for every later run of units if and only if the log is clean |
| WalCrash.CleanCutIff | cold_store.hpp:64-82 | a crash during an append to a clean log leaves a clean log if and only if none of the unit's bytes, or all of them, arrived |
| WalCrash.TornCrashLoses | cold_store.hpp:48 | after every other crash some later run of appends is replayed wrong |
| WalCrash.HeldPutsReappear | cold_store.hpp:118-122 | puts left without a marker are released by the next commit, whoever issues it |
| WalCrash.TornAppendLost | cold_store.hpp:104-111 | a put appended behind torn bytes is not replayed as that put |
| KvStore.Store.Put | kv_store.hpp:25-41 | the table as a map gains or updates the key; it refuses exactly a new key when as many keys are stored as there are slots |
| KvStore.Store.Get | kv_store.hpp:44-53 | returns the map's value; probing never misses a stored key |
| KvStore.Store.ForEach | kv_store.hpp:68 | visits each live key once with its value |
| KvStore.Store.Checksum | kv_store.hpp:60-64 | the sum of the map's values modulo 2^64, whatever the slot layout |
| KvStore.RoundUpPow2 | kv_store.hpp:73-77 | the least power of two that is at least the request and at least 2 |
| KvStore.ProbeMiss | kv_store.hpp:44-53 | an unoccupied slot on the probe path proves the key absent |
| KvStore.Inserted | kv_store.hpp:29-33 | filling the first free slot of a probe path adds exactly one key and keeps every other key findable |
| KvStore.LiveIsMap | kv_store.hpp:68 | the occupied slots list the map's pairs, no key twice |
| KvStore.HomeIs | kv_store.hpp:26 | the first slot probed is the key modulo the number of slots |
| KvStore.SumAfterPut | kv_store.hpp:60-64 | a put moves the checksum's sum by the new value less the old one |
| Durability.ReplayIdempotent | compute_mock.cpp:411-417 | replaying a log over the state it produced changes nothing, also when the store filled and dropped new keys |
| Durability.CkptRoundTrip | compute_mock.cpp:695-728 | reading a written checkpoint gives back its pairs |
| LogFormat.CkptLayout | compute_mock.cpp:695-712 | a checkpoint is 0x4D434B50, the count, and key and value of each pair |
| LogFormat.CkptReads | compute_mock.cpp:714-728 | any file: read exactly if it has those letters, a count and that many pairs, and then those pairs |
| Durability.LoadEnumeration | compute_mock.cpp:714-728 | loading an enumeration of a map that fits rebuilds the map |
| Durability.StepKeeps | compute_mock.cpp:122-128 | every append, crash at any byte, recovery, rename and truncate keeps: disk recovers to the committed units |
| Durability.AlwaysPossible | compute_mock.cpp:411-417 | the runs are not empty: a live process can append, crash at any byte, or checkpoint in any order; a dead one can come up |
| Durability.NothingLost | compute_mock.cpp:411-417 | at every moment of every run, recovering from the disk gives exactly the committed units |
| Durability.SafeIsClean | cold_store.hpp:85-94 | with a checkpoint after every recovery, every append meets a clean log |
| Durability.DisciplineSuffices | compute_mock.cpp:122-128 | any run of crash, recover, checkpoint before new writes loses no committed unit and keeps no uncommitted one |
| Durability.CommittedPutLost | compute_mock.cpp:122-128 | the checkpoint is needed: a run with a torn put, a recovery and a new put without one, whose committed put recovery loses |
| Durability.DeadTransactionReturns | cold_store.hpp:118-122 | a run with a transaction cut off before its marker, a recovery and an empty commit, after which the uncommitted put is back |
| PointStore.Open | compute_mock.cpp:122-128 | starting on any disk: no engine exactly for a malformed checkpoint, on which the source aborts; else checkpoint plus replayed log, an index equal to the table, and durable if the log was clean |
| PointStore.Engine.Commit | compute_mock.cpp:397-405 | the group is logged as one unit and applied in order; index agreement and durability are kept |
| PointStore.Engine.Rollback | compute_mock.cpp:406 | the buffer is dropped; table, index and log are untouched |
| PointStore.Engine.ApplyCommittedWrite | compute_mock.cpp:2016-2020 | one write as a bounded put, mirrored into the index exactly if accepted, with its overflow counted |
| PointStore.Engine.BatchWrite | compute_mock.cpp:1704-1710 | a batch write is logged before it is applied and stays recoverable |
| PointStore.Engine.Checkpoint | compute_mock.cpp:411-417 | the log is emptied and a restart recovers the same map |
| PointStore.Engine.LoadCheckpoint | compute_mock.cpp:714-728 | a well-formed file is put pair by pair and the index not touched; a bad or short one is reported |
| PointStore.Engine.Restore | compute_mock.cpp:687-690 | after a restore the index is right if and only if every pair the store would take is for a key it has and ends on its value |
| PointStore.RestoreKeepsIff | compute_mock.cpp:687-690 | a restore changes nothing exactly when the backup says nothing new, a condition on the file and the old map |
| PointStore.RestoreFresh | compute_mock.cpp:687-690 | into a fresh engine that means: only if there was nothing to restore |
| PointStore.Engine.KvRange | compute_mock.cpp:377-381 | exactly the pairs with lo <= key <= hi, each once |
| PointStore.Engine.KvRangeSorted | compute_mock.cpp:386-391 | exactly the index pairs with lo <= key <= hi, strictly ascending |
| PointStore.RangesAgree | compute_mock.cpp:377-391 | over one map the two scans are reorderings of each other |
| PointRuns.PerformAll | compute_mock.cpp:377-417 | in every run of batches, commits, rollbacks, overflows, checkpoints, scans and restarts on any readable files, with a log or without, the engine holds the reference map, its index equals it, and both range scans are exact, the indexed one ascending; after a checkpoint or a restart on a clean log a restart recovers the map |
| PointRuns.BatchLeaves | compute_mock.cpp:1684-1712 | when its keys fit, a batch of a run leaves every key with its last write |
| PointRuns.CommitLeaves | compute_mock.cpp:397-406 | when its keys fit, a commit leaves every key with the last put buffered for it; a rollback leaves the map alone |
| RingBuffer.StepKeeps | ring_buffer.hpp:34-72 | every producer or consumer step, with stale loads, keeps the invariant |
| RingBuffer.FifoAlways | ring_buffer.hpp:34-72 | in every interleaving the popped values are a prefix of the pushed ones and cached_head <= head <= tail <= head + capacity |
| RingBuffer.NoSlotRace | ring_buffer.hpp:46-50 | the slot being written is none the consumer may read |
| RingBuffer.PopReadsNext | ring_buffer.hpp:67-71 | a pop reads the next pushed value, neither an older write nor the slot's initial content, whatever order memory shows the writes in |
| RingBuffer.NoInitialRead | ring_buffer.hpp:60-71 | a consumer that passed its test cannot see what the slot held before any write |
| RingBuffer.FreshRefusals | ring_buffer.hpp:39-65 | with fresh loads a refusal means the ring is full, or empty |
| RingBuffer.PushTestWraps | ring_buffer.hpp:39 | the full test is right on cursors that wrap at 2^64 |
| RingBuffer.PopTestWraps | ring_buffer.hpp:60 | the empty test is right exactly while both cursors are equal or in the same 2^64 lap |
| RingBuffer.SpscRing.TryEmplace | ring_buffer.hpp:35-51 | the call is the producer's run of steps and appends the value exactly if it succeeds |
| RingBuffer.SpscRing.TryPop | ring_buffer.hpp:56-72 | the call is the consumer's run of steps and returns the oldest value not yet popped |
| Reduce.CpuReduce | compute.hpp:221-261 | the filtered loops compute the aggregate of exactly the rows that count, in order, sentinels included; what counts, in integer comparisons, says `QueryAnswers.ScalarAnswer` |
| Reduce.CpuReduceAll | compute.hpp:147-156 | the unfiltered loops aggregate all rows, COUNT being the row count |
| Reduce.CpuGroupReduce | compute.hpp:350-420 | each cell is the scalar aggregate of the counting rows with that key; other keys are ignored |
| Reduce.U32Lawful | compute.hpp:221-232 | u32 aggregates are commutative monoids with their sentinels as units |
| Reduce.I64Lawful | compute.hpp:252-261 | so are the i64 aggregates, sums wrapping at 64 bits |
| ReduceLaws.WholeIsOver | compute.hpp:221-261 | an in-order reduction equals the order-free fold over the set of counting rows |
| ReduceLaws.GroupsAddUp | compute.hpp:350-420 | when every counting row has a group, COUNT and SUM of the groups add up to, and MIN and MAX fold to, the scalar answer |
| ReduceLaws.DeriveNumGroups | compute_mock.cpp:1506-1521 | the max-scan gives max key plus one, 0 for no rows, and saturates at 2^32 - 1 |
| ReduceLaws.DerivedCoversKeys | compute_mock.cpp:1506-1521 | the derived count gives every key a group if and only if no key is 2^32 - 1 |
| ReduceLaws.DerivedIsTight | compute_mock.cpp:1506-1521 | the last derived group has a row: the derived count less one is a key |
| ReduceLaws.DerivedGroupsAddUp | compute_mock.cpp:1506-1521 | with the derived count the groups fold to the scalar answer over the same rows, for any filter and mask |
| ReduceLaws.U32DerivedAddUp | compute_mock.cpp:1506-1521 | for u32 columns, with no hypothesis on the arithmetic |
| ReduceLaws.I64DerivedAddUp | compute_mock.cpp:1506-1521 | for i64 columns, sums wrapping |
| ReduceLaws.DerivedCountIff | compute_mock.cpp:1506-1521 | for fewer than 2^64 rows the derived COUNT groups add up to the scalar COUNT if and only if no counting row has key 2^32 - 1 |
| ReduceLaws.U32DerivedCountIff | compute_mock.cpp:1506-1521 | the same for u32 columns, with no hypothesis on the arithmetic |
| ReduceLaws.I64DerivedCountIff | compute_mock.cpp:1506-1521 | the same for i64 columns |
| ReduceLaws.MaxMeans | compute.hpp:151 | MAX is the maximum, and 0 for no rows |
| ReduceLaws.MinMeans | compute.hpp:150 | MIN is the minimum, and 2^64 - 1 for no rows |
| ReduceLaws.CountMeans | compute.hpp:152 | counting row by row gives the number of rows |
| ReduceLaws.SumMeans | compute.hpp:149 | SUM of u32 values is their sum modulo 2^64 |
| ReduceLaws.SignedSumMeans | compute.hpp:177-185 | SUM of i64 values is their sum wrapped to 64 bits, exact whenever it does not overflow |
| ReduceLaws.SignedCountMeans | compute.hpp:177-185 | COUNT of i64 values is their number, wrapped to 64 bits |
| ReduceLaws.SignedExtremesMean | compute.hpp:177-185 | MIN and MAX of i64 values are the least and greatest value, with the extreme values for no rows |
| GpuKernels.StrideThread | compute_cuda.cuh:178-181 | one thread folds exactly the counting rows of its lane |
| GpuKernels.Combine | compute_cuda.cuh:182-183 | block and global atomics in any order give the CPU aggregate |
| GpuKernels.GridReduce | compute_cuda.cuh:176-211 | for every grid and block size the kernel equals the CPU reduction |
| GpuKernels.IptVisitsOnce | compute_cuda.cuh:442-472 | the items-per-thread striping visits each row at exactly one place |
| GpuKernels.IptThread | compute_cuda.cuh:455-467 | a register-blocked thread folds the same rows as a plain one |
| GpuKernels.IptScan | compute_cuda.cuh:442-472 | the register-blocked scan counts what the CPU scan counts |
| GpuKernels.GpuReduceDev | compute_cuda.cuh:483-515 | for any element type with order-free aggregates the device wrapper equals the CPU path with or without a filter |
| GpuKernels.GpuReduceU32 | compute_cuda.cuh:483-499 | the u32 wrapper equals the CPU path for every input, launch shape and schedule, with no hypothesis on the arithmetic |
| GpuKernels.GpuReduceI64 | compute_cuda.cuh:500-518 | so does the i64 wrapper, sums wrapping |
| GpuKernels.GpuGroupReduce | compute_cuda.cuh:217-269 | one atomic per row in any order leaves in each cell what the CPU's pass leaves |
| GpuKernels.GpuGroupU32 | compute_cuda.cuh:546-570 | the grouped u32 wrapper leaves the CPU's cells, filtered or not |
| GpuKernels.GpuGroupI64 | compute_cuda.cuh:628-647 | so does the grouped i64 wrapper |
| TierPlan.PlanReplays | tier_manager.hpp:54-123 | replaying the decisions in order takes the old placement to the new one by adjacent moves, each demotion at least two ticks after the column's last move |
| TierPlan.DeviceStaysWithin | tier_manager.hpp:79-94 | a DEVICE tier within its cap stays within it at every prefix of the decisions |
| TierPlan.HostWithinCpuBuild | compute_mock.cpp:100-112 | on the CPU build HOST stays within its cap at every decision |
| TierPlan.HostWithinUnlessLeaving | tier_manager.hpp:231-247 | for all capacities a plan of guarded steps keeps HOST within its cap at every decision unless, before it, DEVICE is bounded, holds a rested column, and is over its cap or wanted by a decisively better HOST column that fits in its place |
| TierPlan.HostWithinUnrested | tier_manager.hpp:104-113 | in particular when DEVICE is unbounded or holds no rested column |
| TierPlan.DeviceInert | compute_mock.cpp:100-112 | with a one-byte DEVICE cap and nothing on it, no decision names DEVICE |
| TierPlan.ActProgress | tier_manager.hpp:203-252 | every free-space promotion and every swap pair strictly lowers the expected total scan time, also for a candidate an earlier swap demoted |
| TierPlan.PlanProgress | tier_manager.hpp:79-94 | over a plan without capacity evictions the total strictly falls |
| TierManager.Manager.Rebalance | tier_manager.hpp:54-123 | every column worth promoting is settled, best first, then over-full tiers are drained cheapest first; the pass is a plan whose every step passed its guard, and afterwards each bounded tier fits or holds only fresh arrivals |
| TierManager.Manager.TrySwapPromote | tier_manager.hpp:225-252 | the lowest-scored rested resident is displaced if and only if it is worth it and makes room, and then both moves are made and emitted |
| TierManager.Manager.PromoteOne | tier_manager.hpp:79-94 | a candidate goes up if it fits, else by a swap if the guard holds, else stays because the guard failed |
| TierManager.Manager.EvictTier | tier_manager.hpp:99-120 | each eviction takes the lowest-scored rested resident of the over-full tier; the loop ends with the tier fitting or holding only fresh arrivals |
| TierPasses.PassIsPlan | tier_manager.hpp:54-123 | every pass that settles candidates best first and drains over-full tiers cheapest first is a plan in which each step passed its guard, with the decisions it emits |
| TierPasses.LeavesOnlyIf | tier_manager.hpp:79-120 | a pass takes no column out of DEVICE unless, before it, DEVICE is bounded and has a lowest-scored rested column, and is over its cap, or has no room for all candidates and one is worth swapping in for that column |
| TierPasses.HostWithinUnlessMayLeave | tier_manager.hpp:79-120 | HOST stays within its cap at every decision of a pass unless that holds |
| TierPasses.OverfullLeavesIff | tier_manager.hpp:99-120 | with DEVICE over its cap, a pass takes a column out of it if and only if it holds a rested one |
| TierPasses.LeavesIff | tier_manager.hpp:79-120 | with DEVICE within its cap, a pass takes a column out of it if and only if some HOST candidate finds no room after the better ones were packed first fit, is decisively better than the lowest-scored rested resident, and fits in its place |
| TierPasses.FirstMoveLeaves | tier_manager.hpp:79-120 | if the best candidate that can move is to be swapped into DEVICE, or none can move and DEVICE is over its cap with a rested column, every pass takes a column out, and overflows HOST at once if no lowest-scored rested resident fits there |
| TierPasses.HostOverflows | tier_manager.hpp:225-252 | a placement with HOST within its cap from which every pass overflows HOST |
| TierPasses.HostCanOverflow | tier_manager.hpp:225-252 | that pass written out: its trace, its two decisions, and HOST over its cap at the end |
| TierManager.Manager.Age | tier_manager.hpp:56-61 | the new heat is half the sum of the recent bytes and the old heat, and the recent bytes are 0 |
| TierHeat.ScanTimes | cost_model.hpp:42-46 | a scan of b bytes takes b / 3000 microseconds on COLD, b / 10000 on HOST, 30 + b / 240000 on DEVICE |
| TierHeat.ScansExpected | tier_manager.hpp:151-158 | the expected scans are heat over size, rounded half up, between 0 and 8 |
| TierHeat.ColdPromotes | tier_manager.hpp:165-181 | a COLD column is a candidate exactly if its heat is at least two and a half times its size |
| TierHeat.HostPromotes | tier_manager.hpp:165-181 | a HOST column is one exactly if its scans save more than one and a half times the cost of the move, in closed form |
| TierHeat.SwapGuard | tier_manager.hpp:239-243 | a COLD candidate is worth a HOST resident's place exactly if its expected scanned bytes are more than one and a half times the resident's and it then fits |
| TierHeat.BestFirst | tier_manager.hpp:72-78 | candidates are settled by benefit less cost, ties by id |
| TierHeat.IdleIsNoCandidate | tier_manager.hpp:71 | a column without heat that nobody read is no candidate |
| TierHeat.HotIsPromoted | tier_manager.hpp:54-123 | a COLD column of which five times its size was read is on HOST after the pass, and a decision says so, if HOST has room |
| TierHeat.HostSettled | tier_manager.hpp:99-120 | after a pass a bounded HOST is within its cap, or all on it arrived less than two ticks ago |
| TierHeat.HotRun | tier_manager.hpp:28-123 | register a COLD column, scan it eight times, rebalance: it is promoted |
| TierManager.Manager.RecordAccess | tier_manager.hpp:48-51 | only the named column's recent bytes grow; unknown ids are ignored |
| TierManager.Manager.UpdateBytes | tier_manager.hpp:34-37 | only the named column's size changes; heat, tier and residency are kept |
| TierManager.SortCandidates | tier_manager.hpp:72-78 | a permutation in order of net benefit, ties by id |
| TierManager.FindVictim | tier_manager.hpp:104-113 | a rested resident with the lowest keep score, or none if none is rested |
| TieredColumns.TieredColumn.MigrateTo | tiered_column.hpp:43-69 | the column is on the new tier with the same bytes |
| TieredColumns.TieredColumn.AppendBytes | tiered_column.hpp:73-79 | the bytes grow at the end and the size with them |
| TieredColumns.ApplyPlan | migration_executor.hpp:17-31 | every known column ends on its last planned tier with its bytes unchanged; unknown ids are skipped |
| TieredColumns.ReplayTier | migration_executor.hpp:17-31 | executor and planner agree on where a plan leaves every column |
| Query.ExecuteShared | compute_mock.cpp:1078-1136 | whatever the fast path serves, the exclusive path answers OK with the same vector |
| Query.FastPathAgrees | compute_mock.cpp:1078-1136 | SERVED implies equal to the exclusive path, for scalar, filtered, grouped and cross-column queries of every type |
| Query.FaultIffOutgrown | compute_mock.cpp:1812-1845 | a null mask is over-read exactly by a scalar query on a column longer than its mask |
| QueryAnswers.ScalarAnswer | compute_mock.cpp:1590-1669 | for u32 and i64 columns of known numbers a scalar query answers one word: for agg 1 the sum modulo 2^64, for 2 and 3 the least and the greatest, else the count, of exactly the rows that are not NULL and satisfy >, >=, <, <=, =, != or BETWEEN |
| QueryAnswers.CrossAnswer | compute_mock.cpp:1527-1549 | the same over the rows whose value in the filter column satisfies the comparison |
| QueryAnswers.GroupAnswer | compute_mock.cpp:766-794 | the same in every cell of a grouped query, over the rows with that key |
| QueryAnswers.GroupCrossAnswer | compute_mock.cpp:1555-1588 | the same for a grouped query with a filter column |
| QueryAnswers.AnsweredIff | compute_mock.cpp:1590-1669 | a query succeeds exactly if its columns are known, filter and key columns are u32 and as long, and the groups are between 1 and the limit; a refusal carries no values |
| QueryAnswers.ServedFastIff | compute_mock.cpp:1078-1136 | the fast path serves exactly the answerable queries on unmasked columns in RAM, except grouped ones with a filter column |
| NullRows.NullsExcluded | compute_mock.cpp:1812-1845 | a scalar or grouped query on a column with one mask entry per row answers the same whatever its NULL rows hold |
| NullRows.NullsCounted | compute_mock.cpp:1593-1600 | a grouped query on an outgrown column and every cross-column query answer as if there were no mask |
| NullRows.CrossCountIff | compute_mock.cpp:1593-1600 | a cross-column COUNT is the null-aware count if and only if no NULL row passes the filter |
| NullRows.AppendOutgrows | compute_mock.cpp:1818 | growing a masked column makes every scalar query on it over-read the mask |
| NullRows.OutgrownRun | compute_mock.cpp:1818 | a run of the engine, load, mask, append, count, whose last reply is an over-read |
| NullRows.NullCountedRun | compute_mock.cpp:1593-1600 | a run whose cross-column COUNT counts a NULL row |
| Query.TierTransparent | compute_mock.cpp:1590-1669 | an answer depends on the data, types and masks only, not on tiers |
| Query.RunGroups | compute_mock.cpp:996-1005 | the grouped reducers through a temporary buffer, encoded cell by cell |
| Joins.NestedLoopExact | compute_mock.cpp:801-825 | the reference join holds exactly the pairs of rows with equal keys, each once, right rows ascending |
| Joins.HashJoin | compute_mock.cpp:801-825 | the hash join emits what the nested loop emits, in the same order, for any key type |
| Joins.HashJoinCount | compute_mock.cpp:830-851 | the count equals the number of joined pairs, in 64 bits |
| TieredEngine.PlanOutcome | compute_mock.cpp:1882-1890 | a rebalance of a store in lockstep never names DEVICE, and executing it restores the lockstep |
| TieredEngine.Engine.LoadColumn | compute_mock.cpp:159-189 | a new column is born in RAM with exactly the given bytes and type |
| TieredEngine.Engine.AppendRaw | compute_mock.cpp:1794-1801 | the column grows in whatever tier it is, returns there, and the planner knows its size |
| TieredEngine.Engine.SetColumnNulls | compute_mock.cpp:264-268 | one mask is replaced and nothing else |
| TieredEngine.Engine.Borrow | compute_mock.cpp:1557-1565 | every named column is in RAM, its home remembered, its heat charged with exactly its size |
| TieredEngine.Engine.GiveBack | compute_mock.cpp:1585-1586 | every column is back home |
| TieredEngine.Engine.BorrowAndRead | compute_mock.cpp:1555-1588 | reading any columns, repeats included, leaves every column where it was |
| TieredEngine.HeatedCharges | compute_mock.cpp:1557-1565 | every mention of a column in a scan adds its size to its recent bytes, and nothing else of it changes |
| TieredEngine.Engine.MaybeRebalance | compute_mock.cpp:1882-1890 | exactly every `rebalanceEvery` scans the planner runs and settles HOST; bytes may move, none change, lockstep is kept |
| TieredEngine.Engine.ScanScalar | compute_mock.cpp:1847-1878 | the scan gives the scalar aggregate of the stored bytes, with or without a mask |
| TieredEngine.Engine.ScanCross | compute_mock.cpp:1527-1549 | the aggregate over the rows another column selects |
| TieredEngine.Engine.GroupScan | compute_mock.cpp:766-794 | the grouped aggregate of the stored bytes |
| TieredEngine.Engine.GroupCross | compute_mock.cpp:1555-1588 | the grouped aggregate over the rows another column selects, the key included |
| TieredEngine.Engine.ExecuteQuery | compute_mock.cpp:1590-1669 | the answer or error is a function of the data alone, and data, masks and lockstep are kept; which function says `QueryAnswers` |
| TieredEngine.Engine.HashJoin | compute_mock.cpp:801-825 | the join of the stored columns, which stay where they are |
| TieredEngine.Engine.HashJoinCount | compute_mock.cpp:830-851 | the number of joined pairs of the stored columns, in 64 bits |
| TieredEngine.Engine.HashJoinI64 | compute_mock.cpp:856-880 | the join of two stored i64 columns, which stay where they are |
| TieredEngine.Engine.Gather | compute_mock.cpp:886-905 | the values at the given rows in order; the column is borrowed and returned without heat |
| TieredEngine.Engine.DeriveNumGroups | compute_mock.cpp:1506-1521 | the derived group count of the stored key column, borrowed and returned without heat |
| TieredRuns.Indistinguishable | compute_mock.cpp:1590-1669 | no operation tells two catalogs with the same data apart |
| TieredRuns.PerformAll | compute_mock.cpp:100-112 | over any legal run of loads, appends, masks, queries, joins, join counts, gathers and group derivations every reply is that of a catalog that never tiers, and the engine holds the loaded-plus-appended bytes |
| RunAnswers.LoadAppendMaskAsk | compute_mock.cpp:159-189 | load, append, mark NULLs, ask: the reply is the aggregate of the loaded and appended numbers that are not NULL and satisfy the filter |
| RunAnswers.AskScalar | compute_mock.cpp:1590-1669 | the engine, asked about a column of known numbers in any tier, answers their aggregate and keeps its data |
| RunAnswers.JoinAnswer | compute_mock.cpp:801-825 | a join pairs exactly the rows with equal numbers, each pair once |
| RunAnswers.GatherAnswer | compute_mock.cpp:886-905 | a gather returns the numbers at the given rows as 64-bit words |
| Dictionary.Encode | compute_mock.cpp:226-239 | the dictionary is strictly ascending and holds the column's strings, the encoder inverts it, decoding the codes gives the column back |
| Dictionary.CodeIsRank | compute_mock.cpp:226-239 | a code is the number of distinct smaller strings |
| Dictionary.LessIff | compute_mock.cpp:226-239 | strings are ordered by their first differing byte, a prefix coming first |
| Dictionary.LowerBound | compute_mock.cpp:1421 | the first code not below the literal |
| Dictionary.UpperBound | compute_mock.cpp:1422 | the first code above the literal |
| Dictionary.StringEncode | compute_mock.cpp:253-258 | the literal's code, or one that no row holds |
| Dictionary.Translate | compute_mock.cpp:1429-1440 | for every literal, present or absent, the code predicate selects exactly the strings satisfying = != > >= < <= |
| Dictionary.TranslateToken | compute_mock.cpp:1419-1440 | quotes are stripped, and missing or empty literals are refused where the parser refuses them |
| Dictionary.TranslateBetween | compute_mock.cpp:1423-1428 | BETWEEN is exact if and only if the dictionary is empty, some entry is <= hi, or some entry is < lo; otherwise it keeps the smallest string |
| Dictionary.BetweenExact | compute_mock.cpp:1428 | the same on the two search results, both directions |
| Dictionary.RowsExact | compute_mock.cpp:1429-1440 | a translated comparison keeps exactly the rows whose string satisfies it |
| Dictionary.BetweenRows | compute_mock.cpp:1423-1428 | the BETWEEN condition holds of rows as well, since every entry occurs in the column |
| Dictionary.BetweenCanFail | compute_mock.cpp:1428 | a concrete dictionary and range on which BETWEEN keeps a row it should drop |
| BatchBinning.BinByPage | compute.hpp:546-562 | count, prefix sum and scatter leave the pages one after another, with correct CSR offsets |
| BatchBinning.BinnedByPage | compute.hpp:546-562 | the binned order is a reordering of the batch by ascending page |
| BatchBinning.Stable | compute.hpp:546-562 | no two operations land on one place, and operations of a page keep their order |
| BatchBinning.BeforeOp | compute.hpp:546-562 | every operation is found at its place, behind exactly the smaller pages and its page's earlier operations |
| BatchBinning.BinnedMapIff | compute_mock.cpp:1684-1712 | page order leaves the map arrival order leaves if and only if it admits the same new keys, which it does when they fit |
| BatchBinning.SameReads | compute_mock.cpp:1684-1712 | when the new keys fit, every read finds what it finds in arrival order |
| BatchBinning.ReadIff | compute_mock.cpp:1684-1712 | full store or not, a read finds what arrival order gives it if and only if its key was there before, is not written yet, was last written as 0, or is admitted alike by both orders |
| BatchBinning.KeysAre | compute_mock.cpp:2016-2020 | the keys after a run of writes are the old ones and the first new ones there was room for |
| BatchBinning.ExecuteBatch | compute_mock.cpp:1684-1712 | all operations, of more than 65536 the first 65536, are logged and applied in page order with reads, writes and overflows counted and index and durability kept; when old and written keys together fit, every key ends with its last write and every read got the last write in front of it, the old value or 0 |
| BatchBinning.ExecutedFinds | compute_mock.cpp:1684-1712 | executing in order leaves each key with its last write, or what it held |
| BatchBinning.FitsIff | compute_mock.cpp:2016-2020 | the keys fit exactly when the old and the written ones together are no more than the slots |
| BatchBinning.PageIs | compute.hpp:546-562 | the page of a key is its low 16 bits divided by 64 |
| BatchBinning.TallyCounts | compute_mock.cpp:1700-1710 | the counters grow by the number of reads and of writes |
| BatchBinning.OverflowCanDiffer | compute_mock.cpp:1684-1712 | in any store with one free slot, writing keys 64 and 0 as themselves: arrival order keeps 64, page order keeps 0 |
| Snapshot.ManyUndoes | compute_mock.cpp:608-632 | a counted list is read back exactly if every record is within bounds, else refused |
| Snapshot.FileRoundTrip | compute_mock.cpp:534-674 | a written file is read back exactly if every name, dictionary string, dictionary and mask is within the loader's bounds, else refused |
| Formats.FileLayout | compute_mock.cpp:534-597 | the file is 0x4D434132, then columns, dictionaries and masks, each section behind its count |
| Formats.ColumnLayout | compute_mock.cpp:542-560 | a column record is id, type 0, 1 or 2, row count, name length, name, bytes |
| Formats.DictionaryLayout | compute_mock.cpp:565-577 | a dictionary record is id, number of strings, strings |
| Formats.StringLayout | compute_mock.cpp:572-576 | a string is its 32-bit length and its bytes |
| Formats.MaskLayout | compute_mock.cpp:584-592 | a mask record is id, length, one byte a row |
| CatalogSnapshot.WriteSection | compute_mock.cpp:542-560 | a section lists its container once over, in whatever order it is walked |
| CatalogSnapshot.ListRestores | compute_mock.cpp:602-674 | loading any listing restores ids, types, values, names, dictionaries, encoders and masks, and places columns in RAM |
| CatalogSnapshot.EncodersRebuilt | compute_mock.cpp:643-652 | the encoders rebuilt from the dictionaries are the saved engine's |
| CatalogSnapshot.EncoderInverts | compute_mock.cpp:643-652 | the rebuilt encoder inverts a dictionary without repeats |
| CatalogSnapshot.Engine.SaveCatalog | compute_mock.cpp:534-597 | the file is the image of some listing of the containers |
| TieredSnapshot.WriteColumns | compute_mock.cpp:542-560 | the column section lists every column once in some order, and every cold column is back where it was |
| TieredSnapshot.LoadRecords | compute_mock.cpp:602-632 | registering column records with an engine that has no columns leaves store and planner in lockstep and exactly those columns, in RAM |
| TieredSnapshot.CopyColumns | compute_mock.cpp:534-632 | columns saved from a live engine and loaded into a new one: succeeds exactly if no name is too long, same ids, types and bytes, lockstep, the old engine as it was |
| TieredSnapshot.CopyMasks | compute_mock.cpp:579-674 | null masks saved and loaded likewise, exactly if no mask is too long |
| TieredSnapshot.CopyCatalog | compute_mock.cpp:679-690 | columns and masks together: succeeds exactly within the bounds, and then no query is answered differently |
| CatalogSnapshot.Engine.LoadCatalog | compute_mock.cpp:602-674 | accepted files add exactly what they hold; missing trailing sections are tolerated; a refused file is reported and leaves what was read in front of its first bad record |
| CatalogSnapshot.BackupAndRestore | compute_mock.cpp:679-690 | saving and loading into a fresh engine succeeds exactly for names of at most 4096 bytes, strings of at most 1048576 bytes, and dictionaries and masks of at most 2^32 entries, and then restores the catalog, encoders included |
| Tokenizer.Tokenize | compute_mock.cpp:65-84 | the scanning loop yields the tokens of the recursive definition |
| Tokenizer.EmitsTokens | compute_mock.cpp:65-84 | every emitted token is a parenthesis, an operator or a run of plain characters |
| Tokenizer.FirstToken | compute_mock.cpp:65-84 | blanks are skipped; a parenthesis stands alone; one of > < = ! takes an equals sign behind it along; anything else is a word up to the next of these |
| Tokenizer.TokensKeepText | compute_mock.cpp:65-84 | the tokens put together are the text without its blanks |
| Tokenizer.Retokenize | compute_mock.cpp:1222-1235 | any list of tokens survives being joined with spaces and tokenized again |
| Tokenizer.RewriteSafe | compute_mock.cpp:1227-1239 | so do a query, a prefix of it, and a query with one keyword replaced |
| Tokenizer.Join | compute_mock.cpp:1235 | the joining loop puts one space between tokens |
| WireCodec.RequestRoundTrip | server.hpp:117-163 | every request is decoded to itself |
| WireCodec.AcceptedIff | server.hpp:139-163 | exactly the 106-byte records with a known kind and comparison are accepted |
| Formats.RequestHead | server.hpp:117-123 | kinds are 1 to 5 at byte 0, key and value at 4 and 12 of 106 bytes |
| Formats.RequestFilter | server.hpp:122-128 | value column, aggregate, filter flag, threshold, comparison 0 to 6 and upper bound at bytes 20 to 44 |
| Formats.RequestRest | server.hpp:129-138 | wide bounds, grouping and filter column at bytes 45 to 105 |
| Formats.ResponseLayout | server.hpp:164-171 | status, count and results of a response at bytes 0, 4 and 12 |
| WireCodec.ReencodeIff | server.hpp:117-163 | an accepted record re-encodes to itself if and only if its flag bytes are 0 or 1 |
| WireCodec.Deserialize | server.hpp:139-163 | the cursor-driven parser agrees with the field layout on every byte string |
| WireCodec.DeserializeResponse | server.hpp:172-182 | accepts exactly the images of responses with an admissible count, and returns one |
| WireCodec.ResponseInjective | server.hpp:164-182 | different responses have different images, so decoding returns what was sent |
| ServerCore.PutOne | server.hpp:220-224 | a PUT is one bounded put, logged as one group, durable and mirrored in the index |
| ServerCore.Serve | server.hpp:187-258 | reply and effect are those of the logical reference; a request that is neither a write nor a query touches no engine object, a query no point-op object, a write no column; the call is one whole-serve step of the concurrent model |
| ServedRequests.PutThenGet | server.hpp:214-224 | from request bytes: a GET after an accepted PUT returns its value for its key, and for every other key what was there |
| ServedRequests.PutServed | server.hpp:220-224 | a PUT record stores its value under its key unless the key is new and every slot is taken |
| ServedRequests.GetServed | server.hpp:215-219 | a GET record returns the stored value or nothing and changes nothing |
| ServedRequests.QueryServed | server.hpp:225-231 | a QUERY record is answered with what the encoded query gives, statuses 0 to 4 |
| ServedRequests.Forbidden | server.hpp:201-213 | who may not read, write or ask those columns is answered 1001, and nothing happens |
| ServedRequests.BadRequest | server.hpp:193-197 | bytes that are no request are answered 1000, and nothing happens |
| ServedRequests.MonitorServed | server.hpp:206-207 | HEALTH and STATS are answered for everyone and change nothing |
| ServedRequests.ServePutGet | server.hpp:187-258 | the same put and get served on the engine's objects |
| ConcurrentServer.StepKeeps | concurrent_server.hpp:31-58 | every step of every thread keeps the invariant |
| ConcurrentServer.LocksAreFree | concurrent_server.hpp:31-58 | readers share: only a writer keeps a reader out, only somebody inside keeps a writer out |
| ConcurrentServer.Linearizable | concurrent_server.hpp:31-58 | every returned call is in one sequential history, once, with its reply, between call and return |
| ConcurrentServer.SequentialReply | concurrent_server.hpp:34-50 | the reply fixed at a linearization point is the one the logical state gives at that instant |
| ConcurrentServer.FastReply | concurrent_server.hpp:37-48 | a fast-path reply assembled from separate column reads equals the exclusive path's |
| ConcurrentServer.SharedLockInert | concurrent_server.hpp:37-57 | a step outside the exclusive lock changes no non-atomic engine field |
| ConcurrentServer.WritersAlone | concurrent_server.hpp:37-57 | whoever changes a non-atomic field holds the lock while no other thread holds it |
| ConcurrentServer.KeepsLocking | concurrent_server.hpp:37-57 | the lock fields always name the holders, and a writer is alone |
| ConcurrentServer.ColumnsFixed | server.hpp:187-258 | no served request changes the logical columns |
| ConcurrentServer.HolderCanStep | concurrent_server.hpp:31-58 | a lock holder always has a next step |
| ConcurrentServer.NoDeadlock | concurrent_server.hpp:31-58 | while a call is in progress some thread can move on, escalation included |

## Left out

- Sockets, accept loops, timeouts, the client, the CLI and REPL, authentication tokens, logging, latency histograms and benchmarks: plumbing without a hard property.
- Real files: a file is a byte sequence, synced bytes persist, rename and truncate are atomic and durable (the source notes the missing directory fsync). Open failures, short writes and the aborts they cause are not modelled.
- Double-precision arithmetic: doubles are any type with a bit image and arithmetic, so what is stated for every element type holds for them, and order-independence, which they lack, is not claimed. The CUDA kernels for doubles are left out for that reason.
- HEALTH and STATS numbers: the server model answers them with a placeholder; that they are read under the shared lock is modelled.
- The CUDA build's DEVICE tier inside the engine: kernels and their wrappers are modelled on values, the engine in its CPU build. The u32x4 and unfiltered threshold scan kernels repeat the modelled shape.
- The GPU point-op page kernel, which aliases keys by documented design.
- CSV and column file readers, plain string columns, tables, projection beyond gather, AVG, COUNT DISTINCT, HAVING, top-N and LIMIT: they add members on top of the modelled reducers and parser pieces, not harder claims. Of the query parser only tokenizing, WHERE translation for strings and derived group counts are modelled.
- Integer widths: sizes, ticks and byte counters of the planner, and the ring's cursors outside the two wrap lemmas, are unbounded naturals; u64 and i64 aggregates, checksums, codes and wire fields keep their width and wrap-around. Heat and cost are exact reals.
- The sentinels 1e300 and 1e301 of the victim search are replaced by "no victim yet"; the memory model is the discrete one, the only one the source detects.
- Release-build behaviour: where the source asserts on its callers, the model has a precondition (column ids, transaction brackets, mask lengths, join types), except for a full store and for loading a snapshot, which follow the code with assertions off.
- RingBuffer.SpscRing.TryEmplace: the slot index is a remainder, which the mask equals for the power-of-two capacities the source demands.
- TierManager.SortCandidates: `std::sort` is represented by insertion; any sorted permutation satisfies the contract, and so for Dictionary.Encode.
- ColdStore.WriteAheadLog.AppendFrame: write and flush are one step here; partial writes are the cuts of `WalCrash.CrashAtAnyByte`.
- CatalogSnapshot.Engine.LoadCatalog: an allocation failure on an absurd count is not modelled.
- CatalogSnapshot.Engine.SaveCatalog: works on the containers as values; borrowing cold columns while saving is `TieredSnapshot.WriteColumns`.
- CatalogSnapshot.ListRestores: names must be distinct; with repeated names the last one loaded resolves, which depends on the walk order. A column named with the empty string comes back unnamed, which reads the same.
- ConcurrentServer.Linearizable: one engine, no crash during service; a PUT's log append is a step, its bytes are the subject of `Durability`.
- TierPasses.LeavesIff: where a COLD candidate may displace a rested HOST candidate of the same pass, or rested residents tie for the lowest score with different sizes, only the necessary `TierPasses.LeavesOnlyIf` and the sufficient `TierPasses.FirstMoveLeaves` are stated.
- TierPasses.FirstMoveLeaves: that HOST overflows is stated for the first move of a pass; later moves first change how full HOST is.
- BatchBinning.ExecuteBatch: a write carries any value; the source's batch path writes every key as its own value, which is one case of it.
- ServerCore.Serve: HEALTH and STATS answers are a placeholder, and the query counters are a parameter of the statement, since latency statistics are not modelled.
- TieredSnapshot.CopyCatalog: dictionaries and names are restored on the containers by `CatalogSnapshot.BackupAndRestore`; a refused image is reported without saying what it left behind.
