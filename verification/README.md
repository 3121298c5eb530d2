# Out-of-order superscalar scheduler, modelled in Dafny

The simulator reads a trace of instructions. Each record holds a program counter, an operation class, one destination register and two source registers. It runs them through a nine-stage pipeline:
- Fetch (FE), Decode (DE), Rename (RN), Register Read (RR) and Dispatch (DI) are in order;
- Issue (IS), Execute (EX) and Writeback (WB) are out of order;
- Retire (RT) is in order again.

The machinery around the stages is:
- bundle latches of `width` entries (`InstructionsTable`);
- a rename map table over 67 architectural registers;
- a reorder buffer that hands out tags from a circular counter;
- an issue queue of valid/invalid slots that issues the oldest ready instructions first;
- an execute list with per-class latencies of 1, 2 and 5 cycles;
- a driver loop that calls the stages from back to front once per cycle, until the continuation test says stop.

At the end, the driver sorts the retired instructions by sequence number and reports each one's per-stage begin cycle and duration.

The model is functional:
- Every buffer is an immutable datatype.
- Every stage is a pure function from one pipeline `State` to the next.
- The driver loop is a fuel-bounded recursion.

Modules follow the source files:

| module | file | models |
|---|---|---|
| `Instructions` | instruction.dfy | `instruction.h` |
| `StageBuffers` | instructions_table.dfy | `instructions_table.h` |
| `ReorderBuffers` | reorder_buffer.dfy | `reorder_buffer.h` |
| `IssueQueues` | issue_queue.dfy | `issue_queue.h` |
| `RenameMapTables` | rename_map_table.dfy | `rename_map_table.h` |
| `FrontEnd` | front_end.dfy | Fetch, Decode, Rename and ReadRegister of `out_of_order_scheduler.h` |
| `BackEnd` | back_end.dfy | Dispatch, Issue and Execute of `out_of_order_scheduler.h` |
| `Commit` | commit.dfy | Writeback and Retire of `out_of_order_scheduler.h` |
| `Pipeline` | pipeline_state.dfy | the scheduler's state, its constructor, the pipeline invariant and the continuation test |
| `Simulator` | sim.dfy | the driver loop and the final sort of `sim.cc` |
| `Loops` | loops.dfy | the shape of the driver's do-while loop, for any state type |
| `Ordering` | sorting.dfy | the sort by sequence number |
| `Wrappers` | wrappers.dfy | `Option` |

The central invariant is `Pipeline.InOrder`. It says that the retired list, the reorder buffer, RN and DE together hold every fetched instruction exactly once, in program order. Every stage preserves it (`Simulator.Step`).

Two results are proved from it:
- A run that stops under the corrected continuation test has retired the whole trace in order. Sorting the report then changes nothing.
- The continuation test as written can stop while instructions still wait in DE and RN. A trace of 1 to 2 x `width` - 1 records is then reported as empty (see Findings).

The second drafts under `src/` differ from the first only in names. Both map onto the same members:
- `start`/`finish` are the two cycle fields;
- `IsReady` and `RobValue` are the operand's ready flag and the instruction's tag;
- `GetFreeEntries` is `StageBuffers.FreeEntries`;
- the two-argument `AddElement` is `RenameMapTables.MapRegister`;
- `RemoveElementAtIndex` of the map table is `RenameMapTables.RemoveElement`.

The driver's latency table is `BackEnd.LATENCIES`: 1 cycle for class 0, 2 for class 1 and 5 for class 2. It is passed by value, and reading a missing class inserts 0 into the copy. So an instruction of any other class gets a timer of 0, which never reads 1, and it never leaves the execute list. The model keeps that behaviour and does not restrict the classes.

## Model

| member | source | states |
|---|---|---|
| `Instructions.AsUnsigned` | reorder_buffer.h:28 | An `int` converted to `unsigned long`: the result is below 2^64, congruent to the input modulo 2^64, and equal to it when the input is non-negative. So -1 becomes the largest value. |
| `Instructions.NewInstruction` | instruction.h:53-94 | The constructor keeps the given operands, class and sequence number. It opens FE at the initial cycle and sets every other cycle field of all nine stages to -1. |
| `Instructions.SetBegin` | instruction.h:108-111 | Sets the begin field of one stage. Every other stage's fields, that stage's other field, and every non-cycle field are unchanged. |
| `Instructions.SetEnd` | instruction.h:113-116 | Sets the second field of one stage. Every other stage's fields, that stage's begin field, and every non-cycle field are unchanged. |
| `Instructions.SetOverrides` | src/instruction.h:101-112 | A second write to the same field overrides the first. Writes to different stages commute. |
| `Instructions.MoveStage` | out_of_order_scheduler.h:121-122 | A stage move during cycle `c` records the time spent in the old stage as `c + 1 - begin` and opens the new stage at `c + 1`. The new stage therefore begins exactly at the old stage's begin plus its duration. Nothing else changes. |
| `Instructions.TryGetDestinationRobValue` | instruction.h:98-106 | Yields a value exactly when the destination holds a reorder-buffer tag, and the value is that tag. |
| `StageBuffers.NewTable` | instructions_table.h:14-17 | A new buffer is empty and has the given capacity. |
| `StageBuffers.Push` | instructions_table.h:19-26 | A full buffer is left as it is. Otherwise the element is appended at the back. The capacity bound is preserved. |
| `StageBuffers.Pop` | instructions_table.h:28-36 | Removes the head. The head followed by the rest is the old contents. |
| `StageBuffers.FreeEntries` | instructions_table.h:53-56 | The unsigned difference: it is below 2^64, and on a buffer within its capacity, free plus occupied equals the capacity. |
| `StageBuffers.SizeQueries` | src/instructions_table.h:46-67 | Within capacity, the size queries (`GetFreeEntries` in this draft) agree: full exactly when no entry is free, empty exactly when the size is 0, and free plus size equals the capacity. |
| `StageBuffers.PushPopCommute` | src/instructions_table.h:23-43 | FIFO behaviour: on a non-empty buffer with room, a push does not change the head, and push-then-pop equals pop-then-push. |
| `StageBuffers.WakeAll` | instructions_table.h:58-81 | Each entry, in place and in order, has the ready flag of each source set when that source holds the broadcast tag. Nothing else changes. |
| `StageBuffers.Wakeup` | instructions_table.h:58-81 | The wakeup of a buffer keeps its length, order, capacity and sequence numbers, and wakes each entry. |
| `StageBuffers.WakeAllIdempotent` | src/instructions_table.h:71-94 | Wakeup never clears a ready flag, and broadcasting the same tag twice is the same as broadcasting it once. |
| `StageBuffers.WakeAllCommute` | out_of_order_scheduler.h:331-351 | The order in which finishing instructions broadcast their tags does not matter. |
| `StageBuffers.PushAll` | instructions_table.h:19-26 | Pushing a list one element at a time appends the prefix that fits, in order, and drops the rest. |
| `StageBuffers.Transfer` | out_of_order_scheduler.h:118-126 | The "move while the source is non-empty and the destination not full" loop moves `min(source length, free room)` elements from the source's head. Each is transformed and appended to the destination in order, and the source keeps the remainder. |
| `StageBuffers.TransferKeepsOrder` | out_of_order_scheduler.h:118-126 | A transfer only moves the boundary between destination and source: the sequence numbers of the destination followed by the source are unchanged. |
| `ReorderBuffers.NewRob` | reorder_buffer.h:15-22 | A new buffer is empty, has the given capacity, and has its counter at -1. |
| `ReorderBuffers.Allocate` | reorder_buffer.h:26-36 | The tag is `(tail + 1) mod (queueSize + 1)`, because the reset test compares in `unsigned long`. The entry is appended with that tag, with no capacity check, and becomes the new tail. |
| `ReorderBuffers.AllocateAll` | out_of_order_scheduler.h:163-167 | Allocating a bundle appends its instructions in order, each with its own tag. The counter ends at the last tag. |
| `ReorderBuffers.AllocationTags` | reorder_buffer.h:26-36 | Successive allocations hand out a circular counter modulo `queueSize + 1`. The sequence has period `queueSize + 1`, any `queueSize + 1` consecutive tags are pairwise distinct, and from a fresh buffer the j-th tag is j. |
| `ReorderBuffers.IsRobEntryReady` | reorder_buffer.h:40-53 | True exactly when some live entry carries the tag and has a ready destination. |
| `ReorderBuffers.HasRobEntry` | reorder_buffer.h:76-88 | True exactly when some live entry carries the tag. It is implied by `IsRobEntryReady`. |
| `ReorderBuffers.UpdateReadiness` | reorder_buffer.h:58-72 | Keeps length, order and the counter. Entries carrying the tag get a ready destination and the given cycle records. Every other entry is unchanged. |
| `ReorderBuffers.UpdateReadinessQueries` | reorder_buffer.h:58-72 | After the update, the tag is ready exactly when it is live. Every tag's liveness, and every other tag's readiness, are unchanged. |
| `ReorderBuffers.AllocateWindow` | reorder_buffer.h:26-36 | Allocating into a buffer with a free entry keeps its live tags one contiguous window of the counter. |
| `ReorderBuffers.PopHeadWindow` | out_of_order_scheduler.h:410 | Retiring the head keeps the live tags a window. |
| `ReorderBuffers.UpdateReadinessWindow` | reorder_buffer.h:58-72 | Writeback keeps the live tags a window. |
| `ReorderBuffers.WindowTagsDistinct` | reorder_buffer.h:26-36 | While the live tags form a window, no two live entries share a tag. |
| `IssueQueues.NewIssueQueue` | issue_queue.h:20-31 | The constructor makes `size` default slots: not valid, class -1, latency -1, and no operand existing or ready. All of them are free and the queue is empty. |
| `IssueQueues.FreeEntries` | issue_queue.h:34-45 | The free count is the number of invalid slots, at most the slot count. |
| `IssueQueues.FreeCountAll` | issue_queue.h:34-45 | The count equals the size of the set of invalid slot indices. It is the slot count exactly when every slot is invalid, and 0 exactly when every slot is valid. |
| `IssueQueues.CountFreePermutation` | out_of_order_scheduler.h:282-285 | Reordering the slots, as the issue stage's sort does, keeps the free count. |
| `IssueQueues.IsEmpty` | issue_queue.h:67-70 | Empty exactly when no slot holds a valid instruction. |
| `IssueQueues.RemoveElementAtIndex` | issue_queue.h:74-77 | Clears the valid bit of that slot only, leaving its data in place. On a valid slot the free count rises by one. |
| `IssueQueues.Wakeup` | issue_queue.h:49-64 | Wakes every slot, valid or not, in place. Validity and the free count are unchanged. |
| `IssueQueues.WakeupIdempotent` | issue_queue.h:49-64 | Wakeup never clears readiness, and repeating it changes nothing. |
| `RenameMapTables.NewRmt` | rename_map_table.h:21-28 | 67 entries, all invalid, so the table is empty and well formed. |
| `RenameMapTables.AddElement` | rename_map_table.h:30-35 | Overwrites entry `reg` with the register, tag and validity given. Every other entry is unchanged and the table stays well formed. |
| `RenameMapTables.MapRegister` | src/rename_map_table.h:28-33 | The second draft's two-argument form is `AddElement` with the valid bit true. |
| `RenameMapTables.AddSupersedes` | rename_map_table.h:30-35 | A later mapping of the same register replaces an earlier one. |
| `RenameMapTables.RemoveElement` | rename_map_table.h:37-40 | Clears the valid bit of entry `reg` only. |
| `RenameMapTables.AnyValid` | rename_map_table.h:42-52 | The scan finds a valid entry exactly when one exists. |
| `RenameMapTables.FindRegister` | rename_map_table.h:60-68 | The scan returns an index whose entry is valid and names the register, or reports that no such entry exists. |
| `RenameMapTables.TryGetElement` | rename_map_table.h:54-69 | On a well-formed table it succeeds exactly when entry `reg` is in range and valid, and then yields that entry. An out-of-range register is never found. |
| `RenameMapTables.TryGetAfterUpdate` | rename_map_table.h:30-69 | A mapping just added is found and a register just removed is not. Lookups of every other register are unaffected. |
| `Ordering.SortBySeq` | sim.cc:88-90 | A permutation of its input, ascending in sequence number. |
| `Ordering.SortSortedIsIdentity` | sim.cc:88-90 | Sorting an already sorted list returns it unchanged. |
| `Pipeline.Init` | out_of_order_scheduler.h:35-53 | Creates four empty latches of `width` entries, an execute list and writeback buffer of `5 x width`, an empty issue queue, reorder buffer and map, an empty report, and a cycle counter of 0. |
| `Pipeline.InitWf` | out_of_order_scheduler.h:35-53 | For a positive width and mappable destinations, the initial state satisfies the pipeline invariant. |
| `Pipeline.AdvanceToNextCycle` | out_of_order_scheduler.h:415-422 | The test as written stops whenever the corrected test stops. It stops while the corrected one goes on exactly when the trace is exhausted and the buffer empty, but DE or RN still holds instructions. |
| `Pipeline.DrainedStopsWhenAllRetired` | out_of_order_scheduler.h:415-422 | In every reachable state, the corrected test stops exactly when the trace is exhausted and every one of its instructions has retired. |
| `Pipeline.DrainedRunRetiredAll` | out_of_order_scheduler.h:415-422 | When the corrected continuation test says stop, the retired list holds sequence numbers 0 to n-1 once each, in order. |
| `Pipeline.StoppedRunLeavesFrontEnd` | out_of_order_scheduler.h:415-422 | When the test as written says stop, the instructions not retired are exactly those still in RN and DE. |
| `FrontEnd.FetchRecord` | out_of_order_scheduler.h:80-93 | A fetched instruction carries the record's fields and operands and the running count as its sequence number. FE lasts one cycle, and DE opens where FE ends. |
| `FrontEnd.FetchRecordSteps` | out_of_order_scheduler.h:83-93 | That record is what the constructor and the three cycle writes of the fetch loop produce. |
| `FrontEnd.FetchLoop` | out_of_order_scheduler.h:76-103 | The read loop consumes `min(remaining, width - read)` records, or all of them when the width is 0. It pushes their instructions in order and numbers them from the running count. End of file is seen exactly when the trace ran out before the width did. |
| `FrontEnd.Fetch` | out_of_order_scheduler.h:67-104 | Does nothing while DE is occupied. Otherwise it moves the next bundle of records into DE, advances the count, and sets the sticky end-of-file flag when fewer than `width` records remained. |
| `FrontEnd.RecordsSeqNums` | out_of_order_scheduler.h:88-98 | Fetched instructions are numbered consecutively from the running count. |
| `FrontEnd.FetchBundle` | out_of_order_scheduler.h:67-104 | On an empty DE, DE receives exactly the next `min(width, remaining)` records, numbered consecutively. The trace is split between what was fetched and what remains. |
| `FrontEnd.Decode` | out_of_order_scheduler.h:112-127 | Does nothing when DE is empty or RN is full. Otherwise as many instructions as RN has room for move from DE's head to RN's tail, in order. |
| `FrontEnd.DecodeKeepsOrder` | out_of_order_scheduler.h:112-127 | RN followed by DE keeps its sequence numbers, and RN stays within capacity. |
| `FrontEnd.DecodeMoves` | out_of_order_scheduler.h:118-126 | Each moved instruction is unchanged except that DE closes and RN opens at the next cycle. |
| `FrontEnd.ResolveSource` | out_of_order_scheduler.h:430-445 | An existing source with a valid mapping becomes that mapping's tag, not ready. Any other source is kept. |
| `FrontEnd.RenameOne` | out_of_order_scheduler.h:165-183 | Renaming one instruction: allocate its entry, resolve its sources against the current map, map its destination register (if any) to the tag, make its destination the tag, and move it from RN to RR. |
| `FrontEnd.Rename` | out_of_order_scheduler.h:151-189 | Does nothing when RN is empty, RR is occupied, or the buffer has fewer free entries than RN holds. Only the map, the buffer, RN and RR change. |
| `FrontEnd.RenameLoop` | out_of_order_scheduler.h:162-185 | When the bundle fits in the buffer and in RR, as the stage's gate guarantees: RN empties, and the buffer gains the bundle in order with consecutive circular tags. Each register then maps to the tag of the youngest bundle instruction that writes it, and registers the bundle does not write keep their entry. The k-th new RR instruction is the k-th RN instruction renamed with the k-th tag. Its sources are resolved against the map as it stood just before it, so a source written earlier in the bundle names its youngest earlier writer. |
| `FrontEnd.IsRegisterReady` | out_of_order_scheduler.h:447-465 | An operand is not ready exactly when it exists, is not flagged ready, and either names a live producer tag that is not ready or is an untagged -1. |
| `FrontEnd.ReadRegister` | out_of_order_scheduler.h:211-232 | Does nothing when RR is empty or DI is full. Otherwise as many instructions as DI has room for move, in order. |
| `FrontEnd.ReadRegisterReadiness` | out_of_order_scheduler.h:220-231 | Each moved instruction differs only in its cycle records and its two source ready flags. Each flag now equals `IsRegisterReady` of that operand. |
| `BackEnd.Place` | out_of_order_scheduler.h:252-257 | A dispatched instruction becomes a valid slot with DI closed and IS opened at the next cycle. Nothing else changes. |
| `BackEnd.Fill` | out_of_order_scheduler.h:248-260 | In the dispatch scan, the free slot with `j` free slots before it receives the j-th bundle instruction. Valid slots, and free slots beyond the bundle, are untouched. The free count falls by the number placed. |
| `BackEnd.Dispatch` | out_of_order_scheduler.h:242-261 | Does nothing when DI is empty or the queue has fewer free slots than DI holds. Otherwise the whole bundle is placed slot by slot as in `Fill`, DI empties, and the free count falls by the bundle size. |
| `BackEnd.ExecCopy` | out_of_order_scheduler.h:307-312 | The issued copy has IS closed, EX opened, and its timer set from the latency table. A class the table lacks reads as 0. |
| `BackEnd.Select` | out_of_order_scheduler.h:291-315 | Exactly the first `budget` issuable slots in slot order are invalidated. Their issued copies come out in that order, and every other slot is unchanged. |
| `BackEnd.SelectNone` | out_of_order_scheduler.h:287-290 | With no valid slot the scan changes nothing and issues nothing, so the early return agrees with the loop. |
| `BackEnd.SelectOldestFirst` | out_of_order_scheduler.h:282-315 | Over sorted slots, every issued instruction is at least as old as every issuable one left behind. |
| `BackEnd.SelectFullBudget` | out_of_order_scheduler.h:292-315 | An issuable instruction is left behind only when the whole budget was issued. |
| `BackEnd.SelectSorted` | out_of_order_scheduler.h:292-315 | Over sorted slots, the scan issues in ascending sequence-number order. |
| `BackEnd.Issue` | out_of_order_scheduler.h:280-316 | The slots are sorted by sequence number. Then at most `width` issuable instructions go to the execute list, in ascending sequence-number order. Each is at least as old as every issuable instruction left behind, and one is left behind only when `width` issued. Only the issue queue and the execute list change. |
| `BackEnd.ExecuteLoop` | out_of_order_scheduler.h:331-351 | WB receives the entries whose timer reads 1, in order. The replacement list receives the others in order, each with its timer decremented. Every waiting operand in RR, DI and the issue queue that names a finishing tag becomes ready. |
| `BackEnd.Pending` | out_of_order_scheduler.h:331-351 | Every execute-list entry whose timer does not read 1 stays on the list, with its timer one lower. |
| `BackEnd.PendingCount` | out_of_order_scheduler.h:331-351 | Every execute-list entry either finishes this cycle or stays pending. |
| `BackEnd.PendingMembers` | out_of_order_scheduler.h:331-351 | Every pending entry is an entry of the old list whose timer did not read 1, with its timer one lower. |
| `BackEnd.PendingAppend` | out_of_order_scheduler.h:331-351 | The pending part of a concatenation is the concatenation of the pending parts, so the list keeps its order. |
| `BackEnd.Execute` | out_of_order_scheduler.h:328-353 | The finishing entries reach WB in order when WB has room. The others stay, in order and with one cycle less, on a fresh list of capacity 5 x `width`. Every operand in RR, DI and the issue queue that names a finishing tag becomes ready. Nothing else changes. |
| `Simulator.ExecuteKeepsPending` | out_of_order_scheduler.h:328-353 | In every state a run reaches, Execute keeps every entry that does not finish on the execute list, in order, with its timer one lower. |
| `Commit.WritebackAll` | out_of_order_scheduler.h:365-381 | An entry named by some writeback becomes ready and takes the cycle records of the last writeback naming it. Every other entry, and the live tag window, are unchanged. |
| `Commit.WritebackReadiness` | out_of_order_scheduler.h:371-380 | After writeback, a written tag is ready exactly when it is live. Liveness of every tag, and readiness of tags not written, are unchanged. |
| `Commit.Writeback` | out_of_order_scheduler.h:365-382 | An empty list changes nothing. Otherwise the list empties. An entry the list names becomes ready with the cycle records of the last entry naming it, and every other entry is unchanged. Liveness of every tag is kept, a named tag is ready exactly when it is live, and an unnamed tag keeps its readiness. Nothing but the buffer and the list changes. |
| `Commit.RetireCopy` | out_of_order_scheduler.h:399-402 | The reported record has RT closed with the time spent in RT. Every other stage's record is unchanged. |
| `Commit.ReadyRun` | out_of_order_scheduler.h:395-397 | The number retired is the longest run of ready entries at the head, cut at the budget. |
| `Commit.Unmap` | out_of_order_scheduler.h:404-409 | A retiree's destination mapping is invalidated only while it still names the retiree's tag. |
| `Commit.RetireLoop` | out_of_order_scheduler.h:386-413 | At most `width` entries retire: the ready run at the head leaves the buffer and is appended, in order and closed, to the report. The mappings it still owns are released, and the tag window is kept. The early return is the case of an empty run. |
| `Commit.Retire` | out_of_order_scheduler.h:386-413 | The ready run at the head of the buffer, at most `width` long, leaves it. It is appended, closed and in order, to the retired list. Each retiree's mapping is released while it still names the retiree's tag. The live tags stay a window, and nothing else changes. |
| `Commit.RetireKeepsOrder` | out_of_order_scheduler.h:399-410 | Retirement loses, duplicates and reorders nothing: the report followed by the buffer keeps its sequence numbers. |
| `Commit.RetireKeepsLiveMapping` | out_of_order_scheduler.h:404-409 | A mapping whose producer stays in flight survives retirement, because tags in flight are distinct. |
| `Commit.RetireReleasesMapping` | out_of_order_scheduler.h:404-409 | A mapping whose producer retires is released. |
| `Simulator.Step` | sim.cc:74-85 | One cycle of the nine stages, back to front, then the cycle counter. It keeps the pipeline invariant and neither gains nor loses a record. |
| `Simulator.AdvanceAll` | sim.cc:76-83 | The stages before Fetch keep the invariant and fetch nothing. |
| `Simulator.Run` | sim.cc:74-86 | The do-while loop keeps the invariant and conserves the trace. It runs at least one cycle and at most `fuel + 1`. A run that ends while the continuation test still says go on has run all `fuel + 1` cycles. |
| `Simulator.RunIsDoWhile` | sim.cc:74-86 | `Run` is the generic do-while loop whose body is one cycle and whose condition is the continuation test. |
| `Simulator.RunExtend` | sim.cc:74-86 | With no spare fuel the run is one cycle. One more unit of fuel adds one more cycle exactly when the test said go on where the shorter run ended, and changes nothing when it said stop. |
| `Simulator.RunStopsAtFirst` | sim.cc:74-86 | The run ends `n` cycles after its start, in the state those `n` cycles reach. The test said go on after each earlier cycle, and it says stop after the last one unless the fuel ran out first. |
| `Loops.DoWhileExtend` | sim.cc:74-86 | For any step and test, the do-while loop runs the step once and then repeats it only while the test says go on. |
| `Loops.DoWhileStopsAtFirst` | sim.cc:74-86 | For any step and test, the loop ends after the first step after which the test says stop, or once the fuel is spent. |
| `Simulator.FinalState` | sim.cc:62-86 | The state a run from the initial state ends in satisfies the invariant for the whole trace. |
| `Simulator.Simulate` | sim.cc:74-90 | The report is sorted by sequence number and is a permutation of the retired list. |
| `Simulator.SimulateRetiresAll` | sim.cc:74-90 | With the corrected test, a run that stops reports every instruction of the trace once, numbered 0 to n-1 in order. Sorting it changes nothing. |
| `Simulator.AsWrittenStopLeavesFrontEnd` | out_of_order_scheduler.h:415-422 | With the test as written, a stopped run accounts for the whole trace only once the instructions still in DE and RN are counted. |
| `Simulator.ShortTraceFirstCycle` | out_of_order_scheduler.h:67-104 | On a trace shorter than the width, the first cycle fetches all of it into DE and sees end of file, while the reorder buffer and the report are empty. |
| `Simulator.AsWrittenDropsShortTrace` | out_of_order_scheduler.h:415-422 | A trace of 1 to width-1 records stops after one cycle under the test as written, though the corrected test would continue, and the report is empty. |
| `Simulator.QuietCycle` | sim.cc:74-85 | A cycle that starts with nothing retired and nothing in the buffer or RN leaves both empty, because Rename finds RN empty. RN then holds what DE held, DE holds the next bundle, and end of file is seen exactly when fewer than `width` records remained. |
| `Simulator.AsWrittenDropsTwoBundles` | out_of_order_scheduler.h:415-422 | A trace of `width` to 2 x `width` - 1 records stops after two cycles under the test as written, with an empty report, though the corrected test would continue. The second fetch sees end of file while the first bundle still sits in RN. |

## Left out

- File input: the trace file and `feof` become a sequence of records plus an end-of-file flag. The flag is set when a read finds no record, and it stays set.
- End of file is taken to appear only when a read finds no further record, as it does for a trace ending in a newline. Without the final newline, `fscanf` can set the indicator while reading the last record.
- Argument parsing, opening the trace file, and the `printf` report of `sim.cc` are not modelled. The report is the sorted retired list.
- Heap allocation and raw arrays (`new Instruction[...]`, `new RenameMapElement[...]`) become sequences.
- `Ordering.SortBySeq`: an insertion sort stands in for `std::sort`, which is not stable. The two agree here: within one queue, equal sequence numbers occur only in identical default slots.
- `Simulator.Run`: a `fuel` bound limits the number of cycles. A run that uses up its fuel stops where it is, and `Simulator.RunStopsAtFirst` says when that happens. The results about a stopped run require the continuation test to say stop.
- `Simulator.Simulate`: the run-level results require a width of at least 1 and destinations in 0..66 or -1 (`Admissible`). The source does not check either. With width 0 the fetch loop reads the whole trace into a zero-capacity latch, and an out-of-range destination indexes past the map table.
- `Simulator.Simulate`: the reorder buffer size must be below 2^31 - 1 so that the `int` counter does not overflow.
- Cycle counts are unbounded integers. The source's `unsigned long` cycle counter and `int` cycle fields would wrap only after about 2^31 cycles.
- The program counter is a natural number rather than a 64-bit value. It is only carried along.
- The scheduler calls the buffer's allocator with two arguments, but the definition shown takes one. The model follows the one-argument definition, and the second argument is unused.
- Dispatch calls `FreeIQEntries` on the issue queue (out_of_order_scheduler.h:244), but the issue queue defines only `GetFreeIssueQueueEntries` (issue_queue.h:34). The model takes the call to mean that function, `IssueQueues.FreeEntries`.
- The reorder-buffer header uses the second draft's field names (`RobValue`, `IsReady`). Both drafts are modelled as one instruction type.
- The second draft's renamed accessors (`GetFreeEntries`, `RemoveElementAtIndex` on the map table) behave like the first draft's and are covered by the same functions.
- `lastRemovedElementIndex` of the reorder buffer is never read, so it is left out.
- The issue test's `instructionSequenceNumber < 0` can never hold for an unsigned number, so it is dropped. For the same reason, the sort comparator reduces to `<`.
- Fields the source leaves uninitialised get fixed values in the model: an operand's `Value` and an instruction's `robValue` and the map table's index and tag fields get -1, and an operand's `HasRobValue` gets false. The issue-queue wakeup (issue_queue.h:53-62) does read `HasRobValue` and `Value` of default slots that were never written. The choice still cannot matter: such a slot is invalid, so it never issues, and dispatch overwrites the whole slot before it becomes valid (out_of_order_scheduler.h:256).

## Findings

| source | as written | input that shows it | evidently intended | confidence | as-written member | corrected member |
|---|---|---|---|---|---|---|
| out_of_order_scheduler.h:415-422 | The run stops once the trace has hit end of file and the reorder buffer is empty, even while DE or RN still hold instructions that have not reached the reorder buffer. | Width 2 and a single trace record: cycle 0 fetches the record into DE and sees end of file, and the reorder buffer is still empty, so the run stops and reports nothing. With 2 or 3 records, cycle 1's fetch sees end of file while the first bundle is still in RN, with the same result. In general, any trace of 1 to 2 x `width` - 1 records. | Keep running until DE and RN are empty as well, so that every fetched instruction retires. | not executed | `Simulator.AsWrittenDropsShortTrace`, `Simulator.AsWrittenDropsTwoBundles` | `Simulator.SimulateRetiresAll` |
