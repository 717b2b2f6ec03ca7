# A verified model of qspi_tool

The project models three parts of the repository and proves what they promise.

**The FlexSPI IP-command driver** (`src/qspi.c`, `src/flexspi.h`). The controller is a class over its
registers. `write_blocking` and `read_blocking` cut a byte buffer into register windows, with a partial
last window and a tail packed and unpacked by shifts. `transfer_blocking` is the protocol around them.
Everything that the controller can observe goes to a log, and two independent readings of that log carry
the results: the byte stream that a run of windows holds, and a device that replays the log, keeps a TX
FIFO and executes commands. The main results are that any run of transfers makes the device execute one
command per transfer, each with its own address, size and sequence and asked to send exactly the windows
of its own data phase, whose bytes cut at that size are the transfer's; which words of earlier transfers are
pushed behind them, and exactly when; and that a buffer written through windows of one size and
read through windows of another comes back as it was.

**Unity's guarded allocator** (`libs/unity/unity_memory.c`, static-heap variant). The heap is a byte array
with in-band headers and trailers. A ledger of blocks, live or stranded, is tied to it. The main results
are the layout invariant over every legal run, that a block holds exactly what its owner wrote for as long
as it is not freed or reallocated, exact overrun detection, the full contract of `unity_realloc`, which runs
the leak check judges rightly, and conservation of `heap_index` over well-bracketed runs. The methods that update the static variables take
the same steps. Heap size and pointer width are parameters.

**Unity's test-run core** (`libs/unity/unity_fixture.c`, `libs/unity/unity.c`). Test isolation by the
pointer undo log on every abort path, verdicts and run accounting, the decimal printers and the `-r`
reader, the option loop, the tolerance and array assertions at every width, and the filter matcher.

Code that updates state in place is modelled by classes and methods with loops; each method is proved
against a specification function or an outright property, and the lemmas are about those functions.

## Files

| file | contents |
|---|---|
| `Bytes.dfy` | bytes and little-endian words of the driver, tail packing |
| `Octets.dfy` | numbers of any width in the host's byte memory |
| `Sequences.dfy` | stores over a run of memory |
| `Lut.dfy`, `FpgaInterface.dfy` | the LUT word macros; the FPGA's command table and the LUT built from it |
| `FlexSpiWindows.dfy` | windows of the data registers, the streams they carry, what a write leaves in them |
| `FlexSpiLog.dfy` | the controller's log and the replaying device |
| `Qspi.dfy` | the driver |
| `QspiRuns.dfy` | runs of transfers, loopback, runs of LUT set-ups |
| `QspiSession.dfy` | a caller that makes many transfers or set-ups on one controller |
| `UnityHeap.dfy` | the allocator's functions |
| `UnityHeapLayout.dfy`, `UnityHeapSteps.dfy` | the ledger, and each operation on it |
| `UnityHeapRuns.dfy`, `UnityHeapBrackets.dfy`, `UnityHeapLeaks.dfy` | whole runs of the allocator; the leak check |
| `UnityHeapRoom.dfy` | when an allocation succeeds, and which calls a simulated failure hits |
| `UnityMemory.dfy` | the allocator's static variables, updated in place |
| `UnityTestRun.dfy`, `UnityFixture.dfy` | undo log, verdicts, counters; the fixture in place, option loop included |
| `UnityPrint.dfy`, `UnityOptions.dfy` | decimal printers; what a command line means |
| `UnityArrays.dfy`, `UnityMatch.dfy` | array and tolerance assertions; the matcher |
| `Arithmetic.dfy`, `Wrappers.dfy` | division facts; `Option` |

## Properties that do not hold, and exactly when they do

* *Growing a block and failing keeps the old block.* Not when the growth was to happen in place and the
  simulated failure falls due there: the old block is released before `unity_malloc` is asked
  (`libs/unity/unity_memory.c:190-194`). `UnityHeapSteps.FailedGrowth`: a failed growth keeps the block if
  and only if the in-place test is false. `UnityHeapRuns.GrowthLosesTopBlock`: from every orderly heap in
  which the top block could grow in place, a simulated failure loses it.
* *Every location passed to `UnityPointer_Set` is restored.* Not one that was rejected for lack of room.
  `UnityTestRun.RestoredIffRoom`, with `UnityTestRun.RejectedSetNotRestored` as an instance for every
  capacity.
* *`malloc_count` is the number of live blocks.* Only up to the blocks that were live at
  `UnityMalloc_StartTest`, which resets the count and not the heap. The leak check is right for every test
  that frees and reallocates only blocks of its own (`UnityHeapLeaks.LeakCheckIsExact`). In general it fails
  exactly when the number of live blocks of the test's own is not the number of inherited blocks it gave
  back, so it is right exactly when none was given back or when there is a leak of another number of blocks
  (`UnityHeapLeaks.LeakCheckBalance`); `UnityHeapLeaks.LeakHiddenByInheritedFree` is a leak that goes
  unnoticed.
* *`QSPI_Write` sends the whole buffer.* Exactly when its size is at most 1024 (`Qspi.WholeBufferIff`). From
  1025 to 65535 an assertion aborts it after the command was triggered and before anything is sent. Of a
  larger size only the low 16 bits are kept: if they are at most 1024, the call sends that many bytes and
  returns 0, and otherwise it aborts. `QSPI_Read` and `QSPI_ReadSample` cut the size likewise
  (`Qspi.ReadFillsIff`); a multiple of 64 KiB passes the assertion that the size is not 0, stores nothing
  and returns 0. `Qspi.SizesCutOff` has one size of each kind.
* *An array assertion that is given one pointer twice may pass without a look.* In array mode always. In
  value mode, where the value is the first element, exactly when the array repeats it
  (`UnityArrays.PassOnSamePointerIsExact`), or with a tolerance, when the largest and the smallest element
  are at most delta away from it (`UnityArrays.PassOnSamePointerWithin`). Such pointers come from a direct call of
  `UnityAssertEqualIntArray` or `UnityAssertNumbersArrayWithin` only: the EACH_EQUAL integer macros pass
  the address of a static of their own (`libs/unity/unity.c:1940-1962`,
  `libs/unity/unity_internals.h:1104-1129`), and no macro uses the tolerance in value mode.
* *Only words of the transfer's own data are pushed.* Not if its first window is its last and leaves one of
  the window's registers unused: the driver never clears TFDR, so what an earlier transfer left there is
  pushed behind the data. `FlexSpiWindows.NothingOldIff` is the exact condition on the size;
  `FlexSpiWindows.BehindTheTail` says where each such word comes from, and `QspiRuns.EarlierWords` names the
  earlier transfer in any run. IPCR1's size field cuts them off
  (`QspiRuns.ExecutedBytes`).
* *Each window is offered once.* This depends on the controller. Before a window is staged, `clear_flags`
  writes back an INTR value in which the push bit has just been found set. If the controller acted on every
  1 that is written, the first write-back would offer what TFDR held before the write, and each later one
  the window just pushed, so that every window but the last is offered twice within the data phase
  (`QspiRuns.OfferedByWrite` gives the whole sequence). The stream results are about the pushes that the
  code asks for (`INTR |= (1 << 6)`), which assumes that a write-back only clears flags.

Where the repository's own `README.md` describes sending (steps 3 to 7: fill and push the FIFO, then
program IPCR1, then trigger) the code does otherwise (trigger first, then stream), and the FIFO is flushed
before a transfer and not after it. The model follows the code.

## Model

| member | source | states |
|---|---|---|
| Bytes.WordBytesRoundTrip | src/qspi.c:197-198 | words loaded from a buffer one after another lay out as exactly that buffer |
| Bytes.BytesWordsRoundTrip | src/qspi.c:256-257 | words stored one after another are loaded back unchanged |
| Bytes.ShiftUpExtends | src/qspi.c:218-225 | ORing in the next shifted byte is loading one byte more of a zero-padded word |
| Bytes.ShiftDownIsStore | src/qspi.c:277-282 | the shift-out of a tail byte agrees with the word store |
| Bytes.PackIsSum | src/qspi.c:218-223 | the first byte in memory is the least significant, and a shift by 8 * j puts a byte where a load puts byte j |
| Octets.DecodeFirst | libs/unity/unity_memory.c:50-54 | numbers are stored with the least significant byte first |
| Lut.FieldsOfLutSeq | src/flexspi.h:145-168 | decoding a packed LUT word gives its six fields, each cut to its width, for all arguments |
| Lut.LutSeqOfFields | src/flexspi.h:145-168 | every 32-bit word is the packing of its fields, which are in range |
| Lut.LutSeqInjective | src/flexspi.h:166-168 | packing is injective on in-range fields |
| Lut.Lut0AgreesTruncated | src/qspi.c:307-309 | the second packing agrees with the first on in-range fields, so the two differ only by the missing masks |
| Lut.Lut0Spills | src/qspi.c:307-309 | without masks a wide pad count changes the opcode |
| FlexSpiWindows.ChunksIsCeiling | src/qspi.c:186-232 | the number of windows is the ceiling of the size over the window capacity |
| FlexSpiLog.ConfigValueDecodes | src/qspi.c:337-343 | IPCR1 decodes to the transfer's size and sequence index, and to its sequence count exactly when that is not zero |
| FlexSpiLog.ConfigValueIsSum | src/qspi.c:337-343 | IPCR1 is size + 2^16 * sequence index + 2^24 * (sequence count - 1) |
| FlexSpiLog.InterruptBits | src/qspi.c:189-371 | the INTR bits that are waited for and written are 0, 6 and 7 |
| Qspi.ControllerNumbers | src/flexspi.h:108-210 | the register values, array sizes and limits of driver and device, by their numbers |
| Qspi.WatermarkField | src/qspi.c:172-181 | for any register and any field value, with that value in bits 2 to 8 the watermark is the value plus one |
| QspiRuns.PushedSizes | src/qspi.c:181-231 | with the value v in the field of IPTXFCR a write pushes the fewest windows of 8 * (v + 1) bytes that cover the data, and the k-th holds the k-th run of that many bytes |
| QspiRuns.PoppedSizes | src/qspi.c:240-288 | with v in the field of IPRXFCR a read pops likewise windows of 4 * (v + 1) bytes |
| Qspi.AcceptedTransfers | src/qspi.c:179-363 | a transfer is completed exactly if it is a read, a write or a configuration of at most 1024 bytes |
| FlexSpiWindows.FitsIsExact | src/qspi.c:193-229 | the registers that a pass uses (for a write those that StageWindow changes, for a read those that TakeWindow's bytes come from) are among the 32 exactly when the window capacity or the whole transfer is at most 128 bytes |
| FlexSpiWindows.PushedCarry | src/qspi.c:186-232 | whatever TFDR held before, the windows that the passes push are the ceiling number and carry the data, the tail padded with zeros |
| FlexSpiWindows.BehindTheTail | src/qspi.c:204-231 | the registers behind the tail word of a partial last window are what TFDR held before the pass: words from before the transfer if that is its only window, words of its previous window if not |
| FlexSpiWindows.NothingOldIff | src/qspi.c:204-231 | the pushed bytes do not depend on what TFDR held before exactly when nothing is sent or the data reaches the last word of the first window |
| FpgaInterface.SampleIndex | src/fpga_interface.h:10-42 | FPGA_LUT_IDX_RD_SAMPLE, the position of its entry in the table, is 11 |
| FpgaInterface.SampleSequence | src/fpga_interface.c:5-30 | of all sequences of fpga_lut the one with that index is the only one that is not null, and it starts by sending its entry's opcode |
| Qspi.FlexSpi.StageWindow | src/qspi.c:193-229 | leaves in TFDR the padded chunk of the data in front and every other register as it was |
| Qspi.FlexSpi.TakeWindow | src/qspi.c:252-286 | stores the front of the registers that hold the pass's bytes, and no register less would hold them |
| Qspi.FlexSpi.PackTail | src/qspi.c:218-223 | the packed tail word is the load of the remaining bytes padded with zeros |
| Qspi.FlexSpi.WriteBlocking | src/qspi.c:177-234 | aborts above 1024 bytes; otherwise waits for, and pushes, exactly the windows that the passes stage from what TFDR held before, and leaves the last of them in TFDR |
| Qspi.FlexSpi.UnpackTail | src/qspi.c:277-282 | stores exactly the first bytes of the word and no other |
| Qspi.FlexSpi.ReadBlocking | src/qspi.c:236-291 | aborts above 1024 bytes; otherwise, for any windows the device presents, stores the first size bytes of them, pops only as many as needed, and leaves the buffer past size and TFDR alone |
| Qspi.FlexSpi.TransferBlocking | src/qspi.c:315-379 | aborts after the trigger for a command without data or a size above 1024; otherwise logs a complete transfer: sequence pointer and flags cleared, both FIFOs flushed before the trigger, the trigger with this transfer's registers, the data phase, completion; and says what TFDR holds afterwards |
| Qspi.FlexSpi.QspiWrite | src/qspi.c:505-528 | for every size: sends on port A1 with sequence count 1 the bytes that its low 16 bits count and returns 0, or aborts with nothing sent; leaves the buffer unchanged |
| Qspi.FlexSpi.QspiRead | src/qspi.c:530-552 | for every size: aborts for 0, stores what its low 16 bits count with sequence index 0 and returns 0, or aborts after the trigger; leaves the rest of the buffer alone |
| Qspi.FlexSpi.QspiReadSample | src/qspi.c:554-576 | likewise with the index of RD_SAMPLE in the FPGA table |
| Qspi.WholeBufferIff | src/qspi.c:179-528 | a call of QSPI_Write sends the whole buffer exactly when that has at most 1024 bytes |
| Qspi.ReadFillsIff | src/qspi.c:238-576 | QSPI_Read and QSPI_ReadSample return 0 exactly if the size is not 0 and is at most 1024 modulo 64 KiB, and have filled the buffer exactly if it is from 1 to 1024; with a multiple of 64 KiB they store nothing |
| Qspi.SizesCutOff | src/qspi.c:519-568 | a size that aborts, one of which 4 bytes are sent, and one with which nothing is stored, the last two returning 0 |
| Qspi.FlexSpi.SetupLut | src/qspi.c:435-449 | aborts above 512 bytes; otherwise a device that ignores stores to a locked table ends up with the first len bytes replaced, the rest kept, and locked |
| QspiRuns.OneTransfer | src/qspi.c:315-379 | a device in any idle state, whatever its FIFO holds, executes exactly one more command for one transfer, the one asked for; the last TFDR window is left in the FIFO afterwards |
| QspiRuns.ServedOrder | src/qspi.c:315-379 | a transfer has one trigger; before it the sequence pointer of its port is cleared, the flags are written back and both FIFOs are flushed; the RX FIFO is flushed again for a read; the command is waited for once, after the data phase |
| QspiRuns.EveryTransfer | src/qspi.c:315-379 | over any run of transfers the device executes one command each, in order, with its own registers and offered exactly the windows of its own data phase, as they come about from what the earlier transfers left in TFDR |
| QspiRuns.ExecutedBytes | src/qspi.c:334-345 | the asked windows of an executed write, cut at the size field of IPCR1, are the buffer |
| QspiRuns.EarlierWords | src/qspi.c:204-231 | in any run, a write of one partial window pushes behind its own words those that the last window of the last write before it had there |
| QspiSession.ServeAll | src/qspi.c:315-379 | one controller used for any sequence of transfers, reads and writes, with shared buffers or not, leaves such a log, and in TFDR what the run of them leaves |
| QspiSession.SetupAll | src/qspi.c:435-449 | a sequence of set-ups on one controller leaves the table that the run of them says, locked |
| QspiRuns.OfferedByWrite | src/qspi.c:164-231 | the windows offered in a data phase: the asked ones are those pushed, and before each of them the write-back offers what TFDR held by then |
| QspiRuns.OfferedByRead | src/qspi.c:236-291 | a read data phase asks for no push; its write-backs can offer only what TFDR held before it |
| QspiRuns.PresentedStream | src/qspi.c:252-286 | windows that hold a byte stream share by share, with anything in the registers behind, carry that stream |
| QspiRuns.Loopback | src/qspi.c:177-291 | a buffer written with any TX watermark, cut at size and presented in RX windows of any watermark with anything behind it, is read back unchanged |
| QspiRuns.LutHoldsLast | src/qspi.c:435-449 | after any run of set-ups every LUT byte holds what the last table reaching it put there, or its first value |
| UnityHeapLayout.RoundUpIsLeast | libs/unity/unity_memory.c:59-66 | rounding up gives the least aligned size that is not smaller |
| UnityHeapLayout.TopTestIsExact | libs/unity/unity_memory.c:127-132 | the release test holds for a live block exactly when it is on top |
| UnityHeapLayout.StrcmpEndExact | libs/unity/unity_memory.c:114 | the character-wise comparison is zero exactly on the four trailer bytes |
| UnityHeapLayout.OverrunIsExact | libs/unity/unity_memory.c:108-115 | an overrun is seen exactly when the guard word or the trailer is damaged |
| UnityHeapLayout.BlocksDisjoint | libs/unity/unity_memory.c:84-94 | blocks do not overlap |
| UnityHeapLayout.BlockInHeap | libs/unity/unity_memory.c:84-94 | every block is aligned, below heap_index, and ends at it exactly if it is the last |
| UnityHeapLayout.PutBlockIntact | libs/unity/unity_memory.c:100-103 | the header and trailer stores make an intact block and touch neither older blocks nor the user region |
| UnityHeapSteps.MallocEffect | libs/unity/unity_memory.c:68-106 | succeeds exactly when no failure is due, the size is not 0 and there is room; appends one intact block; a due or wasted countdown is still taken |
| UnityHeapRoom.MallocRoom | libs/unity/unity_memory.c:68-106 | malloc succeeds exactly if no failure is due, the size is not 0 and an aligned offset of the heap leaves room for two words, the region and four bytes; heap_index moves to the least of these; size, zero word and "END" are stored |
| UnityHeapRoom.FailsAfterCount | libs/unity/unity_memory.c:31-81 | after MakeMallocFailAfterCount(n) and over any legal run that does not set it anew, the next call of unity_malloc fails for that reason exactly if n >= 0 and at least n calls went before it |
| UnityHeapRoom.StepCountdown | libs/unity/unity_memory.c:16-81 | which operations count, and what start, end and setting of the countdown leave in it |
| UnityHeapSteps.ReleaseEffect | libs/unity/unity_memory.c:117-137 | changes no byte; moves heap_index, to the block's start, exactly from the top |
| UnityHeapSteps.FreeReportsAndReleases | libs/unity/unity_memory.c:139-154 | reports exactly the damage at entry and releases the block either way |
| UnityHeapRoom.FreeOfNull | libs/unity/unity_memory.c:141-144 | freeing NULL does nothing and reports nothing |
| UnityHeapSteps.ReallocOfDamaged | libs/unity/unity_memory.c:172-176 | a damaged block fails the test and is released first |
| UnityHeapSteps.ReallocEffect | libs/unity/unity_memory.c:164-203 | the contract of realloc on an intact block: when it fails, which pointer, the first min(old, new) bytes kept, the grown block intact, no other byte in use changed, the count |
| UnityHeapRoom.ReallocRoom | libs/unity/unity_memory.c:178-203 | a growth keeps the pointer exactly for the last block, and succeeds exactly if no failure is due and an aligned offset of the heap leaves room behind the old pointer, or for any other block behind heap_index |
| UnityHeapRoom.InPlaceRoom | libs/unity/unity_memory.c:187-191 | the in-place test holds exactly for the last block and if an aligned offset of the heap leaves room behind its pointer |
| UnityHeapSteps.FailedGrowth | libs/unity/unity_memory.c:186-199 | a failed growth keeps the old block if and only if it was not to grow in place |
| UnityHeapRuns.GrowthLosesTopBlock | libs/unity/unity_memory.c:186-194 | in every orderly heap whose top block could grow in place, a due failure makes the growth fail and lose it |
| UnityHeapRuns.CallocKeeps | libs/unity/unity_memory.c:156-162 | calloc is malloc of the product with its user region zeroed |
| UnityHeapRuns.StoreKeeps | libs/unity/unity_memory.c:108-115 | a write inside a user region damages no guard and no other block |
| UnityHeapRuns.StepKeeps | libs/unity/unity_memory.c:16-34 | every legal operation keeps layout, guards and count |
| UnityHeapRuns.RunKeeps | libs/unity/unity_memory.c:68-203 | so does every legal run |
| UnityHeapRuns.EveryRun | libs/unity/unity_memory.c:68-203 | from the empty heap every legal run leaves blocks that partition the used heap, intact guards on the live ones, and the exact count |
| UnityHeapRuns.LiveRegionsDisjoint | libs/unity/unity_memory.c:68-106 | live user regions share no byte; heap_index is the summed size of live and stranded blocks |
| UnityHeapRuns.NoFalseAlarm | libs/unity/unity_memory.c:139-154 | no free or realloc of a legal run is reported as an overrun |
| UnityHeapRuns.RunContents | libs/unity/unity_memory.c:68-203 | over any legal run a block that is not freed or reallocated stays put and holds exactly what its owner wrote |
| UnityHeapLeaks.LeakCheckIsExact | libs/unity/unity_memory.c:16-29 | from its start, over every legal run that frees and reallocates no inherited block, the leak check fails exactly when a block of the test's own is live |
| UnityHeapLeaks.LeakCheckBalance | libs/unity/unity_memory.c:16-29 | over every legal run it fails exactly when the live blocks of the test's own are not as many as the inherited ones it gave back, and when that verdict is right |
| UnityHeapLeaks.LeakHiddenByInheritedFree | libs/unity/unity_memory.c:16-29 | a leaked block is hidden by freeing an inherited one |
| UnityHeapBrackets.RunScript | libs/unity/unity_memory.h:20-23 | every well-bracketed run restores heap_index, the ledger and the count |
| UnityHeapBrackets.FreeMovesIndexOnlyFromTop | libs/unity/unity_memory.h:20-23 | freeing any other block strands it |
| UnityMemory.Memory.UnityMalloc | libs/unity/unity_memory.c:68-106 | the in-place code takes the state where the specification does |
| UnityMemory.Memory.ReleaseMemory | libs/unity/unity_memory.c:117-137 | likewise |
| UnityMemory.Memory.UnityFree | libs/unity/unity_memory.c:139-154 | likewise, with the report |
| UnityMemory.Memory.UnityCalloc | libs/unity/unity_memory.c:156-162 | likewise |
| UnityMemory.Memory.UnityRealloc | libs/unity/unity_memory.c:164-203 | likewise, with the outcome |
| UnityMemory.Perform | libs/unity/unity_memory.c:16-203 | any legal operation on the static variables meets the demands of these methods and takes the step of the run theorems |
| UnityTestRun.UndoRestoresFirst | libs/unity/unity_fixture.c:178-186 | undoing last to first leaves the oldest saved value in every location |
| UnityTestRun.Isolation | libs/unity/unity_fixture.c:70-123 | whichever phase aborts and for any capacity, a location holds after the test the value before its first accepted set, read off the execution and not the store |
| UnityTestRun.RestoredIffRoom | libs/unity/unity_fixture.c:163-176 | a location passed to UnityPointer_Set is restored exactly if the store had room at the first call for it, and is left to the test otherwise |
| UnityTestRun.RejectedSetNotRestored | libs/unity/unity_fixture.c:165-168 | for every capacity, one call more than it has room for is rejected, and an assignment in teardown stays |
| UnityTestRun.SetsOnlyLeaveNoTrace | libs/unity/unity_fixture.c:70-123 | a test that changes memory only through UnityPointer_Set leaves all memory as it was, on every abort path |
| UnityTestRun.FirstVerdictStands | libs/unity/unity.c:2224-2249 | a test is never both failed and ignored, and teardown cannot change a verdict |
| UnityTestRun.ExecutedUpToStop | libs/unity/unity_fixture.c:91-108 | of a phase, exactly the actions up to the first that aborts it are executed |
| UnityTestRun.VerdictDecidedBy | libs/unity/unity.c:2224-2249 | the verdict is decided by the first executed action that is a condition or assertion that does not hold, a set beyond capacity (failed) or TEST_IGNORE (ignored); a test without one passes |
| UnityTestRun.PhaseWrites | libs/unity/unity_fixture.c:163-176 | after a phase every location holds what an executed set or assignment last wrote to it |
| UnityTestRun.RunAccounting | libs/unity/unity_fixture.c:321-347 | over any run the counters are the numbers of selected, failed and ignored calls, and each selected call is one of passed, failed, ignored |
| UnityFixture.Fixture.PointerSet | libs/unity/unity_fixture.c:163-176 | saves and sets, or fails without touching the location |
| UnityFixture.Fixture.PointerUndoAllSets | libs/unity/unity_fixture.c:178-186 | the undo loop computes the specified memory and empties the store |
| UnityFixture.Fixture.TestRunner | libs/unity/unity_fixture.c:70-123 | one call does to memory and counters what the specification says, and leaves both flags clear |
| UnityFixture.Fixture.IgnoreTest | libs/unity/unity_fixture.c:125-145 | counts a selected ignored test |
| UnityFixture.Fixture.RunAll | libs/unity/unity_fixture.c:70-145 | a whole run on the fixture leaves the memory and the counters that the accounting is about |
| UnityFixture.SelectedIff | libs/unity/unity_fixture.c:49-68 | a call is selected exactly if its name and its group pass their options: none given, the filter contained, or the exact one |
| UnityFixture.SelectedByOption | libs/unity/unity_fixture.c:49-68 | no option selects every call, -N and -G those of that name or group, -n and -g those that contain it |
| UnityFixture.OnlyChosenRun | libs/unity/unity_fixture.c:70-145 | a run does just what its selected calls do |
| UnityFixture.RunCountsChosen | libs/unity/unity_fixture.c:84-139 | NumberOfTests is the number of selected calls, and of all calls without a filter, modulo the counter width |
| UnityPrint.DecimalDenotes | libs/unity/unity.c:268-284 | the printed numeral has no leading zero and denotes the number |
| UnityPrint.NumeralUnique | libs/unity/unity.c:268-284 | it is the only such numeral |
| UnityPrint.SignedDenotes | libs/unity/unity.c:253-264 | a printed signed number denotes that number |
| UnityPrint.Output.PrintNumberUnsigned | libs/unity/unity.c:268-284 | prints exactly the numeral; the divisor never overflows; both loops end |
| UnityPrint.Output.PrintNumber | libs/unity/unity.c:253-264 | prints every signed value exactly, the minimum included |
| UnityOptions.ReadRepeatCount | libs/unity/unity_fixture.c:301-307 | the digit loop computes the value of the longest digit prefix modulo 2^32 |
| UnityOptions.PrintedNumberReadBack | libs/unity/unity_fixture.c:293-311 | a printed number reads back as its low 32 bits, hence exactly below 2^32 |
| UnityOptions.ParsedRepeat | libs/unity/unity_fixture.c:293-311 | giving a printed number to -r sets RepeatCount to it modulo 2^32 |
| UnityOptions.NoArguments | libs/unity/unity_fixture.c:191-201 | without arguments the options are the defaults, with RepeatCount 1, and the result is 0 |
| UnityOptions.FirstArgument | libs/unity/unity_fixture.c:205-317 | what -h, -v, -s and -d do, and that an unknown argument is skipped |
| UnityOptions.NamedArgument | libs/unity/unity_fixture.c:251-292 | which field each of -g, -G, -n and -N sets |
| UnityOptions.NameMissing | libs/unity/unity_fixture.c:251-292 | without a value these give the result 1 |
| UnityOptions.RepeatArgument | libs/unity/unity_fixture.c:293-311 | -r sets 2 unless a digit follows |
| UnityFixture.Fixture.GetCommandLineOptions | libs/unity/unity_fixture.c:188-319 | the option loop computes the specified options and result |
| UnityOptions.RenderedOptionsReadBack | libs/unity/unity_fixture.c:188-319 | every set of options has a command line that parses back to it, whatever the names are |
| UnityArrays.WrappedDifferenceIsDistance | libs/unity/unity.c:1471-1478 | the unsigned difference is the distance, also where signed subtraction would overflow |
| UnityArrays.EqualityIsByteEquality | libs/unity/unity.c:901-949 | for every width and style the compared values are equal exactly when the bytes are |
| UnityArrays.ExceedsDeltaIsExact | libs/unity/unity.c:1566-1658 | for every width and style the test fails exactly when the numbers are further apart than delta |
| UnityArrays.NumberReadBack | libs/unity/unity.c:1566-1650 | a number stored in two's complement at the style's width is read back as itself, for every one the style can show |
| UnityArrays.EqualityReadBack | libs/unity/unity.c:901-949 | so it is by the equality assertion, except that at full width an unsigned number is held as the signed one with its bytes |
| UnityArrays.NearByNumbers | libs/unity/unity.c:1556-1688 | an element passes the tolerance test exactly if the numbers stored at its addresses are at most delta apart |
| UnityArrays.WidthByLength | libs/unity/unity.c:901-949 | the bytes compared for every length of the style |
| UnityArrays.PrecheckOutcomes | libs/unity/unity.c:871-894 | no elements and one NULL pointer fail; two NULL pointers and one pointer twice pass |
| UnityArrays.EqualArraysAreMemcmp | libs/unity/unity.c:896-975 | in array mode the assertion is a memcmp of the arrays that names the first element with a difference |
| UnityArrays.Unity.AssertIntNumbersWithin | libs/unity/unity.c:1462-1492 | fails exactly when the distance exceeds delta |
| UnityArrays.Unity.AssertUintNumbersWithin | libs/unity/unity.c:1494-1524 | likewise for unsigned numbers |
| UnityArrays.Unity.AssertEqualIntArray | libs/unity/unity.c:863-975 | reports the first element that differs in any byte, and passes exactly if none does, in both modes; the early outcomes come first |
| UnityArrays.Unity.AssertNumbersArrayWithin | libs/unity/unity.c:1527-1688 | reports the first element too far away, and passes exactly if none is, in both modes |
| UnityArrays.SamePointerSameElements | libs/unity/unity.c:1551-1554 | with one array given twice, passing without a look is right |
| UnityArrays.PassOnSamePointerIsExact | libs/unity/unity.c:886-889 | for every array, style and mode, passing is right exactly in array mode or when the array equals itself moved on by one element |
| UnityArrays.PassOnSamePointerWithin | libs/unity/unity.c:1551-1554 | with a tolerance, exactly in array mode or when the largest and the smallest element are at most delta away from the first |
| UnityArrays.SamePointerValueNotCompared | libs/unity/unity.c:886-889 | an array for which it is not right |
| UnityMatch.IsStringInBiggerString | libs/unity/unity.c:2478-2530 | decides whether the token occurs anywhere (or, strictly, at the start or as the whole), with 2 for a partial match, for all strings |
| UnityMatch.StopCharacters | libs/unity/unity.c:2500-2520 | the characters that end a token |
| UnityMatch.LooseMeaning | libs/unity/unity.c:2478-2530 | the result is not 0 exactly if the long string is a + token + b, and then 2 exactly for a colon |
| UnityMatch.StrictMeaning | libs/unity/unity.c:2478-2530 | 2 for a colon if the long string starts with the token, 1 at any other end if it is the token, 0 for a star |
| UnityMatch.NoToken | libs/unity/unity.c:2478-2490 | the empty match string and the wild-card |

## Left out

- Qspi.FlexSpi.AwaitIntr: assumes that each polling loop ends; liveness of the hardware is not modelled.
- Qspi.FlexSpi.WriteIntr: the controller is assumed to act on the INTR bits a statement asks for; what it does on written-back bits is only counted.
- Qspi.FlexSpi.WriteBlocking: windows that run past TFDR (a TX watermark above 16 with more than 128 bytes) are excluded by a precondition.
- Qspi.FlexSpi.ReadBlocking: likewise for RFDR and an RX watermark above 32; words received between the trigger and the second RX flush are dropped by that flush and are not part of the stream.
- Qspi.FlexSpi.TransferBlocking: concurrent users of the registers are not modelled.
- Qspi.FlexSpi.QspiRead: the buffer is not NULL, on which the code asserts; likewise for QSPI_ReadSample.
- QspiRuns.Loopback: the two transfers are related through the bytes the device takes and presents; its timing is not modelled.
- UnityMemory.Memory.UnityMalloc: requests so large that the size computation wraps around are excluded by a precondition; likewise for calloc and realloc.
- UnityMemory.Memory.UnityRealloc: double frees and foreign pointers are excluded by a precondition.
- UnityHeap.Config: a size_t is taken to be as wide as a pointer and stored little-endian.
- QspiSession.ServeAll: takes transfers that are not aborted, as given; a caller that computes the next one from what was read is not modelled.
- UnityTestRun.RunPhase: the code under test is the sequence of its calls into the fixture and assignments to memory; calls of the runner from inside a test are not modelled.
- UnityFixture.Fixture.TestRunner: output, timing and the current test's name are not modelled; a longjmp is the outcome that the rest of a phase is not executed.
- UnityArrays.Unity.AssertEqualIntArray: messages are not modelled, only which element they name.
- The stdlib variant of the allocator, which the Makefile builds.
- Memory mapping, clock, pin and domain set-up, QSPI_Init, QSPI_DeInit, QSPI_Busy and signal handling: operating-system and board plumbing.
- Logging (src/slog.c), the drivers in src/main.c, tmp/main.c and test/, and the FPGA sample layout.
- Floating-point assertions and printing, printf-style formatting, and UnityStringArgumentMatches.
- UnityMain's repetition of the whole run.
