# Bochs components, modelled and proved

A Dafny model of the parts of the Bochs sources (and of the tools shipped with them) that
carry the most logic, with proofs about it. Code that changes state is a class or a method
with the source's loops, proved against a specification function; the theorems are lemmas
about those functions.

- **Timers** (`Timers`, `TimerTheorems`, `TimerPeriods`, `TimerCalls`, `PcSystem`, `SequentialClock`,
  `SequentialReads`): the countdown scheduler that drives every device. The main theorem
  compares it, over every run, with a naive clock that looks at all timers on every tick. Callbacks are arbitrary series of
  calls that may depend on everything that has fired before. What each call promises is told by
  what fires afterwards.
- **Opcode translator** (`BlurProgram`, `BlurTranslate`, `BlurFilter`, `BlurStencils`): the interpreter with
  nested loops and the translator with one flattened loop agree on every program whose moves
  cancel out; on the blur program both are the reference filter. A compiler of
  stencils to opcode lists is correct under both. The array side is any n >= 3.
- **CRC-32** (`Crc32`, `Crc32Detection`, `Crc32Preload`, `Crc32Table`): table form against bit-serial
  form, what the preload means, the fixed residue, and which errors are always detected.
- **Intrusive queues** (`TailQueue`, `SimpleQueue`): pointer surgery against sequences, with the
  reading of an entry as a head that backward traversal relies on. In the tail queue one `Link`
  class is both.
- **Segment checks** (`Segments`, `SegmentRules`): 32-bit limit arithmetic against "every byte is inside", and
  cached permission flags against full checks.
- **BIOS set-up** (`Bits`, `PciPools`, `PciLayout`, `PciRom`, `Memory`, `FormatDigits`, `Vsnprintf`,
  `FormatOutput`, `Paragraphs`, `TableBytes`, `MpTable`, `MpReader`, `AcpiSsdt`, `AcpiReader`,
  `SmbiosEntry`): address pools and the layout they give, the shadow-ROM copier, the bounded print from
  format text to output, and the firmware tables as a reader finds them.
- **Checksum tool** (`Biossums`, `BiosHeaders`): five header checksums and one over the image, which must
  hold together. The five families of functions differ only in constants, so the model has one
  family with the kind as a parameter.
- **Search paths** (`CStrings`, `Argz`, `CanonicalPath`, `PathElements`): canonical paths, the directories
  they name, and vectors of strings.

## Where the code falls short of what it promises

Each of these is kept in the model; the exact condition is proved, and so is a case at hand.

- The bounded print can write one byte past its buffer: when a text fills the buffer up and an
  unrecognised directive (`%%` counts as one) follows, the percent sign is still written
  (`Vsnprintf.StaysInBuffer`, `Vsnprintf.BoundIsBroken`).
- On a flat segment the one-comparison test and the full check differ on accesses that pass the
  last address (`Segments.FastTestAgrees`, `Segments.FlatWrapIsTold`). No address generated on such a
  segment depends on it, since the full check or the flat flag decides there.
- Cached flags stand in for the full check exactly if they fit the descriptor
  (`Segments.FlagsNeverShowIff`). Loads of descriptors (`bochs/cpu/segment_ctrl_pro.cc:153`), processor
  reset and virtual-8086 mode (`bochs/cpu/init.cc:689`, `bochs/cpu/vm8086.cc:241`) and the flat data segments set up
  without a descriptor give flags that fit (`Segments.LoadsFit`). Two set-ups do not: SYSENTER
  (`bochs/cpu/proc_ctrl.cc:956`), like the other fast calls and the return to a virtual-machine host, presets
  the write flags on a code segment, so that writes through it are let through
  (`Segments.FlatCodeShowsOnWrites`); and entering system-management mode (`bochs/cpu/smm.cc:160`) presets
  the flat flags on a code segment with a base, so that data accesses through it lose the base
  (`Segments.SmmCodeLosesBase`).
- An all-slash element of a path leaves an empty element in its canonical form, which is then not
  a fixed point (`CanonicalPath.EmptyElementsOfCanonical`, `CanonicalPath.CanonicalTwice`); if
  it is the last, an empty directory name is visited (`CanonicalPath.DirectoriesOfPath`,
  `CanonicalPath.SlashElementShows`).
- A ROM whose size byte is zero still locks one 16K block, since the copy loop tests at its end
  (`PciRom.ShadowMemory.InitPcirom`, `PciRom.EmptyRomLocksBlock`).
- Registering a timer fails when the table's bound is 64, even though the search before it has
  found a free slot below the bound (`Timers.FullTableRefuses`, `Timers.FullTableWithFreeSlot`).
- The checksum tool wants three bytes behind the base header of a PCMP table to be zero even if the
  table is shorter. The length of an `_MP_` header right behind a table of 32 bytes stands there, and
  the tool gives up although nothing overlaps (`Biossums.ShortTableGivesUp`). Checksums set on the way
  never decide it (`Biossums.AllChecksumsHold`).
- Joining a vector of fewer than two bytes counts an unsigned length down past zero, and the first
  access is outside (`Argz.ArgzStringify`).

## Model

| member | source | states |
|---|---|---|
| `TimerTheorems.TickNIsTicks` | bochs/pc_system.h:106-121 | From every state the scheduler can be between ticks, `tickn(n)` ends in the very state, log of firings included, that n single ticks end in |
| `TimerTheorems.TickRefines` | bochs/pc_system.h:106-110 | One tick of the countdown scheduler, seen as time, timer table and log, is one tick of a naive clock that looks at every timer on every tick; callbacks may be any series of register, activate, deactivate and unregister calls |
| `TimerTheorems.TicksRefine` | bochs/pc_system.h:106-110 | Any number of single ticks is that many ticks of the naive clock |
| `TimerTheorems.TickNRefines` | bochs/pc_system.h:111-121 | `tickn(n)` is n ticks of the naive clock, moves time by exactly n and keeps the invariant |
| `TimerTheorems.EventRefines` | bochs/pc_system.cc:321-385 | Servicing the due timers, reloading the countdown and then running the callbacks is what the naive clock does at a deadline |
| `TimerTheorems.FireFromRefines` | bochs/pc_system.cc:376-384 | The callbacks of the timers that were due before any callback ran are invoked in slot order, on both machines alike, whatever they ask for |
| `TimerTheorems.PerformAllRefines` | bochs/pc_system.cc:473-505 | A series of calls, each of which may shorten the running countdown, is the same series on the naive clock and never moves the time |
| `TimerTheorems.RunRefines` | bochs/pc_system.cc:261-385 | Over every run of ticks and calls from any legal state the scheduler is the naive clock, keeps its invariant and advances by exactly the ticks asked for |
| `TimerTheorems.NoDeadlineIsMissed` | bochs/pc_system.cc:336-374 | In every state reachable from the initial one, between ticks, no active timer has a deadline at or before now |
| `TimerTheorems.ClockTicksMoveTime` | bochs/pc_system.h:131-133 | The naive clock moves by exactly the ticks asked for, whatever the callbacks do |
| `TimerTheorems.TicksWithinCountdown` | bochs/pc_system.h:118-121 | Ticks that do not use up the countdown only decrement it |
| `Timers.PerformKeepsInv` | bochs/pc_system.cc:473-505 | Any call made between ticks keeps the countdown running, within its period, ending no later than every deadline, and the null timer armed |
| `Timers.PerformAllKeepsInv` | bochs/pc_system.cc:261-602 | Any series of calls keeps that invariant |
| `Timers.FireFromKeepsInv` | bochs/pc_system.cc:376-384 | Running any callbacks keeps the invariant |
| `Timers.ServicedDeadlines` | bochs/pc_system.cc:336-364 | After servicing, a one-shot timer that was due is inactive, a continuous one is due a period later, every other slot is as it was, and every active timer is due strictly later than now |
| `Timers.InvAtReload` | bochs/pc_system.cc:366-374 | Reloading the countdown from the earliest deadline establishes the invariant |
| `Timers.ReloadIsLossless` | bochs/pc_system.cc:366-374 | The difference between the earliest deadline and now, cut to 32 bits for the countdown, loses nothing and is not zero |
| `Timers.MinDeadlineIsEarliest` | bochs/pc_system.cc:336-364 | The minimum the scan computes is at most the deadline of every active timer |
| `Timers.MinDeadlineIsDeadline` | bochs/pc_system.cc:336-364 | A minimum that the scan found is the deadline of some active timer |
| `Timers.InitialInv` | bochs/pc_system.cc:41-76 | The state after construction and `initialize` satisfies the invariant |
| `TimerPeriods.ArmedTimerFiresOnTime` | bochs/pc_system.cc:353-359 | A timer armed at t with period p and left alone fires at exactly t+p, t+2p, … (a one-shot timer once), so floor(d/p) times in d ticks, over every run of ticks and other calls |
| `TimerPeriods.RunStaysOnSchedule` | bochs/pc_system.cc:353-359 | Between any steps of such a run the firings so far and the next deadline are those of the arithmetic schedule |
| `TimerPeriods.TickStaysOnSchedule` | bochs/pc_system.cc:321-385 | One tick keeps a timer that others leave alone on its schedule |
| `TimerPeriods.UntouchedNotify` | bochs/pc_system.cc:376-384 | Callbacks that do not touch a timer neither fire nor change it |
| `TimerPeriods.ExpectedStep` | bochs/pc_system.cc:353-359 | The schedule gains one firing exactly at the multiples of the period |
| `PcSystem.PcSystem.constructor` | bochs/pc_system.cc:41-58 | Only the null timer is registered |
| `PcSystem.PcSystem.Initialize` | bochs/pc_system.cc:60-76 | The object is then in the state all runs start from |
| `PcSystem.PcSystem.TimeTicks` | bochs/pc_system.h:131-133 | The elapsed part of the countdown is added to the total |
| `PcSystem.PcSystem.RegisterTimerTicks` | bochs/pc_system.cc:261-319 | The first free slot below the bound is taken, or else the slot at the bound; when the bound is 64 the table is unchanged and the result is -1 |
| `PcSystem.PcSystem.FindSlot` | bochs/pc_system.cc:274-278 | The search ends at the first free slot, or at the bound |
| `Timers.FullTableRefuses` | bochs/pc_system.cc:274-283 | With the bound at 64 every registration leaves the table as it is, although the search finds a free slot |
| `Timers.FullTableWithFreeSlot` | bochs/pc_system.cc:274-283 | A table with the bound at 64 and one free slot in the middle |
| `PcSystem.PcSystem.ActivateTimerTicks` | bochs/pc_system.cc:473-505 | Arms the timer and skews period and countdown by the same amount when it is due before the countdown ends |
| `PcSystem.PcSystem.ActivateTimer` | bochs/pc_system.cc:507-536 | With zero microseconds the stored period is used again; otherwise the ticks they convert to, at least the minimum, become the period |
| `PcSystem.PcSystem.DeactivateTimer` | bochs/pc_system.cc:562-572 | The slot is inactive, its other fields and all other slots are as they were |
| `PcSystem.PcSystem.UnregisterTimer` | bochs/pc_system.cc:574-602 | An inactive timer is erased and the bound lowered when it was the last; an active one is refused; no other slot changes |
| `PcSystem.PcSystem.ServiceDue` | bochs/pc_system.cc:336-364 | The scan marks exactly the due timers, reschedules or disarms them and returns the earliest deadline and the first and last mark |
| `PcSystem.PcSystem.RunTriggered` | bochs/pc_system.cc:376-384 | The second loop runs the callbacks of exactly the marked timers, in order |
| `PcSystem.PcSystem.Reload` | bochs/pc_system.cc:321-374 | Time moves by the whole period and the countdown restarts at the earliest deadline |
| `PcSystem.PcSystem.CountdownEvent` | bochs/pc_system.cc:321-385 | The object does what the specification does at the end of a countdown, and keeps its invariant |
| `PcSystem.PcSystem.Tick1` | bochs/pc_system.h:106-110 | One tick of the object is one tick of the naive clock |
| `PcSystem.PcSystem.Tickn` | bochs/pc_system.h:111-121 | The loop ends for every n and leaves the object where n ticks of the naive clock lead |
| `PcSystem.PcSystem.TimeUsecSequential` | bochs/pc_system.cc:445-459 | Returns max(previous result, clock)+1 when the clock has not gone back |
| `SequentialClock.NextIsAfterBoth` | bochs/pc_system.cc:445-459 | The result is one more than the larger of the previous result and the clock |
| `SequentialClock.ResultsIncrease` | bochs/pc_system.cc:445-459 | Over any series of readings that never decrease, the results strictly increase and are ahead of the clock |
| `TimerPeriods.RegisteredTimerFiresOnTime` | bochs/pc_system.cc:261-319 | The same for a timer registered armed, in the slot it gets |
| `TimerPeriods.ScheduledTimerFiresOnTime` | bochs/pc_system.cc:353-359 | Once a timer is on schedule only the elapsed time decides its firings, over every run |
| `SequentialReads.ReadsDuringRunIncrease` | bochs/pc_system.cc:445-459 | For reads anywhere between the steps of a run, with the clock any function of time that never decreases: each result is one more than the larger of the clock and the previous result |
| `TimerCalls.DeactivatedTimerIsSilent` | bochs/pc_system.cc:562-572 | Deactivating leaves the bound, the countdown, every other slot and the timer's other fields alone, and over every run that does not arm it the timer never fires again |
| `TimerCalls.UnregisteredTimerIsSilent` | bochs/pc_system.cc:574-602 | Unregistering is refused while the timer is active; otherwise the slot is free, the bound comes down past the last slot only, and nothing fires from the slot, whatever calls are made, until something is registered |
| `TimerCalls.RegisteringTakesLeastSlot` | bochs/pc_system.cc:261-319 | Below 64, a registration takes the least slot from 1 on that is not in use, stores what it was given, changes no other slot and raises the bound only if it must |
| `TimerCalls.UnregisteredSlotIsTakenNext` | bochs/pc_system.cc:261-319 | A slot given up is the next to be taken when all below it are in use, even at the limit of 64 if it was the last |
| `TimerCalls.UnarmedTimerIsSilent` | bochs/pc_system.cc:292-309 | A timer registered without being armed leaves the countdown alone and does not fire until it is armed |
| `TimerCalls.RearmedTimerFiresOnTime` | bochs/pc_system.cc:507-536 | Armed again without a period, a timer fires at the multiples of the period it was given last |
| `TimerCalls.ArmingSparesOthers` | bochs/pc_system.cc:473-505 | Arming changes no other slot and not the bound |
| `TimerCalls.NullTimerFires` | bochs/pc_system.cc:41-76 | From power-on the null timer fires at exactly the multiples of 0xffffffff ticks, over every run |
| `TimerCalls.TickIsRecorded` | bochs/pc_system.cc:336-384 | The firings of a tick are of timers that were due when it came, in slot order, each on the handler in force at its turn, and the table is the serviced one with the calls of those callbacks made one after the other |
| `TimerCalls.TickLeavesNobodyOut` | bochs/pc_system.cc:376-384 | Where the firings of a tick pass over a timer that was due, there is no handler in its slot at its turn |
| `SequentialClock.NextWhenClockGoesBack` | bochs/pc_system.cc:445-459 | When the clock goes back the results start again right behind it, unless more were handed out beyond it than the wrapped difference |
| `BlurProgram.FlatIsNested` | bochs-performance/testcases/blur-translate.c:176-293 | For every program whose moves cancel out and stay inside, the single loop the translator emits, from any cell on, leaves the same output and accumulator as the nested loops of the interpreter |
| `BlurTranslate.EmulateCell` | bochs-performance/testcases/blur-translate.c:184-225 | The fetch-and-switch loop on the opcode list executes the decoded program |
| `BlurTranslate.EmulateOpcodes` | bochs-performance/testcases/blur-translate.c:176-227 | The interpreter leaves what the nested loops of the decoded program leave |
| `BlurTranslate.GenFunction` | bochs-performance/testcases/blur-translate.c:238-293 | The generated body is the decoded opcode list |
| `BlurTranslate.RunTranslated` | bochs-performance/testcases/blur-translate.h:17-42 | The emitted while loop with its counter updates leaves what the flat loop leaves |
| `BlurTranslate.ExecuteCodeBlock` | bochs-performance/testcases/blur-translate.c:350-361 | Translating and running a program gives the output of interpreting it |
| `BlurTranslate.Do` | bochs-performance/testcases/blur-translate.h:32-42 | Each operation changes position, accumulator or output as its macro does |
| `BlurFilter.BlurDecodes` | bochs-performance/testcases/blur-translate.c:112-135 | The blur opcode list decodes to the blur block |
| `BlurFilter.BlurBlockBlurs` | bochs-performance/testcases/blur-translate.c:112-135 | One pass of the block stores the sum of the 3x3 window at the cell and returns to it |
| `BlurFilter.FilteredAt` | bochs-performance/testcases/blur-translate.c:156-170 | The filter sums the window at every inner cell and leaves the border alone |
| `BlurFilter.InterpretedBlurIsFilter` | bochs-performance/testcases/blur-translate.c:176-227 | Interpreting the block at all cells is the filter |
| `BlurFilter.BlurInstructionsAreFilter` | bochs-performance/testcases/blur-translate.c:112-227 | On the blur opcode list, interpreter and translated loop both leave what the reference filter leaves, for every input array |
| `BlurFilter.BlurReference` | bochs-performance/testcases/blur-translate.c:156-170 | The four nested loops compute the filter |
| `BlurFilter.SumWindow` | bochs-performance/testcases/blur-translate.c:163-167 | The two inner loops sum the window |
| `BlurStencils.StencilRuns` | bochs-performance/testcases/blur-translate.c:176-293 | Every stencil of sums, differences and products of neighbouring cells, compiled to a list of opcodes and interpreted or translated, leaves its value at every inner cell and no other cell changed, for every input array |
| `BlurStencils.BlockRuns` | bochs-performance/testcases/blur-translate.h:32-42 | On every inner cell such a block returns to the cell and stores there, wherever it stood when it stored, whatever the accumulator held |
| `BlurStencils.CodeDecodes` | bochs-performance/testcases/blur-translate.c:92-101 | The opcodes 0 to 6 decode to the operations of the stencil |
| `Crc32.ByteSerialIsBitSerial` | bochs/crc.cc:53-65 | For every message the table-driven register is the bit-serial, most-significant-bit-first shift register with polynomial 0x04c11db7 |
| `Crc32.ShiftOfXor` | bochs/crc.cc:46-50 | One step of the shift register is linear over exclusive-or |
| `Crc32.Shift8OfXor` | bochs/crc.cc:46-50 | So are eight steps |
| `Crc32.ClocksByte` | bochs/crc.cc:46-50 | Clocking in eight bits is adding the byte at the top and shifting eight times |
| `Crc32.ByteStepIs` | bochs/crc.cc:62-63 | One table step is clocking in one byte bit by bit |
| `Crc32Detection.ResidueIsFixed` | bochs/crc.cc:61-64 | Running a register of ones over a message and the four bytes of its CRC, most significant first, ends in 0xc704dd7b for every message |
| `Crc32Detection.FeedsWord` | bochs/crc.cc:61-63 | Four bytes fed to a register act as one word added to it before 32 shifts |
| `Crc32Detection.ShiftInjective` | bochs/crc.cc:46-50 | Different registers stay different under a shift |
| `Crc32Detection.BurstsAreDetected` | bochs/crc.cc:53-65 | Messages that differ only within four adjacent bytes have different CRCs |
| `Crc32Detection.OneByteIsDetected` | bochs/crc.cc:53-65 | Equal-length messages that differ in exactly one byte have different CRCs |
| `Crc32Preload.PreloadComplementsFirstBytes` | bochs/crc.cc:61-64 | For every message of at least four bytes the CRC is that of a register of zeros over the message with its first four bytes complemented, as section 3.2.9 of IEEE 802.3 defines it |
| `Crc32Preload.ZeroInFrontIsDetected` | bochs/crc.cc:61-64 | A zero byte in front of a message always changes its CRC |
| `Crc32Preload.CheckValue` | bochs/crc.cc:53-65 | The digits 1 to 9 give the published check value 0xfc891918, and nothing gives 0 |
| `Crc32Table.CrcUnit.InitCrc32` | bochs/crc.cc:41-51 | The nested loops fill every entry with its byte shifted eight times |
| `Crc32Table.CrcUnit.FillEntry` | bochs/crc.cc:46-50 | The inner loop is eight shifts of the byte at the top |
| `Crc32Table.CrcUnit.Fold` | bochs/crc.cc:62-63 | The loop over the buffer is the byte-serial register |
| `Crc32Table.CrcUnit.Prepare` | bochs/crc.cc:58-59 | The lazily built table is complete once entry 1 is not zero |
| `Crc32Table.CrcUnit.Compute` | bochs/crc.cc:53-65 | On a blank or filled table alike the result is the bit-serial CRC of the buffer |
| `TailQueue.InsertionLinks` | bochs/qemu-queue.h:344-376 | Putting an element anywhere into a chain and rewiring its two neighbours gives a well-linked chain |
| `TailQueue.RemovalLinks` | bochs/qemu-queue.h:378-385 | Taking an element out and rewiring its neighbours gives a well-linked chain |
| `TailQueue.PreviousElement` | bochs/qemu-queue.h:397-400 | Reading a previous-slot pointer as a queue head leads to the element before, for every element and for the head itself |
| `TailQueue.TailQueue.constructor` | bochs/qemu-queue.h:339-342 | The queue is empty and well linked |
| `TailQueue.TailQueue.InsertHead` | bochs/qemu-queue.h:344-352 | The elements are the new one and then the old ones |
| `TailQueue.TailQueue.InsertTail` | bochs/qemu-queue.h:354-359 | The elements are the old ones and then the new one |
| `TailQueue.TailQueue.InsertAfter` | bochs/qemu-queue.h:361-369 | The new element stands right behind the given one |
| `TailQueue.TailQueue.InsertBefore` | bochs/qemu-queue.h:371-376 | The new element stands right before the given one, found without the head |
| `TailQueue.TailQueue.Remove` | bochs/qemu-queue.h:378-385 | Exactly the given element is gone |
| `TailQueue.TailQueue.InsertThenRemove` | bochs/qemu-queue.h:361-385 | Inserting and removing restores the queue |
| `TailQueue.TailQueue.Foreach` | bochs/qemu-queue.h:387-390 | Visits the elements in order |
| `TailQueue.TailQueue.ForeachReverse` | bochs/qemu-queue.h:397-400 | Visits exactly the reverse of the elements |
| `SimpleQueue.InsertionThreads` | bochs/qemu-queue.h:248-264 | Putting an element anywhere into a simple queue and setting the pointers before it and in it gives a well-threaded chain |
| `SimpleQueue.RemovalThreads` | bochs/qemu-queue.h:266-282 | Passing over an element gives a well-threaded chain |
| `SimpleQueue.JoiningThreads` | bochs/qemu-queue.h:294-300 | Setting one pointer threads two chains together |
| `SimpleQueue.SimpleQueue.InsertHead` | bochs/qemu-queue.h:248-252 | The elements are the new one and then the old ones; the last pointer follows |
| `SimpleQueue.SimpleQueue.InsertTail` | bochs/qemu-queue.h:254-258 | The elements are the old ones and then the new one |
| `SimpleQueue.SimpleQueue.InsertAfter` | bochs/qemu-queue.h:260-264 | The new element stands right behind the given one |
| `SimpleQueue.SimpleQueue.Unlink` | bochs/qemu-queue.h:278-280 | Exactly the element behind the given cell is gone, and the last pointer follows |
| `SimpleQueue.SimpleQueue.RemoveHead` | bochs/qemu-queue.h:266-269 | The elements are the old ones without the first |
| `SimpleQueue.SimpleQueue.Remove` | bochs/qemu-queue.h:271-282 | The search ends at the element, and exactly it is gone |
| `SimpleQueue.SimpleQueue.Concat` | bochs/qemu-queue.h:294-300 | The elements of both follow each other, the other queue is empty, and both stay well threaded |
| `SimpleQueue.SimpleQueue.Foreach` | bochs/qemu-queue.h:284-287 | Visits the elements in order |
| `Segments.InsideByEnds` | bochs/cpu/access.cc:83-118 | Comparing the ends in 32-bit arithmetic decides, for both directions of expansion, whether every byte of an access lies in the segment without wrapping |
| `Segments.SegmentRegister.WriteVirtualChecks` | bochs/cpu/access.cc:48-124 | Accepts exactly the writes of an allowed type that are inside, or any on the flat segment; flags are granted only then |
| `Segments.SegmentRegister.ReadVirtualChecks` | bochs/cpu/access.cc:127-199 | The same for reads |
| `Segments.SegmentRegister.ExecuteVirtualChecks` | bochs/cpu/access.cc:202-270 | The same for reads of code, execute-only segments included |
| `Segments.FlagsStayFit` | bochs/cpu/access.cc:83-106 | After any series of checks a set flag stands for what its fast path relies on |
| `Segments.FastTestAgrees` | bochs/cpu/cpu.h:5289-5368 | With a flag set, the one comparison agrees with the full check for every length up to the maximum if and only if it is not an access of the flat segment that passes the last address |
| `Segments.GenerateIsCheck` | bochs/cpu/cpu.h:5289-5368 | One address generation gives the address or exception of a full check and keeps the flags fitting |
| `Segments.FlagsNeverShowIff` | bochs/cpu/cpu.h:5289-5368 | On a register loaded with any flags, the flags change no address and no exception over all runs if and only if each flag fits the descriptor |
| `Segments.LoadsFit` | bochs/cpu/segment_ctrl_pro.cc:150-180 | A descriptor load sets no access flag; the flags set up at reset, in virtual-8086 mode and for flat data segments fit |
| `SegmentRules.AllowedIs` | bochs/cpu/access.cc:63-118 | An access is allowed exactly if the segment is present, the bits of its type permit it and its ends are at or below the limit, or above it and below the top of 16 or 32 bits in data that expands down; only on the readable segment that is the whole address space is the limit not looked at |
| `SegmentRules.MisalignedIs` | bochs/cpu/access.cc:52-60 | With a length that is a power of two, the alignment check raises the exception exactly if the linear address is no multiple of it |
| `SegmentRules.FlagsAfterAre` | bochs/cpu/access.cc:83-106 | After any series of checks the read flags are set exactly if a check was passed and the write flags exactly if a write was, on a segment that holds the longest access, and the flat flags on the whole address space |
| `Segments.FlatCodeShowsOnWrites` | bochs/cpu/proc_ctrl.cc:956-961 | On the flat code segment of a fast system call the flags never show on reads, and show on every write |
| `Segments.SmmCodeLosesBase` | bochs/cpu/smm.cc:160-167 | On the code segment of system-management mode, a data access gets an address without the base |
| `Segments.FlatWrapIsTold` | bochs/cpu/access.cc:83-88 | Two bytes at the last address of a flat segment: the full check accepts, the one comparison does not |
| `Segments.CachedFlagsNeverShow` | bochs/cpu/cpu.h:5289-5368 | Over any run of accesses, fitting flags change no address and no exception; the write flags need to fit only if there are writes |
| `PciPools.AlignUpIsLeastMultiple` | bochs/bios/rombios32.c:1019-1019 | Rounding a pool address up by masking gives the least multiple of the size not below it |
| `PciPools.PlaceIsSound` | bochs/bios/rombios32.c:1002-1028 | Handing out one region keeps all regions aligned and those of one pool disjoint |
| `PciPools.DefaultMapIsSound` | bochs/bios/rombios32.c:990-1030 | Over any enumeration with power-of-two sizes and room in the pools, every region is aligned to its size and disjoint from the others of its pool |
| `PciPools.SizeIsDecoded` | bochs/bios/rombios32.c:1001-1003 | The size read off a register that decodes 2^k bytes is 2^k, whatever its flag bits |
| `PciPools.PlaceAllAppends` | bochs/bios/rombios32.c:1066-1083 | Devices are mapped one after the other |
| `PciLayout.EnumerationIsPacked` | bochs/bios/rombios32.c:1002-1028 | Over every enumeration with power-of-two sizes and room, the k-th region belongs to the k-th register that does not read zero and lies at the least multiple of its size behind the last region of the same parity and bus side before it, which takes at least 16 bytes of I/O or 64K of memory, or behind the fixed start 0xc000, 0xe000, 0xc0000000 or 0xd0000000 |
| `PciLayout.SpacesAreApart` | bochs/bios/rombios32.c:1002-1028 | If no pool has grown past the next start, I/O regions (odd registers) lie between their start and 0xc0000000, memory regions at or above theirs, and all regions of the machine are disjoint |
| `PciLayout.LowBitIsParity` | bochs/bios/rombios32.c:1004-1004 | The mask for the I/O bit tests whether the value is odd |
| `PciLayout.ProbesAre` | bochs/bios/rombios32.c:985-1001 | A device gives all its registers in order if its class takes the default map and the low two bits of its header type are zero; devices follow each other in order |
| `PciLayout.SmallSizeIsSixteen` | bochs/bios/rombios32.c:1003-1003 | A register that decodes fewer than 16 bytes is taken to decode 16 |
| `PciPools.PciBios.MapRegister` | bochs/bios/rombios32.c:1001-1029 | One register is placed in the pool of its parity and bus and advances exactly that pool |
| `PciPools.PciBios.InitDevice` | bochs/bios/rombios32.c:985-1031 | All registers of a device whose header type admits them are mapped in order |
| `PciPools.PciBios.InitDevices` | bochs/bios/rombios32.c:1066-1098 | All devices of an enumeration are mapped in order |
| `PciRom.ShadowMemory.CopyChunk` | bochs/bios/rombios32.c:906-923 | A chunk ends at a block boundary or at the end, is copied while its block is open for writing, and leaves the block read-only |
| `PciRom.ShadowMemory.CopyRom` | bochs/bios/rombios32.c:903-924 | Every byte of the ROM is in its place, no other byte changed, and exactly the touched blocks are read-only |
| `PciRom.ShadowMemory.InitPcirom` | bochs/bios/rombios32.c:885-929 | A ROM is copied exactly if it is there and fits below 0xe0000; its size is rounded up to 2K |
| `PciRom.ShadowMemory.InitRoms` | bochs/bios/rombios32.c:1054-1098 | Exactly the ROMs that are there and still fit are placed, in order and each behind the one before; each is whole at the end, with all the 512-byte units it declares, no other byte of the area has changed, and the fields are those of locking the blocks of each |
| `PciRom.RomSizeIs` | bochs/bios/rombios32.c:896-900 | The size is the least multiple of 2K that holds the bytes declared |
| `PciRom.LaidIsWhole` | bochs/bios/rombios32.c:896-924 | Every byte a ROM declares is in its place behind the ROMs before it if the bytes rounded up to 2K end at or below 0xe0000, and no byte outside the ROMs that do has changed |
| `PciRom.FieldIs` | bochs/bios/rombios32.c:910-921 | The fields are two bits wide in the low and the high half of the bytes from 0x5a on |
| `PciRom.TouchesBlockMeans` | bochs/bios/rombios32.c:906-924 | A ROM touches the blocks of 16K it has a byte in, an empty one counting as one byte |
| `PciRom.LockedAllAt` | bochs/bios/rombios32.c:906-924 | After an enumeration exactly the blocks that a ROM touches are read-only; every other field and every other bit is as it was |
| `PciRom.ShadowMemory.PlaceRom` | bochs/bios/rombios32.c:1054-1064 | One device adds its ROM, or nothing |
| `PciRom.EmptyRomLocksBlock` | bochs/bios/rombios32.c:905-924 | A ROM of no bytes locks the block it would begin in |
| `PciRom.LockedAt` | bochs/bios/rombios32.c:917-921 | Locking a range of blocks sets the 2-bit field of each and leaves every other field as it was |
| `PciRom.SetFieldAt` | bochs/bios/rombios32.c:916-921 | Setting one field changes no other |
| `PciRom.PutTwice` | bochs/bios/rombios32.c:917-920 | Setting a field twice is setting it the second time only |
| `PciRom.RegisterIsField` | bochs/bios/rombios32.c:910-915 | Register and shift computed from an address select the field of its 16K block |
| `Memory.Memmove` | bochs/bios/rombios32.c:153-170 | The run arrives whole even where source and destination overlap, and nothing else changes |
| `Memory.Store` | bochs/bios/rombios32.c:142-151 | The run replaces the bytes at its place and no others |
| `Vsnprintf.StaysInBuffer` | bochs/bios/rombios32.c:205-341 | With a buffer of at least one byte: the text and its NUL fit exactly when no unrecognised directive follows a text that begins inside the room and uses it up; otherwise it is one byte too long; the count is the length of the unbounded text cut to the room; what fits is written whole |
| `Vsnprintf.BoundIsBroken` | bochs/bios/rombios32.c:207-298 | A format and a buffer of two bytes for which two characters and the NUL are written |
| `Vsnprintf.OverflowsWhere` | bochs/bios/rombios32.c:205-341 | The overflow found step by step is the one described by positions in the unbounded text |
| `Vsnprintf.RenderLength` | bochs/bios/rombios32.c:205-341 | Every list of items gives the length of its unbounded text cut to the room, or one more than the room in the overflowing case |
| `Vsnprintf.WhatFitsIsWhole` | bochs/bios/rombios32.c:205-341 | A text that fits is written unchanged and does not overflow |
| `Vsnprintf.FittedIsWhole` | bochs/bios/rombios32.c:324-337 | A padded field that fits is written whole; its length is the larger of width and text |
| `Vsnprintf.NumberTextReadsBack` | bochs/bios/rombios32.c:261-318 | The text of a numeric conversion reads back to the argument, or to its magnitude behind a minus sign, in digits of its base, as many as the precision asks for and fit and no spare zeros |
| `Vsnprintf.OtherTextIs` | bochs/bios/rombios32.c:288-323 | A text is cut to a precision that is not zero; a character conversion gives the low byte, or nothing if it is zero |
| `Vsnprintf.TightFieldKeepsText` | bochs/bios/rombios32.c:324-337 | A field that does not fit loses padding first; only a text that alone does not fit is cut |
| `Vsnprintf.TightItem` | bochs/bios/rombios32.c:208-337 | The item at which the room ends gives its text cut to the room, what the room has of its directive, and nothing of what is behind |
| `Vsnprintf.WholeUpTo` | bochs/bios/rombios32.c:208-337 | Every item before it is written whole |
| `FormatOutput.FormatPrints` | bochs/bios/rombios32.c:205-341 | From the text of a format to its output: plain text as it stands; for each directive the zeros or blanks missing to the width on the left and the text of its conversion, width, precision and conversion taking their arguments in this order; a percent sign for what is no conversion |
| `FormatOutput.EveryFormatPrints` | bochs/bios/rombios32.c:205-341 | Every string is a format of this kind, so this holds of all formats |
| `FormatOutput.NumberIsPrinted` | bochs/bios/rombios32.c:221-341 | Plain text, a percent sign, a zero or not, a width and d, o, x, X or p print the text, then the missing zeros or blanks, then the sign and digits of the base that read back to the argument without spare zeros |
| `FormatOutput.ReadsPiece` | bochs/bios/rombios32.c:221-256 | Flag, width, precision, modifier and conversion of any directive are read back from its text, to its end |
| `FormatDigits.DigitsAreDigits` | bochs/bios/rombios32.c:301-308 | Every character is a digit of the base, in lower case |
| `FormatDigits.NumberReadsBack` | bochs/bios/rombios32.c:300-318 | The digit string for base 8, 10 or 16 reads back to the 32-bit value, has as many digits as the value or the precision needs, and no other leading zeros |
| `FormatDigits.DigitsReadBack` | bochs/bios/rombios32.c:301-308 | Digits read back to the value when it fits |
| `FormatDigits.DigitCount` | bochs/bios/rombios32.c:301-308 | The number of digits is that of the value or the precision, at most the room |
| `FormatDigits.NoSpareZeros` | bochs/bios/rombios32.c:301-308 | Leading zeros stand only where the precision asks for them |
| `FormatDigits.PutDigits` | bochs/bios/rombios32.c:301-308 | The loop writes those digits down from the end of the buffer |
| `FormatDigits.PutNumber` | bochs/bios/rombios32.c:300-318 | Digits with their sign or prefix |
| `Vsnprintf.ScanDirective` | bochs/bios/rombios32.c:221-256 | Flag, width, precision and modifier are read as the specification reads them, stars from the arguments |
| `Vsnprintf.Convert` | bochs/bios/rombios32.c:261-323 | The text of a conversion |
| `Vsnprintf.PutField` | bochs/bios/rombios32.c:324-337 | Padding and text in the room left |
| `Vsnprintf.PutRound` | bochs/bios/rombios32.c:208-337 | One turn of the loop writes one run of text and one directive |
| `Vsnprintf.Vsnprintf` | bochs/bios/rombios32.c:194-341 | The buffer holds what the items give in the room, then a NUL; the count is its length; later memory is untouched |
| `TableBytes.ChecksumZeroes` | bochs/bios/rombios32.c:1532-1539 | Storing the negated sum makes a table sum to zero if and only if its checksum byte was zero while it was summed |
| `MpTable.TableIsConsistent` | bochs/bios/rombios32.c:1166-1253 | For every processor count whose table fits: walking by entry size meets exactly the header's entry count and ends exactly at its length, and the table sums to zero |
| `MpTable.WalkEntries` | bochs/bios/rombios32.c:1189-1241 | The entries are one per processor and 17 others |
| `MpTable.CpuEntryAt` | bochs/bios/rombios32.c:1189-1212 | The i-th entry is the processor with APIC id i, and only the first is the bootstrap processor |
| `MpReader.TableReads` | bochs/bios/rombios32.c:1171-1186 | The fields of the header, byte by byte, and the entries behind it |
| `MpReader.EntriesRead` | bochs/bios/rombios32.c:1189-1241 | Every byte of every entry, for any number of processors: processor i with what it reports, the ISA bus, the I/O APIC at 0xfec00000, and for each interrupt but 2 its input, which is 2 for interrupt 0 |
| `MpReader.FloatingReads` | bochs/bios/rombios32.c:1263-1278 | Signature, version and feature bytes of the floating structure |
| `MpTable.FloatingIsConsistent` | bochs/bios/rombios32.c:1263-1278 | The floating structure gives the table's address, its own length in paragraphs, and sums to zero |
| `MpTable.PutCpus` | bochs/bios/rombios32.c:1189-1212 | The loop appends the processor entries |
| `MpTable.PutIrqs` | bochs/bios/rombios32.c:1228-1241 | The loop appends an entry for each input but 2 |
| `MpTable.PatchTable` | bochs/bios/rombios32.c:1242-1247 | Patching length and checksum completes the table |
| `MpTable.MptableInit` | bochs/bios/rombios32.c:1154-1284 | The table stands at the next paragraph, the floating structure with its address at the next paragraph behind it, no other byte of memory changes, and the result is the address behind both |
| `MpTable.BuildTable` | bochs/bios/rombios32.c:1170-1253 | The bytes from the base on become the table, and no others |
| `MpTable.BuildFloating` | bochs/bios/rombios32.c:1263-1278 | The bytes from the base on become the floating structure for the given address, and no others |
| `AcpiSsdt.SsdtIsConsistent` | bochs/bios/rombios32.c:1565-1616 | For every processor count: the header's length is the table's, the scope length decodes to the bytes from the field to the end, the objects read back to one per declared processor with distinct names, and the table sums to zero |
| `AcpiReader.SsdtReadsAs` | bochs/bios/rombios32.c:1541-1616 | Every byte of the header but length and checksum, the name of the scope, and every byte of the i-th processor object |
| `AcpiSsdt.PkgLengthDecodes` | bochs/bios/rombios32.c:1574-1586 | The one-byte and two-byte length encodings decode to the length with the field itself |
| `AcpiSsdt.ReadAll` | bochs/bios/rombios32.c:1592-1610 | A reader of processor objects finds exactly the names written |
| `AcpiSsdt.NamesDiffer` | bochs/bios/rombios32.c:1597-1603 | Different processor numbers have different names |
| `AcpiSsdt.BodyIsKept` | bochs/bios/rombios32.c:1541-1563 | The header keeps the body, gives the length, and the table sums to zero exactly if the checksum byte was zero before |
| `AcpiSsdt.AcpiBuildTableHeader` | bochs/bios/rombios32.c:1541-1563 | The first 36 bytes become the header, the checksum counts the old checksum byte, the rest is untouched |
| `AcpiSsdt.AcpiBuildProcessorSsdt` | bochs/bios/rombios32.c:1565-1616 | The bytes from the start become the table, the rest is untouched, and the result is the length |
| `SmbiosEntry.EntryPointIsConsistent` | bochs/bios/rombios32.c:1957-1993 | Each half of the entry point sums to zero and so does the whole, which is as long as its length byte says |
| `SmbiosEntry.EntryPointReads` | bochs/bios/rombios32.c:1957-1981 | Every field of the entry point in its place: anchors, version, largest structure, length, address and number of structures |
| `SmbiosEntry.SmbiosEntryPointInit` | bochs/bios/rombios32.c:1957-1993 | The bytes left in memory are the entry point |
| `Biossums.AllChecksumsHold` | bochs/bios/biossums.c:130-255 | On every image where each kind of header occurs at most once, covers its own checksum byte and does not overlap the others, the tool finishes if and only if every header passes its checks in the image given; then all headers and the whole image sum to zero together, each header has the checksum calculated on the image given, and nothing but checksum bytes has changed |
| `BiosHeaders.HeadersAreSettled` | bochs/bios/biossums.c:130-242 | By the four letters at a paragraph of such an image: the bytes from there on, as many as the length of that kind says (bytes 9, 8, 4-5, 6-7 and 5), sum to zero after the pass, and only the checksum byte of that kind (10, 10, 7, 31 and 8) may have changed among them |
| `BiosHeaders.FinishesWhenAcceptable` | bochs/bios/biossums.c:301-560 | The tool finishes on such an image if and only if, at every paragraph with one of the five signatures, the least header of that kind and the length it gives end inside and an MP table has zeros in bytes 40 to 42 |
| `BiosHeaders.OnlySingleHeadersChange` | bochs/bios/biossums.c:130-255 | On every image, of any form, on which the tool finishes, the whole sums to zero and every other byte changed is the checksum of a kind that occurs exactly once |
| `Biossums.ShortTableGivesUp` | bochs/bios/biossums.c:428-436 | An image that meets all this and on which the tool gives up: the length of an _MP_ header stands among the bytes wanted zero behind a PCMP header of 32 bytes |
| `Biossums.SameHeader` | bochs/bios/biossums.c:130-242 | A header passes its checks when its turn comes if and only if it passes them in the image given |
| `Biossums.SameTail` | bochs/bios/biossums.c:431-435 | No checksum set earlier changes whether the bytes behind a PCMP header are zero |
| `Biossums.KindsFinish` | bochs/bios/biossums.c:130-242 | After any number of kinds the tool has given up if and only if a header of those kinds fails its checks in the image given |
| `Biossums.SettledIsFresh` | bochs/bios/biossums.c:133-144 | A header that sums to zero has the checksum calculated on the image given, so the order of the kinds does not matter |
| `Biossums.FixKeepsHits` | bochs/bios/biossums.c:141-144 | On any image, setting a checksum neither makes nor breaks a signature of any kind |
| `Biossums.ChecksumsAreApart` | bochs/bios/biossums.c:141-144 | No checksum byte of a well-formed image lies in another header |
| `Biossums.HitsAreAll` | bochs/bios/biossums.c:334-351 | The scan finds every paragraph with the signature except the first, once, in increasing order |
| `Biossums.StepSettles` | bochs/bios/biossums.c:130-150 | Handling one kind makes its header sum to zero and keeps the others that were done |
| `Biossums.KindsSettle` | bochs/bios/biossums.c:130-242 | As long as the tool has not given up, the headers of the kinds done sum to zero and only their checksums have changed |
| `Biossums.HeaderSums` | bochs/bios/biossums.c:314-331 | The calculated value makes the header sum to zero |
| `Biossums.ImageSums` | bochs/bios/biossums.c:288-299 | The last byte makes the image sum to zero |
| `Biossums.GetOffset` | bochs/bios/biossums.c:334-351 | The next header of a kind behind an offset, with none in between, or none |
| `Biossums.CalcValue` | bochs/bios/biossums.c:314-331 | Fails exactly where a check fails; otherwise the negated sum without the checksum byte, in byte arithmetic |
| `Biossums.GetLength` | bochs/bios/biossums.c:429-430 | Each kind's length field |
| `Biossums.FixHeaders` | bochs/bios/biossums.c:130-150 | The loop over the headers of one kind sets the checksum only if there is one header, and gives up at the first that fails a check |
| `Biossums.Pass` | bochs/bios/biossums.c:130-255 | The whole pass ends as its specification does, on every image |
| `CanonicalPath.CanonicalSlashesLead` | bochs/ltdl.c:2089-2150 | Every slash of a canonical path is followed by an ordinary character |
| `CanonicalPath.EmptyElementsOfCanonical` | bochs/ltdl.c:2089-2150 | A canonical path has an empty element if and only if the path has an all-slash element behind an ordinary character; it is empty if and only if there is no ordinary character |
| `CanonicalPath.CanonicalTwice` | bochs/ltdl.c:2089-2150 | Canonicalising again changes nothing if and only if there is no such element |
| `CanonicalPath.FixedPoints` | bochs/ltdl.c:2089-2150 | The strings that canonicalising leaves alone are those whose slashes lead and whose elements are not empty |
| `CanonicalPath.EndsWithColonWhen` | bochs/ltdl.c:2111-2117 | A canonical path ends with a separator if and only if a separator stands before a slash behind the last ordinary character |
| `CanonicalPath.SlashElementShows` | bochs/ltdl.c:2089-2150 | The path a:/ becomes a: and, canonicalised again, a; an empty directory name is visited for it |
| `PathElements.CanonicalNamesDirectories` | bochs/ltdl.c:2089-2150 | The elements of a canonical path that are not empty are those of the path that have an ordinary character, in order, each with its runs of slashes cut to one and none at its end |
| `PathElements.SqueezedKeepsComponents` | bochs/ltdl.c:2110-2135 | Such an element has the components of the original, in order, and is absolute if it is |
| `CanonicalPath.DirectoriesOfPath` | bochs/ltdl.c:2186-2240 | The directories visited are the elements of the canonical path; an empty name is visited exactly in the two cases given; for paths without all-slash elements joining restores the canonical path |
| `CanonicalPath.CanonicalizePath` | bochs/ltdl.c:2089-2150 | The loop leaves the canonical path and its NUL |
| `CanonicalPath.ForeachDirInPath` | bochs/ltdl.c:2186-2240 | Canonicalising, splitting and walking visits those directories in order |
| `Argz.WalkMeetsElements` | bochs/ltdl.c:470-629 | Walking the vector made from any string meets its elements in order without the empty ones before the last; it meets exactly the elements if and only if no delimiter comes first or follows another |
| `Argz.JoinRestores` | bochs/ltdl.c:470-657 | Joining that vector restores the string if and only if no delimiter comes first or follows another |
| `Argz.FoldedSplits` | bochs/ltdl.c:496-514 | The vector, split at its NULs, has those elements |
| `Argz.WalkSplits` | bochs/ltdl.c:595-629 | Following the entries of a vector is splitting it at its NULs |
| `Argz.FoldedIsSwapped` | bochs/ltdl.c:496-514 | Without such delimiters the vector is the string with its delimiters replaced; with one it is shorter |
| `Argz.ArgzCreateSep` | bochs/ltdl.c:470-523 | The folding loop leaves the vector and its length |
| `Argz.ArgzNext` | bochs/ltdl.c:595-629 | The entry behind an entry, or none at the end; none at all without memory |
| `Argz.ArgzStringify` | bochs/ltdl.c:640-657 | NULs between the first and the last byte become the separator, in place, if and only if the vector has at least two bytes; with fewer the counter wraps and the first access is outside |

## Left out

- Timers: absolute tick counts are unbounded integers, so the wrap of a 64-bit sum is not modelled; the conversions with the floating `m_ips` are left out, and microseconds are an input.
- Timers: callbacks that themselves advance time, `exit`, save and restore, A20, IRQ and port handling, `setTimerParam`, the timers' text ids and the nanosecond variants.
- Timers: calls the original answers with a panic (an index out of the table, the null timer) leave the state unchanged.
- Opcode translator: writing, compiling and loading the generated file; the generated program is an instruction sequence inside the emitted loop.
- Opcode translator: accumulators are unbounded integers, so overflow is not modelled; the operands of a move are read left to right, which the original leaves to its compiler.
- Queues: the singly linked and doubly linked list macros, which add only easy members; elements carry one link field.
- Segments: the alignment test inside the aligned address generators, the TLB paths, system reads and writes, 64-bit mode.
- PCI: the command register, interrupt routing, bridges and the special-cased device classes; configuration space is the value each register reads back, and a display adapter's ROM is copied by the ROM pass.
- PCI: `memcpy` from an expansion ROM that overlaps the shadow area.
- Bounded print: arguments are an infinite series, each readable as a word or as a text; reading past the last or with the wrong type is undefined in the original. Widths and precisions are unbounded integers. Null texts are not modelled.
- Tables: the SMBIOS structures behind the entry point, the other ACPI tables and the EBDA and QEMU variants.
- Checksum tool: reading and writing the file, padding, and the messages; giving up leaves the file as it was, so the image is then unspecified.
- Paths: allocation failure, the Windows separators, `argz_insert`, `argz_append`, and everything about loading modules.
