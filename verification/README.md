# Verified models of PULPino's software

Dafny models of the most intricate parts of the software around the PULPino microcontroller, and proofs of what they are for.
`dafny verify dfyconfig.toml` checks everything. Code that works in place is a class or a method over arrays and linked
nodes, proved against a function of the old state; the results about runs, round trips and meanings are lemmas about those
functions.

**Co-routine scheduler** (`Ring`, `KernelList`, `ListWorld`, `KernelHeap`, `WakeLog`, `CoRoutineInvariant`, `CoRoutineStep`,
`CoRoutineProgress`, `CoRoutine`, `DelayLength`). The kernel's intrusive list is a heap of nodes in `KernelList`, refining
the value `Ring`: the items in order and the place of the walking index; `KernelHeap` is one heap of all lists. The scheduler
runs on that heap. What it does is stated on a `World` of rings, one for each ready, delayed, pending and event list, which
is ghost: every list operation is made on linked nodes, and they go on standing for the world. Interrupts, any number of
them, come between any two critical sections (`Scheduler.Interrupts`); inside the co-routine functions that do not enable
them, `UnblockStep` shows that one more would do no harm. Tick counts wrap; absolute time and the history of sleeps are ghost
state, and `Punctual` says what it means to be on time. Tick width and the number of priorities are parameters; the
priorities fit a tick value.

**Linker back end.** `RelaxImage`, `RelaxAlign` and `RelaxDelete` delete bytes from a section with its relocations and
symbols, and align code; `RelaxNop` executes the padding that is kept; `PcrelWord`, `Pcrel` and `PcrelSection` resolve the
two halves of pc-relative addresses; `DynRelocMerge` merges the dynamic relocation lists of two symbols; `GotPlt` sets space
aside in the GOT and PLT, `GotContent` fills the GOT, and `GotLink` does one after the other; `PltSection` writes the code of
the PLT, and `PltCode` executes it; `ImportFormat`, `ImportSection`, `ImportReader` and `ImportAdjust` size, write, read and
patch the import sections. Addresses are numbers modulo 2^64, `unsigned int` words numbers modulo 2^32 (`MachineWord`).

**AES-CBC** (`AesColumn`, `AesSbox`, `AesInverse`, `AesWord`, `AesCipher`, `AesCbc`): the arithmetic of GF(2^8), its packed
form, the cipher and the equivalent inverse cipher of FIPS 197, and chaining as in NIST SP 800-38A.

**Compiler driver specs** (`SwitchLiveness`, `SpecScan`, `SpecTree`, `SpecMeaning`, `SpecArgument`, `SpecScanner`): which
command line switches are live, and the scan of spec texts. The pointer scan refines a recursive reading of the text, which
on the printed text of a tree agrees with evaluating the tree, and its arguments are the words of the chosen text.

**Numeric kernels** (`FftStage`, `BitReversal`, `Complex`, `FourierTransform`, `FourierTable`, `KeccakStep`, `KeccakBit`,
`Keccak`): the index arithmetic of a radix-2 transform and that it computes the transform; a Keccak permutation in place.

**Flash image and boot loader** (`FlashImage`, `FlashLayout`, `BootLoader`): a writer and a reader that must agree.

Where the code does not do what it is for on every input, one member has the exact condition and another an input on which
it fails, as a lemma about values or as a method whose contract says what the model does there:

- delays: `DelayLasts`, and `ZeroDelayAtTheLastTick`;
- symbol extents: `EndsStand`, and `SizeLostAtTheEnd` (a symbol right behind deleted bytes);
- hash entries: `InputSection.AdjustGlobals`, and `ListedTwice`;
- GOT words: `GotLinks.LayOutAndRelocate` and `GotSection.RelocateAll`, and `GotContents.LocalsCollide` (a local symbol
  with GD and IE access);
- calls through the PLT: `CallsArrive` (the linker does not check how far an entry is from its word);
- import offsets: `ExpressionBack` and `WordShifts`, and `OffsetsLost` and `ShiftLost`;
- remembered switches: `MemoryAgrees`, and `MemoryMatters`;
- polarities: `PolaritiesOppose`, and `BothLive` (a base name that begins with no-);
- lengths of the transform: `TwiddlesInTable` and `TableFitsOneLength`, and `TwiddleOutside` and `FourPoints`;
- booting: `BuildAndBoot`, and `BootWithHole` and `BootWithOverlap`; the copies' extent: `StaysInside`.

## Model

| member | source | states |
|---|---|---|
| `CoRoutines.Scheduler.AnyRun` | sw/apps/freertos/Source/croutine.c:320-347 | On linked lists, which stand for the rings of the model throughout: over any run, whatever tick counts the calls see and whatever interrupts come between them, the history of sleeps only grows and stays punctual: every tick wake-up falls exactly at the end of its sleep, every event wake-up inside it. At the end a co-routine is on its ready list if awake, on a delayed list if asleep, and nobody asleep is due |
| `CoRoutines.Scheduler.Schedule` | sw/apps/freertos/Source/croutine.c:320-347 | One call on linked lists, which go on standing for the rings of the model. Names the three states a call passes through: those that were pending are ready in the first; exactly the sleeps that end by the new tick have been ended in the second; the third is the choice of the longest-waiting co-routine of the highest ready priority, or nobody is ready anywhere. While the chosen one runs, nobody else changes its ready or delayed list |
| `CoRoutines.Scheduler.CheckDelayedList` | sw/apps/freertos/Source/croutine.c:262-317 | The tick count is taken to the given one over any number of ticks and wraps, absolute time advances by the unsigned difference, and exactly the sleeps that end on the way are ended, each logged at its own tick |
| `CoRoutines.Scheduler.NextTick` | sw/apps/freertos/Source/croutine.c:267-282 | Time advances by one; when the count wraps, only delays of zero asked for at that very tick are left on the list that goes out of force, and the lists change places |
| `CoRoutines.Scheduler.WakeHead` | sw/apps/freertos/Source/croutine.c:287-312 | One expired sleeper goes, both items in one critical section, from its lists to its ready list, with its wake-up logged at the tick it was due |
| `CoRoutines.Scheduler.HeadIsDue` | sw/apps/freertos/Source/croutine.c:285-289 | Whether the wake value of the head has been reached, though interrupts come before its owner is read, before its value is read and before the answer is used |
| `CoRoutines.Scheduler.WakeExpired` | sw/apps/freertos/Source/croutine.c:285-313 | Afterwards nobody is on the current delayed list whose sleep ends by now, with interrupts in every gap between the critical sections |
| `CoRoutines.Scheduler.TakeExpired` | sw/apps/freertos/Source/croutine.c:296-309 | Both items of the expired head leave their lists, its sleep ends at this very tick, and the current delayed list gets shorter |
| `CoRoutines.Scheduler.ReadyPending` | sw/apps/freertos/Source/croutine.c:246-257 | One pending co-routine is readied and can no longer be unblocked, though interrupts come while its items are in transit |
| `CoRoutines.Scheduler.CheckPendingReadyList` | sw/apps/freertos/Source/croutine.c:239-259 | Terminates whatever interrupts come; whoever was pending at the start is ready at the end, and whoever waited for no event has not been touched |
| `CoRoutines.Scheduler.Signal` | sw/apps/freertos/Source/croutine.c:370-391 | With the emptiness test of its caller: of a list where somebody waits, the first goes to the end of the pending list, and everybody else stays where they are; of an empty one, nothing changes |
| `CoRoutines.Scheduler.SignalFirst` | sw/apps/freertos/Source/croutine.c:239-260 | An interrupt signals an event list, any interrupts follow, and the pending list is checked: whoever waited first is on its ready list, awake, and waits for nothing any more |
| `CoRoutines.Scheduler.RemoveFromEventList` | sw/apps/freertos/Source/croutine.c:370-391 | The head of the event list goes to the end of the pending list, off the event list, and nobody else moves; the answer tells whether it has at least the priority of the current co-routine |
| `CoRoutines.Scheduler.AddToReady` | sw/apps/freertos/Source/croutine.c:109-116 | The item goes behind all but the last run of its ready list, and no ready list above the top priority is left non-empty |
| `CoRoutines.Scheduler.FindReady` | sw/apps/freertos/Source/croutine.c:328-336 | The top priority comes to be the highest whose ready list is not empty, or every ready list is empty |
| `CoRoutines.Scheduler.SelectNext` | sw/apps/freertos/Source/croutine.c:328-341 | Chooses the head of the queue of the highest non-empty ready list and sends it to the back, or finds every ready list empty |
| `CoRoutines.Scheduler.JoinDelayedList` | sw/apps/freertos/Source/croutine.c:217-235 | The item in transit goes on the list that its wake value belongs to, and its event item, if there is an event list, on that one; the sleep will end when the history says |
| `CoRoutines.Scheduler.AddToDelayedList` | sw/apps/freertos/Source/croutine.c:201-236 | For every delay, zero included: the wake value wraps; the item is on the current or the overflow list according to whether it did, its sleep is in the history with the length it will have, and with an event list the event item waits there too; nobody else moves |
| `CoRoutines.Scheduler.LeaveReadyList` | sw/apps/freertos/Source/croutine.c:207-215 | The running co-routine is on no list, its wake value is set, and its sleep is logged |
| `CoRoutines.Scheduler.Create` | sw/apps/freertos/Source/croutine.c:144-198 | The new co-routine is ready at its clamped priority, waits for nothing, and is the current one if it is the first; nobody else moves |
| `CoRoutines.Scheduler.Prepare` | sw/apps/freertos/Source/croutine.c:153-159 | The lists are made for the first co-routine and not again |
| `CoRoutines.Scheduler.NewItems` | sw/apps/freertos/Source/croutine.c:168-181 | A new control block has its two items in the heap, on no list |
| `CoRoutines.Scheduler.TakeOff` | sw/apps/freertos/Source/list.c:212-238 | The linked lists and the rings they stand for lose the same item, found through its control block |
| `CoRoutines.Scheduler.PutLast` | sw/apps/freertos/Source/list.c:116-142 | Both get it behind the walking index |
| `CoRoutines.Scheduler.PutInOrder` | sw/apps/freertos/Source/list.c:145-209 | Both get it at its value |
| `CoRoutines.Scheduler.NextOwner` | sw/apps/freertos/Source/include/list.h:318-328 | Both indices advance, and the owner delivered is that of the item under the ring index |
| `CoRoutines.Scheduler.HeadOwner` | sw/apps/freertos/Source/include/list.h:348-348 | The owner read from the first node is that of the first item |
| `CoRoutines.Scheduler.IsOnList` | sw/apps/freertos/Source/croutine.c:305-305 | The back pointer is null exactly when the item is on no list |
| `CoRoutines.Scheduler.constructor` | sw/apps/freertos/Source/croutine.c:87-97 | Nothing has been created, and the empty event lists stand for those of the model |
| `CoRoutines.Scheduler.InitialiseLists` | sw/apps/freertos/Source/croutine.c:350-367 | The linked lists are made one by one, all empty, and the two delayed lists have different roles |
| `CoRoutineInvariants.OverflowIsBelow` | sw/apps/freertos/Source/croutine.c:217-222 | Every wake value on the overflow list is below the tick count, but for those of zero delays asked for at the last tick before a wrap |
| `CoRoutineInvariants.CurrentIsAbove` | sw/apps/freertos/Source/croutine.c:285-293 | Once a tick has been dealt with, every wake value on the current delayed list exceeds the tick count, but for those of zero delays asked for at this tick |
| `CoRoutineInvariants.UnblockMoves` | sw/apps/freertos/Source/croutine.c:378-380 | What one interrupt does: one event item goes from its event list to the end of the pending list; both lists stay in order, all others stay as they are |
| `CoRoutineInvariants.UnblockIsSignal` | sw/apps/freertos/Source/croutine.c:378-380 | Taking the head off and putting it last is the whole of what a signal does: the event lists in their order less that head, the pending list with it behind |
| `CoRoutineInvariants.EventMoveKeeps` | sw/apps/freertos/Source/croutine.c:370-391 | An interrupt, wherever it comes, keeps every generic item on exactly one ready or delayed list (the one in transit aside) and every event item on at most one event or pending list, there only while its owner is delayed |
| `CoRoutineInvariants.EventStepKeepsTiming` | sw/apps/freertos/Source/croutine.c:370-391 | An interrupt disturbs no wake time |
| `CoRoutineInvariants.RemoveGenericKeeps` | sw/apps/freertos/Source/croutine.c:256-256 | A generic item taken off its list is in transit, and nobody is lost or duplicated |
| `CoRoutineInvariants.InsertGenericKeeps` | sw/apps/freertos/Source/croutine.c:115-115 | The item in transit, put on its ready list or a delayed list, is in its place again |
| `CoRoutineInvariants.RemoveEventKeeps` | sw/apps/freertos/Source/croutine.c:305-308 | An event item taken off its list leaves all others in their places |
| `CoRoutineInvariants.InsertEventKeeps` | sw/apps/freertos/Source/croutine.c:230-235 | Only a delayed co-routine may be put on an event list, which stays in priority order |
| `CoRoutineInvariants.EmptyIsEmpty` | sw/apps/freertos/Source/include/list.h:291-291 | With fewer than 256 co-routines the one-byte counter is zero exactly when the list is empty |
| `CoRoutineSteps.UnblockStep` | sw/apps/freertos/Source/croutine.c:370-391 | The whole invariant holds after an interrupt, whichever co-routine is in transit |
| `CoRoutineSteps.ReadyStep` | sw/apps/freertos/Source/croutine.c:109-116 | Readying the co-routine in transit keeps the whole invariant, the bound on the top priority included |
| `CoRoutineSteps.TakeEventStep` | sw/apps/freertos/Source/croutine.c:252-252 | Taking an event item off keeps the invariant |
| `CoRoutineSteps.TakeGenericStep` | sw/apps/freertos/Source/croutine.c:302-302 | Taking a generic item off keeps the invariant; on a ready list its owner waits for no event |
| `CoRoutineSteps.DelayStep` | sw/apps/freertos/Source/croutine.c:217-228 | An item whose wake value stands for the end of its sleep goes on the delayed list that keeps the invariant |
| `CoRoutineSteps.WaitStep` | sw/apps/freertos/Source/croutine.c:230-235 | Waiting for an event while asleep keeps the invariant |
| `CoRoutineSteps.TickStep` | sw/apps/freertos/Source/croutine.c:269-269 | A tick that does not wrap keeps every wake value due when it was |
| `CoRoutineSteps.OutgoingIsDrained` | sw/apps/freertos/Source/croutine.c:273-282 | When the count is about to wrap, only delays of zero asked for at this very tick are left on the current delayed list; without them it is empty |
| `CoRoutineSteps.WrapStep` | sw/apps/freertos/Source/croutine.c:273-282 | Swapping the lists at a wrap keeps every sleep due when it was, also those left behind on the outgoing list |
| `CoRoutineSteps.TickDoneStep` | sw/apps/freertos/Source/croutine.c:285-293 | Once the head of the current list is above the tick count, nobody on it is due: the sorted order makes looking further needless |
| `CoRoutineSteps.CreateStep` | sw/apps/freertos/Source/croutine.c:168-184 | A new control block keeps the invariant |
| `CoRoutineSteps.InitialStep` | sw/apps/freertos/Source/croutine.c:350-367 | The empty lists satisfy the invariant |
| `CoRoutineSteps.LowerTopStep` | sw/apps/freertos/Source/croutine.c:329-336 | Walking down past an empty ready list keeps the bound on the top priority |
| `CoRoutineSteps.ChosenStep` | sw/apps/freertos/Source/croutine.c:328-341 | The one chosen is the head of the queue of the highest non-empty ready list, and picking it keeps the invariant |
| `CoRoutineSteps.NobodyReadyStep` | sw/apps/freertos/Source/croutine.c:331-335 | When the walk has reached the bottom, every ready list is empty |
| `CoRoutineSteps.NobodyOversleeps` | sw/apps/freertos/Source/croutine.c:262-317 | Between the steps a co-routine is awake exactly when it is on its ready list, and the sleep of one on a delayed list ends later than now |
| `CoRoutineProgress.PendingHeadStep` | sw/apps/freertos/Source/croutine.c:251-252 | Unblocking one pending co-routine leaves strictly fewer that interrupts can still unblock, and wakes it within its sleep |
| `CoRoutineProgress.PendingAreReady` | sw/apps/freertos/Source/croutine.c:239-259 | With the pending list empty, whoever was pending at the start is ready |
| `CoRoutineProgress.TakeSleeper` | sw/apps/freertos/Source/croutine.c:256-256 | The co-routine an event unblocked is still on its delayed list, and can be taken off it |
| `CoRoutineProgress.InterruptForwards` | sw/apps/freertos/Source/croutine.c:370-391 | Interrupts undo nothing of what has been readied |
| `CoRoutineProgress.ExpiredHeadStep` | sw/apps/freertos/Source/croutine.c:287-302 | The head of the current list whose value has been reached is a sleeper whose sleep ends exactly now |
| `CoRoutineProgress.ExpiredEventStep` | sw/apps/freertos/Source/croutine.c:305-308 | Its event item, if it waits as well, comes off in the same critical section |
| `CoRoutineProgress.AllWoken` | sw/apps/freertos/Source/croutine.c:284-313 | After a tick nobody whose sleep ends by then is still asleep |
| `CoRoutineProgress.TicksBetween` | sw/apps/freertos/Source/croutine.c:266-266 | The unsigned difference of two tick counts is the number of ticks between them, across one wrap |
| `CoRoutineProgress.WakeIsDue` | sw/apps/freertos/Source/croutine.c:207-228 | The wrapped wake value, on the list it is put on, stands for now plus the delay |
| `DelayLengths.DelayLasts` | sw/apps/freertos/Source/croutine.c:201-236 | On the scheduler, whatever tick counts it sees after a call with delay d: the sleep goes on until its length has passed and is then ended by the tick at its end. That length is d if and only if d is not zero; for zero it is one tick, or two whole turns of the count when asked for at the last tick before a wrap |
| `DelayLengths.ZeroDelayAtTheLastTick` | sw/apps/freertos/Source/croutine.c:201-236 | With 16-bit ticks: a co-routine created at tick 0 that asks for a delay of zero at tick 0xffff is still asleep at time 0x1ffff, until 0x2ffff |
| `DelayLengths.SleepGoesOn` | sw/apps/freertos/Source/croutine.c:262-317 | One call of prvCheckDelayedList, however many ticks it takes, keeps a sleep as it should be |
| `WakeLogs.TickWakesOnTime` | sw/apps/freertos/Source/croutine.c:262-317 | In a punctual history every tick wake-up at time t ends the last sleep of that co-routine, of exactly t less its start ticks, with nothing in between |
| `Rings.InsertIsStable` | sw/apps/freertos/Source/list.c:145-209 | In an ascending list the new item goes behind exactly the items of no greater value: the list stays ascending, equal values first in, first out |
| `Rings.SplicedAscending` | sw/apps/freertos/Source/list.c:145-209 | Inserting by value keeps an ascending list ascending |
| `Rings.InsertPositionUnique` | sw/apps/freertos/Source/list.c:192-197 | The search result is the only position behind every smaller or equal and before the first greater value |
| `Rings.InsertEndQueue` | sw/apps/freertos/Source/list.c:116-142 | A new item waits behind every other item except the one picked last |
| `Rings.RemoveQueue` | sw/apps/freertos/Source/list.c:212-238 | Removing an item leaves the others queued in the order they had, wherever the index stood |
| `Rings.NextRotates` | sw/apps/freertos/Source/include/list.h:318-328 | A pick delivers the head of the queue and sends it to the back |
| `Rings.PicksAreFair` | sw/apps/freertos/Source/include/list.h:318-328 | Over an unchanged list of n items, k picks (k at most n) deliver the first k of the queue, so n picks run each item once |
| `KernelLists.ListItem.constructor` | sw/apps/freertos/Source/list.c:104-113 | A new item is recorded as being on no list |
| `KernelLists.List.constructor` | sw/apps/freertos/Source/list.c:79-101 | A new list is a well-formed ring without items, its index at the end marker |
| `KernelLists.List.IsEmpty` | sw/apps/freertos/Source/include/list.h:291-291 | Tells whether the counter, modulo 256, is zero |
| `KernelLists.List.Link` | sw/apps/freertos/Source/list.c:199-202 | Four pointer writes give a ring again, with the item at the intended position and the index where it was |
| `KernelLists.List.Add` | sw/apps/freertos/Source/list.c:199-208 | The pointer ring, counter and back pointers refine insertion at a position of the item sequence |
| `KernelLists.List.InsertEnd` | sw/apps/freertos/Source/list.c:116-142 | Refines insertion just behind the walking index |
| `KernelLists.List.FindPlace` | sw/apps/freertos/Source/list.c:164-197 | The search terminates because of the end marker, and finds the position before the first greater value |
| `KernelLists.List.Insert` | sw/apps/freertos/Source/list.c:145-209 | Refines insertion at that position, and an ascending list stays ascending |
| `KernelLists.List.Unlink` | sw/apps/freertos/Source/list.c:218-228 | Two pointer writes give the ring without the item; the index steps back if it stood on it |
| `KernelLists.List.Remove` | sw/apps/freertos/Source/list.c:212-238 | Refines removal from the list that the item names; the item is on no list, and the result is the number left modulo 256 |
| `KernelLists.List.NextEntry` | sw/apps/freertos/Source/include/list.h:318-328 | Refines the walk of the index past the end marker |
| `KernelLists.List.HeadEntry` | sw/apps/freertos/Source/include/list.h:348-348 | Delivers the first item |
| `KernelLists.List.InsertedAscending` | sw/apps/freertos/Source/list.c:145-209 | The heap list after an insertion by value is ascending |
| `KernelLists.SpliceLinks` | sw/apps/freertos/Source/list.c:199-202 | Links written around one node turn a ring into a ring with one node more: next and previous are inverse |
| `KernelLists.CutLinks` | sw/apps/freertos/Source/list.c:218-219 | Links written around one node turn a ring into a ring with one node less |
| `KernelLists.ListsAreApart` | sw/apps/freertos/Source/list.c:206-206 | The back pointers keep two well-formed lists from sharing a node |
| `KernelHeaps.KernelHeap.Remove` | sw/apps/freertos/Source/list.c:212-238 | In one heap of any number of lists, unlinking a node takes the heap from standing for a world to standing for that world without the item: every other list and item is as it was |
| `KernelHeaps.KernelHeap.InsertEnd` | sw/apps/freertos/Source/list.c:116-142 | Likewise linking a free node behind the walking index of one list |
| `KernelHeaps.KernelHeap.Insert` | sw/apps/freertos/Source/list.c:145-209 | Likewise linking a free node into a sorted list by its value |
| `KernelHeaps.KernelHeap.NextEntry` | sw/apps/freertos/Source/include/list.h:318-328 | Likewise walking the index of one list; the node delivered is that of the item the world says |
| `KernelHeaps.KernelHeap.SetValue` | sw/apps/freertos/Source/croutine.c:215-215 | Likewise setting the value of a node that is on no list |
| `KernelHeaps.KernelHeap.NewItem` | sw/apps/freertos/Source/list.c:104-113 | Likewise a new node, on no list |
| `KernelHeaps.KernelHeap.HeadEntry` | sw/apps/freertos/Source/include/list.h:348-348 | The first node is that of the first item |
| `KernelHeaps.KernelHeap.IsEmpty` | sw/apps/freertos/Source/include/list.h:291-291 | The counter test answers as in the world |
| `KernelHeaps.KernelHeap.NewList` | sw/apps/freertos/Source/list.c:79-101 | Likewise one more list, empty |
| `KernelHeaps.KernelHeap.constructor` | sw/apps/freertos/Source/list.c:79-101 | A heap without lists stands for the world without any |
| `KernelHeaps.KernelHeap.IsSurrounded` | sw/apps/freertos/Source/list.c:206-206 | In a heap that stands for a world, the nodes of one list and a free node are nodes of no other list |
| `ListWorlds.InsertAtKeeps` | sw/apps/freertos/Source/list.c:199-208 | In a world of many lists, adding a free item keeps contents and back pointers in agreement and leaves every other list alone |
| `ListWorlds.LooksEmpty` | sw/apps/freertos/Source/include/list.h:291-291 | Up to 255 items the one-byte counter tells whether a list is empty; one of 256 looks so |
| `ListWorlds.InsertEndKeeps` | sw/apps/freertos/Source/list.c:116-142 | Likewise at the end |
| `ListWorlds.InsertKeeps` | sw/apps/freertos/Source/list.c:145-209 | Likewise by value, and the list stays sorted |
| `ListWorlds.RemoveKeeps` | sw/apps/freertos/Source/list.c:212-238 | Likewise when an item is taken off |
| `ListWorlds.RemoveKeepsSorted` | sw/apps/freertos/Source/list.c:212-238 | A sorted list without one item is sorted |
| `ListWorlds.NewItemKeepsSorted` | sw/apps/freertos/Source/croutine.c:215-215 | Setting the value of an item that is on no list disorders none |
| `RelaxImages.LabelsStand` | riscy-toolchain/tweaks/binutils/bfd/elfnn-riscv.c:3425-3433 | One deletion leaves a label where it should be if and only if it was not strictly inside the deleted bytes |
| `RelaxImages.EndsStand` | riscy-toolchain/tweaks/binutils/bfd/elfnn-riscv.c:3435-3441 | A symbol with neither end strictly inside keeps its extent if and only if it is empty, or does not start exactly where non-empty deleted bytes end |
| `RelaxImages.SizeLostAtTheEnd` | riscy-toolchain/tweaks/binutils/bfd/elfnn-riscv.c:3435-3441 | Concretely: a symbol of 20 bytes right behind 4 deleted ones is left with 16, since the size test reads the value already moved |
| `RelaxImages.RelocsStand` | riscy-toolchain/tweaks/binutils/bfd/elfnn-riscv.c:3420-3422 | A relocation of a byte that is left still refers to it |
| `RelaxImages.LabelsKept` | riscy-toolchain/tweaks/binutils/bfd/elfnn-riscv.c:3402-3471 | After any run of deletions, a label never strictly inside deleted bytes is where its original position is now |
| `RelaxImages.ExtentsKept` | riscy-toolchain/tweaks/binutils/bfd/elfnn-riscv.c:3402-3471 | After any run, so is the end of a symbol that met the condition each time: its extent is its old one minus the deleted bytes |
| `RelaxImages.RelocsKept` | riscy-toolchain/tweaks/binutils/bfd/elfnn-riscv.c:3402-3471 | After any run, a relocation of a surviving byte refers to that byte and has not changed otherwise |
| `RelaxImages.BytesKept` | riscy-toolchain/tweaks/binutils/bfd/elfnn-riscv.c:3413-3415 | The bytes left after any run are the original ones at the surviving positions |
| `RelaxImages.AliveAscends` | riscy-toolchain/tweaks/binutils/bfd/elfnn-riscv.c:3413-3415 | Surviving positions keep their order, and none survives twice |
| `RelaxDeletes.InputSection.Delete` | riscy-toolchain/tweaks/binutils/bfd/elfnn-riscv.c:3402-3471 | Contents, relocations and local symbols change as by one deletion, and each hash entry as often as the table lists it; if it lists each once, the section goes from standing for an image to standing for that image after the deletion |
| `RelaxDeletes.InputSection.MoveDown` | riscy-toolchain/tweaks/binutils/bfd/elfnn-riscv.c:3413-3415 | The overlapping move leaves the contents without the deleted range |
| `RelaxDeletes.InputSection.AdjustRelocs` | riscy-toolchain/tweaks/binutils/bfd/elfnn-riscv.c:3420-3422 | Every relocation, and only its offset, moves as the range tests say |
| `RelaxDeletes.InputSection.AdjustLocals` | riscy-toolchain/tweaks/binutils/bfd/elfnn-riscv.c:3424-3443 | Every local symbol of this section, and no other, is moved and resized |
| `RelaxDeletes.InputSection.AdjustGlobals` | riscy-toolchain/tweaks/binutils/bfd/elfnn-riscv.c:3445-3468 | Every hash entry is adjusted as often as the table lists it |
| `RelaxDeletes.InputSection.AdjustGlobal` | riscy-toolchain/tweaks/binutils/bfd/elfnn-riscv.c:3449-3467 | One entry, if it is defined in this section, is moved and resized |
| `RelaxDeletes.InputSection.RelaxAlign` | riscy-toolchain/tweaks/binutils/bfd/elfnn-riscv.c:3679-3722 | Fails and changes nothing exactly when there is too little padding; otherwise the image is the aligned one, and the relocation is gone |
| `RelaxDeletes.InputSection.RelaxAlignHere` | riscy-toolchain/tweaks/binutils/bfd/elfnn-riscv.c:3866-3910 | With the address that the relocation stands for: what follows the padding comes to an aligned address of the output, the next from the start of the padding on. Whoever executes an even piece of padding that is kept after a deletion is behind it then with all registers as they were; the bytes before the padding stay, and so does everything if nothing is deleted |
| `RelaxDeletes.InputSection.FindAlignment` | riscy-toolchain/tweaks/binutils/bfd/elfnn-riscv.c:3689-3691 | The doubling loop finds the alignment without overflow, for addends below 2^63 |
| `RelaxDeletes.InputSection.FindGap` | riscy-toolchain/tweaks/binutils/bfd/elfnn-riscv.c:3693-3695 | The address arithmetic, wrapping at 2^64, gives the gap |
| `RelaxDeletes.InputSection.WriteNops` | riscy-toolchain/tweaks/binutils/bfd/elfnn-riscv.c:3711-3717 | The two kinds of instruction are written over the start of the padding and nothing else |
| `RelaxDeletes.InputSection.FillAndDelete` | riscy-toolchain/tweaks/binutils/bfd/elfnn-riscv.c:3711-3721 | Filling and deleting together give the abstract deletion from the filled image |
| `RelaxDeletes.ListedTwice` | riscy-toolchain/tweaks/binutils/bfd/elfnn-riscv.c:3449-3468 | Concretely: of four bytes deleted before it, an entry that the table lists twice loses eight |
| `RelaxAlignments.CodeIsAligned` | riscy-toolchain/tweaks/binutils/bfd/elfnn-riscv.c:3688-3721 | In a section at any address, what followed the padding is at an aligned address afterwards, and no earlier address behind the start of the padding is aligned |
| `RelaxAlignments.AlignmentIsLeast` | riscy-toolchain/tweaks/binutils/bfd/elfnn-riscv.c:3689-3691 | The alignment is a power of two above the addend, and no smaller power is |
| `RelaxAlignments.GapIsLeast` | riscy-toolchain/tweaks/binutils/bfd/elfnn-riscv.c:3693-3695 | The gap leads to an aligned address, is less than the alignment, and no shorter gap does, also across a wrap of the address space |
| `RelaxAlignments.NopsTile` | riscy-toolchain/tweaks/binutils/bfd/elfnn-riscv.c:3711-3717 | The instructions written fill the gap exactly when it is even |
| `RelaxAlignments.CodeFollowsGap` | riscy-toolchain/tweaks/binutils/bfd/elfnn-riscv.c:3711-3721 | What followed the padding is now right behind the gap, what came before has not changed, and an even gap holds whole instructions |
| `RelaxNops.NopsDoNothing` | riscy-toolchain/tweaks/binutils/bfd/elfnn-riscv.c:3711-3717 | Decoded by their fields, the instructions written into any even gap change no register, wherever they are executed, and lead to its end |
| `RelaxNops.KnownInstructions` | riscy-toolchain/tweaks/binutils/bfd/elfnn-riscv.c:3711-3717 | Concretely: which words and halfwords are additions of immediates, the instruction next to nop that clears a register among them |
| `RelaxNops.KeptIsIdle` | riscy-toolchain/tweaks/binutils/bfd/elfnn-riscv.c:3711-3721 | So do the bytes that a partial deletion keeps of the padding; everything before them is as it was |
| `PcrelWords.PatchedU` | riscy-toolchain/tweaks/binutils/bfd/elfnn-riscv.c:2240-2243 | Patching keeps the bits outside the immediate; the immediate reads back exactly when the range check passes |
| `PcrelWords.PatchedI` | riscy-toolchain/tweaks/binutils/bfd/elfnn-riscv.c:2261-2266 | Patching keeps the bits outside the immediate, which reads back as the signed low twelve bits |
| `PcrelWords.PatchedS` | riscy-toolchain/tweaks/binutils/bfd/elfnn-riscv.c:2268-2273 | Likewise for the split immediate of stores |
| `PcrelWords.Recombine` | riscy-toolchain/tweaks/binutils/bfd/elfnn-riscv.c:2242-2242 | The rounded high part and the signed low part of any value add up to it, modulo 2^64 |
| `PcrelWords.KnownImmediates` | riscy-toolchain/tweaks/binutils/bfd/elfnn-riscv.c:2240-2273 | Concretely: the immediates of six instructions of the three forms, with both signs |
| `PcrelWords.Reachable` | riscy-toolchain/tweaks/binutils/bfd/elfnn-riscv.c:2240-2241 | The range check passes exactly from 2^31 + 2^11 below to 2^31 - 2^11 above |
| `PcrelWords.Arrives` | riscy-toolchain/tweaks/binutils/bfd/elfnn-riscv.c:2219-2335 | Adding the rounded high part of the distance to any address, and then the signed low part, arrives at the target, modulo 2^64 |
| `PcrelRelocs.TableIs` | riscy-toolchain/tweaks/binutils/bfd/elfnn-riscv.c:2398-2410 | The table holds an address exactly when a high part is there, with the distance recorded for it |
| `PcrelRelocs.OrderIsFree` | riscy-toolchain/tweaks/binutils/bfd/elfnn-riscv.c:2432-2451 | The table is the same whatever order the relocations come in |
| `PcrelRelocs.PatchOne` | riscy-toolchain/tweaks/binutils/bfd/elfnn-riscv.c:2330-2332 | Patching one instruction leaves every byte of the others as it was |
| `PcrelRelocs.PairsArrive` | riscy-toolchain/tweaks/binutils/bfd/elfnn-riscv.c:2432-2451 | In the finished section every pair of patched instructions computes its target: a low part without addend, of either form, completes the high part at its label, and neither instruction has changed outside its immediate |
| `PcrelRelocs.OrderGivesSame` | riscy-toolchain/tweaks/binutils/bfd/elfnn-riscv.c:2790-2803 | Every order of the same relocations gives the same section, byte for byte |
| `PcrelRelocs.PcsDiffer` | riscy-toolchain/tweaks/binutils/bfd/elfnn-riscv.c:2401-2404 | Relocations that do not overlap have different addresses, so no entry is recorded twice |
| `PcrelSections.PcrelSection.Perform` | riscy-toolchain/tweaks/binutils/bfd/elfnn-riscv.c:2219-2335 | Fails and changes nothing exactly when a high part is out of reach; otherwise the one instruction is patched |
| `PcrelSections.PcrelSection.Resolve` | riscy-toolchain/tweaks/binutils/bfd/elfnn-riscv.c:2432-2451 | Succeeds exactly when every waiting low part finds its high part, and then every instruction of the section is patched |
| `PcrelSections.PcrelSection.RelocateSection` | riscy-toolchain/tweaks/binutils/bfd/elfnn-riscv.c:2790-2803 | Exact conditions for overflow, for a missing high part and for success; on success every relocation has been patched once from the complete table, though low parts are deferred and resolved last in, first out |
| `PcrelSections.OrderEndsSame` | riscy-toolchain/tweaks/binutils/bfd/elfnn-riscv.c:2790-2803 | Two runs on the same relocations in any two orders both overflow, both miss a high part, or both succeed, and then with the same bytes |
| `DynRelocMerges.MergeConserves` | riscy-toolchain/tweaks/binutils/bfd/elfnn-riscv.c:416-431 | For every section the sums of count and of pc_count over both lists stay the same |
| `DynRelocMerges.MergeKeepsOnePerSection` | riscy-toolchain/tweaks/binutils/bfd/elfnn-riscv.c:414-431 | If both lists had one node a section, so has the merged one |
| `DynRelocMerges.MergingSections` | riscy-toolchain/tweaks/binutils/bfd/elfnn-riscv.c:416-431 | No section of the direct list is lost or renamed, and only nodes with a section of their own are kept |
| `DynRelocMerges.AbsorbedSum` | riscy-toolchain/tweaks/binutils/bfd/elfnn-riscv.c:423-424 | Adding one entry into the list raises the sum of its section by its counts and no other |
| `DynRelocMerges.OnlyCount` | riscy-toolchain/tweaks/binutils/bfd/elfnn-riscv.c:416-424 | The sum of a section is the count in its one node |
| `DynRelocMerges.CountsAdd` | riscy-toolchain/tweaks/binutils/bfd/elfnn-riscv.c:416-431 | With one node a section in both lists, every node of the merged list has the counts of its section from both, added up |
| `DynRelocMerges.AbsorbInto` | riscy-toolchain/tweaks/binutils/bfd/elfnn-riscv.c:420-427 | The first node of the same section, if any, takes up the counts, and no other node changes |
| `DynRelocMerges.Unlink` | riscy-toolchain/tweaks/binutils/bfd/elfnn-riscv.c:425-425 | The list goes on behind the dropped node, which is left as it was |
| `DynRelocMerges.Append` | riscy-toolchain/tweaks/binutils/bfd/elfnn-riscv.c:431-431 | The direct list, unchanged, hangs behind the kept nodes |
| `DynRelocMerges.MergeOne` | riscy-toolchain/tweaks/binutils/bfd/elfnn-riscv.c:416-430 | One node is dropped into the direct list or kept, through the pointer to the link that leads to it |
| `DynRelocMerges.MergeStep` | riscy-toolchain/tweaks/binutils/bfd/elfnn-riscv.c:416-430 | Keeps the refinement of the merge over a prefix of the indirect list |
| `DynRelocMerges.MergeLists` | riscy-toolchain/tweaks/binutils/bfd/elfnn-riscv.c:416-431 | The pointer loop refines the abstract merge |
| `DynRelocMerges.CopyIndirectSymbol` | riscy-toolchain/tweaks/binutils/bfd/elfnn-riscv.c:397-436 | The direct symbol gets the merged list, made of the kept nodes and all the old ones in order; the indirect symbol has none; no node is shared, dropped without need, or duplicated |
| `GotPlts.SlotsAreApart` | riscy-toolchain/tweaks/binutils/bfd/elfnn-riscv.c:1807-1847 | Over any sequence of symbols the GOT words of each are word-aligned, behind the header, before those of every later symbol and inside the final section; offsets are even, so bit 0 can mark them |
| `GotPlts.WritesStayInside` | riscy-toolchain/tweaks/binutils/bfd/elfnn-riscv.c:1822-1845 | The words that the kinds of access need are exactly those set aside, if and only if the symbol is not a local one with both GD and IE access |
| `GotPlts.DynamicSections.LayOut` | riscy-toolchain/tweaks/binutils/bfd/elfnn-riscv.c:2028-2053 | Everything together: all local symbols of all files and then all global symbols; in the final sections every offset is that of the words or the entry of its own symbol |
| `GotPlts.DynamicSections.SizeAllLocals` | riscy-toolchain/tweaks/binutils/bfd/elfnn-riscv.c:2028-2048 | The files one after another |
| `GotPlts.DynamicSections.AllocateAll` | riscy-toolchain/tweaks/binutils/bfd/elfnn-riscv.c:2051-2053 | The global symbols one after another, each placed behind the others and staying where it is |
| `GotPlts.DynamicSections.FinishPlts` | riscy-toolchain/tweaks/binutils/bfd/elfnn-riscv.c:3080-3119 | From the offsets that sizing has left in the symbols: the k-th PLT entry uses the k-th .got.plt slot and the k-th .rela.plt record, all inside their sections |
| `GotPlts.DynamicSections.SizeLocals` | riscy-toolchain/tweaks/binutils/bfd/elfnn-riscv.c:2028-2048 | Reference counts become offsets, one for each referenced local symbol, behind everything allocated before |
| `GotPlts.DynamicSections.Allocate` | riscy-toolchain/tweaks/binutils/bfd/elfnn-riscv.c:1738-1849 | An indirect symbol gets nothing; any other gets the next PLT entry and the next GOT words, or the mark for none |
| `GotPlts.DynamicSections.AllocatePlt` | riscy-toolchain/tweaks/binutils/bfd/elfnn-riscv.c:1753-1805 | The sizes of .plt, .got.plt and .rela.plt stay in step with the number of entries; a symbol of a shared object that an executable calls is defined at its entry |
| `GotPlts.DynamicSections.AllocateGot` | riscy-toolchain/tweaks/binutils/bfd/elfnn-riscv.c:1807-1849 | The offset is the size so far, and the section grows by the words that the access kinds need |
| `GotPlts.DynamicSections.FinishPlt` | riscy-toolchain/tweaks/binutils/bfd/elfnn-riscv.c:3080-3119 | One symbol; one without an entry has none of the three |
| `GotPlts.DynamicSections.constructor` | riscy-toolchain/tweaks/binutils/bfd/elfnn-riscv.c:328-341 | The sections start with their headers only |
| `PltCodes.CallsArrive` | riscy-toolchain/tweaks/binutils/bfd/elfnn-riscv.c:225-238 | A call of an entry of the PLT, executed instruction by instruction from the bytes, arrives where the word of that entry points, with nothing changed but t1 and t3, if and only if the entry is near enough to its word: the linker does not check that |
| `PltCodes.FirstCallsResolve` | riscy-toolchain/tweaks/binutils/bfd/elfnn-riscv.c:193-223 | While the word holds what the linker puts there, the call goes on through the header to the dynamic linker, with the link map in t0 and the offset of the word of the entry called in t1 |
| `PltCodes.EntryRuns` | riscy-toolchain/tweaks/binutils/bfd/elfnn-riscv.c:225-238 | The three instructions, wherever they look |
| `PltCodes.HeaderRuns` | riscy-toolchain/tweaks/binutils/bfd/elfnn-riscv.c:193-223 | The eight instructions tell from the return address which entry was called: the header is eight instructions long, every entry four, and the shift makes words of them |
| `PltCodes.EntryIs` | riscy-toolchain/tweaks/binutils/bfd/elfnn-riscv.c:225-238 | The words of an entry, decoded by their fields |
| `PltCodes.HeaderIs` | riscy-toolchain/tweaks/binutils/bfd/elfnn-riscv.c:193-223 | The words of the header, decoded by their fields |
| `PltCodes.KnownCode` | riscy-toolchain/tweaks/binutils/bfd/elfnn-riscv.c:193-238 | Concretely: the twelve words for one place of the two sections, on a 64-bit target |
| `PltCodes.AddressFound` | riscy-toolchain/tweaks/binutils/bfd/elfnn-riscv.c:201-202 | auipc and the instruction behind it find their target on 32-bit targets always, on 64-bit ones if and only if it is from 2^31 + 2^11 below to 2^31 - 2^11 above |
| `PltSections.LayOutAndFinish` | riscy-toolchain/tweaks/binutils/bfd/elfnn-riscv.c:1750-3282 | From reference counts to calls: after laying out and writing, every symbol with a PLT entry has its own, calls of it arrive where its own word of .got.plt points, exactly when that is in reach, and the first one gets to the dynamic linker with its number |
| `PltSections.FinishSections` | riscy-toolchain/tweaks/binutils/bfd/elfnn-riscv.c:3080-3300 | The entries of all symbols and then the header and the two words before all others are written; none writes over another |
| `PltSections.FinishEntry` | riscy-toolchain/tweaks/binutils/bfd/elfnn-riscv.c:3094-3114 | The entry and the word of one symbol, and nothing else |
| `PltSections.PutWords` | riscy-toolchain/tweaks/binutils/bfd/elfnn-riscv.c:3105-3106 | Words are written low byte first, and no other byte changes |
| `PltSections.EntryServes` | riscy-toolchain/tweaks/binutils/bfd/elfnn-riscv.c:3080-3119 | A written entry does for its callers what it should |
| `GotContents.GotSection.RelocateAll` | riscy-toolchain/tweaks/binutils/bfd/elfnn-riscv.c:2638-2993 | Any sequence of references: exactly the symbols met and not left to the dynamic linker have their words written, with their values, inside the section and each word once, if and only if none of them is a local symbol with GD and IE access; every address recorded is that of a word of the symbol, except the IE word of such a local one. Without such symbols every reference finds its symbol: the thread pointer plus the IE word, or the GD pair of module 1 and an offset into its block, lead to one place, and a plain word is the address; what is left to the dynamic linker is zero |
| `GotContents.GotSection.RelocateTls` | riscy-toolchain/tweaks/binutils/bfd/elfnn-riscv.c:2866-2993 | The words are written the first time only, told by bit 0 of the offset |
| `GotContents.GotSection.RelocateNormal` | riscy-toolchain/tweaks/binutils/bfd/elfnn-riscv.c:2638-2715 | Likewise the one word of a symbol that is not thread-local, unless the dynamic linker fills it in |
| `GotContents.GotSection.WriteWords` | riscy-toolchain/tweaks/binutils/bfd/elfnn-riscv.c:2922-2985 | All words of the symbol, and no others |
| `GotContents.ValueFinds` | riscy-toolchain/tweaks/binutils/bfd/elfnn-riscv.c:2184-2201 | What the words of a symbol have to hold, said by what an access does with them: the load through the thread pointer, the call with a pair, or the plain load, whichever branch has written them |
| `GotContents.StoredFits` | riscy-toolchain/tweaks/binutils/bfd/elfnn-riscv.c:2936-2985 | A word holds what fits in its four or eight bytes as it is, and of other values the low bits |
| `GotContents.AllFound` | riscy-toolchain/tweaks/binutils/bfd/elfnn-riscv.c:2866-2986 | Words that hold their values are found by every recorded access |
| `GotContents.GotSection.Mark` | riscy-toolchain/tweaks/binutils/bfd/elfnn-riscv.c:2871-2892 | Bit 0 is set, and the offset can still be told from it |
| `GotContents.GotSection.constructor` | riscy-toolchain/tweaks/binutils/bfd/elfnn-riscv.c:2053-2053 | Nothing has been written |
| `GotContents.WordsAreOwn` | riscy-toolchain/tweaks/binutils/bfd/elfnn-riscv.c:2866-2986 | All words written are words of their own symbols, if and only if no symbol met is a local one with GD and IE access; and then no word is written twice |
| `GotContents.LocalsCollide` | riscy-toolchain/tweaks/binutils/bfd/elfnn-riscv.c:2028-2048 | On two local symbols: the word that the IE access to the first is sent to ends up with the address of the second |
| `GotLinks.LayOutAndRelocate` | riscy-toolchain/tweaks/binutils/bfd/elfnn-riscv.c:2028-2993 | From reference counts to words: space is laid out for the local symbols of all files and all global symbols, and then any sequence of references to them is relocated. Each gets the address of the offset that laying out left in its own symbol; all words are written in the space of their own symbols, once, inside the final section and with their values, so that every reference finds its symbol, if and only if no reference is to a local symbol with GD and IE access |
| `GotLinks.Offsets` | riscy-toolchain/tweaks/binutils/bfd/elfnn-riscv.c:2638-2871 | The offsets that laying out left in the symbols that have one are, in order, those of the needs given out |
| `ImportFormats.TypeNumbers` | riscy-toolchain/tweaks/binutils/bfd/elfnn-riscv.c:755-775 | The type field of a written word is 0 for a jump, 1 for a pair, 2 and 3 for its halves, 4 for a store, and words of these types are read as such |
| `ImportFormats.OffsetsLost` | riscy-toolchain/tweaks/binutils/bfd/elfnn-riscv.c:1034-1034 | Concretely: a jump at 2^29 is read back as one at zero, and one at 3 as one at 2 |
| `ImportFormats.ExpressionBack` | riscy-toolchain/tweaks/binutils/bfd/elfnn-riscv.c:760-775 | A packed reference is read back if and only if its offset is even and below 2^29, as one reference or as a HI20/LO12 pair |
| `ImportFormats.KnownRelocs` | riscy-toolchain/tweaks/binutils/bfd/elfnn-riscv.c:1004-1037 | Concretely: the words of the section of relocations for two imports, one with a pair and a jump, one with a store |
| `ImportFormats.KnownNames` | riscy-toolchain/tweaks/binutils/bfd/elfnn-riscv.c:974-998 | Concretely: the bytes of the section of names for the same two |
| `ImportFormats.PackedBack` | riscy-toolchain/tweaks/binutils/bfd/elfnn-riscv.c:1007-1036 | Packing a whole list, pairs merged, loses nothing if and only if all its offsets can be held |
| `ImportReaders.ReadsWhatWasWritten` | riscy-toolchain/tweaks/binutils/bfd/elfnn-riscv.c:1112-1162 | Walking the two written sections gives back every name and relocation list, pairs expanded, given fewer than 4096 imports, fewer than 65536 words each, and offsets that can be held |
| `ImportReaders.NamesAreInARow` | riscy-toolchain/tweaks/binutils/bfd/elfnn-riscv.c:1131-1139 | The listing that walks the strings without their index gives the same names |
| `ImportReaders.EntryAt` | riscy-toolchain/tweaks/binutils/bfd/elfnn-riscv.c:1037-1037 | The k-th entry is where the counts of the earlier ones lead, and names its string and its words |
| `ImportReaders.IndexAt` | riscy-toolchain/tweaks/binutils/bfd/elfnn-riscv.c:989-989 | The k-th index word is where the k-th string starts |
| `ImportReaders.NameAt` | riscy-toolchain/tweaks/binutils/bfd/elfnn-riscv.c:991-996 | The string there is the name of the k-th import |
| `ImportReaders.StringBack` | riscy-toolchain/tweaks/binutils/bfd/elfnn-riscv.c:993-994 | A name is read back up to its terminator |
| `ImportSections.SectionSizes` | riscy-toolchain/tweaks/binutils/bfd/elfnn-riscv.c:834-872 | The pre-pass computes exactly the size that is written for the relocations, and the size of the names rounded up to 4 |
| `ImportSections.CountPacked` | riscy-toolchain/tweaks/binutils/bfd/elfnn-riscv.c:856-863 | The pre-pass counts exactly the words that packing writes, so it pairs as the writer does |
| `ImportSections.WriteNames` | riscy-toolchain/tweaks/binutils/bfd/elfnn-riscv.c:974-998 | The section of names: head, index, strings, padding, within its size |
| `ImportSections.WriteEntry` | riscy-toolchain/tweaks/binutils/bfd/elfnn-riscv.c:1004-1037 | One entry: fails exactly on a relocation without a type, otherwise the head written last holds the true count |
| `ImportSections.CreateSections` | riscy-toolchain/tweaks/binutils/bfd/elfnn-riscv.c:942-1044 | Both sections are filled exactly, unless some import has a relocation without a type |
| `ImportAdjustments.AdjustRelocs` | riscy-toolchain/tweaks/binutils/bfd/elfnn-riscv.c:1048-1073 | The patch visits exactly the reference words, never a head |
| `ImportAdjustments.WordShifts` | riscy-toolchain/tweaks/binutils/bfd/elfnn-riscv.c:1064-1069 | Any word comes to hold the shifted offset, its type kept, if and only if the sum is even and below 2^29 |
| `ImportAdjustments.ShiftLost` | riscy-toolchain/tweaks/binutils/bfd/elfnn-riscv.c:1064-1069 | Concretely: moved by 2^29, a jump at 4 stays at 4 |
| `ImportAdjustments.PackedShifts` | riscy-toolchain/tweaks/binutils/bfd/elfnn-riscv.c:1063-1071 | Patching packed references is packing shifted ones |
| `ImportAdjustments.AdjustsToShifted` | riscy-toolchain/tweaks/binutils/bfd/elfnn-riscv.c:1048-1073 | The patched section is the one that would have been written for the shifted references |
| `ImportAdjustments.ReadsWhatWasAdjusted` | riscy-toolchain/tweaks/binutils/bfd/elfnn-riscv.c:1112-1162 | Reading after the patch gives the same names and types, with every offset moved by the base and nothing else |
| `AesCbc.RoundTrip` | sw/apps/bench/aes_cbc/aes_cbc.c:299-376 | Encrypting whole blocks, converting the schedule and decrypting from the same vector gives the message back byte for byte, for all keys, rounds, vectors and lengths |
| `AesCbc.CbcRoundTrip` | sw/apps/bench/aes_cbc/aes_cbc.c:299-376 | The same on blocks |
| `AesCbc.EncryptionSplits` | sw/apps/bench/aes_cbc/aes_cbc.c:330-332 | Encrypting in two calls, the vector carried over, gives the same ciphertext as one |
| `AesCbc.DecryptionSplits` | sw/apps/bench/aes_cbc/aes_cbc.c:373-375 | Likewise for decryption |
| `AesCbc.EncryptRoundIs` | sw/apps/bench/aes_cbc/aes_cbc.c:400-419 | The word form of a round is SubBytes, ShiftRows and, but for the last round, MixColumns of section 5.1 of FIPS 197 |
| `AesCbc.DecryptRoundIs` | sw/apps/bench/aes_cbc/aes_cbc.c:448-477 | The word form of a decryption round is InvSubBytes, InvShiftRows and InvMixColumns, in the order of section 5.3.5 of FIPS 197 |
| `AesCbc.BlocksAreBytes` | sw/apps/bench/aes_cbc/aes_cbc.c:312-326 | The blocks of a message determine its bytes |
| `AesCbc.Context.ConvertKey` | sw/apps/bench/aes_cbc/aes_cbc.c:280-294 | The round keys become those of the equivalent inverse cipher: the first and last stay, the others go through InvMixColumns, word by word |
| `AesCbc.Context.Encrypt` | sw/apps/bench/aes_cbc/aes_cbc.c:381-426 | The block becomes its encryption by the cipher of FIPS 197 under these round keys |
| `AesCbc.Context.AddKey` | sw/apps/bench/aes_cbc/aes_cbc.c:423-424 | Adds the round key at the running pointer |
| `AesCbc.Context.Decrypt` | sw/apps/bench/aes_cbc/aes_cbc.c:431-482 | The block becomes its decryption by the equivalent inverse cipher |
| `AesCbc.Context.AddKeyDownwards` | sw/apps/bench/aes_cbc/aes_cbc.c:479-480 | Adds the round key that the falling pointer passes, first word last |
| `AesCbc.Context.Load` | sw/apps/bench/aes_cbc/aes_cbc.c:312-316 | Four words hold sixteen bytes, the first most significant |
| `AesCbc.Context.Store` | sw/apps/bench/aes_cbc/aes_cbc.c:320-327 | Sixteen bytes are written from four words, and no others |
| `AesCbc.Context.EncryptNext` | sw/apps/bench/aes_cbc/aes_cbc.c:308-328 | One step of section 6.2 of NIST SP 800-38A, also when it overwrites its own input |
| `AesCbc.Context.CbcEncrypt` | sw/apps/bench/aes_cbc/aes_cbc.c:299-333 | The output is the chained encryption, also in place; the vector becomes the last ciphertext block; bytes behind the last whole block stay |
| `AesCbc.Context.DecryptNext` | sw/apps/bench/aes_cbc/aes_cbc.c:347-371 | One step of chained decryption, also when it overwrites its own input |
| `AesCbc.Context.CbcDecrypt` | sw/apps/bench/aes_cbc/aes_cbc.c:338-376 | The output is the chained decryption, also in place; the vector becomes the last ciphertext block |
| `AesCiphers.DecryptsWhatIsEncrypted` | sw/apps/bench/aes_cbc/aes_cbc.c:431-482 | For any number of round keys, the equivalent inverse cipher with converted keys undoes the cipher |
| `AesCiphers.ShiftedRows` | sw/apps/bench/aes_cbc/aes_cbc.c:402-405 | Byte r of column c comes from column c + r, modulo four, as in section 5.1.2 of FIPS 197, and through the S-box |
| `AesCiphers.RoundsBack` | sw/apps/bench/aes_cbc/aes_cbc.c:444-481 | After r rounds decryption is back where encryption was that many rounds before its end |
| `AesCiphers.InvMixColumnsBack` | sw/apps/bench/aes_cbc/aes_cbc.c:455-474 | InvMixColumns undoes MixColumns on every block |
| `AesCiphers.InvMixColumnsAdd` | sw/apps/bench/aes_cbc/aes_cbc.c:288-293 | InvMixColumns distributes over key addition: the reason why converting the keys works |
| `AesColumns.InvMixMix` | sw/apps/bench/aes_cbc/aes_cbc.c:455-474 | InvMixColumns undoes MixColumns on every column, by algebra in GF(2^8) |
| `AesColumns.InvMixAdd` | sw/apps/bench/aes_cbc/aes_cbc.c:91-101 | InvMixColumns distributes over exclusive or |
| `AesColumns.TimesAdd` | sw/apps/bench/aes_cbc/aes_cbc.c:193-198 | Multiplication by any constant distributes over addition |
| `AesColumns.KnownColumn` | sw/apps/bench/aes_cbc/aes_cbc.c:408-418 | Concretely: one column with four different bytes, mixed and unmixed |
| `AesColumns.XtimeAdd` | sw/apps/bench/aes_cbc/aes_cbc.c:193-198 | Doubling distributes over addition |
| `AesSboxes.SubInverse` | sw/apps/bench/aes_cbc/aes_cbc.c:106-179 | The two tables undo each other on every byte |
| `AesInverses.SubIsAffineInverse` | sw/apps/bench/aes_cbc/aes_cbc.c:106-141 | Section 5.1.1 of FIPS 197 on every byte: the table holds, bit by bit, the affine map of the inverse in GF(2^8), zero counting as its own |
| `AesWords.MixBytesIs` | sw/apps/bench/aes_cbc/aes_cbc.c:408-418 | The mixing in AES_encrypt, in 32-bit words that AES_xtime truncates, is MixColumns |
| `AesWords.UnmixBytesIs` | sw/apps/bench/aes_cbc/aes_cbc.c:456-473 | The shared doublings of AES_decrypt give InvMixColumns |
| `AesWords.Mul2Bytes` | sw/apps/bench/aes_cbc/aes_cbc.c:84-89 | The packed doubling of four bytes doubles each, without carries between them |
| `AesWords.PackedInvMixIs` | sw/apps/bench/aes_cbc/aes_cbc.c:91-101 | The packed rotations and doublings are InvMixColumns |
| `AesWords.PackedInvMixLinear` | sw/apps/bench/aes_cbc/aes_cbc.c:91-101 | and so distribute over exclusive or |
| `SpecMeanings.PrintedSpecMeans` | riscy-toolchain/tweaks/gcc/gcc/gcc.c:4835-4905 | Running the scan on the printed text of any spec tree builds the arguments that evaluating the tree does |
| `SpecMeanings.ReadsSpec` | riscy-toolchain/tweaks/gcc/gcc/gcc.c:4835-4905 | With more text behind, the scan goes on there in the state that the tree leaves |
| `SpecMeanings.ReadsChoices` | riscy-toolchain/tweaks/gcc/gcc/gcc.c:5939-6097 | Of an n-way choice only the first clause that holds contributes, or the default, and nothing once one has matched |
| `SpecMeanings.ReadsDefault` | riscy-toolchain/tweaks/gcc/gcc/gcc.c:6026-6038 | An empty last clause runs exactly when no earlier one has matched |
| `SpecMeanings.ReadsTests` | riscy-toolchain/tweaks/gcc/gcc/gcc.c:6019-6067 | A disjunction is matched exactly when one of its tests holds |
| `SpecMeanings.ReadsBody` | riscy-toolchain/tweaks/gcc/gcc/gcc.c:6069-6088 | A body runs exactly when its clause is the first match, without its trailing white space |
| `SpecMeanings.SubstitutionNeedsStars` | riscy-toolchain/tweaks/gcc/gcc/gcc.c:6136-6160 | A body with %* is an error if and only if some test has no star; otherwise it is passed over if no test holds |
| `SpecMeanings.KnownSpec` | riscy-toolchain/tweaks/gcc/gcc/gcc.c:5939-6103 | Concretely: a tree with two tests, a body and a default is a proper one, and what its text is |
| `SpecMeanings.FindsEnd` | riscy-toolchain/tweaks/gcc/gcc/gcc.c:6123-6143 | The end found by counting braces is the end of the tree |
| `SpecMeanings.PassesSpec` | riscy-toolchain/tweaks/gcc/gcc/gcc.c:6123-6143 | Counting braces over the text of a tree ends at the depth it began with |
| `SpecMeanings.TrimsTree` | riscy-toolchain/tweaks/gcc/gcc/gcc.c:6145-6147 | Trimming the text is trimming the tree, and gives a proper tree |
| `SpecArguments.SpecWords` | riscy-toolchain/tweaks/gcc/gcc/gcc.c:4835-4905 | On the printed text of any spec tree the arguments are the words, the longest runs without white space, of the text of the chosen clauses put together |
| `SpecArguments.PlainWords` | riscy-toolchain/tweaks/gcc/gcc/gcc.c:4457-4485 | Text without special characters: the arguments are its words |
| `SpecArguments.WordsAreUnique` | riscy-toolchain/tweaks/gcc/gcc/gcc.c:4457-4485 | A text has only one sequence of words |
| `SpecArguments.EvalIsChosen` | riscy-toolchain/tweaks/gcc/gcc/gcc.c:5939-6097 | Evaluating a tree is scanning the text of its chosen clauses |
| `SpecArguments.ScanKeeps` | riscy-toolchain/tweaks/gcc/gcc/gcc.c:4835-4905 | Whatever the text, finished arguments stay as they are and where they are, and one that is going only grows |
| `SpecArguments.Specials` | riscy-toolchain/tweaks/gcc/gcc/gcc.c:4875-4905 | Concretely: what a bar, a backslash and %% do, and that %% with a blank behind it does not keep its argument apart from the next |
| `SpecScans.CharactersAre` | riscy-toolchain/tweaks/gcc/gcc/gcc.c:5960-5997 | Which characters are white space, and which can be in an atom and end one |
| `SpecTrees.ReadsTest` | riscy-toolchain/tweaks/gcc/gcc/gcc.c:5975-6003 | A printed test, with its marks, is read back |
| `SpecScanners.PassWhite` | riscy-toolchain/tweaks/gcc/gcc/gcc.c:5960-5960 | Passes exactly the white space |
| `SpecScanners.PassAtom` | riscy-toolchain/tweaks/gcc/gcc/gcc.c:5993-5997 | Passes exactly the atom |
| `SpecScanners.TakeName` | riscy-toolchain/tweaks/gcc/gcc/gcc.c:5993-6000 | Reads the name and its star |
| `SpecScanners.TakeMarked` | riscy-toolchain/tweaks/gcc/gcc/gcc.c:5979-5991 | Reads a suffix or spec-type mark, or meets a spec function |
| `SpecScanners.TakeAtom` | riscy-toolchain/tweaks/gcc/gcc/gcc.c:5975-6003 | Reads one atom with all its marks |
| `SpecScanners.LocateEnd` | riscy-toolchain/tweaks/gcc/gcc/gcc.c:6123-6143 | Finds the end of the body, or that there is none, and whether the body substitutes |
| `SpecScanners.TrimEnd` | riscy-toolchain/tweaks/gcc/gcc/gcc.c:6145-6147 | Finds where the body ends without trailing white space; the colon in front stops the search |
| `SpecScanners.SpecScanner.EndGoingArg` | riscy-toolchain/tweaks/gcc/gcc/gcc.c:4457-4485 | An argument that is going is stored, and none is going then |
| `SpecScanners.SpecScanner.AtomMatches` | riscy-toolchain/tweaks/gcc/gcc/gcc.c:6051-6058 | Answers as the command line does, whatever was looked up before |
| `SpecScanners.SpecScanner.TestAtom` | riscy-toolchain/tweaks/gcc/gcc/gcc.c:6019-6067 | Refines the test of one atom, its syntax errors included; no test is made once there is a match |
| `SpecScanners.SpecScanner.ProcessBraceBody` | riscy-toolchain/tweaks/gcc/gcc/gcc.c:6115-6189 | Runs the trimmed body exactly when chosen, and returns where it ends |
| `SpecScanners.SpecScanner.AfterColon` | riscy-toolchain/tweaks/gcc/gcc/gcc.c:6069-6088 | Refines what happens behind a disjunction, and what is reset between clauses |
| `SpecScanners.SpecScanner.HandleBraces` | riscy-toolchain/tweaks/gcc/gcc/gcc.c:5939-6103 | The pointer scan with its eight flags refines the recursive reading of a braced spec, errors included |
| `SpecScanners.SpecScanner.DoSpec2` | riscy-toolchain/tweaks/gcc/gcc/gcc.c:4557-4576 | From a cleared scanner: what a printed tree leaves in argbuf are the words of the text of its chosen clauses |
| `SpecScanners.SpecScanner.DoSpec1` | riscy-toolchain/tweaks/gcc/gcc/gcc.c:4835-4905 | The pointer scan terminates and refines the recursive reading of a spec on every text |
| `SwitchLiveness.FamilyLive` | riscy-toolchain/tweaks/gcc/gcc/gcc.c:6191-6270 | Of the switches of one letter and base name, not itself beginning no-, exactly those after the last one of the other polarity are live |
| `SwitchLiveness.PolarLetters` | riscy-toolchain/tweaks/gcc/gcc/gcc.c:6219-6233 | The letters with two polarities are W, f, m and g, on concrete switches |
| `SwitchLiveness.NamedIs` | riscy-toolchain/tweaks/gcc/gcc/gcc.c:5880-5883 | An atom names the switch that is spelled like it and, starred, every one that it begins |
| `SwitchLiveness.NeverBoth` | riscy-toolchain/tweaks/gcc/gcc/gcc.c:6232-6264 | so both polarities are never live together |
| `SwitchLiveness.PolaritiesOppose` | riscy-toolchain/tweaks/gcc/gcc/gcc.c:6232-6264 | Each polarity is obsoleted by the other alone, if and only if the base name does not begin with no- |
| `SwitchLiveness.BothLive` | riscy-toolchain/tweaks/gcc/gcc/gcc.c:6232-6264 | Concretely: -fno-x and -fno-no-x are live together |
| `SwitchLiveness.MemoryMatters` | riscy-toolchain/tweaks/gcc/gcc/gcc.c:6205-6217 | On -ffoo -fno-foo: asked about exactly, -ffoo is not live for f* afterwards, though it is if asked about f* first |
| `SwitchLiveness.SeparatelyNamedIs` | riscy-toolchain/tweaks/gcc/gcc/gcc.c:5885-5897 | -D and -U with the macro in a separate argument are named by letter and argument written together |
| `SwitchLiveness.LastOptimisation` | riscy-toolchain/tweaks/gcc/gcc/gcc.c:6222-6230 | A -O switch is live if and only if no later one is given |
| `SwitchLiveness.MemoryAgrees` | riscy-toolchain/tweaks/gcc/gcc/gcc.c:6205-6217 | The remembered answer is what looking again would give, if and only if the query is not for a star behind at most one letter, or nothing dead is remembered |
| `SwitchLiveness.LookupKeeps` | riscy-toolchain/tweaks/gcc/gcc/gcc.c:6199-6270 | Looking a switch up keeps the memory right, and a live one is always found live |
| `SwitchLiveness.SeparateIsLive` | riscy-toolchain/tweaks/gcc/gcc/gcc.c:5885-5898 | Nothing makes -D or -U obsolete |
| `SwitchLiveness.SwitchTable.IsObsolete` | riscy-toolchain/tweaks/gcc/gcc/gcc.c:6219-6265 | The loops find a later obsoleting switch exactly when there is one |
| `SwitchLiveness.SwitchTable.CheckLiveSwitch` | riscy-toolchain/tweaks/gcc/gcc/gcc.c:6199-6270 | Answers from memory, or by looking, and remembers; no other switch changes |
| `SwitchLiveness.SwitchTable.SwitchMatches` | riscy-toolchain/tweaks/gcc/gcc/gcc.c:5872-5901 | Tells whether some live switch matches the atom, in the joined or the separate form |
| `FourierTransforms.FftIsDft` | sw/apps/bench/fft/fft.c:41-114 | With exact arithmetic and a table of powers of a root of unity, element f of the result is the discrete Fourier transform at f, for every power-of-two length from 2 |
| `FourierTransforms.AllTransformed` | sw/apps/bench/fft/fft.c:46-94 | After s stages each block holds the transform of its interleaved part of the input |
| `FourierTransforms.StageTransformed` | sw/apps/bench/fft/fft.c:50-73 | One stage takes that from s to s + 1 |
| `FourierTransforms.LastMeets` | sw/apps/bench/fft/fft.c:78-94 | The last stage, which has no twiddle factor, does what the others would |
| `FourierTransforms.SumsMerge` | sw/apps/bench/fft/fft.c:64-65 | The sum of two interleaved partial sums is the partial sum of half the stride |
| `FourierTransforms.SumsTwist` | sw/apps/bench/fft/fft.c:61-71 | Their difference, turned by the twiddle factor, is the partial sum at the next frequency |
| `ComplexNumbers.TwiddleProduct` | sw/apps/bench/fft/fft.c:67-68 | The two sums of products in a butterfly are the complex product with the conjugate of the table entry |
| `FourierTables.TableFitsOneLength` | sw/apps/bench/fft/fft.c:46-54 | The program has one table of 128 powers and starts every length at step one: for 4 to 256 elements, every run on every input gives the transform for a root of unity of that length, if and only if there are 256 elements and the root is that of the table |
| `FourierTables.ImpulseTells` | sw/apps/bench/fft/fft.c:41-114 | On the impulse at position 1, followed through the stages, element 1 of the result is entry 1 of the table; it is that of the transform under the same condition |
| `FourierTables.FourPoints` | sw/apps/bench/fft/fft.c:41-114 | On four points: element 1 of the result is a 256th root of unity, and the transform has a fourth root there |
| `FourierTables.SomeRun` | sw/apps/bench/fft/fft.c:41-114 | There is a run on every input |
| `FftStages.TwiddleOutside` | sw/apps/bench/fft/fft.c:53-54 | Concretely: 512 elements ask for entry 255 of the 128 |
| `FftStages.Fft` | sw/apps/bench/fft/fft.c:41-114 | The loops are a sequence of simultaneous stages of halving span, followed by the reordering; every access is in range for every power-of-two length from 2 |
| `FftStages.RunStage` | sw/apps/bench/fft/fft.c:50-73 | The nested loops, which go through the blocks of one twiddle factor at a time, have the effect of all butterflies of the stage at once |
| `FftStages.RunRow` | sw/apps/bench/fft/fft.c:58-72 | One twiddle factor through all blocks |
| `FftStages.Butterfly` | sw/apps/bench/fft/fft.c:61-71 | Both halves of both elements are replaced, and no other element |
| `FftStages.PairsApart` | sw/apps/bench/fft/fft.c:58-59 | No element is in two pairs of a stage |
| `FftStages.PairsCover` | sw/apps/bench/fft/fft.c:58-59 | Every element is in some pair |
| `FftStages.StageSizes` | sw/apps/bench/fft/fft.c:74-75 | wstep times max stays equal to the length |
| `FftStages.TwiddlesInTable` | sw/apps/bench/fft/fft.c:53-54 | All twiddle accesses are inside the table of 128, if and only if the length is at most 256 |
| `BitReversals.Reorder` | sw/apps/bench/fft/fft.c:95-113 | The complex element k ends up at the bit reversal of k, and the elements are a permutation of the original ones |
| `BitReversals.ReorderTwice` | sw/apps/bench/fft/fft.c:99-113 | Reordering twice gives the original order back |
| `BitReversals.NextReversed` | sw/apps/bench/fft/fft.c:107-112 | The carry loop from the top bit down goes from one reversal to the next |
| `BitReversals.TopIncrementReverses` | sw/apps/bench/fft/fft.c:107-112 | Counting from the top bit runs through the reversals in order |
| `BitReversals.PairDone` | sw/apps/bench/fft/fft.c:102-106 | Swapping only when j > i exchanges each pair once |
| `BitReversals.ReversedTwice` | sw/apps/bench/fft/fft.c:99-113 | Bit reversal is its own inverse |
| `BitReversals.ReversedTop` | sw/apps/bench/fft/fft.c:107-112 | The top bit becomes the low bit of the reversal |
| `BitReversals.ReversedBound` | sw/apps/bench/fft/fft.c:101-103 | A reversal is below the length, so accesses are in range |
| `Keccaks.KeccakF` | sw/apps/bench/keccak/keccak.c:66-103 | For any state and number of rounds up to 24 the in-place rounds compute the step mappings of sections 3.2.1 to 3.2.5 of FIPS 202, applied simultaneously |
| `Keccaks.Mod5` | sw/apps/bench/keccak/keccak.c:51-63 | Terminates without overflow with the remainder by five for every non-negative int, and returns a negative one as it is |
| `Keccaks.ThetaInPlace` | sw/apps/bench/keccak/keccak.c:73-81 | is theta of section 3.2.1 |
| `Keccaks.RhoPiInPlace` | sw/apps/bench/keccak/keccak.c:83-90 | The one walk through 24 lanes is rho and then pi of sections 3.2.2 and 3.2.3 |
| `Keccaks.TablesFollowWalk` | sw/apps/bench/keccak/keccak.c:39-49 | The two tables follow the walk that section 3.2.2 defines, with its offsets |
| `Keccaks.RhoPiAt` | sw/apps/bench/keccak/keccak.c:85-90 | What the walk writes into a lane is what rho and pi put there |
| `Keccaks.ChiInPlace` | sw/apps/bench/keccak/keccak.c:92-98 | Row by row through a buffer, chi of section 3.2.4 |
| `Keccaks.CopyRow` | sw/apps/bench/keccak/keccak.c:94-95 | The buffer holds the row |
| `Keccaks.RoundConstantsAre` | sw/apps/bench/keccak/keccak.c:27-37 | The table holds what the shift register of section 3.2.5 generates |
| `KeccakBits.SpreadAt` | sw/apps/bench/keccak/keccak.c:77-80 | Section 3.2.1 of FIPS 202 bit by bit: what theta adds to a bit is the parity of the column before it, and that of the column behind it one bit below |
| `KeccakBits.ThetaIs` | sw/apps/bench/keccak/keccak.c:77-80 | Every lane gets what its column is due |
| `KeccakBits.ChiAt` | sw/apps/bench/keccak/keccak.c:92-98 | Section 3.2.4 bit by bit: to each bit, the next of its row complemented times the one after |
| `KeccakBits.OnceAt` | sw/apps/bench/keccak/keccak.c:78-78 | A lane turned by one has every bit one place up, the last one first |
| `KeccakBits.XorAt` | sw/apps/bench/keccak/keccak.c:73-98 | Exclusive or works bit by bit |
| `KeccakBits.ComplementAndAt` | sw/apps/bench/keccak/keccak.c:97-97 | The product with a complement works bit by bit |
| `KeccakBits.TurnedWords` | sw/apps/bench/keccak/keccak.c:39-43 | Every distance of the table, on one word with all hexadecimal digits |
| `BootLoaders.BuildAndBoot` | sw/apps/boot_code/boot_code.c:66-135 | For every byte image, whatever order its bytes are gone through, building the flash and booting puts exactly those words back that lie in a block that is copied and share their place in the flash with no data word of other bytes; so all of them if and only if that holds of all. And the copies stay inside the two memories if and only if neither is full |
| `BootLoaders.FlashAndBoot` | sw/apps/boot_code/boot_code.c:66-135 | The same from the words on, and which words get to their memories at all |
| `BootLoaders.StaysInside` | sw/apps/boot_code/boot_code.c:98-132 | One block more than the size needs is copied when the size is a multiple of 1024 words: a copy goes behind the end of its memory exactly when all of its 8192 or 6144 words are there |
| `BootLoaders.BootWithHole` | sw/apps/boot_code/boot_code.c:66-135 | On two instruction words 1024 apart: only the first gets to its memory |
| `BootLoaders.BootWithOverlap` | sw/apps/boot_code/boot_code.c:66-135 | On one instruction word and data 1016 words behind their start: the instruction word is booted with other bytes |
| `BootLoaders.SortedKeys` | sw/utils/s19toslm.py:155-155 | Every key once, in ascending order |
| `BootLoaders.Board.Boot` | sw/apps/boot_code/boot_code.c:81-135 | Which RAM words are written, and with which flash words, as the eight header fields say; data is copied over instructions |
| `BootLoaders.Board.CopyBlocks` | sw/apps/boot_code/boot_code.c:98-111 | Successive blocks are one contiguous copy |
| `BootLoaders.Board.ReadBlock` | sw/apps/boot_code/boot_code.c:105-108 | One block of 1024 words, nothing else |
| `BootLoaders.HeaderRead` | sw/apps/boot_code/boot_code.c:70-89 | The eight fields come out as the builder put them in |
| `BootLoaders.WordRead` | sw/apps/boot_code/boot_code.c:98-132 | A word is covered by a copy, and what the loader then reads is its own, exactly under the condition |
| `BootLoaders.FlashRepeats` | sw/apps/boot_code/boot_code.c:75-75 | The command leaves out the address bits from 24 on, so the flash is seen again behind its end |
| `BootLoaders.PlacedIsRead` | sw/apps/boot_code/boot_code.c:66-79 | Four bytes in a row are read as the word written there |
| `FlashLayouts.AreasApart` | sw/utils/s19toslm.py:187-227 | No two words, and no word and the header, share a byte of the flash, and all words are aligned |
| `FlashLayouts.KnownHeader` | sw/utils/s19toslm.py:187-211 | Concretely: the header fields at the size where data and header fill a block, and the bounds of both memories |
| `FlashLayouts.FittingBoots` | sw/utils/s19toslm.py:187-227 | Images that fit their areas are booted |
| `FlashLayouts.PlaceChanges` | sw/utils/s19toslm.py:214-227 | The words dumped after a word change its place only if they are the data word that overlays it |
| `FlashLayouts.DenseFits` | sw/utils/s19toslm.py:187-195 | Images without holes fit their areas |
| `FlashLayouts.WriteFlash` | sw/utils/s19toslm.py:187-227 | For every image, the flash holds the header, and at the place of every word what was dumped there last: the word itself, or the data word that overlays it |
| `FlashLayouts.WriteHeader` | sw/utils/s19toslm.py:187-211 | The eight fields in hexadecimal |
| `FlashLayouts.CountWords` | sw/utils/s19toslm.py:155-182 | The sizes are the numbers of words in each address range |
| `FlashLayouts.DumpBytes` | sw/utils/s19toslm.py:38-40 | Four bytes are placed and no others change |
| `FlashImages.BytesToWords` | sw/utils/s19toslm.py:67-91 | The words are gathered from the bytes, the same for every order of the dictionary, absent bytes zero |
| `FlashImages.KnownWord` | sw/utils/s19toslm.py:67-91 | Concretely: four bytes, the word they are, and its bytes in the flash |
| `FlashImages.HexBack` | sw/utils/s19toslm.py:192-200 | Eight hexadecimal digits stand for their 32-bit number |

## Left out

- CoRoutines.Scheduler.Schedule: the tick count of the kernel is an argument; the bodies of the co-routines are any mixture of creating, signalling and sleeping.
- CoRoutines.Scheduler.Create: takes control block allocation to succeed and fewer than 256 co-routines to exist: the list counter is one byte wide, so a list of 256 items looks empty (`KernelLists.List.IsEmpty`).
- CoRoutines.Scheduler.AddToDelayedList: the macros of `croutine.h` that call this function are not part of the model.
- DelayLengths.ZeroDelayAtTheLastTick: takes a direct call of `vCoRoutineAddToDelayedList` with a delay of zero. The callers in the repository guard against it: `crDELAY` (`sw/apps/freertos/Source/include/croutine.h:333`) and the two queue functions (`sw/apps/freertos/Source/queue.c:2086`, `sw/apps/freertos/Source/queue.c:2163`) call it for delays above zero only.
- The configuration of this port compiles co-routines out (`sw/apps/freertos/FreeRTOSConfig.h:107`); the rest of FreeRTOS is left out.
- RelaxDeletes.InputSection.Delete: stands for a deletion from the image only if the table lists each hash entry once; otherwise it says how often each is moved.
- RelaxDeletes.InputSection.RelaxAlign: takes an addend below 2^63, above which the doubling loop of the source does not end, and a table that lists each hash entry once.
- RelaxDeletes.InputSection.RelaxAlignHere: a table that lists each hash entry once.
- RelaxDeletes.InputSection.FillAndDelete: likewise.
- The relaxation of calls, branches and import references, and the search for relocations to relax.
- PcrelSections.PcrelSection.Perform: of the relocation types only PCREL_HI20, PCREL_LO12_I and PCREL_LO12_S; the immediate encodings are those of the RISC-V unprivileged specification, section 2.3, as the macros of `riscy-toolchain/tweaks/binutils/include/opcode/riscv.h` have them.
- PcrelSections.PcrelSection.RelocateSection: sections of these three types, and no two relocations that overlap.
- DynRelocMerges.CopyIndirectSymbol: the transfer of the thread-local access kind and the generic part of the copy.
- GotPlts.DynamicSections.Allocate: the sizes of .rela.got, the recording of dynamic symbols and the space for copied dynamic relocations.
- GotPlts.DynamicSections.SizeLocals: the size of .rela.got and the dynamic relocations of local symbols.
- GotPlts.DynamicSections.AllocateGot: the size of .rela.got.
- GotPlts.DynamicSections.LayOut: .rela.got, the recording of dynamic symbols and the dynamic relocations sized in the same loops.
- GotPlts.DynamicSections.SizeAllLocals: likewise, for local symbols.
- GotPlts.DynamicSections.AllocateAll: likewise, for global symbols.
- GotPlts.DynamicSections.AllocatePlt: the recording of dynamic symbols.
- GotPlts.DynamicSections.FinishPlts: where entry, slot and record are; what is written there is in `PltSections.FinishSections`, but for the records.
- GotPlts.DynamicSections.FinishPlt: likewise.
- GotContents.GotSection.RelocateAll: the offsets are in one array, in the order the words were set aside; the memory behind the section is part of the array of words, so that writing there can be told. The relocations for the dynamic linker, and the words that finish_dynamic_symbol clears for it, are left out. A link with thread-local symbols has a thread-local segment: the branches for one without are left out.
- GotContents.GotSection.RelocateTls: the relocations for the dynamic linker that are made beside the words.
- GotContents.GotSection.RelocateNormal: likewise.
- GotContents.GotSection.WriteWords: likewise.
- GotLinks.LayOutAndRelocate: likewise; the offsets are copied from the symbols to one array, in the order of their words, where the source marks them in the symbols.
- PltSections.FinishSections: the records in .rela.plt, and the symbol table entry of the symbol; the words of .got.plt are one array. Addresses do not reach past the end of the address space.
- PltCodes.CallsArrive: the instruction set is the six instructions of the PLT, with loads from any memory; the dynamic linker, which fills the first two words of .got.plt and later the others, is that memory.
- ImportSections.SectionSizes: only sections with names, not with resolved indices; the first pass that collects relocation counts is left out.
- ImportSections.CreateSections: only sections with names; the hash table is a sequence in bucket order; sizes fit an unsigned int.
- ImportReaders.ReadsWhatWasWritten: the reader returns what the listing prints; printing itself is left out. Names hold no terminator.
- AesCbc.Context.ConvertKey: the schedule is any sequence of round keys; its expansion from a cipher key in AES_set_key is left out.
- SpecMeanings.PrintedSpecMeans: trees of text, conditional braces, exact and suffix or spec-type tests, and starred tests of two letters or more. For starred tests of fewer letters the answer depends on what was looked up before (`MemoryAgrees`).
- SpecScanners.SpecScanner.DoSpec1: on %{S}, %{S*}, %*, starred tests of fewer than two letters, spec functions, other % sequences and newlines the scan stops with a result that says so.
- SpecScanners.SpecScanner.DoSpec2: when the scan fails nothing is said of the arguments. Of the flags that are cleared, only those of the model.
- SpecScanners.SpecScanner.HandleBraces: likewise on %{S}, %{S*} and spec functions.
- SpecScanners.SpecScanner.ProcessBraceBody: likewise on %*.
- SpecScanners.SpecScanner.EndGoingArg: library files and linker scripts, which are searched for.
- SwitchLiveness.SwitchTable.SwitchMatches: nothing is said of starred atoms of at most one letter.
- SwitchLiveness.SwitchTable.CheckLiveSwitch: switches ignored by %<, and the flag that a switch is known.
- FourierTransforms.FftIsDft: exact complex arithmetic; the rounding and overflow of 16-bit butterflies and the values of the cosine and sine tables are left out. `FftStages.Fft` takes any butterfly.
- FftStages.Fft: one element, for which the last stage of the source reaches behind the array.
- Keccaks.KeccakF: more rounds than the 24 constants; the padding and absorbing of do_keccak.
- BootLoaders.Board.Boot: SPI and UART registers, the check of the flash chip, the jump. A read gives the flash words, first byte most significant; the last block copied may reach behind the image, and behind a memory that is full (`BootLoaders.StaysInside`).
- BootLoaders.BuildAndBoot: reading S-records, and the memory bank files written beside the flash image.
- Attack demonstrations, device drivers, socket demonstrations, other benchmark kernels and the scripts of the repository.
