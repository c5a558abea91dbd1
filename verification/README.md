# minOSv2 kernel: a verified model

A Dafny model of the parts of the minOSv2 kernel whose correctness is not visible in any one
function, with proofs about every run, every interleaving or every input.

| file | what it holds |
|---|---|
| `Arithmetic.dfy`, `Rings.dfy` | facts about quotients, and what a ring buffer holds, shared by the others |
| `HeapModel.dfy`, `HeapMemory.dfy`, `KHeap.dfy`, `HeapRuns.dfy` | the kernel heap: the tiling it stands for, its circular free list in memory, `kmalloc` / `kfree` as loops over that list, and whole runs |
| `AlignedSplit.dfy` | what `kmalloc_alignas` leaves behind, and when that is still a heap |
| `PageTable.dfy` | `create_kpgtable` and the hardware's walk over its result |
| `KernelState.dfy`, `KernelInvariant.dfy`, `KernelCalls.dfy`, `KernelRuns.dfy`, `KernelTables.dfy` | thread table, scheduler and semaphores: the steps, the system invariant, what each call does field by field, whole runs, and the code over the tables |
| `Scheduler.dfy` | bounded waiting under the timer |
| `Pipe.dfy`, `PipeDelivery.dfy` | the pipe as a mailbox, and parent and child over it in every interleaving |
| `ContextSwitch.dfy` | the context switch as a register and stack machine |
| `CharQueue.dfy`, `Ahci.dfy`, `InodeTable.dfy` | string framing in the character ring, the AHCI command table, the ext2 inode table |

The model follows the code. Where the code falls short of its evident intent or of the
documentation, the property is stated with the exact condition under which the code has it:

- `kmalloc_alignas` (kernel/mm.c:185-197) keeps the heap intact if and only if the allocation
  ends the chosen block and does not start it. In the split branch the tail is recorded `2 * nunits`
  units too long: with the right length the split keeps the heap. When the allocation starts the block,
  the block stays on the free list. The request of tests/malloc-test.cpp:66 on a drained heap takes the
  damaging branch.
- `kmalloc_alignas` (kernel/mm.c:181-185) tries only the highest aligned unit of a block: it passes over
  a block with room if and only if one of the block's aligned units is too close to its end.
- `kmalloc` (kernel/mm.c:134-148) asked for -46 to -31 bytes takes that for no unit at all: it writes a
  length of 0 behind the first free block, or unlinks the sentinel. The heap survives if and only if
  nothing is free.
- `wait` (kernel/semaphore.c:84-104) keeps the system invariant if and only if the queue has
  room. With 30 threads queued, the next one is put in state WAIT but in no queue. A run from boot
  gets there.
- `delete_sem` (kernel/semaphore.c:128-129) returns 0 and does nothing for every identifier in range.
- `thread_end` (kernel/task.c:194-200) makes the ended tid unknown to the search, except the first
  thread's: 0 is still found if and only if some other slot holds the 0 it was loaded with.
- `waitp` (kernel/stdcall/pipe.c:43-51) is not atomic: the child's bytes arrive if and only if
  its signal does not fall between the parent's test and its `wait`.
- `thread_scheduler` (kernel/task.c:280-294) switches a thread to itself when nothing else is
  runnable, with the stack pointer saved the last time; the thread goes on where it was if and only
  if its stack is as deep as then. In its first turn a thread never is, and any parked
  thread with a word of stack to spare can be lost so. With no thread runnable at all, the
  scheduler's loop never ends.
- `signal` leaves a count of zero or more unchanged, while docs/doc_draft/semaphore.md:100-114 has
  it always increment; the model follows the code, so a signal nobody waits for is lost.
- `dequeue_str` (kernel/util.c:145-147) loops for ever exactly when only NULs are queued and the
  slot behind them holds one too.
- `build_cmd_table` (kernel/device/ahci.c:238-295) describes the transfer if and only if the last
  descriptor starts below 4 GiB and the block address has 48 bits; asked for no sector, it still
  writes one descriptor while the header announces none.

A semaphore call and a tick are one step each: interrupts are off in them, as
docs/doc_draft/semaphore.md:44-46 requires. `thread_end` and `fork_thread` run with interrupts on, so
each is two steps here, with any ticks and any calls of other threads in between: the slot is given up,
then its dictionary entry; the child is registered, then started. The windows that the model
leaves out are named under "Left out". Addresses of the heap count 16-byte units, and the list sentinel
lies below the heap (kernel/kernel.lds:7-11).

## Model

| member | source | states |
|---|---|---|
| KernelHeap.KHeap.constructor | kernel/mm.c:110-124 | the heap starts as the sentinel and one free block of `HEAP_SIZE / 16` units |
| KernelHeap.KHeap.Store | kernel/mm.c:148-148 | a thread writing anywhere in a payload it owns cannot disturb the heap |
| KernelHeap.UnitsHoldSize | kernel/mm.c:126-134 | a block has room for the bytes asked for, with less than a unit to spare |
| KernelHeap.NoUnits | kernel/mm.c:126-134 | the request sizes for which the unsigned conversion yields no unit, exactly -46 to -31 |
| KernelHeap.UnitsOfNegatives | kernel/mm.c:126-134 | -30 to -1 ask for a header alone, and anything below -46 for more units than any heap has |
| KernelHeap.TakingNothingDamages | kernel/mm.c:136-148 | for those sizes the stores, a length of 0 behind the first free block of the lap or the sentinel unlinked, leave a heap with the same live blocks if and only if nothing is free |
| KernelHeap.KHeap.FindFit | kernel/mm.c:136-153 | from any `freep` the search ends within one lap, finding the first block after `freep` that is long enough together with its predecessor, or nothing if and only if every free block is shorter |
| KernelHeap.KHeap.Kmalloc | kernel/mm.c:131-155 | null if and only if every free block is shorter than asked; otherwise the units come from the end of the first block after `freep`, going round, that has as many or more, `freep` becomes the node before it, and no other memory changes. A request for no unit is never null and does the stores of `TakingNothingDamages` |
| KernelHeap.KHeap.FindPredecessor | kernel/mm.c:214-219 | the search of `kfree` ends within one lap at the list node just below the block, across the wrap and on an empty list |
| KernelHeap.KHeap.Kfree | kernel/mm.c:209-238 | the block joins the free list merged with the free blocks it touches, `freep` becomes the node before it, and only two headers change |
| KernelHeap.KHeap.CountFreeBlock | kernel/mm.c:240-248 | the result is the number of free blocks |
| HeapModel.GapsAreFreeBlocks | kernel/mm.c:240-248 | the free blocks are exactly the maximal free stretches, so the count is the number of gaps |
| HeapModel.FirstIsUnique | kernel/mm.c:136-153 | the first block met on a lap is unique: first fit determines the block |
| HeapModel.AllocatedMeans | kernel/mm.c:136-155 | refusal, block and `freep` of an allocation in terms of the free blocks and their lengths alone |
| HeapModel.CarveIsValid | kernel/mm.c:139-147 | an allocation keeps the exact tiling, the ordered list and the coalescing, and adds one live block that was not live |
| HeapModel.CarveTakesItsUnits | kernel/mm.c:139-147 | exactly the returned units leave the free space |
| HeapModel.ReleaseIsValid | kernel/mm.c:221-237 | a release keeps the invariant and removes exactly one live block |
| HeapModel.ReleaseReturnsItsUnits | kernel/mm.c:221-237 | exactly the block's units return to the free space |
| HeapMemory.TakeRepresents | kernel/mm.c:140-147 | the stores of either branch of `kmalloc` turn the memory of one heap into that of the next |
| HeapMemory.ReleaseRepresents | kernel/mm.c:221-235 | the stores of `kfree` turn the memory of one heap into that of the next |
| HeapRuns.RunIsValid | kernel/mm.c:114-238 | the heap invariant holds at every point of every run of allocations, aligned ones that leave the heap intact included, and releases |
| HeapRuns.UnitsAreConserved | kernel/mm.c:120-147 | at every point of a run each unit of the heap is in a free block or in a live one, never both |
| HeapRuns.LiveUntilFreed | kernel/mm.c:131-238 | a live block keeps its place and length until the call that frees it |
| HeapRuns.EverythingFreedIsPristine | kernel/mm.c:221-237 | whenever nothing is live the heap and its list are again those of `init_kheap` |
| HeapRuns.DrainedIsPristine | tests/malloc-test.cpp:54-64 | freeing all live blocks in any order leaves one block of the whole heap |
| KernelHeap.KHeap.GetAlignedAddress | kernel/mm.c:157-166 | the highest aligned unit above the block's first, or null if and only if there is none |
| KernelHeap.KHeap.KmallocAlignas | kernel/mm.c:168-207 | an alignment up to 16, negative or zero included, is `kmalloc`; otherwise the payload is aligned and in the first suiting block, and the heap stays intact exactly when the allocation ends that block and does not start it |
| AlignedSplit.SuitingMeans | kernel/mm.c:181-185 | a free block suits if and only if it has an aligned unit and none of its aligned units is too close to its end |
| AlignedSplit.TailIsTooLong | kernel/mm.c:188-196 | the split records the tail's true length and `2 * nunits` units more, and changes no fourth header |
| AlignedSplit.AlignedSplitIntact | kernel/mm.c:184-199 | for every heap and block: after the stores some heap with the new block live exists if and only if the allocation ends the block and does not start it |
| AlignedSplit.TailDecides | kernel/mm.c:188-196 | with any tail length in place of the code's, the split leaves a heap with the new block live if and only if the allocation does not start the block and the tail ends where the block did |
| HeapRuns.AlignedTestDamagesHeap | tests/malloc-test.cpp:66-78 | the aligned request of the test, on a drained heap and wherever the frees left `freep`, leaves no heap behind |
| PageTable.CreateKpgtable | kernel/mm.c:48-80 | every word of the table has its value, so no loop overwrites another's entries, and nothing beyond is touched |
| PageTable.WordsAreEntries | kernel/mm.c:64-79 | every word is zero or a page's address with the present and writable bits and no other |
| PageTable.IdentityMapped | kernel/mm.c:64-79 | for 1 to 512 GiB every linear address below maps to itself, present and writable |
| PageTable.NothingElseMapped | kernel/mm.c:55-79 | every higher 48-bit address is not present |
| KernelTables.Tables.constructor | kernel/task.c:116-124 | the tables as loaded: no live thread, and a dictionary with -1 in slot 0 only |
| KernelTables.Tables.SearchIndexFromTid | kernel/task.c:85-98 | the first slot of the dictionary that holds the tid, or -1 |
| KernelState.SearchFindsLive | kernel/task.c:85-104 | despite stale zeros the search returns the right slot for every live thread |
| KernelTables.Tables.ChangeThreadState | kernel/task.c:106-114 | only the state of the thread with that tid changes |
| KernelTables.Tables.ThreadRegister | kernel/task.c:141-188 | the first dead slot gets the thread with a fresh tid and the caller's tid as parent, or nothing happens |
| KernelTables.Tables.ThreadEnd | kernel/task.c:194-200 | the slot and its dictionary entry are given up |
| KernelInvariant.BootEstablishesInv | kernel/task.c:255-263 | the first thread goes into slot 0 with tid 0 and no parent, and the system invariant holds |
| KernelInvariant.RegisterKeepsInv | kernel/task.c:141-188 | registering a thread, runnable or asleep, keeps the system invariant: the tid is fresh whatever stale entries the dictionary has |
| KernelCalls.RegisterMeans | kernel/task.c:141-188 | from any state with the invariant: the first dead slot, the caller's own tid as parent, a tid no live thread has, and every search finds its thread afterwards |
| KernelInvariant.StartChildKeepsInv | kernel/task.c:350-352 | starting a registered child in its parent's place keeps the system invariant |
| KernelCalls.StartMeans | kernel/task.c:350-352 | only the child's state and the running slot change |
| KernelInvariant.ClearSlotKeepsSound | kernel/task.c:194-196 | after the first store of `thread_end` the tables are still consistent, though the dictionary names a thread that is no more |
| KernelInvariant.ClearEntryKeepsSound | kernel/task.c:197-200 | and so they are after the second |
| KernelCalls.EndedIsForgotten | kernel/task.c:194-200 | between the stores the ended tid is still found, after them it is not; for tid 0 that holds if and only if no other slot has a 0 left from loading |
| KernelTables.Tables.ThreadScheduler | kernel/task.c:274-286 | ends, at a runnable slot with no runnable one between the current slot and it, going round |
| Scheduler.SpinsForever | kernel/task.c:279-286 | the loop's test never succeeds if and only if no thread is runnable |
| Scheduler.ChoiceIsUnique | kernel/task.c:274-286 | the table determines the choice |
| Scheduler.ChoosesItself | kernel/task.c:274-286 | the current thread is chosen again exactly when no other is runnable |
| Scheduler.ScheduleApproaches | kernel/task.c:274-286 | each call chooses a given runnable thread or strictly shortens the cyclic distance to it |
| Scheduler.RunsWithinCalls | kernel/task.c:274-286 | a thread that stays runnable is chosen within `THREAD_NUM` calls, whatever the others do |
| KernelTables.Tables.TimerHandler | kernel/int_handler.c:22-42 | counts the tick; when the period has gone by and tick 90 is past, records the tick and goes to the nearest runnable slot, otherwise leaves both alone |
| Scheduler.ThreadKeepsItsPeriod | kernel/int_handler.c:37-41 | in every run exactly `timer_period + 1` ticks go by from one time the timer schedules to the next, and no interrupt in between changes the running thread |
| Scheduler.ClockSteps | kernel/int_handler.c:26-41 | in every run `previous_interrupt` changes if and only if an interrupt schedules, to its tick, and up to tick 90 no interrupt changes the running thread |
| Scheduler.RunsWithinTicks | kernel/int_handler.c:37-41 | after tick 90 a thread that stays runnable is chosen within `THREAD_NUM * (timer_period + 1)` ticks, whatever the others do |
| KernelTables.Tables.EnqueueSem | kernel/semaphore.c:22-32 | the tid is appended to the queue the ring stands for, or refused when 30 wait |
| KernelTables.Tables.DequeueSem | kernel/semaphore.c:34-45 | the longest waiting tid is taken, or refused when none waits |
| KernelTables.Tables.CreateSemaphore | kernel/semaphore.c:52-82 | the first free entry becomes a semaphore with the count and no waiter; -1 for a negative count or a full table |
| KernelCalls.CreateMeans | kernel/semaphore.c:52-82 | -1 if and only if the count is negative or every entry used; otherwise the first free entry gets the count asked for |
| KernelTables.Tables.Wait | kernel/semaphore.c:84-104 | the whole effect of the call, and that it keeps the system invariant if and only if the queue is not full |
| KernelCalls.WaitMeans | kernel/semaphore.c:84-104 | field by field: a passing call lowers the count alone and returns 1; a blocking one queues the caller's tid last, notes the semaphore in its cell, gives up the processor to the nearest runnable thread and returns 1; with the queue full it returns 0 and the caller runs on in state WAIT |
| KernelTables.Tables.Signal | kernel/semaphore.c:106-123 | the whole effect of the call; it keeps the system invariant |
| KernelCalls.SignalMeans | kernel/semaphore.c:106-123 | field by field: with waiters exactly the one whose tid is first wakes and another thread runs at once; otherwise nothing changes; the result is 1 if and only if the semaphore is used |
| KernelRuns.SignalSchedules | kernel/semaphore.c:112-119 | a `signal` somebody waits for always ends with another thread running, the next runnable one going round |
| KernelRuns.ProcessorMoves | kernel/task.c:274-286 | over every step: only a tick, a blocking `wait`, a waking `signal` and the start of a child change the running thread, the first three to the nearest runnable one |
| KernelTables.Tables.DeleteSem | kernel/semaphore.c:125-142 | for an identifier in range the call returns 0 and changes nothing |
| KernelTables.Tables.WakeAll | kernel/semaphore.c:131-138 | the code behind the guards frees the entry, makes exactly its waiters runnable and keeps the system invariant |
| KernelCalls.WokeMeans | kernel/semaphore.c:131-138 | a thread changes if and only if it waits in that queue, and the entry is left free and empty |
| KernelInvariant.FullQueueStrandsCaller | kernel/semaphore.c:92-97 | with the queue full the caller is in state WAIT and in no queue, which breaks the semaphore invariant |
| KernelRuns.QueueFillsUp | kernel/semaphore.c:92-97 | a run from boot, thirty threads waiting on a new semaphore, that keeps the invariant and whose next `wait` breaks it |
| KernelInvariant.WaitKeepsInv | kernel/semaphore.c:84-104 | `wait` keeps the system invariant if and only if the queue is not full |
| KernelRuns.StepKeepsSound | kernel/semaphore.c:84-123 | every step keeps the system invariant if and only if it is not a `wait` that finds the queue full |
| KernelRuns.RunKeepsSound | kernel/semaphore.c:22-123 | over every run: a used semaphore queues as many threads as its count is below zero, a thread is in state WAIT if and only if its tid is in exactly one queue exactly once, and the thread table is consistent |
| KernelRuns.Ledger | kernel/semaphore.c:63-123 | from creation with `c`: at most `c` waits pass, none passes after one has blocked, and the queue is who blocked and was not released, in order |
| KernelRuns.LedgerFromCreation | kernel/semaphore.c:63-123 | the same from the step of a run that creates the semaphore, with the count it asked for |
| KernelRuns.ReleaseIsFifo | kernel/semaphore.c:106-119 | the k-th effective `signal` wakes exactly one thread, the k-th that blocked |
| KernelRuns.OnlySignalWakes | kernel/semaphore.c:106-119 | no other call or tick takes a thread out of state WAIT |
| KernelRuns.CountNeverRises | kernel/semaphore.c:112-113 | the count never exceeds where it was, and never rises above 0 once it has reached it |
| Pipe.PipeBuffer.Pwrite | kernel/stdcall/pipe.c:31-41 | a write succeeds if and only if the pipe is empty; then the bytes replace the front of the buffer and the message is there, otherwise nothing changes |
| Pipe.PipeBuffer.Pread | kernel/stdcall/pipe.c:19-29 | a read succeeds if and only if there is a message; then the front of the buffer is copied and the pipe is empty, otherwise nothing changes |
| Pipe.OnePlaceMailbox | kernel/stdcall/pipe.c:7-41 | successful calls alternate beginning with a write, and the k-th read is a prefix of the k-th write when it asks for no more |
| Pipe.CallsSucceedInTurn | kernel/stdcall/pipe.c:19-41 | after any calls a write succeeds if and only if as many reads as writes have, and a read if and only if one write more has |
| PipeDelivery.RunKeepsInv | kernel/stdcall/pipe.c:19-61 | in every interleaving, byte by byte, the message is intact until read and the parent sleeps only before it or after a missed signal |
| PipeDelivery.DeliveredUnlessMissed | kernel/kernel.c:85-111 | once both have settled the parent has exactly the child's bytes if and only if no signal fell between its test and its wait; otherwise it sleeps with nothing |
| PipeDelivery.AtomicDelivers | kernel/stdcall/pipe.c:43-61 | with `waitp` atomic the parent is never left blocked and reads exactly the child's bytes |
| PipeDelivery.StepsRunOut | kernel/kernel.c:85-111 | every step of parent or child is one fewer to take, whatever others do in between |
| PipeDelivery.RunsAreShort | kernel/kernel.c:85-111 | over every run the two take at most `2 * n + 8` steps for `n` bytes |
| PipeDelivery.NobodyIsStuck | kernel/kernel.c:85-111 | until both have settled one of them is runnable and has a step to take when scheduled |
| PipeDelivery.AtomicRunsEndDelivered | kernel/kernel.c:85-111 | with `waitp` atomic, a run in which neither thread can move any more, or in which they have taken `2 * n + 8` steps, has delivered exactly the child's bytes |
| PipeDelivery.LostWakeUp | kernel/stdcall/pipe.c:43-51 | a run in which the parent sleeps for ever on a full pipe, because `waitp` is not atomic |
| PipeDelivery.TwoThreadsComeFromBoot | kernel/stdcall/pipe.c:7-17 | the state that run starts from is reached from boot by `gen_pipe` and a fork |
| ContextSwitch.Cpu.Switch | kernel/task_asm.S:34-73 | the machine state after the pushes, the exchange of stack pointers, the pops and the return |
| ContextSwitch.SwitchMeans | kernel/task_asm.S:34-73 | word by word: what is stored where, what is loaded from where, and no other word changes |
| ContextSwitch.Cpu.InitStack | kernel/task_asm.S:5-30 | the new stack holds a frame that enters `rip` with `rdi` the thread and every other register 0; the caller's stack pointer is kept |
| ContextSwitch.CallerIsSaved | kernel/task_asm.S:37-53 | a call leaves on the caller's stack a frame that resumes it at its call site |
| ContextSwitch.SwitchIsTransparent | kernel/task_asm.S:34-73 | a thread switched to has its registers and stack position back and returns to its call site; every parked thread stays resumable |
| ContextSwitch.ResumesWhereItLeft | kernel/task.c:274-295 | over every run of threads on disjoint stacks a resumed thread goes on exactly as it left |
| ContextSwitch.FirstSwitchEnters | kernel/task.c:126-134 | in every run the first switch to a created thread enters it at its `rip` with `rdi` the thread, every other register 0 and an empty stack |
| ContextSwitch.InitStackSpawns | kernel/task_asm.S:5-30 | the frame of `init_stack` and the store of its result are the creation of a thread in the sense of the runs |
| ContextSwitch.SelfSwitch | kernel/task.c:280-294 | a thread switched to itself goes on where it was if and only if its stale stack pointer equals the new one |
| ContextSwitch.SelfSwitchOfThread | kernel/task.c:280-294 | in every state of a run, if and only if its stack is as deep as when it was last saved; the parked threads are not disturbed |
| ContextSwitch.FirstSelfSwitchLosesThread | kernel/task.c:280-294 | in every run a thread that has been entered once, and calls the scheduler from below the bottom of its stack with no other runnable, does not come back to where it was |
| ContextSwitch.AnyThreadCanBeLost | kernel/task.c:280-294 | from every state a run leads to that for any parked thread with a word of stack to spare |
| CharQueue.QueueChar.EnqueueChar | kernel/util.c:103-112 | the character is appended, or refused when 1600 are queued |
| CharQueue.QueueChar.DequeueChar | kernel/util.c:130-140 | the first character is taken, or refused when none is queued |
| CharQueue.QueueChar.EnqueueStr | kernel/util.c:114-128 | the string with its NUL is appended, or as much of it as fits |
| CharQueue.QueueChar.DequeueStr | kernel/util.c:142-156 | leading NULs are dropped and the characters up to the next NUL taken; it ends in every case but `SkipsForever` |
| CharQueue.UnframeMeans | kernel/util.c:142-156 | without its loops: exactly the leading NULs are dropped, the call succeeds if and only if a NUL follows, and it stops at the first |
| CharQueue.SkippingNeverEnds | kernel/util.c:145-147 | in that case the guard holds and every turn of the loop leads back to that case |
| CharQueue.FrameAppends | kernel/util.c:114-128 | queueing one more string frames one more string |
| CharQueue.RoundTrip | kernel/util.c:114-156 | any list of non-empty strings comes out of its frame again unchanged and in order |
| CharQueue.QueueChar.EnqueueAll | kernel/util.c:114-128 | strings queued one after the other in an empty ring, wherever its head is, leave their frame in the ring when that fits |
| CharQueue.QueueChar.DequeueAll | kernel/util.c:142-156 | as many calls of `dequeue_str` deliver the strings and end, every one of them |
| CharQueue.QueueChar.SendAndReceive | kernel/util.c:114-156 | any list of non-empty strings that fits goes through the ring unchanged and in order |
| Ahci.BuildCmdTable | kernel/device/ahci.c:238-295 | every descriptor and FIS field written, each byte of count and address at its place, the command and its flag, and when each of the three outcomes occurs |
| Ahci.FisReassembles | kernel/device/ahci.c:257-266 | the FIS carries the count, and the block address if and only if it has 48 bits |
| Ahci.HeaderCountsEntries | kernel/device/ahci.c:307-307 | the header's `prdtl` is the number of descriptors written if and only if a sector is asked for |
| Ahci.LengthsFit | kernel/device/ahci.c:283-294 | each length field is odd and within 22 bits, and describes 1 to 16 sectors |
| Ahci.TableTilesBuffer | kernel/device/ahci.c:274-294 | the descriptors tile the buffer if and only if the last still starts below 4 GiB |
| Ahci.TilesCover | kernel/device/ahci.c:274-294 | tiling means every byte of the buffer, and no other, lies in a region, and regions are disjoint |
| InodeTable.CreateInodeTable | kernel/fs/ext2.c:255-290 | every slot of the table is filled with its inode; a zero block size halts |
| InodeTable.SlotIndex | kernel/fs/ext2.c:282-282 | the index the inner loop writes to determines block and place: no slot is written twice |
| InodeTable.TableHoldsGroup | kernel/fs/ext2.c:264-268 | the table has room for the group's inodes and less than a block to spare |
| InodeTable.SlotIsContiguous | kernel/fs/ext2.c:276-284 | byte `b` of slot `k` is byte `bg_inode_table * block_size + 128 * k + b` of the disk, so inode n of group 0 is at n - 1 |
| InodeTable.SectorIsExact | kernel/fs/ext2.c:278-278 | the 32-bit sector number is the intended one if and only if that has 32 bits |

## Left out

- KernelHeap.KHeap.Kmalloc: the topmost fifteen sizes, for which rounding up overflows an `int`, and a request for no unit whose store would land behind the end of the heap.
- KernelHeap.KHeap.KmallocAlignas: negative sizes with an alignment above 16, for which the code's pointer arithmetic leaves the heap.
- KernelHeap.KHeap.Kfree: pointers that are not live payloads; the source trusts its callers.
- PageTable.CreateKpgtable: `pdpt_num` is a parameter, 1 to 512, where the source has the constant 4; the table must lie below 2^52.
- KernelTables.Tables.ThreadScheduler: a table with nothing runnable, for which the loop does not end (`SpinsForever`).
- KernelTables.Tables.Wait: a caller that blocks with nothing else runnable, for the same reason, with interrupts off.
- KernelTables.Tables.DeleteSem: identifiers out of range, for which the code reads past `semtable`.
- KernelTables.Tables.ThreadEnd: the lookup of the parent (which reads before `threads` once the parent has ended), the child list, and the freeing of `sid_ptr` and `pstruct`.
- KernelRuns.RunKeepsSound: runs in which a `wait` finds the queue full; `StepKeepsSound` says those are the only ones that break the invariant.
- Interrupts inside a step. `get_cur_thread_tid` (kernel/task.c:41-47) turns them on again, and it is called inside `wait` and, between taking the slot and taking the tid, inside `thread_run` and `thread_register` (kernel/task.c:152 and 176), where two creations can take the same tid; those two, `create_sem` and the heap also search their tables with interrupts on.
- `fork_thread` with no dead slot, for which the code goes on with index -1.
- ContextSwitch.ResumesWhereItLeft: stacks too short for a frame, and the reuse of a stack after its thread has ended.
- Scheduler.RunsWithinTicks: runs with a fork, which sets `cur_thread_index` itself.
- Pipe.PipeBuffer.Pwrite: more than 4096 bytes, which the code copies past the end of the buffer.
- Pipe.PipeBuffer.Pread: more than 4096 bytes, which the code copies from past the end of the buffer.
- CharQueue.QueueChar.DequeueStr: the caller's buffer is assumed long enough.
- InodeTable.CreateInodeTable: the disk is a pure map, `kmalloc` succeeds, and the table's length fits an `int`.
- `switch_fork` and the copy of the parent's stack: their effect depends on the compiler's frame layout.
- Overflow of `tid_global`, `semcount`, `tick` and of heap sizes: counters are unbounded integers.
- `gen_pipe`: the failure of its `kmalloc`.
- Overlap of the heap with the page tables in physical memory: they are separate memories here.
- Boot loader, graphics, console, serial, PIC and PCI port access, exception dumps, GDT and IDT: hardware plumbing.
- AHCI register polling and resets: their termination depends on hardware.
- The ext2 directory walk and the `ext2_check_*` functions: mostly printing.
