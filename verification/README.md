# Aether OS: a verified model of four kernel components

This project models, in Dafny, the parts of the Aether OS kernel with the most state, and proves
what they promise over whole runs:

- **Kernel heap** (`memory.c`). Headers and payloads share one byte array of 0x400000 bytes, and
  every header field is four little-endian bytes in it. `HeapBlocks` describes the block list as a
  value, `HeapTheorems` proves the allocator's laws about it, `HeapMemory` and `HeapHeaders` say
  how stores into headers change the list that memory spells out, `HeapRuns` defines runs with
  client writes in between, and `KernelHeap` is the C code as a class, each method tied to the list.
- **Processes and scheduler** (`process.c`, `scheduler.c`). `Processes` is a state machine on
  values (create, add, tick, yield, exit, destroy, enable, disable); `SchedulerTheorems`,
  `SchedulerEffects` says what each operation does, field by field; `SchedulerFairness`,
  `ProcessSlots` and `ProcessFamilies` prove invariants, fairness, starvation, PID, stack and family
  laws over its runs, `FamilyExamples` and `FamilyInheritance` give runs in
  which child lists go wrong, `SlotLists` holds the facts about lists; `KernelTable` and `Kernel`
  are the C code: an array of control blocks, links threaded through it, loops that search, shift
  and reparent, each method equal to a step.
- **Two-level paging** (`paging.c`, `paging.h`). `PageBits` is the bit layout (Intel SDM Volume 3A,
  section 4.3), `PageTables` the refinement of a flat map from virtual pages to entries, `Paging`
  the C code with its clearing and mapping loops, all for 4096-aligned frames. `PageRequests`,
  `RawMemory` and `BootOnHeap` are the same boot sequence on the bytes of the heap, with the
  unaligned pointers that `kmalloc` returns and the headers that get overwritten.
- **Console, numbers, keyboard** (`printk.c`, `keyboard.c`). `Terminal` is a terminal without end
  and `Console` the 80x25 screen that shows its last 25 rows; `Numerals` and `Formatting` are digit
  conversion and its inverse; `LineInput` and `Keyboard` are the ring buffer and the line editor.

## How to read the model

- The imperative classes carry a ghost value (`blocks`, `queue`, `term`) that their `Valid()` ties
  to the real fields. A method's contract equates the new value with a function of the old one; the
  theorems are about those functions and about runs of them.
- A pointer to a process is its slot number, and `pid` is that number: the code sets it so
  (process.c:44, 118) and never changes it. Child-list entries past `num_children` hold 0 instead
  of NULL; they are never read.
- Where several values may overflow in C the model says so: the heap's round-up is computed in 32
  bits (`AlignUp`), as are `num * size`, the page round-up and the shell's parser. Counters
  (`time_running`, `context_switches`) are unbounded.
- Each C function is one atomic step. Lists of allocator answers (`Paging`) and of key presses
  (`Keyboard`) are parameters: the theorems hold for all of them.
- Where the Markdown documents disagree with the C (a 4 MB identity map, priority numbers) the model
  follows the C: 16 MB, no priorities in scheduling.

## What turned out false, and when it holds

- **Empty blocks.** A request above 0xFFFFFFFC wraps to 0 in the round-up at memory.c:99, and an
  allocation "succeeds" with an empty payload, or with the first free block if that has 16 bytes or
  less. `TakeKeepsPositive` says exactly when payloads stay non-empty, `WrapLeavesEmptyBlock` is the
  example, `RunPositive` covers every run without such a request.
- **Room for what is written.** `krealloc` and `kcalloc` fill the block they get. `ResizeRoom` and
  `CallocRoom` say exactly when it has room: for `kcalloc` when the size it computes is at most
  0xFFFFFFFC (and for `num * size` bytes when the true product is), for `krealloc` when the request
  does not wrap or the old payload fits the small block a wrapped request gets. `CallocOverruns` and
  `ResizeOverruns` are calls that write past their block. The runs and the methods of the model
  exclude exactly these calls.
- **Bounded waiting.** `process_create` clears the block it was given before it finds the stack
  taken (process.c:117-142). If that block is the exited current process's, the failed call gives it
  10 fresh ticks (`Refills`). `CreateRank` shows that a creation delays a waiting process exactly in
  this case, `BoundedWaiting` proves the bound for all runs without it, `Starvation` that repeating
  it starves the queue for ever, and `StarvationIsReachable` that such a state is reached from boot.
- **Child lists.** A slot is held from a successful `process_create` to `process_destroy`, also
  after its process has exited. Live processes need not list live processes only. An exit leaves a
  dead child with a live process exactly if another live process lists the one that exits
  (`ExitKeepsLive`); a destruction hands the children of the destroyed process to PID 1, and breaks
  the law exactly if PID 1 lives and one of those for which its list has room is dead
  (`DestroyKeepsLive`); nothing else breaks it (`StepLive`), so over a run the law holds throughout
  exactly if no step is of these two kinds (`RunLive`). `DeadChildIsReachable` and
  `InheritingIsReachable` are runs from boot, one for each kind. What holds in every run, exits
  included, is the law with "held" for "live" (`RunFamily`) as long as no creation orphans: a
  `process_create` that is given the slot of an exited process fails, but has cleared the block and
  with it the parent (process.c:117-142). `CreateFamily` shows that a creation breaks the law exactly
  if another held process lists that slot, `OrphaningIsReachable` is a run from boot.
- **Lookup.** The result 0 also stands for physical address 0: `LookupZero` says exactly when it
  means "not mapped".
- **Page alignment, and booting.** The types declare 4096-byte alignment and a directory entry keeps
  only the top 20 bits, but `kmalloc` returns header + 16. Alignment is an assumption of the paging
  theorems (`FreshTable`); `EntryNamesTable` says that it is exactly what an entry needs, and
  `PagePointers` that of consecutive page requests on the fresh heap only every 256th meets it.
  `paging_init` runs right after `memory_init`, and without alignment its promises fail. What the
  entry of the first table gives instead lies below the table and covers the table's own heap header
  (`TableCoversHeader`): mapping page 4 of a region through it overwrites that header
  (`MappingDestroysHeader`), the block reads as free again (`SecondFitsAgain`), and the next request is
  answered with it. `PagingInitOnHeap` proves of the whole boot sequence that all four tables are the
  same block and all four directory entries name the same page, which is not that block;
  `BootMixesRegions` that pages 1 to 7 of every region then translate to those of the fourth; and
  `BootStrayEntries` that three further directory entries have become present.
- **Erasing.** A backspace cancels the character before it, except the one that fills the line: the
  line is then already finished (`EraseCancels`, an if and only if).

## Model

| member | source | states |
|---|---|---|
| HeapBlocks.Ordered | src/kernel/memory.c:47-91 | blocks of a tiling list lie in index order without overlap, at any distance |
| HeapBlocks.TakeShape | src/kernel/memory.c:93-110 | an allocation leaves the blocks tiling [0x200000, 0x600000), sizes multiples of 4, no two free neighbours |
| HeapBlocks.ReleaseShape | src/kernel/memory.c:112-127 | a release does too: coalescing on both sides leaves no two free neighbours |
| HeapRuns.InitialHeap | src/kernel/memory.c:13-25 | one free block at 0x200000 of 0x400000 - 16 bytes |
| HeapRuns.MallocOutcome | src/kernel/memory.c:93-110 | kmalloc returns NULL exactly for size 0 or when no gap takes the rounded size, otherwise the payload of the lowest gap |
| HeapTheorems.IndexIsUnique | src/kernel/memory.c:112-117 | a header address names one block |
| HeapTheorems.TakeLive | src/kernel/memory.c:93-110 | success adds one live block, with the size asked for and at most 16 bytes more, at the pointer returned; all other live blocks stay |
| HeapTheorems.ReleaseLive | src/kernel/memory.c:112-127 | a release removes exactly its own block from the live ones |
| HeapTheorems.ReleaseTwice | src/kernel/memory.c:125-126 | releasing a block that is still there and free already changes nothing |
| HeapTheorems.ReleasePtrLive | src/kernel/memory.c:112-127 | the same through the client's pointer, to a live or a free block, with the list well formed again |
| HeapTheorems.LiveDisjoint | src/kernel/memory.c:93-127 | live payloads lie in the heap, apart from each other and from every header |
| HeapTheorems.TakeLowestGap | src/kernel/memory.c:33-44 | NULL exactly when no room for header and payload is left anywhere between the live blocks; else the lowest such place in the heap |
| HeapTheorems.ReleaseUndoesTake | src/kernel/memory.c:47-127 | kfree right after a successful kmalloc restores the previous block list |
| HeapTheorems.ReleaseAllRestores | src/kernel/memory.c:69-127 | freeing all live blocks, in any order, restores the single free block of 0x400000 - 16 bytes |
| HeapTheorems.Accounts | src/kernel/memory.c:167-189 | used + free + 16 for each block is the heap size |
| HeapTheorems.AlignUpCovers | src/kernel/memory.c:98-99 | the rounded size covers the request exactly up to 0xFFFFFFFC, and is 0 above |
| HeapTheorems.SplitKeepsPositive | src/kernel/memory.c:47-66 | exactly when a split leaves no empty payload |
| HeapTheorems.TakeKeepsPositive | src/kernel/memory.c:93-110 | exactly when an allocation leaves no empty payload |
| HeapTheorems.ReleaseKeepsPositive | src/kernel/memory.c:69-127 | a release never makes an empty payload |
| HeapMemory.Store | include/memory.h:14-19 | a 32-bit store is read back, and changes no other byte |
| HeapMemory.HeaderApart | src/kernel/memory.c:47-91 | a write elsewhere changes no header |
| HeapMemory.Memset | src/kernel/memory.c:244-250 | the range holds the low byte of the value, nothing else changes |
| HeapMemory.Memcpy | src/kernel/memory.c:252-261 | memory is that of copying lowest byte first, for overlapping ranges too; the old bytes arrive unless the destination begins inside the source; nothing else changes |
| HeapMemory.CopyOne | src/kernel/memory.c:256-258 | one round of the copying loop, which may read a byte it has itself written |
| HeapMemory.CopiedArrives | src/kernel/memory.c:252-261 | exactly the old source bytes arrive when the destination does not begin inside the source |
| HeapHeaders.SplitRepresents | src/kernel/memory.c:52-65 | headers after the stores of a split spell out the split list, both link directions |
| HeapHeaders.SplitKept | src/kernel/memory.c:52-65 | the stores of a split hit no live payload |
| HeapHeaders.CutBlock | src/kernel/memory.c:52-65 | the split's stores in order: the new list in memory, live payloads kept |
| HeapHeaders.GlueBlocks | src/kernel/memory.c:71-90 | the stores of one merge: the new list in memory, live payloads kept |
| HeapHeaders.ChangeState | src/kernel/memory.c:106-107 | setting is_free: the new list in memory, live payloads kept |
| HeapHeaders.PayloadWrite | src/kernel/memory.c:148-161 | a write inside one live payload changes no header and no other payload |
| HeapRuns.MallocEffect | src/kernel/memory.c:93-110 | every 32-bit request, wrapped ones included, keeps the list well formed and the live blocks |
| HeapRuns.MoveKeepsOld | src/kernel/memory.c:129-154 | the block being resized is still live, with its size, after the request for its successor |
| HeapRuns.StepShape | src/kernel/memory.c:93-165 | each of kmalloc, kcalloc, kfree, krealloc keeps the list well formed |
| HeapRuns.RunShape | src/kernel/memory.c:13-165 | in every state of every run, client writes included, the headers in memory tile the heap, prev mirrors next, no two free neighbours |
| HeapRuns.RunKeepsPayload | src/kernel/memory.c:93-165 | over any stretch of a run a block that stays live and is not written by its owner keeps every byte |
| HeapRuns.StepFollows | src/kernel/memory.c:93-165 | one step carries the bytes a client holds to where its pointer leads then, in a block at least as large |
| HeapRuns.RunFollowsBytes | src/kernel/memory.c:93-165 | a client's bytes survive any run, followed through any number of resizes, unless its block is released or written to |
| HeapRuns.RunPositive | src/kernel/memory.c:93-165 | in runs without wrapped requests no payload is ever empty |
| HeapRuns.WrapLeavesEmptyBlock | src/kernel/memory.c:98-109 | kmalloc(0xFFFFFFFF) on the fresh heap leaves an empty block |
| HeapRuns.NewBlock | src/kernel/memory.c:93-110 | the block a request adds has the size asked for, or, exactly when the request wrapped, what the first free block gives |
| HeapRuns.ResizeRoom | src/kernel/memory.c:145-150 | the new block has room for the bytes krealloc copies exactly if the request does not wrap or the old payload fits the small block a wrapped request gets |
| HeapRuns.CallocRoom | src/kernel/memory.c:156-162 | the block has room for the bytes kcalloc clears exactly if the computed size is at most 0xFFFFFFFC; for num * size bytes exactly if the true product is |
| HeapRuns.CallocOverruns | src/kernel/memory.c:156-162 | kcalloc(1, 0xFFFFFFFF) on the fresh heap gets an empty block |
| HeapRuns.ResizeOverruns | src/kernel/memory.c:145-150 | kmalloc(4), then krealloc to 0xFFFFFFFF, copies 4 bytes into an empty block |
| HeapRuns.ResizeOutcome | src/kernel/memory.c:129-154 | krealloc keeps the pointer exactly if the block is large enough, returns NULL exactly if it is not and no gap is, and otherwise puts one new block in the old one's place |
| HeapRuns.MovePlan | src/kernel/memory.c:145-151 | old and new block of a move do not overlap, and the new one has room for the old bytes |
| HeapRuns.MoveDone | src/kernel/memory.c:145-153 | a move copies all old-size bytes and touches no other live payload |
| KernelHeap.Heap.MemoryInit | src/kernel/memory.c:13-30 | memory holds the header of the one free block |
| KernelHeap.Heap.FindFreeBlock | src/kernel/memory.c:33-44 | the walk along next finds the first fit, NULL when there is none |
| KernelHeap.Heap.SplitBlock | src/kernel/memory.c:47-66 | refines the split of the list, keeps heap_end and all live payloads |
| KernelHeap.Heap.MergeFreeBlocks | src/kernel/memory.c:69-91 | refines merging with both neighbours, keeps heap_end and all live payloads |
| KernelHeap.Heap.Kmalloc | src/kernel/memory.c:93-110 | list and pointer are those of the specification for every request; live payloads kept; NULL leaves memory as it was |
| KernelHeap.Heap.Kfree | src/kernel/memory.c:112-127 | releases the block of a pointer, live or already free; NULL and pointers outside the heap change nothing |
| KernelHeap.Heap.MovePayload | src/kernel/memory.c:150-153 | copying and releasing finish a move: every old byte arrives, no other live payload changes |
| KernelHeap.Heap.Krealloc | src/kernel/memory.c:129-154 | keeps the pointer, or moves with all old bytes copied, or returns NULL with memory unchanged |
| KernelHeap.Heap.Kcalloc | src/kernel/memory.c:156-165 | as kmalloc, and the bytes asked for are zero |
| KernelHeap.Heap.ClientWrite | src/kernel/memory.c:93-110 | a client's store inside its payload is a step: headers and other payloads unchanged |
| KernelHeap.Heap.GetStats | src/kernel/memory.c:167-189 | sums and counts of the list; they account for every byte |
| Processes.FirstFree | src/kernel/process.c:76-91 | the first terminated slot of a range |
| SchedulerTheorems.InitialInv | src/kernel/process.c:35-73 | the boot state satisfies the invariant |
| SchedulerTheorems.StepInv | src/kernel/scheduler.c:34-230 | every step keeps it: distinct READY processes queued, current not queued and RUNNING (quantum 1..10) or TERMINATED, nothing else RUNNING, stacks owned |
| SchedulerTheorems.CreateInv | src/kernel/process.c:105-183 | creation keeps it, on success and on failure |
| SchedulerTheorems.DestroyInv | src/kernel/process.c:186-224 | destruction keeps it |
| SchedulerTheorems.RunInv | src/kernel/scheduler.c:34-230 | it holds in every state of every run |
| SchedulerTheorems.SwitchGoesToHead | src/kernel/scheduler.c:146-187 | a switch goes to the old head, never to the old current process, with a full quantum and TSS esp0 at its stack top |
| SchedulerTheorems.StepSetsStack | src/kernel/scheduler.c:172-179 | whenever the current process changes, TSS esp0 is the top of the new one's own stack slice |
| SchedulerTheorems.TickRank | src/kernel/scheduler.c:132-192 | a tick dispatches a waiting process or brings it one tick nearer |
| SchedulerTheorems.HitsOnlyExited | src/kernel/process.c:105-142 | a creation can only be given the current slot when that process has exited, and then it fails |
| SchedulerTheorems.CreateRank | src/kernel/process.c:105-142 | a creation delays a waiting process exactly if it refills the quantum of the exited current process |
| SchedulerTheorems.StepRank | src/kernel/scheduler.c:34-230 | no other step of any kind lengthens a wait |
| SchedulerTheorems.BoundedWaiting | src/kernel/scheduler.c:132-192 | the process at queue index k runs within 10 * k + q enabled ticks, over all runs without such a creation |
| SchedulerEffects.InitialEffect | src/kernel/process.c:35-73 | the boot state field by field |
| SchedulerEffects.AddEffect | src/kernel/scheduler.c:34-55 | a live process ends up READY at the end of the queue and nothing else changes; NULL and terminated processes are ignored |
| SchedulerEffects.AddedRuns | src/kernel/scheduler.c:34-55 | over any run, a process added behind k others runs within 10 * k + q ticks, unless a creation refills an exited current process's quantum |
| SchedulerEffects.YieldEffect | src/kernel/scheduler.c:195-230 | a yield passes the turn to the head; who was running goes to the end with 10 ticks; nobody else changes; off or with nobody waiting it does nothing |
| SchedulerEffects.TickEffect | src/kernel/scheduler.c:132-192 | every outcome of a tick, field by field |
| SchedulerEffects.LoneTicks | src/kernel/scheduler.c:188-191 | a process with nobody behind it keeps the processor over n ticks, its quantum going round in tens |
| SchedulerEffects.ExitEffect | src/kernel/process.c:227-239 | the current process is terminated with the code and stays current; nothing else changes |
| SchedulerEffects.SwitchOnOffEffect | src/kernel/scheduler.c:105-119 | enabling and disabling change the flag only |
| SchedulerEffects.RunOff | src/kernel/scheduler.c:116-230 | from a disable to the next enable nobody else gets the processor and nobody leaves the queue |
| SchedulerEffects.CreateEffect | src/kernel/process.c:105-183 | the three outcomes of a creation, field by field: PID hint, stack, stack pointer, parent, child list, cleared block |
| SchedulerEffects.SpawnEffect | src/kernel/shell.c:433-437 | creating and adding queues a READY process behind everybody else |
| SchedulerFairness.Turn | src/kernel/scheduler.c:132-192 | ten ticks after a switch the turn passes to the head; exactly who gained what |
| SchedulerFairness.FairShare | src/kernel/scheduler.c:132-192 | 10 * (m + 1) ticks bring back current and queue; each of the m + 1 processes gained exactly 10 ticks and 2 switches, nobody else any |
| SchedulerFairness.StarvingRound | src/kernel/process.c:117-142 | with only the exited current slot free, a tick and a creation lead back to the same predicament |
| SchedulerFairness.Starvation | src/kernel/process.c:117-142 | so no number of such rounds lets a waiting process run |
| SchedulerFairness.StarvationIsReachable | src/kernel/process.c:105-239 | a run from the boot state that gets there |
| ProcessSlots.AllocateFirstCyclic | src/kernel/process.c:76-95 | the first terminated slot in cyclic order from next_pid over 1..255; fails exactly if there is none; never 0 |
| ProcessSlots.FailedCreateIsHarmless | src/kernel/process.c:105-142 | a failing creation leaves every live process, the queue and the stack flags alone |
| ProcessSlots.StepStacks | src/kernel/process.c:134-218 | a successful creation sets the flag of its slot, a destruction clears its own, no other step touches a flag |
| ProcessSlots.CreationsBounded | src/kernel/process.c:134-218 | in every run from boot successful creations exceed destructions by at most 255 |
| ProcessSlots.SlicesDisjoint | src/kernel/process.c:13-14 | stack slices never overlap |
| SlotLists.RemoveFirstCuts | src/kernel/process.c:192-204 | removal from a child list cuts out one entry and keeps the order |
| ProcessFamilies.CreateFamily | src/kernel/process.c:105-166 | creation, successful or not, keeps families in order exactly if it does not clear a block that another held process lists |
| ProcessFamilies.ReparentEffect | src/kernel/process.c:206-213 | every listed child gets the new parent, whose list takes them in order as far as it has room; nobody else changes |
| ProcessFamilies.DestroyFamilies | src/kernel/process.c:186-224 | destroying a held slot, exited or not, keeps families in order |
| ProcessFamilies.DestroyEffect | src/kernel/process.c:186-224 | the whole effect on families, in any state, for every victim but the heir: out of its parent's list, children to PID 1 (to the idle process before any creation), all other lists, parents and states unchanged |
| ProcessFamilies.DestroyHeir | src/kernel/process.c:206-213 | PID 1 destroyed inherits from itself: a list that is not empty fills up to 16 with copies of itself |
| ProcessFamilies.DestroyRest | src/kernel/process.c:186-224 | apart from parents and lists a destruction clears the stack flag and terminates the victim, nothing else; NULL and PID 0 are ignored |
| ProcessFamilies.StepFamily | src/kernel/process.c:105-239 | every step keeps families in order, exits included |
| ProcessFamilies.RunFamily | src/kernel/process.c:105-239 | in every run from boot, exits included, that releases slots by destruction, spares PID 1 and does not orphan: each held slot's list is duplicate-free, at most 16 long, of held slots with that parent |
| ProcessFamilies.ExitKeepsLive | src/kernel/process.c:227-239 | an exit keeps live lists live exactly if no other live process lists the one that exits |
| ProcessFamilies.CreateKeepsLive | src/kernel/process.c:105-183 | a creation always does |
| ProcessFamilies.DestroyKeepsLive | src/kernel/process.c:192-221 | a destruction does exactly if PID 1 has exited or the children for which its list has room are alive |
| ProcessFamilies.StepLive | src/kernel/process.c:105-239 | for every step, exactly when it keeps live lists live |
| ProcessFamilies.RunLive | src/kernel/process.c:105-239 | over every run from boot, exits included, that keeps families in order: live processes list live processes throughout exactly if every step is of the kind that keeps it so |
| ProcessFamilies.RunWithoutExits | src/kernel/process.c:105-224 | in particular in runs without exits, in which no slot of a dead process is ever held |
| FamilyExamples.DeadChildIsReachable | src/kernel/process.c:227-239 | create, add, enable, tick, exit: a live process lists a dead one |
| FamilyInheritance.InheritingIsReachable | src/kernel/process.c:206-213 | a run from boot whose exits all keep live lists live, and whose last step, a destruction, hands a dead child to PID 1 |
| FamilyExamples.OrphaningIsReachable | src/kernel/process.c:117-142 | a run from boot to a failing creation after which a process lists one whose parent is NULL |
| KernelTable.AppendLinks | src/kernel/scheduler.c:39-51 | the stores of adding at the tail refine append on the linked queue |
| KernelTable.UnlinkLinks | src/kernel/scheduler.c:63-77 | the stores of unlinking at any position refine deletion |
| KernelTable.ShiftedList | src/kernel/process.c:196-201 | the shifted array is the list without its first occurrence of the child |
| KernelTable.AdoptBlock | src/kernel/process.c:160-164 | a bounded append to a child array refines the bounded append to the list |
| Kernel.System.constructor | src/kernel/process.c:35-73 | the arrays after process_init and scheduler_init are the initial state |
| Kernel.System.AddProcess | src/kernel/scheduler.c:34-55 | equals the add step; nothing for NULL or a terminated process |
| Kernel.System.RemoveProcess | src/kernel/scheduler.c:58-82 | deletes a queued process at any position, count and links included |
| Kernel.System.Schedule | src/kernel/scheduler.c:85-102 | pops the head as RUNNING with quantum 10; idle for an empty queue |
| Kernel.System.SwitchProcess | src/kernel/scheduler.c:146-187 | equals the switch of the state machine |
| Kernel.System.SchedulerTick | src/kernel/scheduler.c:132-192 | equals the tick step and keeps the invariant |
| Kernel.System.SchedulerYield | src/kernel/scheduler.c:195-230 | equals the yield step and keeps the invariant |
| Kernel.System.SchedulerEnable | src/kernel/scheduler.c:105-113 | equals the enable step |
| Kernel.System.SchedulerDisable | src/kernel/scheduler.c:116-119 | equals the disable step |
| Kernel.System.ProcessExit | src/kernel/process.c:227-239 | equals the exit step and keeps the invariant |
| Kernel.System.GetByPid | src/kernel/process.c:270-281 | the slot of a live PID, NULL for any other number |
| Kernel.System.ProcessAllocatePid | src/kernel/process.c:76-95 | the two search loops find the specified slot and move next_pid past it, or 0xFFFFFFFF and no change |
| Kernel.System.ProcessCreate | src/kernel/process.c:105-183 | equals the create step on success and on both failures |
| Kernel.System.CloseGap | src/kernel/process.c:196-199 | the shifting loop moves the entries behind one place forward |
| Kernel.System.RemoveChild | src/kernel/process.c:192-204 | search and shift remove the first occurrence of the child, nothing else |
| Kernel.System.ReparentChildren | src/kernel/process.c:206-213 | equals the reparenting of the state machine, also when a process adopts from itself |
| Kernel.System.ProcessDestroy | src/kernel/process.c:186-224 | equals the destroy step and keeps the invariant |
| PageBits.FieldsMakeAddress | include/paging.h:81-91 | the three fields of an address determine it |
| PageBits.IndicesOfPage | include/paging.h:81-91 | the two indices are those of the virtual page |
| PageBits.FrameAndFlags | include/paging.h:108-121 | the frame is the entry rounded down to 4096, the flags the rest, present is bit 0 |
| PageBits.OrSetsBit | src/kernel/paging.c:111-117 | the ors with PRESENT and WRITE set bits 0 and 1 and no other |
| PageBits.AndBits | include/paging.h:114-116 | the model's and is the bitwise and |
| PageBits.PteFields | include/paging.h:98-116 | an entry gives back frame and flags |
| PageBits.FieldsMakeEntry | include/paging.h:98-116 | frame and flags make up the entry |
| PageTables.MapFlat | src/kernel/paging.c:86-118 | map sets exactly one of 2^20 pages; without the table it needs it changes nothing; tables stay distinct |
| PageTables.UnmapFlat | src/kernel/paging.c:120-135 | unmap clears exactly one page and no directory entry |
| PageTables.HangTable | src/kernel/paging.c:95-111 | a new empty table in an absent entry changes no translation |
| PageTables.LookupFlat | src/kernel/paging.c:137-156 | the lookup is frame + offset of the flat map, 0 if unmapped |
| PageTables.LookupZero | src/kernel/paging.c:144-155 | exactly when the result 0 occurs |
| PageTables.RunWellFormed | src/kernel/paging.c:86-135 | over every run present directory entries name distinct tables |
| PageTables.RunRegionFlags | src/kernel/paging.c:95-111 | over every run a region's entry keeps PRESENT, WRITE and the flags of its first successful map |
| PageTables.RunEffective | src/kernel/paging.c:110-117 | a mapped page's effective permission is that value ANDed with its own flags |
| Paging.VirtualMemory.AllocatePage | src/kernel/paging.c:96-101 | NULL, or a frame that is fresh and aligned: the assumption on the heap |
| Paging.VirtualMemory.InstallCleared | src/kernel/paging.c:105-108 | the clearing loop makes an empty table |
| Paging.VirtualMemory.PagingMapPage | src/kernel/paging.c:86-118 | memory is that of the specification; a table is requested exactly for an absent region, and NULL changes nothing |
| Paging.VirtualMemory.PagingUnmapPage | src/kernel/paging.c:120-135 | memory is that of the specification |
| Paging.VirtualMemory.PagingGetPhysicalAddress | src/kernel/paging.c:137-156 | the flat map's answer |
| Paging.VirtualMemory.PagingIdentityMap | src/kernel/paging.c:72-84 | without failures exactly the pages of the rounded range are mapped to themselves, and exactly the touched regions present |
| Paging.PageRounding | src/kernel/paging.c:75-76 | start rounded down and end rounded up to 4096; an end above 0xFFFFF000 wraps to 0 |
| Paging.VirtualMemory.PagingInit | src/kernel/paging.c:16-51 | without failures the promised boot state; with failures still distinct tables; without a directory nothing |
| Paging.BootTranslation | src/kernel/paging.c:36-44 | after boot translation is the identity below 0x01000000 and absent elsewhere |
| Paging.BootPermissions | src/kernel/paging.c:36-44 | page 0xB8 alone among the mapped ones lacks PAGE_USER |
| PageRequests.CarveOneMore | src/kernel/memory.c:93-110 | one page request on a heap of k pages |
| PageRequests.PagePointers | src/kernel/paging.c:20-97 | the fresh heap yields 1020 pages; exactly every 256th is 4096-aligned |
| PageRequests.EntryNamesTable | include/paging.h:104-111 | an entry gives back its table exactly if the table is aligned |
| PageRequests.BootFramesAreLost | src/kernel/paging.c:20-111 | neither the directory nor the first table of paging_init on the fresh heap is aligned, so an entry does not give it back |
| PageRequests.TableCoversHeader | src/kernel/paging.c:110-117 | what the entry gives instead is a page that covers the heap header of the table's own block, at a known entry number |
| PageRequests.MappingDestroysHeader | src/kernel/paging.c:112-117 | storing a present entry there in an intact heap leaves headers that no longer spell out the list |
| RawMemory.FindBlock | src/kernel/memory.c:33-44 | the walk on any memory in which it ends, spoilt headers included |
| RawMemory.CutAnyway | src/kernel/memory.c:47-66 | what a split writes on any memory: all else stays, and what the two headers become |
| RawMemory.KmallocAnyway | src/kernel/memory.c:93-110 | the pointer and the writes of a page request on any memory in which the walk ends |
| RawMemory.ClearPage | src/kernel/paging.c:105-108 | the clearing loop on the heap's bytes |
| BootOnHeap.SecondAnswers | src/kernel/memory.c:33-44 | a page request is answered with the second block whenever its header reads as free and large enough, whatever was handed out before |
| BootOnHeap.SecondFitsAgain | src/kernel/paging.c:112-117 | after a region has been mapped its entries 4 to 7 make that header read so |
| BootOnHeap.MapOnHeap | src/kernel/paging.c:86-118 | paging_map_page on the heap's bytes, for both cases |
| BootOnHeap.IdentityMapOnHeap | src/kernel/paging.c:72-84 | the loop over 4096 pages; its four table requests all get the same block |
| BootOnHeap.PagingInitOnHeap | src/kernel/paging.c:16-51 | memory_init and paging_init: directory entries 0 to 3 all name 0x201000, which is not the table they were made of |
| BootOnHeap.BootMixesRegions | src/kernel/paging.c:137-156 | pages 1 to 7 of each region then translate to those of the fourth; the identity exactly there |
| BootOnHeap.BootStrayEntries | src/kernel/paging.c:39-44 | directory entries 1021 to 1023 are present too |
| BootOnHeap.TablesRepeat | src/kernel/paging.c:95-104 | on a heap left to itself the third to fifth request would get other pages |
| Terminal.CellBytes | src/kernel/printk.c:42-44 | character in the low byte, colour in the high byte |
| Terminal.ClearedEffect | src/kernel/printk.c:208-216 | 2000 blanks in the current colour, cursor at the first |
| Terminal.NewlineEffect | src/kernel/printk.c:162-168 | start of the next row, a blank row added exactly at the bottom |
| Terminal.ReturnEffect | src/kernel/printk.c:170-173 | start of the row, cells unchanged |
| Terminal.TabEffect | src/kernel/printk.c:175-185 | the next column that is a multiple of 8, or as a newline |
| Terminal.PlainEffect | src/kernel/printk.c:187-194 | the character stands at the cursor, which moves on, with a blank row added exactly at the end |
| Terminal.BackEffect | src/kernel/printk.c:229-238 | one cell back and blanked; nothing in the first cell of the window |
| Terminal.LinesText | src/kernel/printk.c:161-201 | a text of several lines stands line by line, each wrapped, through any number of scrolls |
| Terminal.ShortLinesInRows | src/kernel/printk.c:161-201 | lines shorter than a row stand in consecutive rows |
| Terminal.WindowShowsEnd | src/kernel/printk.c:9-11 | the screen's cells are those of the last 25 rows |
| Terminal.PutProper | src/kernel/printk.c:161-195 | a character keeps the cursor in the last 25 rows |
| Terminal.TypeAllProper | src/kernel/printk.c:161-238 | so does any run of characters and erasures |
| Terminal.PutKeepsHistory | src/kernel/printk.c:161-195 | printing changes one cell at the cursor at most, nothing before |
| Terminal.PlainText | src/kernel/printk.c:187-201 | a plain text appears cell by cell, wrapped, through any number of scrolls |
| Terminal.BackUndoesPut | src/kernel/printk.c:187-238 | erasing after a character restores the cursor and leaves a blank, also across the line end and a scroll |
| Console.NewRowWindow | src/kernel/printk.c:137-152 | scrolling is sliding the window one row |
| Console.Screen.CopyRowUp | src/kernel/printk.c:140-142 | the inner loop copies one row over the one above, nothing else |
| Console.Screen.Scroll | src/kernel/printk.c:137-152 | the in-place loops drop the first row and append a blank one |
| Console.Screen.PutCharAt | src/kernel/printk.c:155-158 | one cell, in bounds |
| Console.Screen.PutChar | src/kernel/printk.c:161-195 | the screen stays the window of the terminal given the same character |
| Console.Screen.Backspace | src/kernel/printk.c:229-238 | likewise for an erasure, which never leaves the window |
| Console.Screen.Clear | src/kernel/printk.c:208-216 | the screen is the window of an empty terminal |
| Console.Screen.SetColor | src/kernel/printk.c:219-221 | later cells take the colour, present ones keep theirs |
| Console.Screen.Write | src/kernel/printk.c:198-201 | a string has the effect of its characters in order on the terminal |
| Numerals.NumeralValue | src/kernel/printk.c:96-134 | the numeral denotes the number and has no leading zero |
| Numerals.CanonicalUnique | src/kernel/printk.c:96-134 | there is only one such string, so this is the canonical numeral |
| Numerals.Length32 | src/kernel/printk.c:96-134 | a 32-bit value has at most 10 digits in base 10 or 16 |
| Formatting.ReverseString | src/kernel/printk.c:54-64 | the in-place swap reverses the first length characters |
| Formatting.WriteDigits | src/kernel/printk.c:105-109 | the digit loop writes the digits lowest first, in bounds |
| Formatting.Utoa | src/kernel/printk.c:96-114 | the buffer holds the numeral and a NUL, in bounds of 32 |
| Formatting.UtoaUpper | src/kernel/printk.c:116-134 | likewise with capital letters |
| Formatting.Itoa | src/kernel/printk.c:67-94 | the decimal numeral with its sign, for every int above INT_MIN |
| Formatting.ParsePid | src/kernel/shell.c:417-422 | the shell's loop computes the decimal value of the leading digits, any number of them, modulo 2^32 |
| Formatting.ParseIsDecimalValue | src/kernel/shell.c:417-422 | the same of any digit string before any non-digit |
| Formatting.ParseUndoesNumeral | src/kernel/shell.c:417-422 | it undoes base-10 utoa on every 32-bit value, whatever non-digit follows |
| Formatting.SignedRoundTrip | src/kernel/printk.c:67-94 | every int above INT_MIN can be read back from its itoa output |
| LineInput.InsertDrops | src/kernel/keyboard.c:76-82 | a character is dropped exactly while 255 are pending |
| LineInput.InsertAllAccepts | src/kernel/keyboard.c:76-82 | arrivals are appended in order, dropped only while 255 are pending |
| LineInput.FirstInFirstOut | src/kernel/keyboard.c:76-185 | for any interleaving what was read, then what is pending, is what was accepted; at most 255 pending |
| LineInput.OneCharacter | src/kernel/keyboard.c:212-229 | newline finishes, backspace takes off the last character, exactly 32 to 126 are accepted, all others do nothing |
| LineInput.FinishedStays | src/kernel/keyboard.c:212-216 | a finished line takes nothing more |
| LineInput.NewLineEmpty | src/kernel/keyboard.c:202-204 | a line starts empty, finished only if there is no room |
| LineInput.EditSnoc | src/kernel/keyboard.c:201-233 | editing character by character is editing the whole input |
| LineInput.EditFits | src/kernel/keyboard.c:201-233 | the line is printable, has at most max_len - 1 characters, and is finished when full |
| LineInput.EraseCancels | src/kernel/keyboard.c:218-230 | a backspace cancels a character exactly if that character did not fill the line |
| LineInput.PlainLine | src/kernel/keyboard.c:201-233 | input without corrections comes out as typed, ended by newline |
| Keyboard.CircularPush | src/kernel/keyboard.c:77-81 | storing at the head appends to what the ring holds, across the wrap |
| Keyboard.CircularPop | src/kernel/keyboard.c:181-183 | moving the tail takes off what the ring holds first, across the wrap |
| Keyboard.Input.AddToBuffer | src/kernel/keyboard.c:76-82 | the ring refines the queue, a character being dropped when 255 are pending |
| Keyboard.Input.GetChar | src/kernel/keyboard.c:176-185 | takes the oldest pending character; NUL and no change when there is none |
| Keyboard.Input.Flush | src/kernel/keyboard.c:191-195 | the queue is empty |
| Keyboard.Input.Poll | src/kernel/keyboard.c:205-210 | one round of reading with the interrupts before it: the oldest pending character, NUL only when there is none |
| Keyboard.Obey | src/kernel/keyboard.c:212-229 | the body of the loop is one step of the editor on the caller's buffer |
| LineInput.ReaderEatsInOrder | src/kernel/keyboard.c:201-233 | whatever arrives between rounds, the characters read are the old queue and the accepted arrivals in order, up to what stays pending, and the line is what editing makes of them; an unfinished reader has read everything, a finished one nothing beyond the character that finished the line |
| LineInput.NothingDropped | src/kernel/keyboard.c:76-82 | with at most 255 characters pending and typed in all, what gets in by the time the line is finished is a prefix of what was typed, and all of it if the line never is |
| Keyboard.Input.ReadLine | src/kernel/keyboard.c:201-233 | queue and buffer end as the reading specification says, NUL-terminated, in bounds of max_len; a max_len of 1 or less reads nothing and stores the NUL |

## Left out

- KernelHeap.Heap.Krealloc: excludes a wrapped request whose copy would run past the block it gets, which HeapRuns.ResizeRoom characterises exactly, and pointers to no live block.
- KernelHeap.Heap.Kcalloc: excludes a wrapped request whose clearing would run past the block it gets, which HeapRuns.CallocRoom characterises exactly.
- KernelHeap.Heap.Kfree: a pointer into the heap must be that of a block that still exists, live or free; a pointer into the middle of a block is not described.
- memcmp: it only compares.
- Kernel.System.AddProcess: a live process that is already queued is excluded; its links would be overwritten. The invariant also needs it not to be the current process.
- Kernel.System.ProcessDestroy: the process must be neither queued nor current, because destroy never unlinks it.
- Kernel.System.RemoveProcess: the process must be queued; scheduler_schedule, its only caller, removes the head.
- ProcessFamilies.RunFamily: destroying PID 1, or a slot a second time after it was released, is excluded: the first hands the children of PID 1 to PID 1 itself (ProcessFamilies.DestroyHeir), the second hands over a list of children it no longer has. Creations that orphan are excluded by the exact condition in ProcessFamilies.CreateFamily.
- Paging.VirtualMemory.AllocatePage: an unaligned page is treated as NULL, though kmalloc would return it; BootOnHeap covers the boot sequence with such pages, later calls are not modelled for them.
- Paging.VirtualMemory.PagingInit: the boot state is promised for aligned frames; BootOnHeap.PagingInitOnHeap proves what happens with those that kmalloc returns.
- BootOnHeap.PagingInitOnHeap: two of the stores of kmalloc fall outside the heap (at 0x6013 and 0x806013); that memory is not part of this model.
- Formatting.Itoa: INT_MIN, whose negation overflows, and base 16, which printk does not use it with.
- Keyboard.Input.ReadLine: the buffer must have room for the NUL, and max_len must not exceed it.
- Names, priorities, page directories, creation times, user stacks and registers other than the initial esp of a process: no modelled code depends on them.
- BLOCKED, process_set_state and process_set_current: nothing in the scheduler uses them; current_process is never NULL after process_init.
- user-mode and system-call set-up, the assembly of a context switch, CR0, CR3, TLB flushes and hlt: hardware.
- Interrupts in the middle of a function: each C function is one step.
- printk's format dispatch, scancode tables, echo, log lines and statistics printing: user interface.
- A sign before the digits: no C function reads one; Formatting.ParseSigned exists to state that itoa loses nothing.
