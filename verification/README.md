# antOS: verified models

A Dafny 4.11 model of the parts of antOS where correctness spans several functions or a whole
state machine: the kernel's page tables and frame allocator, its scheduler, its heap, the wake-up
protocol of its async executor, the VirtIO-Input queue, the initial ramdisk archive, the desktop
compositor, and the collaborative document of the user-space daemon. `dafny verify dfyconfig.toml`
checks the project.

Code that updates memory in place is modelled as classes and arrays with loops; each such method is
proved against a function or predicate over plain values, and the theorems are about those.

## The parts

**Page tables** (`Bits`, `PageEntries`, `PageTree`, `PageMaps`, `TablePaths`, `Frames`, `MapperSpecs`, `FlagUpdates`,
`TableGrowth`, `Mapper`, `MemoryController`).
Physical memory is one array of 64-bit words; entries, masks and index extraction are computed bit by bit.
A ghost placement gives every table one level and one address prefix, which excludes shared tables.
The tree denotes a page map, and `translate`, `map`, `unmap`, `update_flags`, `mmap_user_pages` and
`munmap_user_pages` are specified on that map alone: what they answer, which page they change, that no
other page changes, that failures change nothing, and that user access stays decided by the page's own
user bit. Running out of frames is exact as well: `map` fails for an unmapped page if and only if fewer
frames are left than tables are missing on its path, and `mmap_user_pages` succeeds if and only if all its
pages are unmapped and the frames cover the pages and the tables they need. Mapping and unmapping leave every
word of the other data pages alone. The entry a page gets is its frame plus the flags, present, to the bit; a new
table entry is the table, present and writable, with the user bit of the request. `update_flags` walks without a huge-page check; a refusal changes nothing
and a success does what it says, unless the page lies in a huge page and the walk through its data ends at an
odd word, and in that case never. A memory with a 2 MiB page where it reports success and changes no flags is
given.

**Scheduler** (`SchedulerState`, `SchedulerQueue`, `SchedulerStacks`, `SchedulerTheorems`, `SchedulerContexts`,
`SchedulerLives`, `SchedulerProcesses`, `Scheduler`).
The class refines a pure step function. Over every run: the queue lists exactly the ready threads, one
thread runs, the CPU uses the tables of its process, every managed stack has exactly one owner, both exits
agree, and a ready thread waits a bounded number of ticks. For every operation and every thread the state, the
slice, the saved registers and the charged ticks after it are given in terms of queue, current thread and states
before it, and so is who runs next, in which address space. A thread starts at its entry point when it first gets
the CPU, however late; it keeps the CPU for its slice while others wait; once blocked it stays so until woken, and
once ended for good. A process ends with the last of its threads and with that thread's exit code. Waking a thread that has blocked but not yet left
the CPU breaks the agreement, and in no other case does a wake-up break it; the next tick can then wait for
a lock its own CPU holds, in a run of five operations from the start. Every thread resumes with the registers
it left the CPU with, if and only if no switch takes the CPU from a thread that has blocked while its registers
differ from the saved ones: the scheduler saves the registers of running threads only. The kernel calls the block and unblock operations from no driver
yet, so both failures concern the interface as it stands.

**Heap** (`FreeLists`, `HeapAllocator`). The coalescing free list, with its nodes in memory at the holes
they describe. Allocation is first fit, and a hole refuses a request if and only if it has no aligned room or
its first room would leave a tail too small for a node; nodes are written in free bytes only; live blocks, holes and lost padding add up to the heap at all times;
freeing merges back to the unique canonical list. A request is served with the smallest size and alignment that
hold the layout and a node, and with no others.

**Executor, locks, keyboard** (`WakeProtocol`, `WakePolls`, `SpinLocks`, `Scancodes`). Tasks, wakers and interrupts as an
interleaved state machine. Ready tasks are taken in turn, whatever interrupts come between, and polled when taken; a task ends in its own
poll only. Key codes reach the keyboard task in order, each once, and a sleep lasts at least the ticks asked for. No wake-up is lost, whether the hardware layer enables interrupts and halts in one
step, as on x86-64, or in two, as on AArch64. `sleep_if_idle` never sleeps on queued work exactly where it is
one step; run by run, the CPU sleeps on queued work if and only if an interrupt queued it in the gap between
the two. The kernel creates its executor on x86-64 only (kernel/src/main.rs:1108), and only the x86-64
interrupt handlers feed the ring and the clock: the two-step case is the executor as it would behave on the
other layer, not a run of the AArch64 kernel. The keyboard task is modelled as its module defines it; the
kernel at this commit keeps it for reference and does not spawn it (kernel/src/main.rs:1103-1107).

**VirtIO-Input queue** (`VirtioRing`). A split virtqueue with 16-bit wrapping indices and a device that runs
between any two writes of the driver: ownership of descriptors is exclusive, recycling never overwrites a
slot the device has yet to take, and events reach the driver once and in order.

**Ramdisk** (`UstarPaths`, `PathLaws`, `Ustar`, `UstarArchive`, `UstarFields`). The builder writes USTAR archives, the kernel reads
them. Writing and then indexing, finding and reading gives back every item. An entry is found under its own
indexed path exactly if that path does not end in white space. Normalization is also read from right to left: a
component survives unless a `..` behind it takes it back. Every field of a header has its meaning stated, the kernel
recognizes every archive the builder writes, and archives the builder would not write (a path in two fields,
unreadable blocks, a missing end) are covered.

**Compositor** (`Painting`, `Surface`, `Compositor`). Repainting only the row bands a cursor motion touches
leaves the screen as a full repaint would. Blending is the rounded weighted mean of each channel; the cursor lies
above the status bar and the bar above the windows.

**Collaborative document** (`CrdtText`). An insert adds one character to the text behind its origin, a delete takes
one away, and nothing else moves. Concurrent inserts behind one origin converge. The module
describes itself as a replicated growable array (system/antosd/src/collab.rs:8-11), which would converge for all
operations; with different origins it holds only under a condition, which is proved exact, and a family of
diverging documents is given. The code is followed.

## Model

| member | source | states |
|---|---|---|
| Bits.AndMask | kernel/src/memory.rs:50-66 | masking with a contiguous run of ones, bits k to n-1, is a remainder followed by rounding down: the law behind every mask of the kernel |
| Bits.AndOr | kernel/src/memory.rs:156-181 | masking distributes over setting bits |
| Bits.AndBit | kernel/src/memory.rs:50-66 | masking keeps exactly the bits both words have |
| Bits.OrBit | kernel/src/memory.rs:156-181 | setting bits gives exactly the bits either word has |
| Bits.OrSum | kernel/src/memory.rs:156-181 | words without a common bit are united by adding them |
| PageEntries.Fields | kernel/src/memory.rs:50-66 | the present, user and huge tests and the address field of an entry as arithmetic on the word; the address is always a frame |
| PageEntries.OrFields | kernel/src/memory.rs:156-181 | setting bits never clears a flag, and the fields of a union are the unions of the fields |
| PageEntries.LeafEntryExact | kernel/src/memory.rs:175-181 | the address field of a leaf entry built from a frame and address-free flags is the frame, and its user bit that of the flags |
| PageEntries.LeafEntryBits | kernel/src/memory.rs:175-181 | whatever frame and flags are passed, each bit of a leaf entry is one of theirs or the present bit |
| PageEntries.LeafEntrySum | kernel/src/memory.rs:175-181 | for a frame and address-free flags the word is frame plus flags, plus one if the flags lack the present bit: no writable, user or no-execute bit of its own |
| PageEntries.TableEntrySum | kernel/src/memory.rs:156-159 | the word of a fresh table entry is the table plus 3, plus 4 if the request is for user mode |
| PageEntries.OpenEntrySum | kernel/src/memory.rs:164-172 | opening a closed entry adds exactly the user bit |
| PageEntries.OpenEntryFields | kernel/src/memory.rs:164-172 | setting the user bit of an intermediate entry changes no other field |
| PageEntries.TableIndexPrefix | kernel/src/memory.rs:249-252 | the nine-bit index at a level is the last digit, base 512, of the address above that level, and a prefix with its index is the next longer prefix |
| PageTree.TablesNotShared | kernel/src/memory.rs:142-173 | walks that reach the same table reach it at the same level with the same address prefix |
| PageTree.WalkElsewhere | kernel/src/memory.rs:99-124 | after a write to one entry, every walk that does not pass that entry is unchanged |
| PageTree.WalkCongruent | kernel/src/memory.rs:99-124 | addresses of one page walk alike |
| PageTree.TreeWrite | kernel/src/memory.rs:156-181 | writing an entry that points to no table, or to the table placed below it, keeps the tables unshared |
| PageMaps.WalkIsPageMap | kernel/src/memory.rs:99-124 | every walk of every address is a lookup of its page in the page map |
| PageMaps.WriteLeaf | kernel/src/memory.rs:175-188 | writing a level-1 entry changes the mapping of its own page and of no other address |
| PageMaps.SpanBits | kernel/src/memory.rs:112-121 | the offset bits of a level span a page, or 512 times what an entry below spans |
| PageMaps.OpenEntry | kernel/src/memory.rs:164-172 | opening an intermediate entry to user mode changes no mapping and closes no path |
| PageMaps.HangTable | kernel/src/memory.rs:147-161 | hanging a zeroed table under an absent entry changes no walk at all and places the new table |
| PageMaps.WriteOutsideTables | kernel/src/memory.rs:379-383 | writes to memory that holds no table change neither the tree nor any walk |
| PageMaps.TranslationAfterMap | kernel/src/memory.rs:132-188 | after a map, every address of the page translates into the frame with its own offset, and every other address as before |
| TablePaths.HangGains | kernel/src/memory.rs:147-161 | hanging a table adds exactly that table to the paths of the addresses that share its prefix |
| TablePaths.SameTablesReached | kernel/src/memory.rs:164-172 | writes that keep where entries lead add no table to any path |
| PageMaps.TranslationAfterUpdate | kernel/src/memory.rs:219-246 | replacing flags without address bits changes no translation |
| PageMaps.UserAccessIsOwnBit | kernel/src/memory.rs:156-172 | while user paths are open, the access the MMU grants is decided by the page's own user bit |
| Mappers.Mapper.Translate | kernel/src/memory.rs:101-124 | the loop returns the frame and offset that the page map gives, for small and huge pages, or none |
| Mappers.Mapper.WithOffset | kernel/src/memory.rs:112-121 | the offset mask of each level yields the address bits the mapping leaves untranslated |
| TableGrowth.TablesGrowTrans | kernel/src/memory.rs:142-173 | over a whole walk, each entry between tables stays, is opened to user mode, or is a fresh present and writable entry where there was none |
| TableGrowth.HangGrows | kernel/src/memory.rs:147-161 | so it is when an empty table is hung below an empty entry |
| Mappers.Mapper.WalkDown | kernel/src/memory.rs:142-173 | the loop reaches the level-1 table with one frame spent per table added, or stops at a huge page or a missing table without a frame |
| Mappers.Mapper.Map | kernel/src/memory.rs:132-188 | the page map gains exactly the page, or is unchanged with the error that fits; out of frames if and only if fewer are left than tables are missing on the path; exactly the tables on the path are added; user paths stay open; only tables are written, and new tables are fresh frames; the page's entry is the frame and the flags, present, to the bit; entries between tables only grow as `TablesGrow` says |
| Mappers.Mapper.Unmap | kernel/src/memory.rs:191-216 | the page map loses exactly the page and its frame is returned, or it is unchanged with the error that fits |
| Mappers.Mapper.MapAndUnmap | kernel/src/memory.rs:132-216 | mapping and then unmapping restores the page map and gives the frame back |
| Mappers.Mapper.UpdateFlags | kernel/src/memory.rs:219-246 | a refusal changes nothing and a success gives the page the flags with its frame and changes no other page, if and only if the page is in no huge page or the walk finds no present entry; in no huge page the answer fits the page map; user paths stay open exactly if the path already was or the flags do not ask; on success outside huge pages the entry is the old frame and the new flags, present, to the bit |
| FlagUpdates.UpdateHonestExactly | kernel/src/memory.rs:219-246 | the call reports a success it has not had if and only if the page lies in a huge page and the walk through its data ends at an odd word |
| FlagUpdates.UpdateOutsideHuge | kernel/src/memory.rs:219-246 | the walk without a huge-page check does what is promised for every page in no huge page |
| FlagUpdates.UpdateInsideHuge | kernel/src/memory.rs:219-246 | no memory after the call gives a page of a huge page flags of its own, since its neighbour shares the entry: only a refusal would be right |
| FlagUpdates.UpdateMissesTables | kernel/src/memory.rs:219-246 | where the walk ends outside the tables, no mapping changes |
| FlagUpdates.HugeUpdateFails | kernel/src/memory.rs:219-246 | a memory with a 2 MiB page in which the call reports success and the page keeps its old flags |
| Mappers.ZeroPage | kernel/src/memory.rs:150-155 | exactly the words of one frame become zero |
| Frames.UsableFramesMembers | kernel/src/memory.rs:274-285 | the frames are exactly the aligned pages that lie wholly inside a usable region |
| Frames.UsableFramesDistinct | kernel/src/memory.rs:274-285 | on disjoint regions no frame is listed twice |
| Frames.UsableFramesInOrder | kernel/src/memory.rs:274-285 | regions are used in their order, each from its lowest whole frame upwards without a gap |
| Frames.FrameAllocator.Allocate | kernel/src/memory.rs:287-291 | the frame under the cursor or none, with the cursor moved on |
| Frames.CompareWindow | kernel/src/memory.rs:294-308 | the comparison loop succeeds exactly on consecutive frames |
| Frames.FrameAllocator.AllocateContiguous | kernel/src/memory.rs:294-308 | the earliest window of consecutive frames at or after the cursor, or none exactly if there is none |
| Frames.WindowIsGranted | kernel/src/memory.rs:294-308 | a window handed out is a run of frames between two cursor positions |
| Frames.FramesHandedOutOnce | kernel/src/memory.rs:261-308 | over any run of single and contiguous requests no frame is handed out twice, and each lies in a usable region |
| MemoryControllers.TablesAreNotData | kernel/src/memory.rs:368-398 | tables added while mapping never come from frames that hold data |
| MemoryControllers.DataEntry | kernel/src/memory.rs:384-391 | the entry of every page mapped this way is its frame plus 7: present, writable, user |
| MemoryControllers.MemoryController.MapFreshPage | kernel/src/memory.rs:374-396 | one turn of the loop succeeds if and only if the page is unmapped and the frames cover it and its missing tables; then exactly that page is added, on a zeroed frame of its own; the contents of all data pages stay |
| MemoryControllers.MemoryController.FillAndMap | kernel/src/memory.rs:379-395 | a page is mapped to a zeroed frame of its own, or nothing changes, with the exact condition; the contents of all data pages stay; user paths stay open |
| MemoryControllers.MemoryController.Mmap | kernel/src/memory.rs:368-398 | succeeds if and only if all pages are unmapped and different and the frames cover the pages and their new tables, counted before the call; then all are mapped to distinct zeroed frames, else the longest run that fits; every other page keeps its mapping and every data page its contents |
| MemoryControllers.MemoryController.DataIsReachable | kernel/src/memory.rs:384-391 | user mode reaches every page mapped this way |
| MemoryControllers.MemoryController.Munmap | kernel/src/memory.rs:401-412 | exactly the small pages of the range leave the page map, and no data page changes its contents |
| SchedulerQueue.PickFirst | kernel/src/task/scheduler.rs:250-297 | on an agreeing queue the head is dispatched, with its tables and context |
| SchedulerQueue.PickAgrees | kernel/src/task/scheduler.rs:250-297 | dispatching keeps queue and thread states in agreement and waits for no lock it holds |
| SchedulerQueue.UnblockAgrees | kernel/src/task/scheduler.rs:385-396 | a wake-up keeps the agreement if and only if its thread is not blocked and still on the CPU |
| SchedulerQueue.SelfWakeupHangs | kernel/src/task/scheduler.rs:250-297 | after such a wake-up on an empty queue the next tick locks the thread control block it already holds |
| SchedulerTheorems.SelfWakeupReachable | kernel/src/task/scheduler.rs:371-396 | such a state comes up in a run from a new scheduler: activate, tick, block, unblock, and the next tick never returns |
| SchedulerQueue.StepAgrees | kernel/src/task/scheduler.rs:101-396 | every operation keeps the queue equal to the ready threads without repetition, and one running thread at most |
| SchedulerStacks.DispatchStacks | kernel/src/task/scheduler.rs:79-90 | a dispatch recycles the pending stack after the CPU has left it |
| SchedulerStacks.StepStacks | kernel/src/task/scheduler.rs:65-90 | every operation keeps each managed stack in exactly one place: a live thread, the pool or pending |
| SchedulerStacks.NewStackIsUnused | kernel/src/task/scheduler.rs:65-90 | a new thread gets neither the stack under the CPU nor that of any thread that can run |
| SchedulerTheorems.StepRoots | kernel/src/task/scheduler.rs:250-297 | after every operation the CPU uses the tables of the current process |
| SchedulerTheorems.ExitsAgree | kernel/src/task/scheduler.rs:632-708 | leaving through the exit system call and through an interrupt frame gives the same scheduler, tables and context |
| SchedulerTheorems.NewInvariant | kernel/src/task/scheduler.rs:49-62 | a new scheduler satisfies the invariant |
| SchedulerTheorems.StepInvariant | kernel/src/task/scheduler.rs:101-396 | one operation keeps the whole invariant and does not hang |
| SchedulerTheorems.RunInvariant | kernel/src/task/scheduler.rs:101-396 | so does every run |
| SchedulerTheorems.StepWait | kernel/src/task/scheduler.rs:192-247 | no operation of others makes a queued thread wait longer, and every tick brings it closer |
| SchedulerTheorems.WaitBound | kernel/src/task/scheduler.rs:192-247 | a thread at position k waits at most k + 1 quanta |
| SchedulerTheorems.BoundedWaiting | kernel/src/task/scheduler.rs:192-319 | in every run with that many ticks the thread gets the CPU |
| SchedulerContexts.StepContexts | kernel/src/task/scheduler.rs:192-297 | a dispatch loads the registers its thread left with, and a step keeps that so if and only if it does not take the CPU from a blocked thread with other registers than the saved ones |
| SchedulerContexts.RunContexts | kernel/src/task/scheduler.rs:192-396 | so in every run without such a step each thread always resumes with its own registers |
| SchedulerContexts.ContextLostExactly | kernel/src/task/scheduler.rs:358-382 | a step keeps the registers of all threads for every later run if and only if it is no such step |
| SchedulerContexts.StrandingReachable | kernel/src/task/scheduler.rs:358-368 | such a step comes up in a run from a new scheduler, when the running thread is blocked by name |
| SchedulerLives.StepSwitches | kernel/src/task/scheduler.rs:192-355 | for every operation, whether the CPU changes hands, who gets it, with which registers, a full slice, the tables of its process if it has its own, and one more counted switch; else all of that stays |
| SchedulerLives.StepLives | kernel/src/task/scheduler.rs:101-396 | for every operation and every thread, its state after it: ended stays ended, blocked stays until woken, ready until dispatched or blocked, running until preempted, blocked or ended; its saved registers and charged ticks; its identity never changes |
| SchedulerLives.StepSlices | kernel/src/task/scheduler.rs:192-319 | for every operation and every thread, what is left of its slice |
| SchedulerLives.EndedForGood | kernel/src/task/scheduler.rs:322-355 | over every run an ended thread never runs again |
| SchedulerLives.BlockedUntilWoken | kernel/src/task/scheduler.rs:358-396 | over every run a blocked thread off the CPU neither runs nor becomes ready before it is woken, and keeps its registers |
| SchedulerLives.ContextWaits | kernel/src/task/scheduler.rs:192-297 | while a thread is off the CPU nobody changes its saved registers |
| SchedulerLives.SwitchesCounted | kernel/src/task/scheduler.rs:288-289 | over every run the metric counts the switches and saturates |
| SchedulerLives.FirstTickAdopts | kernel/src/task/scheduler.rs:197-214 | the first tick turns the interrupted kernel into thread 0 of process 0, with its registers and stack and no tables of its own |
| SchedulerLives.SpawnLaunches | kernel/src/task/scheduler.rs:117-141 | a spawned thread is ready, last in the queue, with the entry point, argument, mode and stack it was given |
| SchedulerLives.FirstDispatch | kernel/src/task/scheduler.rs:123-127 | the first dispatch of a spawned thread, after any run, loads the entry point, the argument, the mode and the stack it was given |
| SchedulerLives.SliceLasts | kernel/src/task/scheduler.rs:220-225 | while others wait a running thread keeps the CPU for fewer ticks than its slice |
| SchedulerLives.SliceEnds | kernel/src/task/scheduler.rs:227-246 | the tick that uses up the slice gives the CPU to the longest waiting thread and queues the old one last |
| SchedulerProcesses.RunListed | kernel/src/task/scheduler.rs:139-184 | over every run each thread is listed by its own process and a process lists its own threads only |
| SchedulerProcesses.StepProcesses | kernel/src/task/scheduler.rs:341-348 | a process ends, with the exit code, exactly when the exiting thread is the last of its threads that had not ended; nothing else changes a process but a thread joining it |
| Schedulers.Scheduler.AllocKernelStack | kernel/src/task/scheduler.rs:65-76 | a pooled stack if there is one, else a fresh one, as the step function says |
| Schedulers.Scheduler.DeferRecycleStack | kernel/src/task/scheduler.rs:79-84 | a managed stack becomes pending; any other stack is left alone |
| Schedulers.Scheduler.SpawnProcess | kernel/src/task/scheduler.rs:101-144 | refines the process spawn: the new thread is ready at the end of the queue and will enter at the entry point with its argument and mode, on the user stack or its own kernel stack; the new process has that one thread and the given tables; every other thread and process is as it was |
| Schedulers.Scheduler.SpawnThread | kernel/src/task/scheduler.rs:147-186 | the same for a thread of an existing process, which lists it; none and no change for an unknown process |
| Schedulers.Scheduler.PickAndSwitchNext | kernel/src/task/scheduler.rs:250-297 | the popping loop refines the dispatch of the first ready thread |
| Schedulers.SkipUnready | kernel/src/task/scheduler.rs:253-262 | popping past threads that are not ready changes no dispatch |
| Schedulers.Scheduler.Activate | kernel/src/task/scheduler.rs:453-456 | refines the activation: before it no tick and no yield switches |
| Schedulers.Scheduler.OnTick | kernel/src/task/scheduler.rs:192-247 | refines the tick: adopt, charge, requeue, dispatch |
| Schedulers.Scheduler.ExpireCurrentQuantum | kernel/src/task/scheduler.rs:300-306 | refines the expiry: one tick is left of the current slice |
| Schedulers.Scheduler.YieldCurrent | kernel/src/task/scheduler.rs:309-319 | refines the yield |
| Schedulers.Scheduler.ExitCurrent | kernel/src/task/scheduler.rs:322-355 | refines the exit |
| Schedulers.Scheduler.ExitCurrentSyscall | kernel/src/task/scheduler.rs:632-708 | refines the exit through the system call |
| Schedulers.Scheduler.BlockThread | kernel/src/task/scheduler.rs:358-368 | refines the block, with the thread taken out of the queue wherever it is |
| Schedulers.Scheduler.BlockCurrent | kernel/src/task/scheduler.rs:371-382 | refines the block of the current thread |
| Schedulers.Scheduler.UnblockThread | kernel/src/task/scheduler.rs:385-396 | refines the wake-up |
| FreeLists.CanonicalUnique | kernel/src/allocator/linked_list.rs:75-115 | a sorted list of separate holes is determined by the bytes it covers |
| FreeLists.SumWithin | kernel/src/allocator/linked_list.rs:61-66 | holes inside a range add up to at most the range, and to all of it only as one hole |
| FreeLists.InsertFrees | kernel/src/allocator/linked_list.rs:75-115 | giving a range back keeps the list sorted and merged, adds its size, and frees exactly its bytes |
| HeapAllocators.AlignUpRounds | kernel/src/allocator/mod.rs:46-48 | the mask rounds up to the next multiple of a power of two |
| HeapAllocators.SizeAlignFits | kernel/src/allocator/linked_list.rs:155-164 | the served size and alignment cover the request, can hold a node and keep blocks on node boundaries |
| HeapAllocators.SizeAlignExactly | kernel/src/allocator/linked_list.rs:155-164 | size and alignment are served if and only if the alignment is the layout's or a node's, whichever is stricter, and the size is the fewest whole alignments that hold the layout, but at least a node |
| HeapAllocators.FitsInside | kernel/src/allocator/linked_list.rs:135-151 | where a request fits, its block is aligned, inside the hole, and leaves no tail too small for a node |
| HeapAllocators.RefusesExactly | kernel/src/allocator/linked_list.rs:135-151 | the fit test refuses if and only if no aligned place has room or the first one leaves a tail too small for a node, and else picks the lowest place |
| HeapAllocators.RefusesForTail | kernel/src/allocator/linked_list.rs:145-148 | a hole of 24 bytes has room for 16 and is refused |
| HeapAllocators.WritesMissLive | kernel/src/allocator/linked_list.rs:75-115 | a node written in free bytes touches no live block |
| HeapAllocators.LinkedListAllocator.constructor | kernel/src/allocator/linked_list.rs:61-66 | the heap starts as one hole |
| HeapAllocators.LinkedListAllocator.AddFreeRegion | kernel/src/allocator/linked_list.rs:75-115 | the linked list stays canonical, gains exactly the range and its size |
| HeapAllocators.LinkedListAllocator.FindRegion | kernel/src/allocator/linked_list.rs:118-132 | unlinks the first hole that fits, or reports that none does |
| HeapAllocators.LinkedListAllocator.AllocateLayout | kernel/src/allocator/linked_list.rs:167-183 | first fit: the first hole with aligned room and no short tail gives up its lowest room and the padding before it; refused if and only if every hole lacks room or would keep a short tail; every byte stays accounted for; nodes are written in free bytes only; the block is aligned as asked, and the bytes in use grow by the smallest size that holds the layout and a node |
| HeapAllocators.LinkedListAllocator.DeallocateLayout | kernel/src/allocator/linked_list.rs:189-193 | exactly the bytes of the block become free again and the block leaves the live ones; nodes are written in free bytes only |
| HeapAllocators.LiveWith | kernel/src/allocator/linked_list.rs:167-183 | a block carved out of a hole is disjoint from all live blocks and all holes |
| HeapAllocators.BlockAccounted | kernel/src/allocator/linked_list.rs:167-183 | free, live and lost bytes still add up to the heap after a block is carved out |
| HeapAllocators.FreeUndoesAllocate | kernel/src/allocator/linked_list.rs:189-193 | freeing a block allocated without padding restores the very same list |
| HeapAllocators.LinkedListAllocator.AllFreed | kernel/src/allocator/linked_list.rs:189-193 | once all blocks are back, in any order, a heap without lost padding is one hole |
| HeapAllocators.LinkedListAllocator.FreeBytes | kernel/src/allocator/linked_list.rs:196-198 | the constant-time counter is the free bytes plus the lost padding |
| HeapAllocators.LinkedListAllocator.Used | kernel/src/allocator/linked_list.rs:201-203 | the counter is the total size of the live blocks |
| HeapAllocators.LinkedListAllocator.FreeNodeCount | kernel/src/allocator/linked_list.rs:206-214 | the loop counts the holes |
| HeapAllocators.LinkedListAllocator.SumFreeBytes | kernel/src/allocator/linked_list.rs:217-225 | the loop adds up the holes |
| Scancodes.ScancodeQueue.Push | kernel/src/task/keyboard.rs:42-51 | appends the code while a slot stays free, else counts a drop |
| Scancodes.ScancodeQueue.Pop | kernel/src/task/keyboard.rs:53-61 | takes the oldest code, or none exactly if empty |
| SpinLocks.LockNested | kernel/src/sync.rs:46-76 | taking a lock keeps interrupts off while any lock is held |
| SpinLocks.DropLastNested | kernel/src/sync.rs:128-142 | dropping guards in reverse order keeps that, and the last one restores the interrupt flag of the first |
| SpinLocks.LockThenDrop | kernel/src/sync.rs:46-142 | taking a free lock turns interrupts off, and dropping its guard restores flag, locks and guards |
| SpinLocks.SectionsRestore | kernel/src/sync.rs:46-142 | so it is for sections nested to any depth |
| SpinLocks.TryLockIsLock | kernel/src/sync.rs:80-99 | a failed attempt changes nothing, a successful one is a lock |
| SpinLocks.HandlersFindLocksFree | kernel/src/sync.rs:46-76 | an interrupt handler can start only when every lock is free, so it never spins on one its CPU holds |
| SpinLocks.EarlyRestore | kernel/src/sync.rs:128-142 | interrupts come back on with a lock held exactly when the outermost guard is dropped before the inner ones |
| SpinLocks.Cpu.Lock | kernel/src/sync.rs:46-76 | interrupts go off before the flag is tried; the guard remembers what they were |
| SpinLocks.Cpu.TryLock | kernel/src/sync.rs:80-99 | as lock, but a failed try restores the interrupt flag |
| SpinLocks.Cpu.DropLast | kernel/src/sync.rs:128-142 | frees the lock, then restores the flag the guard remembers |
| WakeProtocol.InitialSafe | kernel/src/task/executor.rs:40-46 | the protocol starts safe |
| WakeProtocol.StepSafe | kernel/src/task/keyboard.rs:69-109 | every step of the CPU and every interrupt, wherever it falls, keeps the wake-ups safe |
| WakeProtocol.RunSafe | kernel/src/task/timer.rs:17-77 | over every run no key and no deadline is lost, and codes arrive in order |
| WakeProtocol.QueueIsFifo | kernel/src/task/executor.rs:55-66 | after n tasks have been taken the queue starts with what stood behind them, over every run |
| WakePolls.TakenInTurn | kernel/src/task/executor.rs:55-82 | the task at position k is the one taken after k others, whatever interrupts and wake-ups come between, and if it still exists it is polled next |
| WakePolls.TakenIsPolled | kernel/src/task/executor.rs:59-74 | a taken task that exists is polled next and nothing else changes; the id of an ended one is dropped |
| WakePolls.PolledOnlyWhenTaken | kernel/src/task/executor.rs:59-74 | a task is polled only when it has been taken |
| WakePolls.EndsInOwnPoll | kernel/src/task/executor.rs:74-80 | no task appears, and a task leaves the executor only in its own poll |
| WakePolls.PolledInTurn | kernel/src/task/executor.rs:55-82 | every existing task of the queue has been polled once as many tasks have been taken as stood before it |
| WakePolls.OtherPoll | kernel/src/task/executor.rs:74-80 | what a poll wakes joins the queue, and the task is gone exactly if it is done |
| WakePolls.KeyPollParks | kernel/src/task/keyboard.rs:90-109 | a poll hands over every waiting code and then parks the task with its waker in place, in a bounded number of steps |
| WakePolls.KeyArrives | kernel/src/task/keyboard.rs:69-83 | a code enters the ring while fewer than 127 wait and its waker is called; else nothing changes |
| WakePolls.CodesDelivered | kernel/src/task/keyboard.rs:42-109 | over every run the codes handed over and those still waiting are the codes that arrived, in order |
| WakePolls.SleepLasts | kernel/src/task/timer.rs:48-77 | from the step that starts a sleep to the step that ends it at least the requested ticks pass |
| WakePolls.ClockCounts | kernel/src/task/timer.rs:17-20 | the clock counts the timer interrupts |
| WakePolls.SleepPollParks | kernel/src/task/timer.rs:61-77 | a sleeper whose time has not come parks in four steps, armed for its deadline |
| WakePolls.RunTidy | kernel/src/task/timer.rs:61-77 | over every run the timer holds a waker only with its deadline, but for the moments in between, and neither once the sleeper has ended |
| WakeProtocol.AwakeUntilTaken | kernel/src/task/executor.rs:99-108 | with enable-and-halt as one step the CPU stays awake until then |
| WakeProtocol.RunHaltsIdle | kernel/src/task/executor.rs:99-108 | with enable-and-halt as one step the CPU sleeps only on an empty queue |
| WakeProtocol.SleepsOnLateWork | kernel/src/task/executor.rs:99-108 | a run that ends asleep ends with queued work if and only if an interrupt queued it between enabling interrupts and waiting |
| WakeProtocol.SleepsOnWork | kernel/src/arch/aarch64/mod.rs:53-56 | on a layer with two steps, a key between them would leave the CPU asleep on queued work |
| WakeProtocol.SleepsOnlyWhenIdle | kernel/src/task/executor.rs:99-108 | over all runs, never sleeping on queued work holds if and only if the layer enables and halts in one step |
| VirtioRing.PublishedInv | kernel/src/drivers/virtio_input.rs:301-312 | the queue as initialised offers every descriptor once |
| VirtioRing.TakeInv | kernel/src/drivers/virtio_input.rs:301-312 | a device that takes an offered descriptor keeps ownership exclusive |
| VirtioRing.CompleteInv | kernel/src/drivers/virtio_input.rs:366-413 | a device that completes one it holds keeps ownership exclusive and sends exactly that event; any other completion changes nothing |
| VirtioRing.FeedInv | kernel/src/drivers/virtio_input.rs:384-392 | the driver reads the oldest unread event, from the buffer the device wrote |
| VirtioRing.RecycledSlotIsFree | kernel/src/drivers/virtio_input.rs:394-395 | recycling never overwrites a slot with a descriptor the device has yet to take |
| VirtioRing.WriteSlotInv | kernel/src/drivers/virtio_input.rs:394-395 | writing the slot before moving the index shows the device nothing half done |
| VirtioRing.PublishInv | kernel/src/drivers/virtio_input.rs:396-401 | moving the index hands exactly that descriptor over |
| VirtioRing.DeviceRunInv | kernel/src/drivers/virtio_input.rs:366-413 | ownership holds whatever the device does, in any order and amount |
| VirtioRing.VirtioInput.ConsumeOne | kernel/src/drivers/virtio_input.rs:383-403 | one turn of the loop passes on exactly the next event, with the device running in between |
| VirtioRing.VirtioInput.PollEvents | kernel/src/drivers/virtio_input.rs:366-413 | a poll passes on, in order and once, every event sent before it |
| UstarPaths.NormalizeSlash | kernel/src/fs/tarfs.rs:252-269 | slashes around a trimmed path change nothing |
| UstarPaths.NormalizedForm | kernel/src/fs/tarfs.rs:252-269 | a normalized path is the root or slash-separated components, none empty, dot or dot-dot: it never leaves the root |
| UstarPaths.ResolveSurvives | kernel/src/fs/tarfs.rs:253-263 | the stack kept from left to right holds what survives from right to left: a dot-dot cancels the nearest component before it that is still there, and is dropped if there is none |
| PathLaws.SplitBetween | kernel/src/fs/tarfs.rs:254 | the parts have no slash, and slashes between them give the path back |
| PathLaws.TrimExact | kernel/src/fs/tarfs.rs:254 | trimming cuts a run of white space off each end and leaves none there |
| PathLaws.NormalizeInto | kernel/src/fs/tarfs.rs:252-269 | a further component is appended to the normalized path |
| PathLaws.NormalizeDot | kernel/src/fs/tarfs.rs:256 | a trailing dot changes nothing |
| PathLaws.NormalizeUp | kernel/src/fs/tarfs.rs:257-259 | a dot-dot takes back the component before it |
| PathLaws.NormalizeAboveRoot | kernel/src/fs/tarfs.rs:257-259 | a dot-dot at the root is dropped |
| UstarPaths.NormalizedStays | kernel/src/fs/tarfs.rs:252-269 | the join of components that does not end in white space normalizes to itself |
| UstarPaths.NormalizeTwice | kernel/src/fs/tarfs.rs:252-269 | normalizing twice is normalizing once if and only if the normalized path does not end in white space |
| UstarPaths.NormalizeTwiceDiffers | kernel/src/fs/tarfs.rs:252-269 | a path where it does end so |
| UstarPaths.NormalizePath | kernel/src/fs/tarfs.rs:252-269 | the loop over the parts gives the components that survive, read from right to left, each behind a slash, or the root |
| Ustar.OctalParses | kernel/src/fs/tarfs.rs:315-325 | parsing the digits of a number that fits gives the number back |
| UstarFields.ParseOctalExactly | kernel/src/fs/tarfs.rs:315-325 | an octal field reads as the number its digits spell, or as the largest number if that one is larger |
| Ustar.ReadOctal | kernel/src/fs/tarfs.rs:315-325 | the saturating loop is the parser |
| Ustar.ChecksumHolds | builder/src/ramdisk.rs:59-63 | the sum fits its six digits, and a reader that blanks the field finds the stored sum |
| Ustar.HeaderFields | builder/src/ramdisk.rs:21-65 | the fields a reader looks at hold name, size and type, whatever was written around them |
| UstarFields.HeaderLayout | builder/src/ramdisk.rs:36-57 | the mode field reads as the mode, owner, group and time as 0, magic and version are those of USTAR, and the other bytes are zero |
| UstarFields.StripExactly | builder/src/ramdisk.rs:24-30 | a stored name is the path without the slashes in front of it |
| UstarFields.LongNameIsCut | builder/src/ramdisk.rs:32-34 | an item with a longer name is read under the path its first 100 bytes spell |
| Ustar.HeaderRoundTrip | kernel/src/fs/tarfs.rs:271-304 | parsing a written header gives the normalized path, size and kind |
| UstarFields.PrefixRoundTrip | kernel/src/fs/tarfs.rs:291-303 | a path split over prefix and name is put together again |
| UstarFields.BadPrefixIgnored | kernel/src/fs/tarfs.rs:293-301 | a prefix that is no text is ignored |
| UstarFields.KindByFlagOrSlash | kernel/src/fs/tarfs.rs:286-289 | the type flag or a slash at the end of the name makes an entry a directory |
| UstarArchive.ArchiveRoundTrip | kernel/src/fs/tarfs.rs:41-81 | indexing a written archive gives every item, in order |
| UstarFields.ArchiveInBlocks | builder/src/ramdisk.rs:65-73 | an archive is whole blocks, every content starts on a block boundary, and two zero blocks close it |
| UstarFields.ArchiveIsRecognized | kernel/src/fs/ramdisk.rs:36-46 | the kernel's test accepts every archive the builder writes with at least one item |
| UstarFields.UnreadableSkipped | kernel/src/fs/tarfs.rs:72-74 | a block that is no header is stepped over and the items behind it are indexed |
| UstarFields.IndexNeverFails | kernel/src/fs/tarfs.rs:61-71 | a size field has twelve bytes, so the checked arithmetic of the index never fails on data that fits in memory |
| UstarArchive.ExpectedFields | kernel/src/fs/tarfs.rs:41-81 | with its normalized path, size and kind |
| UstarArchive.ReadRoundTrip | kernel/src/fs/tarfs.rs:148-163 | reading an entry gives back the exact content, and an error for directories |
| UstarFields.ReadTruncated | kernel/src/fs/tarfs.rs:148-163 | from an archive cut short exactly the files that lie before the cut are read, the others give an error |
| UstarArchive.FindRoundTrip | kernel/src/fs/tarfs.rs:139-142 | a path finds its own entry unless an earlier item normalizes to the same path |
| UstarFields.FindExactly | kernel/src/fs/tarfs.rs:139-142 | a lookup gives the first entry with the normalized path, and none exactly if no entry has it |
| UstarArchive.FindIndexed | kernel/src/fs/tarfs.rs:139-142 | an entry is found under its own indexed path if and only if that path does not end in white space |
| Ustar.StorableEndsInSpace | kernel/src/fs/tarfs.rs:252-269 | a storable item whose indexed path does end so |
| UstarArchive.ArchiveWriter.AddTarEntry | builder/src/ramdisk.rs:21-74 | appends the header and the padded content |
| UstarArchive.WriteArchive | builder/src/ramdisk.rs:83-137 | the items in order and the two zero blocks |
| UstarArchive.FromMemory | kernel/src/fs/tarfs.rs:41-81 | the reader's loop is the index |
| Painting.IntersectionIs | kernel/src/ui/rect.rs:88-99 | the intersection contains exactly the common points, with widths cast to signed numbers and saturating edges, and its own size survives the cast |
| Painting.ContainsExactly | kernel/src/ui/rect.rs:59-76 | a rectangle contains the points of the plain rectangle within signed coordinates, and none if a side is too long for them |
| Painting.OverMixes | kernel/src/ui/color.rs:35-51 | drawing makes a pixel opaque and each channel the weighted mean of both, rounded down; opaque colours replace, transparent ones leave |
| Painting.LastWins | kernel/src/ui/compositor.rs:258-307 | the last opaque drawing that covers a pixel decides it |
| Painting.PaintFresh | kernel/src/ui/compositor.rs:265-270 | drawing that starts with an opaque fill does not depend on what was there |
| Surfaces.Surface.SetClip | kernel/src/ui/surface.rs:59-62 | the clip is the part of the rectangle on the surface |
| Surfaces.Surface.PutPixel | kernel/src/ui/surface.rs:79-104 | one pixel inside the clip is blended, no other changes |
| Surfaces.Surface.FillRect | kernel/src/ui/surface.rs:107-129 | exactly the pixels in both clip and rectangle are blended, by slice or pixel by pixel |
| Surfaces.Surface.Render | kernel/src/ui/compositor.rs:258-307 | clipped drawing is full drawing restricted to the clip |
| Surfaces.Surface.Present | kernel/src/ui/surface.rs:249-262 | the framebuffer shows the surface and keeps its other pixels |
| Surfaces.Surface.PresentRows | kernel/src/ui/surface.rs:268-284 | exactly the rows of the band are copied |
| Surfaces.Surface.PresentRect | kernel/src/ui/surface.rs:289-317 | exactly the pixels of the rectangle are copied |
| Compositors.MotionDamage | kernel/src/ui/compositor.rs:351-362 | a cursor motion changes the picture below the status bar only in the rows of its old and new place |
| Compositors.CursorOnTop | kernel/src/ui/compositor.rs:258-307 | an opaque pixel of the cursor shows, whatever lies below |
| Compositors.StatusAboveWindows | kernel/src/ui/compositor.rs:258-307 | the status bar shows above the windows |
| Compositors.RepaintIsFull | kernel/src/ui/surface.rs:36-39 | a repaint needs no cleared back buffer |
| Compositors.MergeBands | kernel/src/ui/compositor.rs:377-391 | merging loses no row of any band and leaves separate bands |
| Compositors.Compositor.HandleEvent | kernel/src/ui/compositor.rs:141-255 | a motion moves only the cursor, to the place the displacement or the tablet coordinates give within the screen; anything else marks a full repaint; the screen stays in step |
| Compositors.Compositor.RenderToFramebuffer | kernel/src/ui/compositor.rs:310-323 | every pixel shows the full render |
| Compositors.Compositor.WriteTerminal | kernel/src/arch/x86_64/userspace.rs:266-273 | terminal output repaints at once, so the screen stays in step |
| Compositors.Compositor.PresentBands | kernel/src/ui/compositor.rs:399-412 | every row in a band shows the full render, every other row is untouched |
| Compositors.Compositor.ChangedBands | kernel/src/ui/compositor.rs:351-391 | the merged bands cover the cursor's old and new rows, and the status bar when it is due |
| Compositors.Compositor.PresentBest | kernel/src/ui/compositor.rs:334-414 | however little is repainted, everything below the status bar is the full render, and the status bar too when a repaint or its clock is due |
| CrdtText.AfterOrder | system/antosd/src/collab.rs:103-118 | the tie-break is a strict total order |
| CrdtText.AfterByClient | system/antosd/src/collab.rs:107-108 | identifiers of one client compare by number, those of two by client name |
| CrdtText.LessByFirstDifference | system/antosd/src/collab.rs:107-108 | names compare by the first letter that differs, and a name comes before its continuations |
| CrdtText.LandingAfterPut | system/antosd/src/collab.rs:89-149 | where an insert lands after another one |
| CrdtText.SiblingsCommute | system/antosd/src/collab.rs:89-149 | inserts behind one origin commute in every document |
| CrdtText.CommuteExactly | system/antosd/src/collab.rs:89-149 | inserts behind different origins commute if and only if the first landing lies before the other's scan begins |
| CrdtText.ReplyAndSiblingDiverge | system/antosd/src/collab.rs:89-149 | a reply and a later sibling of the last character end up in either order |
| CrdtText.InsertDeleteCommute | system/antosd/src/collab.rs:89-156 | deletes commute with inserts of other characters |
| CrdtText.OpsCommute | system/antosd/src/collab.rs:89-156 | any two operations on one origin commute |
| CrdtText.OpIdempotent | system/antosd/src/collab.rs:89-156 | delivering an operation twice is delivering it once |
| CrdtText.Converges | system/antosd/src/collab.rs:89-156 | replicas with the same operations on one origin, in any order and multiplicity, hold the same document |
| CrdtText.InsertKeepsOrder | system/antosd/src/collab.rs:89-149 | an insert changes neither the order nor the content of what was there |
| CrdtText.InsertText | system/antosd/src/collab.rs:89-149 | an insert adds exactly its character to the text, behind its origin and behind those siblings its identifier comes after, and before the next one |
| CrdtText.DeleteText | system/antosd/src/collab.rs:152-156 | a delete takes exactly one character from the text, or changes nothing if it is not there or gone; every character keeps its place |
| CrdtText.TypedLanding | system/antosd/src/collab.rs:69-87 | in a typed text, a reply by a client that sorts behind the author is carried past one character |
| CrdtText.CrdtDocument.FromStr | system/antosd/src/collab.rs:69-87 | the document reads as the text, each character hanging from the one before |
| CrdtText.CrdtDocument.InsertChar | system/antosd/src/collab.rs:89-149 | the scanning loop is the insert |
| CrdtText.CrdtDocument.DeleteChar | system/antosd/src/collab.rs:152-156 | exactly that character is hidden; every character keeps its place, letter and origin |

## Left out

- Mappers.Mapper.UpdateFlags: requires that the words its walk looks at are memory, as every access through the physical memory window does.
- Mappers.Mapper.Map: the TLB flush and the physical memory window are not modelled; a table frame the allocator hands out is assumed to lie in memory, as the window promises.
- MemoryControllers.MemoryController.Mmap: the answer before the controller exists and the 64-bit overflow of a page's address are not modelled.
- Schedulers.Scheduler: thread and process control blocks are values in the scheduler's maps; their reference counts and inner locks are not modelled, except that locking a block already held is the outcome Deadlock.
- SchedulerStacks.StepStacks: memory the heap supplies for a stack is assumed unused, which the heap part proves of its own blocks.
- SchedulerTheorems.BoundedWaiting: asks that others do not block the waiting thread.
- HeapAllocators.LinkedListAllocator.AllocateLayout: node memory is a map from addresses; the bytes of live blocks are not modelled, only where nodes are written.
- WakeProtocol.RunSafe: one sleeping task, as the timer documents (kernel/src/task/timer.rs:42-47); ready-queue capacity is not bounded.
- WakePolls.TakenInTurn: counts tasks taken; how many steps one poll takes is up to the tasks and the keys that arrive meanwhile.
- VirtioRing.VirtioInput.PollEvents: the shared ring memory is one value updated field by field; fences, the interrupt acknowledgement and the notification register are not modelled.
- Ustar.HeaderRoundTrip: for items that fit the format: a stored name of 1 to 100 bytes without NUL or outer white space, and numbers that fit their fields.
- Compositors.Compositor.HandleEvent: key, button and scroll routing to the windows supplies the new drawing and is not modelled, and the sum of position and displacement is not cut to 32 bits.
- Compositors.Compositor.PresentBest: rows of the status bar may show an old clock until it is due, as the code intends; widget drawing is a list of fills and pixels, and the 32-bit overflow of the row count is not modelled.
- Surfaces.Surface.PutPixel: rows and columns are array indices; the row-major offset is not modelled.
- CrdtText.CrdtDocument.InsertChar: client names compare as sequences of characters, which agrees with the byte order of their encoding.
- The mouse acceleration curve, fonts, terminal escape sequences and window contents: parameters of the compositor model.
- Block-device archives, directory listing and file descriptors: they add easy members to the archive part.
- The package manager, agents, debugger protocol, installer and shell: independent of the parts modelled.
- Device probing, boot, interrupt controllers and the assembly of context switches: hardware behaviour the model takes as given.
