# Verification of the kernel and its bootloader

A Dafny model of the stateful parts of a bare-metal ARM kernel and of the bootloader that
installs it, with proofs of what they promise. `dafny verify dfyconfig.toml` checks all of it.

Five clusters are modelled, each as the code changes it and as a reader may think of it, with
the proof that the two agree.

**Heap** (`Tiles`, `MmHeaders`, `Mm`, `MmRuns`, `Umalloc`). The block structure of a memory is a
sequence of tiles; the code works on header words in a memory image. Every call of the allocator
takes the tiles through one step, and the laws of runs are proved of the steps: exact tiling,
first fit, conservation, a canonical form of the free list. The bitmap allocator refines a set
of free indices.

**Scheduler** (`SchedSpec`, `SchedRuns`, `SchedTime`, `SchedShares`, `SchedCases`, `Dlist`,
`RunQueues`, `Scheduler`, `Context`). The specification is a state machine over five queues. The
code runs on intrusive doubly linked lists in the heap, and takes exactly the steps of the
machine; latency, the clock, the length of sleeps, the order of waking, blocking and exit are
proved over all its runs. The context switch is modelled down to stacked words, while threads
and kernel write any memory but the saved stack pointers and the stacks of threads that are
suspended.

**FAT32** (`Fat32`, `Fat32Volume`). The logical disk is the device overlaid with a dirty buffer;
caching is invisible, the table is a map, and file reading is slicing of the concatenated
clusters. Transfers may fail: a read then follows a walk of the cursor that says where every
byte comes from. Where a contract needs that no transfer fails, it says `reliable`.

**Firmware download** (`Bytes`, `Crc`, `CrcPolynomial`, `Frame`, `Flash`, `Bootloader`,
`KernelProg`). Host encoder, receiver, a checksum that is a polynomial remainder, and a flash
that can only clear bits when programmed, up to a whole session and the next boot. `reliable`
says that no flash command fails.

**USB** (`UsbDescriptors`, `UsbFiling`, `UsbParser`, `List`, `UrbQueue`). The two-pass
descriptor parser against where each descriptor belongs and against reading the tree back out,
and the queue of control transfers on a circular list, with completion callbacks that submit
more.

Where the code departs from its comments, or from what its caller may expect, the model follows
the code. Each such place is stated with its exact condition, and with an input at which it
fails: a delay queue that wakes one thread per tick, a thread that stays on its queue when it is
killed, a second idle thread that is lost, a transfer that writes and never ends, a file jump
that reports success beyond the end of the chain, a read that ignores a failed lookup, an
endpoint that is found under a configuration before the one it follows, kernel pages from 224 on
that are programmed over the bootloader, a first thread that does not return to thread_exit, and
a bitmap that lies on the blocks it keeps book of. Where the source panics and the caller is to
blame, the operation has a precondition; where the kernel itself is the caller, the precondition
is proved.

## Model

| member | source | states |
|---|---|---|
| Tiles.CanonicalForm | kernel/src/mm/mm.c:171-217 | Two exact tilings without touching free blocks that have the same live blocks are equal: the free list is a function of the live blocks alone. |
| Tiles.CarveCanonical | kernel/src/mm/mm.c:280-296 | Taking a block, split or whole, keeps the tiling exact, the grain, the minimum size and the free blocks apart. |
| Tiles.ReleaseCanonical | kernel/src/mm/mm.c:171-217 | Giving a block back, merged on neither, either or both sides, keeps the same. |
| Tiles.CarveSize | kernel/src/mm/mm.c:280-293 | What is handed out grows by the size of the block taken, and that is less than the rounded request plus the smallest block. |
| Tiles.ReleaseSize | kernel/src/mm/mm.c:319-323 | What is handed out shrinks by the size of the block given back. |
| Tiles.ReleaseUndoesCarve | kernel/src/mm/mm.c:171-324 | Releasing the block just carved gives back the former tiling, tile by tile. |
| Tiles.Conserved | kernel/src/mm/mm.c:343-347 | Live and free sizes add up to the size of the region. |
| MmHeaders.PackUnpack | kernel/src/mm/mm.c:24-32 | A header word gives back the region and the size packed into it. |
| MmHeaders.TagSurvivesAddition | kernel/src/mm/mm.c:184-205 | Adding sizes of blocks of one region never carries into the region tag. |
| MmHeaders.RoundedHolds | kernel/src/mm/mm.c:227-242 | The rounded request is a multiple of 8, at least the minimum, and holds request and header exactly if the 32-bit additions do not wrap. |
| MmHeaders.ReleaseLinked | kernel/src/mm/mm.c:171-217 | The three pointer writes of the insertion turn the memory image of the free list of a tiling into that of the released tiling. |
| MmHeaders.UnlinkLinked | kernel/src/mm/mm.c:273-274 | Unlinking the found block leaves the list of the tiling with that block taken. |
| MmHeaders.HalvedLinked | kernel/src/mm/mm.c:280-290 | Writing the header of the remainder gives the tiling with the block in two. |
| Mm.LayoutSeparate | kernel/src/mm/mm.c:93-164 | The regions as aligned by mm_init, their roots and last nodes do not overlap. |
| Mm.KernelBanksConfigured | kernel/src/mm/mm.c:40-86 | The table of five physical memories meets what mm_init needs, wherever the linker puts the heap and the table, as long as root objects do not overlap. |
| Mm.RegionSpans | kernel/src/mm/mm.c:115-137 | No more than 14 bytes and the last node are lost of a bank. |
| Mm.KernelTotals | kernel/src/mm/mm.c:40-86 | The five memories amount to the heap section less 8 bytes, and 0x7FFF0 bytes for each of the four banks of DRAM. |
| Mm.MemoryManager.constructor | kernel/src/mm/mm.c:93-164 | mm_init leaves each memory as one free block, from the first multiple of 8 not below the start of the bank to 8 bytes below the last one not above its end, with nothing handed out, and a valid heap. |
| Mm.MemoryManager.InitBank | kernel/src/mm/mm.c:96-162 | One memory is aligned so, given its first and last node, and counted as empty. |
| Mm.MemoryManager.FindBefore | kernel/src/mm/mm.c:178-182 | The walk stops at the last free block below the one to insert. |
| Mm.MemoryManager.Merge | kernel/src/mm/mm.c:184-216 | Header words after the two merge tests are those of the released tiling. |
| Mm.MemoryManager.ListInsert | kernel/src/mm/mm.c:171-217 | The free list after the insertion is that of the released tiling, and nothing outside the written headers changes. |
| Mm.MemoryManager.FindFit | kernel/src/mm/mm.c:249-263 | The search finds the first free block that is large enough, or the last node. |
| Mm.MemoryManager.TakeBlock | kernel/src/mm/mm.c:269-296 | The block is split when the remainder can be a block, counted, and marked. |
| Mm.MemoryManager.AllocBlock | kernel/src/mm/mm.c:249-298 | Search, unlinking and splitting take the tiling through one carve, and write only into the block taken. |
| Mm.MemoryManager.Alloc | kernel/src/mm/mm.c:222-299 | mm_alloc takes exactly one step of the specification; NULL, by the early exit or after the search, only if no free block holds the rounded request; live blocks keep their contents. |
| Mm.MemoryManager.Free | kernel/src/mm/mm.c:304-324 | mm_free of a live pointer takes exactly one step of the specification, in the region the tag names, and keeps the contents of all other live blocks. |
| Mm.MemoryManager.StorePayload | kernel/src/mm/mm.c:271-271 | Writing anywhere into the payload of a live block leaves the heap valid. |
| Mm.MemoryManager.GetUsed | kernel/src/mm/mm.c:336-338 | The counter is the total size of the live blocks. |
| Mm.MemoryManager.GetFree | kernel/src/mm/mm.c:343-347 | The difference is the total size of the free blocks. |
| MmRuns.RunSound | kernel/src/mm/mm.c:93-324 | Over every run of allocations and releases each memory is tiled exactly by blocks of multiples of 8, no smaller than the minimum, with no two free blocks touching. |
| MmRuns.HistoryIndependent | kernel/src/mm/mm.c:171-217 | Two runs that leave the same blocks live leave the same state. |
| MmRuns.AllReleased | kernel/src/mm/mm.c:93-324 | When nothing is live, in whatever order it was released, the memory is the one block mm_init made. |
| MmRuns.FreeUndoesAlloc | kernel/src/mm/mm.c:222-324 | On the blocks, mm_free straight after mm_alloc is possible and restores every one. |
| MmRuns.AllocThenFree | kernel/src/mm/mm.c:222-324 | On the code, the two calls restore the blocks of all memories and all that is recorded of them, the count of bytes handed out included; a call that returned NULL has changed nothing. |
| MmRuns.FirstAlloc | kernel/src/mm/mm.c:93-299 | The first allocation after mm_init takes the start of the memory, and succeeds exactly if the rounded request and the last node fit between the multiples of 8 in the bank. |
| MmRuns.ExactFirstFit | kernel/src/mm/mm.c:222-299 | NULL exactly if no free block holds the rounded request; else the lowest block that does, with less than the minimum wasted. |
| Umalloc.ClaimRemoves | kernel/src/mm/umalloc.c:68-88 | Clearing a bit removes that index, and no other, from the free set. |
| Umalloc.ReturnAdds | kernel/src/mm/umalloc.c:56-62 | Setting a bit adds that index and no other. |
| Umalloc.ReturnUndoesClaim | kernel/src/mm/umalloc.c:139-191 | Releasing an index that was just claimed restores the bitmap. |
| Umalloc.LowestFree | kernel/src/mm/umalloc.c:73-86 | The first set bit of the first non-zero word is the least free index. |
| Umalloc.BlockCount | kernel/src/mm/umalloc.c:98-99 | Between one and 32 blocks more than requested are set aside, exactly if the count does not wrap. |
| Umalloc.BitmapFits | kernel/src/mm/umalloc.c:101-111 | Arena and bitmap fit into the pages asked for exactly if the bytes they take are a 32-bit number; then the bitmap follows the arena and less than a page is wasted. |
| Umalloc.FillCovers | kernel/src/mm/umalloc.c:119-119 | The fill that frees every block covers arena and bitmap exactly if there is room for them and a last page in 32 bits. |
| Umalloc.BitmapOnArena | kernel/src/mm/umalloc.c:101-127 | Where that fails: for one block of 0x08000000 bytes the arena size wraps to zero, one page is asked for, and the bitmap lies on the first block. |
| Umalloc.UmallocDesc.constructor | kernel/src/mm/umalloc.c:95-127 | For every size and count that does not wrap, as above, a new allocator has every block free, none in use, and its bitmap behind the blocks and inside its pages. |
| Umalloc.UmallocDesc.GetFirstFreeIndex | kernel/src/mm/umalloc.c:68-88 | The search claims the least free index, or reports that none is free. |
| Umalloc.UmallocDesc.Umalloc | kernel/src/mm/umalloc.c:139-158 | The lowest free block is handed out and counted. |
| Umalloc.UmallocDesc.AddrToIndex | kernel/src/mm/umalloc.c:21-36 | An address is accepted exactly if it is the start of a block below the bitmap, and yields that block. |
| Umalloc.UmallocDesc.Ufree | kernel/src/mm/umalloc.c:173-191 | The block goes back to the free set; a foreign or free block is refused. |
| Umalloc.UmallocDesc.UfreeUndoesUmalloc | kernel/src/mm/umalloc.c:139-191 | ufree straight after umalloc succeeds and restores the bitmap word by word, and the count. |
| Umalloc.BlocksDisjoint | kernel/src/mm/umalloc.c:13-16 | Different blocks do not overlap and lie below the bitmap. |
| DoublyLinked.Dlist.InsertionGuard | kernel/src/kernel/dlist.c:13-20 | The test before an insertion refuses every node of this list and lets every free node pass. |
| DoublyLinked.Dlist.InsertFirst | kernel/src/kernel/dlist.c:11-32 | The sequence of nodes gains the node at its place; links in both directions, ends and size agree with it. |
| DoublyLinked.Dlist.InsertLast | kernel/src/kernel/dlist.c:37-58 | The sequence of nodes gains the node at its place; links in both directions, ends and size agree with it. |
| DoublyLinked.Dlist.InsertAfter | kernel/src/kernel/dlist.c:63-93 | The sequence of nodes gains the node at its place; links in both directions, ends and size agree with it. |
| DoublyLinked.Dlist.InsertBefore | kernel/src/kernel/dlist.c:98-128 | The sequence of nodes gains the node at its place; links in both directions, ends and size agree with it. |
| DoublyLinked.Dlist.RemoveFirst | kernel/src/kernel/dlist.c:133-166 | The first node leaves and has no links; the rest stays linked. |
| DoublyLinked.Dlist.RemoveLast | kernel/src/kernel/dlist.c:171-201 | The last node leaves and has no links; the rest stays linked. |
| DoublyLinked.Dlist.Remove | kernel/src/kernel/dlist.c:208-234 | Any node leaves, wherever it is, and has no links; the rest stays linked. |
| DoublyLinked.Dlist.Search | kernel/src/kernel/dlist.c:239-249 | Found exactly if the node is on the list. |
| RunQueues.Rq.Append | kernel/src/kernel/dlist.c:37-58 | An insertion into one queue leaves links and contents of the other four intact. |
| RunQueues.Rq.Take | kernel/src/kernel/dlist.c:208-234 | A removal from one queue leaves links and contents of the other four intact. |
| SchedSpec.NextInv | kernel/src/kernel/scheduler.c:168-367 | Every step keeps the invariant: each live thread in exactly one place, queues of their class, sleep queue sorted with the alarm set and not late. |
| SchedSpec.CreatedExactly | kernel/src/kernel/thread.c:118-126 | new_thread with any class keeps the invariant exactly unless it makes a second idle thread. |
| SchedCases.IdleLost | kernel/src/kernel/idle.c:16-18 | What then happens: the next tick gives the slot back, and the new thread is in the tables and in no other place. |
| SchedSpec.SystickInv | kernel/src/kernel/scheduler.c:275-318 | A tick keeps it: wake-up, requeue, exit and pick in this order. |
| SchedSpec.SleptInv | kernel/src/kernel/thread.c:174-185 | Going to sleep keeps it. |
| SchedSpec.BlockedInv | kernel/src/kernel/rt.c:35-43 | Blocking keeps it, from the run queue and from sleep. |
| SchedSpec.UnblockedInv | kernel/src/kernel/rt.c:45-54 | Unblocking keeps it. |
| SchedRuns.RunInv | kernel/src/kernel/scheduler.c:104-407 | On every run, in every state, the invariant holds. |
| SchedRuns.OnePlace | kernel/src/kernel/scheduler.c:207-318 | Each live thread is on one queue of its class, asleep, blocked, running or idle, and in no two of these places unless it is on its way to sleep. |
| SchedRuns.PickPriority | kernel/src/kernel/scheduler.c:69-82 | A class is picked only if every higher class has nothing to run. |
| SchedRuns.RtLatency | kernel/src/kernel/scheduler.c:275-318 | A ready REAL_TIME thread at index k that is not blocked runs after at most k + 1 ticks, on every run. |
| SchedShares.LowerLatency | kernel/src/kernel/app.c:9-21 | A ready APPLICATION or BACKGROUND thread at index k of its queue runs after at most k + 1 ticks, on every run, as long as no tick goes to a thread of a higher class. |
| SchedRuns.NotWokenEarly | kernel/src/kernel/scheduler.c:177-186 | The delay queue wakes no thread before its time has passed. |
| SchedRuns.HeadWakes | kernel/src/kernel/scheduler.c:168-200 | An expired thread at the head of the sleep queue is ready after the next tick. |
| SchedRuns.WakeLatency | kernel/src/kernel/scheduler.c:168-200 | An expired sleeper at index k is ready within k + 1 ticks, on every run. |
| SchedRuns.SleptBehind | kernel/src/kernel/scheduler.c:333-367 | A thread goes to sleep behind every sleeper that is due no later, and ahead of the others. |
| SchedRuns.OrderKept | kernel/src/kernel/scheduler.c:168-367 | On every run, while two threads sleep, the one ahead stays ahead. |
| SchedRuns.WakeOrder | kernel/src/kernel/scheduler.c:168-367 | On every run a sleeper that is neither blocked nor removed leaves the sleep queue strictly after every thread ahead of it: threads of one deadline wake in the order in which they went to sleep. |
| SchedRuns.WakesAllExpired | kernel/src/kernel/scheduler.c:170-198 | The comment promises to enqueue all expired threads: a call does so exactly if at most one is expired. |
| SchedCases.TwoSleepersRun | kernel/src/kernel/scheduler.c:170-198 | Where it does not: runs of nine steps from the start, for all short times that two threads run before they sleep a millisecond, at whose last tick both are overdue and one is left asleep. |
| SchedRuns.SleepOutlastsTick | kernel/src/kernel/thread.c:174-185 | A sleep outlasts the tick that switches the thread out, whatever its length, exactly if it is of at least a millisecond. |
| SchedTime.ClockOfRun | kernel/src/kernel/scheduler.c:254-281 | On every run from the start the clock is known from the steps alone: a tick is a whole period, whatever the counter reads, but for the first one after a sleep, which is what the counter has counted down. |
| SchedTime.SteadyClock | kernel/src/kernel/scheduler.c:254-281 | While nobody sleeps the clock moves by a whole period with every tick. |
| SchedTime.OverdueAfter | kernel/src/kernel/thread.c:174-185 | A sleep of ms milliseconds is overdue after ms + 1 whole ticks, and is not before tick ms + 1. |
| SchedTime.SleepLasts | kernel/src/kernel/thread.c:174-185 | On every run a thread that sleeps ms milliseconds stays asleep for at least ms ticks, unless it is blocked or removed. |
| SchedTime.BlockedStays | kernel/src/kernel/rt.c:35-43 | On every run a blocked thread does not run, and is neither ready nor asleep, until it is unblocked. |
| SchedTime.UnblockRuns | kernel/src/kernel/rt.c:45-54 | An unblocked thread runs after at most one tick more than there are ready real-time threads, on every run. |
| SchedRuns.RequeueUnlinked | kernel/src/kernel/scheduler.c:294-298 | When a tick puts the running thread back that thread is on no list; one that has gone to sleep is not put back. |
| SchedRuns.ExitSound | kernel/src/kernel/scheduler.c:207-235 | Removing the running thread, of any class, leaves it on no list and not in the idle slot exactly if it is REAL_TIME or asleep. |
| SchedCases.KilledRun | kernel/src/kernel/scheduler.c:207-235 | A run of four steps from the start to an APPLICATION thread that is killed while it runs, |
| SchedCases.KilledRuns | kernel/src/kernel/scheduler.c:207-235 | and the tick after it: the thread is out of the tables, is still on its queue, and is picked to run. |
| SchedRuns.ExitLeavesNothing | kernel/src/kernel/scheduler.c:300-306 | After the tick that finds the exit pending the thread is on no queue and in no table. |
| SchedTime.KilledLeaves | kernel/src/kernel/scheduler.c:300-306 | On every run a killed thread is removed by the first tick that finds it running, however late. |
| Scheduling.Scheduler.RtPick | kernel/src/kernel/rt.c:9-22 | The head of the real-time queue leaves it and its rq_list is cleared. |
| Scheduling.Scheduler.AppPick | kernel/src/kernel/app.c:9-17 | The head of the application queue leaves it. |
| Scheduling.Scheduler.BackgroundPick | kernel/src/kernel/background.c:9-17 | The head of the background queue leaves it. |
| Scheduling.Scheduler.RtEnqueue | kernel/src/kernel/rt.c:24-29 | The thread becomes the tail of the real-time queue, which its rq_list names. |
| Scheduling.Scheduler.AppEnqueue | kernel/src/kernel/app.c:19-21 | The thread becomes the tail of the application queue; rq_list is not touched. |
| Scheduling.Scheduler.BackgroundEnqueue | kernel/src/kernel/background.c:19-21 | The thread becomes the tail of the background queue; rq_list is not touched. |
| Scheduling.Scheduler.IdleEnqueue | kernel/src/kernel/idle.c:16-18 | The idle slot holds the thread. |
| Scheduling.Scheduler.CoreScheduler | kernel/src/kernel/scheduler.c:69-82 | The walk over the classes picks what the specification picks, and never reaches the panic. |
| Scheduling.Scheduler.TickToWakeUpdate | kernel/src/kernel/scheduler.c:158-166 | The alarm is the first sleeper's wake-up time, or zero. |
| Scheduling.Scheduler.TailUnlinked | kernel/src/kernel/scheduler.c:197-197 | A thread that has just been enqueued has no next link, which is where the loop reads on. |
| Scheduling.Scheduler.ProcessExpiredDelays | kernel/src/kernel/scheduler.c:168-200 | The loop wakes the head of the sleep queue if it is due, and no other thread. |
| Scheduling.Scheduler.SchedulerEnqueueDelay | kernel/src/kernel/scheduler.c:333-367 | The thread goes before the first sleeper with a later time, and the alarm follows. |
| Scheduling.Scheduler.RemoveThread | kernel/src/kernel/scheduler.c:207-235 | The running thread leaves its list, the thread table and the heap, and its links are clear. |
| Scheduling.Scheduler.ExitCheck | kernel/src/kernel/scheduler.c:216-222 | The check before the panic passes exactly those threads that are on no queue or alone on theirs. |
| Scheduling.Scheduler.AdvanceTick | kernel/src/kernel/scheduler.c:254-281 | The clock advances by a whole period, or, if a reschedule is pending, by what the counter has counted down. |
| Scheduling.Scheduler.SystickException | kernel/src/kernel/scheduler.c:275-318 | On the linked lists a tick is exactly the step of the specification; no list panic is reached. |
| Scheduling.Scheduler.NewThread | kernel/src/kernel/thread.c:83-172 | A new thread is known, awake, queued in its class and first in the table. |
| Scheduling.Scheduler.SchedulerStart | kernel/src/kernel/scheduler.c:104-152 | Starting creates the idle thread and picks the first thread to run. |
| Scheduling.Scheduler.SpawnThread | kernel/src/kernel/thread.c:83-172 | new_thread is exactly the step of the specification. |
| Scheduling.Scheduler.ThreadSleep | kernel/src/kernel/thread.c:174-185 | thread_sleep is exactly the step of the specification. |
| Scheduling.Scheduler.RtBlock | kernel/src/kernel/rt.c:35-43 | The thread moves from the queue its rq_list names to the blocked queue. |
| Scheduling.Scheduler.RtUnblock | kernel/src/kernel/rt.c:45-54 | The thread moves from the blocked queue to the real-time queue, awake. |
| Scheduling.Scheduler.ThreadBlock | kernel/src/kernel/scheduler.c:397-407 | Blocking is exactly the step of the specification. |
| Scheduling.Scheduler.ThreadUnblock | kernel/src/kernel/scheduler.c:385-395 | Unblocking is exactly the step of the specification. |
| Scheduling.Scheduler.KillThread | kernel/src/kernel/thread.c:199-212 | The exit of a thread of any class is pending, and nothing else changes. |
| ContextSwitch.SwitchSwaps | kernel/src/kernel/context.s:32-87 | A switch saves the running thread's registers, stack pointer and stack, makes the next thread's live, and leaves all others as they are. |
| ContextSwitch.GoesKeeps | kernel/src/kernel/context.s:32-87 | No step of any thread or of the kernel disturbs the context of a thread that is suspended, and no handler that of the thread it interrupts, whatever is written to the rest of the control blocks. |
| ContextSwitch.KernelMayWrite | kernel/src/kernel/scheduler.c:168-200 | The steps of a run include every write of the kernel to a word that is neither a saved stack pointer nor on a stack, the links, queue and wake-up time in the control block of any thread included, and no other. |
| ContextSwitch.Undisturbed | kernel/src/kernel/context.s:32-87 | The same over any stretch of a run. |
| ContextSwitch.Resumes | kernel/src/kernel/context.s:32-87 | Over any run a thread resumes with exactly the registers, stack pointer and stack it was suspended with. |
| ContextSwitch.ResumesAtOnce | kernel/src/kernel/context.s:32-87 | A switch from a thread to itself changes nothing it can see. |
| ContextSwitch.StartsAsLaidOut | kernel/src/kernel/thread.c:35-77 | A new thread first runs with its function in PC, thread_exit in LR, its argument in R0 and its stack as laid out. |
| ContextSwitch.FirstThread | kernel/src/kernel/context.s:119-152 | The first thread of all starts with PC and R0 as laid out, but its LR is its own PC: it reaches thread_exit only if that is its function, against the comment of thread.c:24-27. |
| ContextSwitch.Cpu.PendsvException | kernel/src/kernel/context.s:32-87 | The handler stores and loads exactly what the pieces of the switch say, and skips the saving when curr_thread is NULL. |
| ContextSwitch.Cpu.SwitchTo | kernel/src/kernel/context.s:32-87 | Exception entry, handler and return together are the switch. |
| ContextSwitch.Cpu.SchedulerRun | kernel/src/kernel/context.s:119-152 | The pops of the first start load what the specification says. |
| ContextSwitch.Cpu.StackSetup | kernel/src/kernel/thread.c:35-77 | The sixteen words below the padding are the initial context; no other word changes. |
| ContextSwitch.Cpu.NewThread | kernel/src/kernel/thread.c:83-110 | Setting up the stack and saved stack pointer of a thread writes its own block only, and leaves it the initial context. |
| Fat32.LoadStore | kernel/src/disk/fat32.c:160-188 | A stored word is loaded again, and words beside it are not disturbed. |
| Fat32.SectorsOfCluster | kernel/src/disk/fat32.c:540-547 | Every sector of a data cluster leads back to the cluster. |
| Fat32.ClustersDisjoint | kernel/src/disk/fat32.c:545-547 | Different clusters have different sectors. |
| Fat32.ClustersFollow | kernel/src/disk/fat32.c:545-547 | The data area starts with cluster 2, and every cluster is followed by the next. |
| Fat32.TableIsMap | kernel/src/disk/fat32.c:413-442 | Setting a table entry is a map update over clusters. |
| Fat32.EntryAddress | kernel/src/disk/fat32.c:413-423 | The entry of cluster c is word c of the table. |
| Fat32.EndsOfChain | kernel/src/disk/fat32.c:397-398 | Exactly the eight values from 0x0FFFFFF8 on end a chain, whatever the four bits above are. |
| Fat32.FileByte | kernel/src/disk/fat32.c:1235-1267 | Byte k of the concatenated clusters is at its cluster, sector and place. |
| FatVolume.Volume.constructor | kernel/src/disk/fat32.c:872-957 | A mounted volume has nothing cached, and its logical disk is the device. |
| FatVolume.Volume.FatFlush | kernel/src/disk/fat32.c:529-537 | A flush never changes the logical disk; when it succeeds the device is the logical disk. |
| FatVolume.Volume.FatRead | kernel/src/disk/fat32.c:507-525 | Reading a sector, through any eviction and any fault, never changes the logical disk; on success the buffer is that sector of it. |
| FatVolume.Volume.FatTableGet | kernel/src/disk/fat32.c:413-423 | A lookup in the table of the logical disk. |
| FatVolume.Volume.FatTableSet | kernel/src/disk/fat32.c:426-442 | An update of the table of the logical disk, also when the closing flush fails; no change when the call fails. |
| FatVolume.File.AddrResolve | kernel/src/disk/fat32.c:381-410 | The cursor moves to the next sector or the next cluster of the chain; a step that fails has moved the sector all the same. |
| FatVolume.Crossing | kernel/src/disk/fat32.c:381-410 | On a stored file the step finds the next sector of the chain. |
| FatVolume.File.Read | kernel/src/disk/fat32.c:1235-1267 | Whatever fails, every byte delivered is the one at the next place of a walk of the cursor. From offset g the read delivers exactly bytes g up to min(g + count, size) of the concatenated chain, also when the cursor rests behind a sector, if no table lookup of the walk misses, and then the cursor is on the file. |
| FatVolume.StepOnFile | kernel/src/disk/fat32.c:1246-1253 | A step of the walk stays on the file exactly if no lookup misses. |
| FatVolume.WalkOnFile | kernel/src/disk/fat32.c:1244-1264 | A walk without a missed lookup goes through the file byte by byte. |
| FatVolume.File.Jump | kernel/src/disk/fat32.c:1275-1307 | The cursor is at the offset afterwards exactly if the chain reaches that far; beyond, the call reports success having moved the cluster only. |
| FatVolume.JumpToEnd | kernel/src/disk/fat32.c:1291-1294 | Where it does not: on a volume with one file of one cluster a jump to byte 512 reports success and leaves the offset at 0. |
| FatVolume.File.JumpThenRead | kernel/src/disk/fat32.c:1235-1307 | A jump and a read deliver the file from the offset on. |
| FatVolume.CursorsAgree | kernel/src/disk/fat32.c:1275-1307 | A jump puts the cursor where sequential reading puts it, but for a rest behind a sector. |
| FatVolume.FailedStep | kernel/src/disk/fat32.c:1246-1253 | A read ignores a failed step; it then stands in the right sector exactly if the two clusters are neighbours on disk. |
| FatVolume.MissedLookup | kernel/src/disk/fat32.c:1244-1264 | Where it does not: on a disk with a file in clusters 2 and 5 the lookup misses, and the byte of cluster 3 is delivered for byte 512 of the file, which is another. |
| FatVolume.LateReader | kernel/src/disk/fat32.c:1235-1267 | After one missed lookup the reader goes through the sector behind the cluster, and then delivers the next cluster from its first byte on, a sector late. |
| Bytes.Le32Low | tools/kernel_prog.py:135-143 | Four little-endian bytes give back the number. |
| Crc.CrcCalculate | bootloader/src/generic/crc.c:8-25 | The nested loops compute the checksum function, for any polynomial. |
| CrcPolynomial.ChecksumIsRemainder | bootloader/src/generic/crc.c:8-25 | The checksum is the remainder, and no other byte is, of the message, low bits first, times x^8, divided by the polynomial over the field of two elements, for any polynomial and any data. |
| CrcPolynomial.Constants | bootloader/src/generic/crc.c:8-25 | The divisor is x^8 + x^7 + x^4 + x^3 + x, and the checksum of the byte 0x01 is 0x5F. |
| Crc.FcsXor | bootloader/src/generic/crc.c:8-25 | The checksum is linear over exclusive or, for equal lengths of any size. |
| Crc.ShiftsKernel | bootloader/src/generic/crc.c:17-22 | The only non-zero register eight shifts take to zero is 0xB3, and no shift yields 0xB3. |
| Crc.OneByteAltered | bootloader/src/generic/crc.c:8-25 | Altering one byte by a mask goes undetected exactly for 0xB3, at any place in any data. |
| Frames.CalculateFcs | tools/kernel_prog.py:62-72 | The host computes the same checksum. |
| Frames.SendFrame | tools/kernel_prog.py:74-91 | The host writes start byte, command, little-endian size, payload, checksum and end byte. |
| Frames.OnTheLine | tools/kernel_prog.py:74-91 | What a frame with four zero bytes is on the line, byte for byte. |
| Frames.RoundTrip | bootloader/src/frame.c:108-191 | From the idle state every frame of 1 to 512 payload bytes is received as sent. |
| Frames.EmptyFrame | bootloader/src/frame.c:157-164 | Of all frames up to 512 bytes, the receiver is idle again exactly after those that are not empty. |
| Frames.AlteredPayload | bootloader/src/frame.c:170-190 | A frame with one altered payload byte is refused, and answered so, unless the mask is 0xB3. |
| Frames.WrongEnd | bootloader/src/frame.c:186-189 | A frame with another end byte is refused with the frame error, whatever its check byte. |
| Frames.BetweenFrames | bootloader/src/frame.c:124-140 | An idle receiver answers every zero byte and passes over every byte that is neither 0x00 nor 0xAA. |
| Frames.OverflowExactly | bootloader/src/frame.c:151-164 | The bytes decide, from every state, whether the receiver writes behind its frame: exactly if a frame that claims more than 513 bytes goes on for so long. |
| Frames.AfterGarbage | bootloader/src/frame.c:196-204 | After any bytes that have not written behind the frame, and a timeout, the next frame is received; in the model, which stops at such a write, not otherwise. |
| Frames.ShortGarbage | bootloader/src/frame.c:151-164 | From an idle receiver at most 517 bytes cannot do that. |
| Frames.OversizedFrame | bootloader/src/frame.c:151-164 | Where it happens: a header that claims 65535 bytes, and 514 more. |
| Frames.Receiver.Usart0Handler | bootloader/src/frame.c:108-191 | The handler takes exactly one step of the receiver's state machine per byte. |
| Frames.Receiver.TimerHandler | bootloader/src/frame.c:196-204 | The timeout makes the receiver idle. |
| FlashDriver.ErasedExtent | bootloader/src/drivers/flash.c:69-80 | The bytes erased are the least multiple of 8192 that holds the image. |
| FlashDriver.FitsExactly | bootloader/src/drivers/flash.c:69-112 | An image has room exactly if it has no more than 4064 pages. |
| FlashDriver.TargetIsRight | bootloader/src/drivers/flash.c:132-132 | The masked page number of the command is right exactly below kernel page 224. |
| FlashDriver.TargetIsBootloader | bootloader/src/drivers/flash.c:132-132 | For pages 224 to 255 it names flash pages 0 to 31, those of the bootloader. |
| FlashDriver.Flash.FlashEraseImage | bootloader/src/drivers/flash.c:69-112 | Exactly the sections of the extent are erased and its size is returned; zero for an empty image, for one that does not fit, and after a fault. |
| FlashDriver.Flash.FlashWriteImagePage | bootloader/src/drivers/flash.c:118-154 | One page is programmed, and the call succeeds only if the page meant holds the data. |
| FlashDriver.Flash.FlashEraseWrite | bootloader/src/drivers/flash.c:17-62 | One page below 32 is rewritten and verified; other pages stay. |
| Bootloading.Bootloader.EraseKernelImage | bootloader/src/bootloader.c:119-145 | The size in the payload is erased and the extent remembered, on reliable flash exactly if it is not zero and fits; else the remembered extent stays. |
| Bootloading.Bootloader.WriteKernelPage | bootloader/src/bootloader.c:191-222 | The page the masked number names is programmed, and no other. The page meant holds the data padded with 0xFF, or the bootloader panics; on erased, reliable flash it panics exactly from page 224 on with a page that is not blank. |
| Bootloading.Bootloader.StoreKernelHash | bootloader/src/bootloader.c:229-258 | Page 30 holds the digest and size of the kernel bytes. |
| Bootloading.Bootloader.VerifyKernelHash | bootloader/src/bootloader.c:265-287 | Accepts exactly if the size is set and the digest is that of the kernel bytes. |
| Bootloading.StoredBoots | bootloader/src/bootloader.c:229-287 | A stored record is accepted at the next boot, on unchanged flash, exactly if an erase has set the size. |
| Bootloading.BootableExactly | bootloader/src/bootloader.c:265-287 | What is compared is the digest of the kernel bytes in flash, as many as the word behind the stored digest says, with the first 32 bytes of page 30. |
| Bootloading.StoredRefuses | bootloader/src/bootloader.c:265-287 | With the record of some kernel in page 30 the next boot accepts what is in flash exactly if it has the digest of that kernel. |
| Bootloading.Bootloader.HandleFrame | bootloader/src/main.c:120-178 | Each of the five commands has its effect and its answer, on any flash, and no other; an unknown command has neither. |
| KernelProg.LoadKernel | tools/kernel_prog.py:116-175 | A download succeeds exactly if the image is not empty, fits, and is blank behind page 224. Then it ends in a reset with the image in flash, the rest of the flash untouched but for page 30, and a record the next boot accepts. An image that is not blank there ends in a panic over the first page that is not, which up to page 255 has been programmed over a page of the bootloader. |
| KernelProg.SmallImage | bootloader/src/drivers/flash.c:132-132 | Every image of up to 224 pages fits and is blank there. |
| KernelProg.LoadSmall | tools/kernel_prog.py:116-175 | So its download succeeds: the kernel area starts with the image padded with 0xFF, pages below but page 30 are as before, and it boots. |
| KernelProg.LoadThenBoot | tools/kernel_prog.py:116-175 | After a download, and any change of the kernel pages since, the boot accepts exactly if these have the digest of the image that was sent. |
| KernelProg.SessionPages | tools/kernel_prog.py:116-175 | In a session of up to 224 pages each page is programmed once, after its erase, and in order. |
| KernelProg.TailBlankPages | bootloader/src/drivers/flash.c:132-132 | Blank behind page 224 means that every page of the image ends up right. |
| KernelProg.TooLongByOne | bootloader/src/drivers/flash.c:132-132 | An image that fits and is not blank there: 224 pages and one byte of zeros. |
| KernelProg.FlashHoldsImage | bootloader/src/bootloader.c:191-222 | The erased extent then holds the image padded with 0xFF. |
| UsbDescriptors.RecordInside | kernel/src/usb/usb.c:498-535 | Every record's offset and size lie inside the allocation. |
| UsbDescriptors.RecordsDisjoint | kernel/src/usb/usb.c:498-516 | Different records do not overlap. |
| UsbDescriptors.OneParent | kernel/src/usb/usb.c:593-674 | Every interface is in the slice of one configuration and of no other. |
| UsbDescriptors.OneIface | kernel/src/usb/usb.c:593-674 | Every endpoint is in the slice of one interface and of no other. |
| UsbDescriptors.AddSliced | kernel/src/usb/usb.c:613-670 | Each descriptor taken in keeps child slices consecutive, disjoint and exhaustive. |
| UsbParser.VerifyDescriptors | kernel/src/usb/usb.c:448-489 | Accepts exactly the streams whose descriptors have their proper lengths and end where the stream ends, and counts each kind. |
| UsbParser.ReadsBack | kernel/src/usb/usb.c:448-489 | Any descriptors written one after the other are accepted exactly if configurations and interfaces have nine bytes and endpoints seven, and are then read as they were written. |
| UsbParser.CutOff | kernel/src/usb/usb.c:448-489 | A stream whose last descriptor is cut off is refused. |
| UsbParser.FlattenNested | kernel/src/usb/usb.c:593-674 | Whatever is read out of a tree starts with a configuration and has no endpoint directly behind one. |
| UsbParser.RoundTrip | kernel/src/usb/usb.c:593-674 | Read out in order the tree gives back the stream exactly if the stream starts with a configuration and no endpoint follows a configuration directly. |
| UsbParser.NestedRooted | kernel/src/usb/usb.c:643-664 | Every such stream is parsed. |
| UsbFiling.EndpointConfig | kernel/src/usb/usb.c:643-670 | The interface an endpoint goes to belongs to the last configuration before it exactly if an interface stands between the two in the stream. |
| UsbFiling.Misfiled | kernel/src/usb/usb.c:643-670 | An endpoint right behind a configuration is found under an earlier one. |
| UsbParser.CrossedStream | kernel/src/usb/usb.c:593-674 | Such a stream: configuration, interface, configuration and endpoint, 34 bytes that are accepted and parsed, and are no tree in order. |
| UsbParser.CrossedFiled | kernel/src/usb/usb.c:593-674 | Its endpoint is found under the first configuration. |
| UsbParser.UsbDev.ParseDescriptors | kernel/src/usb/usb.c:593-674 | Succeeds exactly if the stream is accepted, there is memory, each interface has a configuration before it and each endpoint an interface. Each descriptor of the stream then has the next record of its kind, under the last configuration, or interface, before it; the tree is sliced and round-trips as above; and each endpoint record is overwritten beyond its descriptor with the bytes that follow it. |
| CircularList.List.AddLast | kernel/src/kernel/list.h:85-88 | The ring gains the node before its head, links in both directions. |
| CircularList.List.AddFirst | kernel/src/kernel/list.h:77-80 | The ring gains the node behind its head. |
| CircularList.List.DeleteNode | kernel/src/kernel/list.h:93-100 | The node leaves the ring and has no links. |
| CircularList.List.DeleteFirst | kernel/src/kernel/list.h:105-111 | The first node leaves, if there is one. |
| CircularList.List.DeleteLast | kernel/src/kernel/list.h:116-122 | The last node leaves, if there is one. |
| CircularList.List.EmptyTest | kernel/src/kernel/list.h:124-130 | The test for emptiness is exact, and the ends are beside the head. |
| CircularList.List.GetSize | kernel/src/kernel/list.h:138-147 | The walk counts the nodes. |
| UrbQueue.EndInv | kernel/src/drivers/usbhc.c:338-361 | Ending the head completes it and starts the next URB once, by the callback or after it, whatever the callback submits. |
| UrbQueue.NextInv | kernel/src/drivers/usbhc.c:305-361 | Every step keeps the order, and leaves the pipe idle exactly if its queue is empty. |
| UrbQueue.Fifo | kernel/src/drivers/usbhc.c:305-361 | On every run at most one URB is in flight, the head; idle exactly if the queue is empty; each submission is started once and completes in order. |
| UrbQueue.StartedInTurn | kernel/src/drivers/usbhc.c:305-361 | On every run a URB has been started exactly if all submitted before it have completed. |
| UrbQueue.StageAfterSetup | kernel/src/drivers/usbhc.c:410-443 | A request without data enters the status stage, one that reads the stage In, one that writes the stage Out. |
| UrbQueue.Completes | kernel/src/drivers/usbhc.c:305-492 | On every run the packets that the request at the head still owes complete that URB and no other, and leave the next one in its first stage. |
| UrbQueue.SomeOwed | kernel/src/drivers/usbhc.c:410-492 | In every stage but Out there are such packets. |
| UrbQueue.WriteStays | kernel/src/drivers/usbhc.c:482-492 | Writing data is not implemented: no packet that goes out takes a request from the stage Out. |
| UrbQueue.WriteReached | kernel/src/drivers/usbhc.c:424-429 | A run that gets there, with a second request behind the first. |
| UrbQueue.UsbPipe.SubmitUrb | kernel/src/drivers/usbhc.c:885-896 | A URB joins the tail and is started only if the queue was empty, inside a callback too. |
| UrbQueue.UsbPipe.EndUrb | kernel/src/drivers/usbhc.c:338-361 | The URB leaves the list before its callback, which may submit it again; the next one is started unless it has been. |
| UrbQueue.UsbPipe.PipeSetupSent | kernel/src/drivers/usbhc.c:410-443 | The pipe moves to the stage the request asks for. |
| UrbQueue.UsbPipe.PipeReceiveIn | kernel/src/drivers/usbhc.c:445-480 | The URB ends after the status stage or the last full packet; a short packet leads to the status stage. |
| UrbQueue.UsbPipe.PipeTransmitOut | kernel/src/drivers/usbhc.c:482-492 | The URB ends when the status packet has gone out. |

## Left out

- Registers, clocks, pins, DRAM setup, memory protection, cache maintenance, barriers and interrupt priorities: hardware effects.
- Double frees: a header swallowed by a backward merge keeps its mark, so the check of mm_free does not detect all of them, and nothing is claimed about them.
- Mm.MemoryManager: header words are records of a next pointer and a size word; the bytes of payloads are not modelled.
- Mm.MemoryManager.StorePayload: memory is written in cells of 8 bytes at multiples of 8, so a store across two cells, or over the end of a block, is not represented.
- Mm.MemoryManager.Alloc: the seven requests 0xFFFFFFF1 to 0xFFFFFFF7, which round to a block of no bytes, are excluded; MmHeaders.RoundedHolds says that they are the ones. The source then splits a free block at its own header, and what is left of the free list is not modelled.
- Umalloc.UmallocDesc: a word of the bitmap is a sequence of 32 bits; the memory of the blocks is not modelled.
- Scheduling.Scheduler: control blocks are records in a table keyed by the thread's rq_node, which is a node in the heap; the list of all threads is a sequence, as it is only added to at its head and removed from. Runtime statistics, names and tids are not modelled.
- Scheduling.Scheduler.SystickException: the window between the tick and the context switch it pends is closed, since the tick masks faults and nothing else changes the queues; ticks while the scheduler is suspended do nothing and are not steps.
- Scheduling.Scheduler.ThreadBlock: blocking or unblocking the running thread, which panics, is excluded, and so is doing it to a thread of a class other than REAL_TIME, as the other classes have no such function and the source calls through a null pointer.
- Scheduling.Scheduler.ThreadSleep: sleeping for no time, and sleeping in the idle thread, are excluded, as the scheduler does not support them.
- Scheduling.Scheduler.RemoveThread: what the kernel does after it has removed an awake thread of a class other than REAL_TIME, by panic, with the freed thread on its queue, or with the freed idle thread in its slot, is not a step of the runs; SchedRuns.ExitSound and ExitCheck say exactly when it comes to that.
- Scheduling.Scheduler.SpawnThread: new_thread with class IDLE is not a step of the runs; SchedSpec.CreatedExactly and SchedCases.IdleLost say what a second idle thread does.
- 64-bit overflow of the tick counter and of the product of milliseconds and cycles.
- ContextSwitch.Cpu: addresses count words; the floating-point context, the padding word the hardware may stack, and the CONTROL register are not modelled. Code pointers are words.
- ContextSwitch.Goes: a thread that runs past the end of its stack, or writes over the saved stack pointer or the stack of another, is outside the model. What the kernel writes between the entry of an exception and the switch is a step before the switch.
- FatVolume.File: the directory search that leads to the file's first cluster, long names, mounting, formatting and cluster allocation are not modelled; a file's size is at most that of its chain, and reading starts before the end of the file. A failed transfer leaves the buffer as it is when reading.
- Frames.AfterGarbage: what a byte written behind the frame structure, which is the 514th of a payload or a later one, does to other memory is not modelled; the receiver stops there.
- KernelProg.LoadKernel: error handling of the host, which looks at an old response, is not modelled; the session is free of errors. Texts printed to the serial line are not part of the stream.
- SHA-256 is any function from bytes to 32 bytes.
- Bootloading.Bootloader.VerifyKernelHash: a record whose size reaches past the flash is excluded, as what is read there is not modelled.
- FlashDriver.Flash.FlashWriteImagePage: the page meant is one of the flash.
- Bootloading.Bootloader.WriteKernelPage: the same.
- Bootloading.Bootloader.HandleFrame: the page to write is one of the flash; what the flash controller does for other page numbers is not modelled. A command for an erase outside the flash fails.
- Bootloading.Bootloader: starting the kernel, the boot signature, the image information and rewriting the bootloader's own pages are not modelled.
- UsbParser.UsbDev: records are kept in three sequences, one per kind; that their offsets are inside the allocation and apart is proved beside it. Drivers, the list of interfaces and string descriptors are not modelled. The walk assumes that every descriptor has a length of at least one and a type inside the buffer, and that a device's configurations are counted from zero.
- UrbQueue.UsbPipe: interrupt transfers, cancelling and aborting URBs, the data of an OUT stage, transfer lengths and the FIFO are not modelled; a callback is the sequence of URBs it submits.
- Heap fragmentation, benchmarks, printing, the ring buffer, networking, SD cards, the dynamic linker and the user programs.
