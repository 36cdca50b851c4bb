# Verification of a Raspberry Pi 3 kernel

A Dafny model of the parts of the kernel where its correctness is decided: the buddy page
allocator and the slab allocator on top of it, the thread system and its reference-counted
program regions, the chains of preemptive interrupt tasks across thread switches, the timer events,
the UART rings, and the three formats the kernel reads and writes (devicetree, cpio archive, numbers as text).
`dafny verify dfyconfig.toml` checks everything.

How it is built:

* Code that overwrites state is a class (or a method over an array) with the source's fields and
  loops: `PageAllocator.Allocator`, `DynamicAllocator.DynaAllocator`, `LinkedNodes.Nodes`,
  `ThreadQueues.Queues`, `ThreadSystem.Scheduler`, `ExceptTasks.Workload`, `Timer.EventQueue`,
  `Uart.Driver`, `UartReceive.Receiver`, and the methods of `StrUtils`, `Initramfs` and
  `DeviceTree`. Each method equates the state it leaves with a function of the state it found.
* What the source promises is then proved about those functions: what one call does in the
  caller's terms, what every call keeps, and what holds over every run.

`ThreadCalls` says what each call of the thread system does in its caller's terms. `Kernel` puts the thread system, the slab allocator and the page allocator together, `Refusals` says
when a new thread gets its structures there, and `Workloads` puts the interrupt tasks and the threads
together; `DanglingQueues` has the release of interrupt queues as the code's text has it. `Machine` holds the constants and types that all share. Where the
kernel runs with interrupts on, the interleaving is part of the model: statement by statement for the
UART (`Uart`, `UartReceive`) and for the dead queue (`SplitPop`, `SplitPush`), callback by callback for the timer
(`Timer`), task by task for interrupts and switches (`Workloads`).

The page allocator (`Bits`, `LinkedNodes`, `BuddyState`, `BuddyTheory`, `Segmentation`, `BuddyOps`,
`BuddyReserve`, `PageAllocator`, `BuddyRuns`) is proved for any page count that is a multiple of
2^(top+1) and any top order up to 19; the kernel has 245760 pages and top order 8. The allocator does not
store the order of a block it hands out. The invariant therefore speaks of one ghost sequence, the
order of every page's block, and `ExtentFromMarks` shows that the marks determine it.

Where the code departs from what it is evidently for, the model follows the code, and a lemma says
exactly when it meets its purpose:

* `1 << bit` in the slab bitmap is a 32-bit shift, so slots 31 .. 63 of a row share one fate.
  Classes of 128 bytes and more are unaffected (`WhenSlabsServe`); in smaller ones `dyna_alloc` can
  return NULL with slots left, exactly when the state is `Stuck` (`DynaAllocTheorem`). Such a class never
  has a second slab, and refuses exactly when as many of its objects are live as its one slab has
  usable slots (`SmallClasses`), 128 in the class of 16 bytes (`SlotsOfSixteen`).
* The structures of workloads and regions are of that class, and `thread_init` does not look at what
  `dyna_alloc` returns. With memory to spare, `fork_s` writes through a null pointer exactly when 128
  objects of the class are live (`Refusals.ForkExact`), and `run_prog` exactly when 127 are; with 128 `rc_alloc`
  refuses first (`RunProgExact`). From boot, one program that forks 126 times gets there (`ForksFromBoot`).
* `free_obj` accepts any index up to the capacity; the slab's counts survive exactly if the slot whose
  bit it clears was live (`FreeSlotExact`).
* `exec_s` never stores the new region in the thread, so region counts are never right after it
  (`ExecMiscounts`); the claims over runs are about runs without it.
* `clear_timer_event` ignores its argument (`ClearExact`).
* `schedule` calls `swap_event_workload`, which replaces the base queue by the one that the next thread's
  workload saved; but nothing ever saves it, so after every switch the base is NULL. The suspended
  queues stay in use, unreachable, and a task of lower priority can run over one of higher priority
  (`UartOverTimer`). An arrival respects priority exactly if the running task's queue is reachable or
  the arrival is strictly higher (`ArrivalRespects`); the pool of 16 queues, which all threads share,
  has one left exactly while those in use are fewer (`QueueAvailable`), and thread after thread
  suspended in its timer task uses it up (`PoolRunsOut`).
* `free_workload` frees a null queue when the base is NULL, which it always is; the pool survives exactly if
  it had no free queue (`FreesWorkloadExact`), and afterwards only queues that were in use come back: when
  none was, no interrupt finds a queue again (`FreesWorkloadStarves`).
* A timer callback that switches threads lets other threads' handlers take events; the handler runs
  exactly the due events just when none of them ran elsewhere (`HandleTheorem`, `TickRunsElsewhere`).
  The loop itself runs with interrupts on; a round that is split is right exactly if another handler
  has left it a due event, or, in the middle of the pop, has taken none (`SplitRoundExact`).
* `kill_zombies` pops the dead queue with the timer on; a push by another thread in between leaves the queue
  consistent except before six of the eleven statements, when the queue has one node (`SplitExact`).
  `kill_thread` pushes on it with the timer on, which is safe before fewer of its statements
  (`PushSplitExact`).
* `len++` and `len--` on the rings are not atomic, as comments in the source fear
  (`SplitCountExact`, `SplitReadExact`).
* `carrtoi` drops the first two of eight hexadecimal digits (`FieldReadsLow`).
* A drained interrupt queue stays linked from the queue it preempted (`DanglingPreemptor`). Here
  `ExceptTasks.Workload` departs from the code: it contains the missing unlink. The code does the same
  exactly over the runs in which no arrival needs a queue after one that preempted another has
  drained, until the processor has no task (`CodeExact`); else it reads a priority through null.

## Model

| member | source | states |
|---|---|---|
| Bits.BuddyIs | lib/allocator/page_allocator.c:192 | the exclusive or with 2^k, digit by digit, is the neighbouring aligned run of 2^k pages: above an even run, below an odd one |
| Bits.ClearLowest | lib/allocator/page_allocator.c:244-246 | clearing the lowest set bit of a page inside an aligned run stays inside the run, unless the page is its head |
| LinkedNodes.PushFront | lib/template/list.c:9-15 | `list_add` before the head turns links that hold the lists xs into links that hold x + xs; other lists and unlisted nodes stay as they are |
| LinkedNodes.PushBack | lib/template/list.c:9-15 | `list_add` behind the tail appends the node to that one list |
| LinkedNodes.TakeOut | lib/template/list.c:17-24 | `list_remove` of a node anywhere in a list closes the gap and leaves the node unlinked |
| LinkedNodes.TakeOutUnlinked | lib/template/list.c:17-24 | `list_remove` of a node on no list changes nothing |
| LinkedNodes.LinksDetermined | lib/template/list.c:4-24 | the lists determine every `prev` and `next` field |
| LinkedNodes.Nodes.Init | lib/template/list.c:4-7 | both fields of the node become NULL, no other field changes |
| LinkedNodes.Nodes.Add | lib/template/list.c:9-15 | the four assignments, as the function AddLinks on the old fields |
| LinkedNodes.Nodes.Remove | lib/template/list.c:17-24 | the assignments as RemoveLinks on the old fields; returns the old successor |
| BuddyState.Split | lib/allocator/page_allocator.c:98-100 | splitting the block in hand, and listing either half, keeps the whole invariant with the other half in hand |
| BuddyState.Merge | lib/allocator/page_allocator.c:259-277 | merging the block in hand with its free buddy keeps the invariant with the doubled block in hand |
| BuddyTheory.ExtentFromMarks | lib/allocator/page_allocator.c:191-224 | two readings of the same status words as blocks agree: GROUPED marks determine the extent of taken and free blocks alike |
| BuddyTheory.FreeRunInOneBlock | lib/allocator/page_allocator.c:82-85 | an aligned run of free pages lies inside one free block: coalescing is complete |
| BuddyTheory.Canonical | lib/allocator/page_allocator.c:191-224 | two valid states with the same taken blocks have identical status words, and lists with the same members |
| Segmentation.SegmentOrderLargest | lib/allocator/page_allocator.c:318-326 | `segment_block_seq` yields an order that is aligned and fits, and no larger one does |
| Segmentation.GreedyTiles | lib/allocator/page_allocator.c:79-113 | the blocks that the reservation loop cuts are aligned and cover the region end to end |
| Segmentation.GreedyFewest | lib/allocator/page_allocator.c:79-113 | no tiling into aligned blocks up to the top order uses fewer blocks |
| Segmentation.AtMostTwice | lib/allocator/page_allocator.c:79-113 | each order below the top is used at most twice |
| Segmentation.GreedyShort | lib/allocator/page_allocator.c:79-113 | at most 2 * top + pages / 2^top blocks, so 16 + pages / 256 for the kernel |
| BuddyOps.AllocTheorem | lib/allocator/page_allocator.c:121-171 | `page_alloc` keeps the invariant; it fails exactly when no aligned free run of 2^order pages exists; else it adds one taken block of that order, at a free aligned run, cut from the smallest sufficient free order |
| BuddyOps.AllocExact | lib/allocator/page_allocator.c:133-170 | every list and status word after `page_alloc`: the first block of the first list that is not empty, from the order on, leaves it; its lowest part is marked and handed out; at each order between, the upper half is marked and goes to the front of its list; nothing else changes |
| BuddyOps.AllocFromTop | lib/allocator/page_allocator.c:121-171 | `page_alloc` takes at most one of the free blocks of the top order, and succeeds while there is one |
| BuddyOps.FreeRound | lib/allocator/page_allocator.c:191-224 | in no round of `page_free` is the "shouldn't be grouped" branch taken; the loop climbs over exactly the block's own pages and free buddies |
| BuddyOps.FreeTheorem | lib/allocator/page_allocator.c:173-225 | `page_free` of an allocated head takes exactly its block out of the taken ones, with the order recovered from the marks; any other page changes nothing |
| BuddyOps.FreeExact | lib/allocator/page_allocator.c:191-224 | every list after `page_free`: at each order from the block's own up to some order the free buddy leaves its list, and there the merged block goes to the front; the other lists are as they were |
| BuddyOps.AllocFreeIdentity | lib/allocator/page_allocator.c:121-225 | a successful `page_alloc` undone at once by `page_free` restores every status word and the order of every list |
| BuddyReserve.FindHeadIs | lib/allocator/page_allocator.c:84 | clearing low bits from any page ends at the head of the block that holds it |
| BuddyReserve.IsAllocatedTheorem | lib/allocator/page_allocator.c:241-249 | `is_allocated` is true exactly inside blocks that `page_alloc` handed out |
| BuddyReserve.CarveKeeps | lib/allocator/page_allocator.c:83-101 | the split walk ends with the parent at the segment's start, in a block of the wanted order, and keeps the invariant |
| BuddyReserve.ReserveLists | lib/allocator/page_allocator.c:83-112 | every list after a round of `memory_reserve`: the free block around the segment leaves its own, and at each order from the segment's up to the block's the half that the segment is not in goes to the front |
| BuddyReserve.ReserveTheorem | lib/allocator/page_allocator.c:65-119 | `memory_reserve` of a free region adds exactly the greedy tiling, as reserved blocks, and keeps the invariant |
| BuddyReserve.ReservedPages | lib/allocator/page_allocator.c:65-119 | a page is free afterwards if and only if it was free and lies outside the region |
| PageAllocator.OrderForLeast | lib/allocator/page_allocator.c:307-316 | for every non-zero 32-bit size, the 32-bit computation yields an order of at most k exactly when 2^k pages hold the size (k up to 19) |
| PageAllocator.AllocForSize | lib/allocator/page_allocator.c:121-171 | in bytes: NULL exactly when every aligned free run is smaller than the size; else a run of the least sufficient power of two |
| PageAllocator.InitialValid | lib/allocator/page_allocator.c:46-62 | the state after `init_page_array` satisfies the invariant, with nothing taken, and lists the blocks from the highest page down |
| PageAllocator.RegionPages | lib/allocator/page_allocator.c:68-72 | for a region inside the memory the pages from start index to end index are exactly those that hold one of its bytes |
| PageAllocator.RegionBeyond | lib/allocator/page_allocator.c:68-72 | a region whose last page starts behind the end of memory has end index 0 |
| PageAllocator.Allocator.constructor | lib/allocator/page_allocator.c:46-62 | the initialisation loop leaves that state in the arrays |
| PageAllocator.Allocator.FreeListInsert | lib/allocator/page_allocator.c:280-285 | the node goes to the front of the list; a negative level changes nothing |
| PageAllocator.Allocator.FreeListPop | lib/allocator/page_allocator.c:288-294 | the first node leaves the list and is returned |
| PageAllocator.Allocator.FreeListRemove | lib/allocator/page_allocator.c:296-305 | the node leaves the list; one that is unlinked already changes nothing |
| PageAllocator.Allocator.CalculateOrder | lib/allocator/page_allocator.c:307-316 | the loop computes OrderFor, with 32-bit wrap-around |
| PageAllocator.Allocator.PageAlloc | lib/allocator/page_allocator.c:121-171 | the arrays change as AllocOrder says for the size's order; size 0 changes nothing; NULL and the address of page 0 coincide; list heads and node links hold exactly the lists afterwards, with null links off them |
| PageAllocator.Allocator.PageFree | lib/allocator/page_allocator.c:173-225 | the arrays change as FreeAt says for the page; an address inside a page changes nothing |
| PageAllocator.Allocator.AllocThenFree | lib/allocator/page_allocator.c:121-225 | a successful `page_alloc` undone at once by `page_free` leaves every status word, every `prev` and `next` of every node and every list head as it was |
| PageAllocator.Allocator.IsAllocated | lib/allocator/page_allocator.c:241-249 | the loop computes the predicate of IsAllocatedTheorem |
| PageAllocator.Allocator.SegmentBlockSeq | lib/allocator/page_allocator.c:318-326 | the loop computes SegmentOrder |
| PageAllocator.Allocator.MemoryReserve | lib/allocator/page_allocator.c:65-119 | for a region inside the memory: afterwards a page is free exactly if it was free and none of the region's bytes is in it; in general the arrays change as ReserveRange says for the pages from the first to the last byte, in 64-bit arithmetic |
| BuddyRuns.ReachedStates | lib/allocator/page_allocator.c:46-225 | in every state reached from the initial one: one partition into aligned blocks, head marked and interior GROUPED; list k holds exactly the free heads of order k, once each; no two free buddies of equal order below the top |
| BuddyRuns.FreeEachLeaves | lib/allocator/page_allocator.c:173-225 | `page_free` of any pages in any order leaves exactly the taken blocks that are reserved or headed by none of them |
| BuddyRuns.FreeAllLeaves | lib/allocator/page_allocator.c:173-225 | freeing every live block, in any order, leaves exactly the reserved ones |
| BuddyRuns.ReservationsStay | lib/allocator/page_allocator.c:65-225 | over any run what is reserved stays reserved, and without `memory_reserve` nothing is added |
| BuddyRuns.PageZeroReserved | lib/allocator/startup_allocator.c:8-16 | start-up's first `memory_reserve` succeeds in reserving page 0, and in every state that any later run reaches it is still reserved |
| BuddyRuns.GivingBackRestores | lib/allocator/page_allocator.c:121-225 | after any history of allocations and frees, freeing all live blocks in any order restores the post-reservation status words exactly |
| SlabState.SizeClasses | lib/allocator/dynamic_allocator.c:228-231 | the class of a size is the least that fits, the class of a class's object size is itself, sizes up to 1024 have one, and no object is 16 bytes larger than asked for |
| SlabState.CapacityBounds | lib/allocator/dynamic_allocator.c:97-100 | a slab has as many objects as fit behind its header, and one more would not; from 3 to 238, at most 32 exactly for classes of 128 bytes and more |
| SlabState.FillFinds | lib/allocator/dynamic_allocator.c:205-222 | `fill_bitmap` finds the first usable slot not handed out and hands out that one alone, or there is none |
| SlabState.AllocSlotTheorem | lib/allocator/dynamic_allocator.c:158-178 | from a slab that is not full `alloc_obj` hands out the first usable slot that was not live, unless all usable slots are live; available plus live slots stay the capacity |
| SlabState.WhenSlabsServe | lib/allocator/dynamic_allocator.c:205-222 | every header that a run of `alloc_obj` and `free_obj` on a fresh slab reaches, and that is not full, serves: exactly in the classes of 128 bytes and more |
| SlabState.FreeSlotTheorem | lib/allocator/dynamic_allocator.c:180-203 | `free_obj` of a live slot ends the life of that slot alone and counts it as available |
| SlabState.FreeSlotExact | lib/allocator/dynamic_allocator.c:188-195 | for every index that `free_obj` accepts, available plus live slots stay the capacity exactly if the slot whose bit is cleared, the index with its shift taken modulo 32, is live |
| SlabState.EmptySlab | lib/allocator/dynamic_allocator.c:79 | available slots equal the capacity exactly when no slot is live |
| SlabOps.FindAvailSlabTheorem | lib/allocator/dynamic_allocator.c:119-156 | the slab found is of the class and not full; an added one is a page that was free and no slab |
| SlabOps.FoundExact | lib/allocator/dynamic_allocator.c:119-156 | it is the first slab of the class's list that is not full; only when all are full a page from `page_alloc`, which becomes the list's last; no other slab is touched |
| SlabOps.DynaAllocTheorem | lib/allocator/dynamic_allocator.c:55-66 | `dyna_alloc` keeps the two-level invariant and returns NULL exactly for sizes above 1024 and stuck classes; else one new live object, of the least class that fits |
| SlabOps.ServedExact | lib/allocator/dynamic_allocator.c:158-178 | the object is the first usable slot of that slab that was not live, and nothing but that slab's header changes besides |
| SlabOps.DynaFreeTheorem | lib/allocator/dynamic_allocator.c:68-90 | `dyna_free` keeps the invariant, ends exactly that object's life, and returns the page exactly when the slab is left empty and is not its class's only one |
| SlabOps.FreedExact | lib/allocator/dynamic_allocator.c:68-90 | a slab that goes back leaves its list, in which the others keep their order; otherwise nothing but the one header changes |
| SlabRuns.ByteOfObject | lib/allocator/dynamic_allocator.c:166-167 | objects are 16-byte aligned, past the header and inside their page, and each of their bytes leads back to their slot |
| SlabRuns.ObjectsAbut | lib/allocator/dynamic_allocator.c:18-19 | the first object of a slab is at the first multiple of 16 behind its header of 284 bytes, each other where the one before ends |
| SlabRuns.RefusedExact | lib/allocator/dynamic_allocator.c:180-190 | in bytes: an address in a slab is turned away exactly if it lies before the first object, or behind the place for one object more than the capacity; one on a page that is not allocated always |
| SlabRuns.Ownership | lib/allocator/dynamic_allocator.c:55-90 | a byte of a live object is in no other live object, on no free page, and in no block handed out or reserved by the page allocator but the slab's own |
| SlabRuns.FewSlabs | lib/allocator/dynamic_allocator.c:78-89 | a class has at most one slab, or no more slabs than live objects in them, and every slab holds one |
| SlabRuns.FreeAnyByte | lib/allocator/dynamic_allocator.c:68-90 | `dyna_free` of any byte of a live object frees that object |
| SlabRuns.CallKeeps | lib/allocator/dynamic_allocator.c:55-90 | a call of either allocator by anybody keeps the invariant; `dyna_alloc` and `dyna_free` change no block, handed out or reserved, that others hold |
| SlabRuns.RunsKeep | lib/allocator/dynamic_allocator.c:55-222 | the same over every run of both allocators |
| SlabRuns.GetsStuck | lib/allocator/dynamic_allocator.c:55-66 | in every class below 128 bytes, from an empty pool, a run of `dyna_alloc` calls of that size ends in a state where the next returns NULL although the slab at hand counts slots as available |
| SlabRuns.NeverStuck | lib/allocator/dynamic_allocator.c:205-222 | in the other classes no state that satisfies the invariant is stuck |
| SlabRuns.SmallClasses | lib/allocator/dynamic_allocator.c:55-222 | over every run that starts with at most one slab in each class below 128 bytes, as start-up does, such a class never has a second one, and `dyna_alloc` returns NULL exactly when as many of its objects are live as a slab has usable slots |
| SlabRuns.SlotsOfSixteen | lib/allocator/dynamic_allocator.c:205-222 | in the class of 16 bytes these are 128, of a capacity of 238 |
| SlabRuns.OtherClass | lib/allocator/dynamic_allocator.c:119-178 | `dyna_alloc` in one class leaves slabs, live objects and being stuck as they were in every other |
| DynamicAllocator.DynaAllocator.constructor | lib/allocator/dynamic_allocator.c:49-53 | empty pools over an allocator whose page 0 is reserved satisfy the invariant |
| DynamicAllocator.DynaAllocator.FindAvailSlab | lib/allocator/dynamic_allocator.c:119-156 | the search, with the slabs it adds, as FindAvailSlab of the old state |
| DynamicAllocator.DynaAllocator.FillBitmap | lib/allocator/dynamic_allocator.c:205-222 | the two loops compute Fill, the size_t -1 when there is nothing |
| DynamicAllocator.DynaAllocator.AllocObj | lib/allocator/dynamic_allocator.c:158-178 | header and address as AllocSlot says |
| DynamicAllocator.DynaAllocator.DynaAlloc | lib/allocator/dynamic_allocator.c:55-66 | state and address as DynaAlloc says |
| DynamicAllocator.DynaAllocator.FreeObj | lib/allocator/dynamic_allocator.c:180-203 | refuses offsets in the header and indices above the capacity, without a change; else the header as FreeSlot says |
| DynamicAllocator.DynaAllocator.DynaFree | lib/allocator/dynamic_allocator.c:68-90 | the state as FreeAddress says |
| ThreadQueues.Queues.Push | lib/template/queue.c:9-20 | the node joins the end of one queue; front, back, size and links of all queues stay consistent |
| ThreadQueues.Queues.Pop | lib/template/queue.c:22-30 | the first node leaves and is returned, NULL for an empty queue |
| ThreadQueues.Queues.Erase | lib/template/queue.c:32-45 | a node anywhere in the queue leaves it, the others keep their order |
| ThreadQueues.Queues.Find | lib/thread/thread.c:112-122 | the loop over a queue finds a thread of the id, or the queue has none |
| SplitPop.PushIs | lib/template/queue.c:9-20 | `queue_push` on the value of a queue appends the node, with front, back, size and links consistent |
| SplitPop.PopIs | lib/template/queue.c:22-30 | the eleven statements of `queue_pop` and `list_remove`, one after the other, return the first node and leave the rest consistent |
| SplitPop.StepCommutes | lib/template/queue.c:22-30 | with more than one node, any statement of the pop and a push by another thread may change places |
| SplitPop.SplitExact | lib/thread/thread.c:243-246 | a `queue_pop` interrupted before its n-th statement by any pushes returns the first node, and leaves the queue with the rest and the pushed nodes, consistent, exactly if there was more than one node, nothing was pushed, or n is before `list_remove` reads `next`, between the decrement of the size and its test, or after all |
| SplitPush.PushSplitExact | lib/template/queue.c:9-20 | a `queue_push` interrupted before its n-th statement by pushes leaves a queue exactly if nothing was pushed, or n is the first or after the last, or, where the queue was not empty, the call of `list_add` or the count; it then holds all nodes in the order they were linked |
| Threads.MaskFindsStack | lib/thread/thread.c:247-248 | masking a stack pointer leads to the block that `page_alloc` gave exactly if the pointer is inside that stack |
| Threads.SpawnKeeps | lib/file_sys/initramfs.c:156-164 | a region and a thread of its own keep the invariant and no block of others changes |
| Threads.ForkKeeps | lib/exception/syscall.c:113-153 | fork keeps the invariant: the child shares the region, which counts it, and its stack pointers point into its own stacks |
| Threads.ScheduleKeeps | lib/thread/thread.c:84-97 | switching keeps every unreaped thread in exactly one place |
| Threads.KillKeeps | lib/exception/syscall.c:165-175 | killing keeps the invariant; an id that is neither current nor in the run queue changes nothing |
| Threads.ReapOneKeeps | lib/thread/thread.c:244-254 | reaping gives back just the thread's stacks, and its region exactly when no other unreaped thread names it |
| Threads.ExecMiscounts | lib/exception/syscall.c:94-111 | after `exec_s` the new region is counted once with no thread naming it, and the old one is gone, while its thread still names it, exactly if no other thread named it; other regions, the threads and the queues are as they were |
| Threads.RunsKeep | lib/thread/thread.c:63-267 | over every run: each unreaped thread is in exactly one of current, run queue and dead queue; each region's count is the number of unreaped threads naming it; stacks and regions are separate allocated blocks; and blocks of others stay |
| Threads.RunsReturnAll | lib/thread/thread.c:243-267 | after any run, when all threads are reaped, no region is left and the allocator has back all but the blocks of others |
| Threads.ZeroStays | lib/allocator/re_region.c:11-15 | page 0, once in a block of somebody else, is never free, so `rc_alloc` does not mistake a region for a failure |
| ThreadCalls.ScheduleExact | lib/thread/thread.c:84-97 | the front of the run queue runs next and a living user thread goes behind all others; with an empty run queue it goes on, and the idle thread runs where there is none; nothing else changes |
| ThreadCalls.RoundRobin | lib/thread/thread.c:84-97 | the thread at position i of the run queue has the processor after i + 1 calls of `schedule`, the others in their order |
| ThreadCalls.FullCircle | lib/thread/thread.c:84-97 | after as many calls as there are threads that can run, everything is as it was |
| ThreadCalls.KillExact | lib/exception/syscall.c:165-175 | the thread of the id, and it alone, dies and joins the end of the dead queue; the others keep structures and order, and when it was current the front of the run queue runs; an id that is neither current nor queued changes nothing |
| ThreadCalls.NewThread | lib/thread/thread.c:171-203 | a new thread is the last of the run queue, alive, on its region, with both stack pointers at the last multiple of 16 inside stacks of its own, in blocks that were free; nothing else changes |
| ThreadCalls.PushesFit | include/thread/thread.h:16 | all that is pushed on such a stack, up to its size less 16 bytes, stays in its block |
| ThreadCalls.SpawnExact | lib/file_sys/initramfs.c:156-161 | no region's pages, no change; else a region of that order, counted once, and a new thread on it |
| ThreadCalls.ForkExact | lib/exception/syscall.c:113-153 | the child is the last of the run queue, on the parent's region, which counts one more, with stack pointers as far into its own stacks as the parent's are into the parent's; the parent goes on and nothing else changes |
| ThreadCalls.ReapExact | lib/thread/thread.c:244-254 | the thread that died first goes, with exactly its stacks' blocks and, if it was the last on it, its region's; else the region counts one less; nothing else changes |
| ThreadCalls.ReapAllExact | lib/thread/thread.c:243-267 | after `kill_zombies` the dead threads are gone, the others as they were, and the regions are those that a thread names |
| ThreadCalls.RegionExact | lib/allocator/re_region.c:11-18 | a new region counts one and has a block of its order that was free |
| ThreadCalls.UnrefExact | lib/allocator/re_region.c:25-31 | `rc_free` takes one from the count; with the last one the region goes and just its block is given back |
| Kernel.PlaceKeeps | lib/allocator/dynamic_allocator.c:55-66 | `dyna_alloc` for a thread, workload or region structure returns NULL exactly if its class is stuck; else the structure is a live object that was nobody's, and others' objects and blocks are as before |
| Kernel.RcAllocKeeps | lib/allocator/re_region.c:7-19 | `rc_alloc` fails exactly when the class of its structure is stuck or the pages cannot be had after it, and then leaves no object behind; else region, structure and pages are new |
| Kernel.SpawnKeeps | lib/file_sys/initramfs.c:156-161 | a program's thread takes its three structures, its region and its stacks, or `rc_alloc` returned NULL and no structure is left; the joint invariant holds |
| Kernel.ForkKeeps | lib/exception/syscall.c:113-153 | `fork_s` with the child's structures keeps the joint invariant and what others hold |
| Kernel.RcFreeKeeps | lib/allocator/re_region.c:25-31 | with its last thread a region's pages and its structure go back, before that only the count changes |
| Kernel.ReapKeeps | lib/thread/thread.c:244-260 | reaping gives back stacks, workload and thread structure, and the region with its structure exactly when no other thread names it |
| Kernel.RunsKeep | lib/thread/thread.c:63-267 | over every run of threads interleaved with calls of both allocators by others: both allocators' and the threads' invariants together, each structure a live object of its own, no thread's block a slab; threads' steps change nothing that others hold |
| Kernel.ReturnsAll | lib/thread/thread.c:243-267 | after any run that ends with all threads reaped, every live object is somebody else's and every block in use is a slab or somebody else's |
| Kernel.ThreadServed | lib/thread/thread.c:64 | `dyna_alloc` never refuses a thread's structure for want of a usable slot |
| Kernel.Boot | lib/thread/thread.c:45-61 | at boot the joint invariant holds, and all objects and blocks are others' |
| Refusals.StructuresExact | lib/thread/thread.c:63-74 | given pages, a new thread gets its structures exactly if the class of 16 bytes is not stuck before |
| Refusals.ForkExact | lib/exception/syscall.c:113-116 | given pages, `fork_s` does no write through null exactly if that class is not stuck before the call; with one slab, if fewer than 128 of its objects are live |
| Refusals.RunProgStuck | lib/file_sys/initramfs.c:156-161 | given pages, `rc_alloc` returns NULL exactly if the class is stuck before it, and the thread gets its structures exactly if it is not stuck after it |
| Refusals.RunProgExact | lib/file_sys/initramfs.c:156-161 | counted before the call: NULL and no harm with 128 live objects of the class, a write through null with 127, a new thread with fewer |
| Refusals.ForksInRun | lib/thread/thread.c:171-180 | the same for `fork_s` after every run of threads and others that starts with at most one slab in each small class |
| Refusals.ForkRun | lib/thread/thread.c:179-180 | a thread with pages for all its forks forks until 128 objects of the class are live; its next `fork_s` writes through null though there are pages for it |
| Refusals.ForksFromBoot | lib/thread/thread.c:179-180 | such a run from boot: one program started, scheduled, and forking 126 times |
| ThreadSystem.Scheduler.constructor | lib/thread/thread.c:45-61 | empty queues and tables satisfy the invariant |
| ThreadSystem.Scheduler.MakeThread | lib/thread/thread.c:63-74 | two stacks are allocated, the structure filled and the thread pushed, as MakeThread of the old state |
| ThreadSystem.Scheduler.Schedule | lib/thread/thread.c:84-97 | push of a living current thread, pop of the next or the idle thread |
| ThreadSystem.Scheduler.FindThread | lib/thread/thread.c:106-137 | finds exactly the current thread and those in the run queue, with the place of each |
| ThreadSystem.Scheduler.KillCurr | lib/thread/thread.c:141-151 | the current thread goes to the dead queue and another takes over |
| ThreadSystem.Scheduler.KillThread | lib/thread/thread.c:154-162 | a thread goes from the run queue to the dead queue |
| ThreadSystem.Scheduler.Kill | lib/exception/syscall.c:165-175 | the state as Kill says |
| ThreadSystem.Scheduler.RcAlloc | lib/allocator/re_region.c:7-19 | a region with count 1 and fresh pages, or NULL and no change when the pages cannot be had |
| ThreadSystem.Scheduler.AddRef | lib/allocator/re_region.c:21-23 | the region's count goes up by one and nothing else changes |
| ThreadSystem.Scheduler.RcFree | lib/allocator/re_region.c:25-31 | the count goes down; at zero the pages are freed |
| ThreadSystem.Scheduler.RunProg | lib/file_sys/initramfs.c:156-164 | fails without a change when the region cannot be had; else spawns and schedules |
| ThreadSystem.Scheduler.Fork | lib/exception/syscall.c:113-153 | the state as Fork says; the child's id is returned |
| ThreadSystem.Scheduler.Reap | lib/thread/thread.c:244-254 | one round: pop, rc_free, and page_free of both masked stack pointers |
| ThreadSystem.Scheduler.KillZombies | lib/thread/thread.c:243-267 | the loop reaps every dead thread, in queue order |
| ExceptTasks.EnqueueKeeps | lib/exception/exception_c.c:177-205 | a new task keeps the chain that the base reaches ordered: queues sorted, and all of a queue's tasks above the head of the queue it preempted |
| ExceptTasks.FinishKeeps | lib/exception/exception_c.c:212-225 | the running task's end keeps the chain ordered (the drained queue unlinked) |
| ExceptTasks.RunningIsHighest | lib/exception/exception_c.c:177-225 | in one chain, so between two switches, the running task has the highest priority of all, and with three priorities no more than three queues are nested |
| ExceptTasks.PreemptsIff | lib/exception/exception_c.c:180-195 | in one chain a new task preempts exactly when its priority is strictly higher than the running one's |
| ExceptTasks.EnqueueOrder | lib/exception/exception_c.c:197-204 | a new task goes behind all waiting tasks of its priority and disturbs no other order |
| ExceptTasks.FinishOrder | lib/exception/exception_c.c:213-221 | the task that finishes is the first of its priority |
| ExceptTasks.RunsKeep | lib/exception/exception_c.c:177-225 | over all arrivals interleaved with finishing tasks in one workload: order, nesting, and equal priorities finishing in arrival order with none lost |
| ExceptTasks.DanglingPreemptor | lib/exception/exception_c.c:223-224 | after the code's own release every queue reachable from the base has a task exactly if the drained queue was the base |
| DanglingQueues.WalkExact | lib/exception/exception_c.c:180-183 | the walk of `enqueue_task` stops at the right queue, unless it has to pass the last queue with a task and that one names a drained queue: then it reads through null |
| DanglingQueues.ReleaseVisits | lib/exception/exception_c.c:212-225 | what the code's release leaves in the pool, in a chain with or without a dangling link, is what CodeNext says |
| DanglingQueues.CodeExact | lib/exception/exception_c.c:177-225 | over a run from the same start the code as it stands comes to the same chain as with the unlink, unless an arrival needs a queue after one that preempted another drained and before the processor had no task; exactly then it reads through null |
| ExceptTasks.Workload.EnqueueTask | lib/exception/exception_c.c:177-205 | the walk along the reachable chain and the insertion, as Enqueue of it; tells whether a queue was created; queues of suspended workloads keep their tasks |
| ExceptTasks.Workload.FinishTask | lib/exception/exception_c.c:212-225 | the end of a task in the reachable chain, and with its last task the queue's, as Finish of the old chain, with the unlink |
| ExceptTasks.Workload.FinishHidden | lib/exception/exception_c.c:212-225 | the same for a queue that the base no longer reaches: the queue in `exec_queue`'s argument loses its first task, or goes back to the pool; all others stay |
| ExceptTasks.FreeList.Push | lib/exception/exception_c.c:265-268 | a queue joins the front of the free list, whose links stay a list |
| ExceptTasks.FreeList.Query | lib/exception/exception_c.c:250-257 | the first free queue leaves the list and is returned, NULL when there is none |
| ExceptTasks.FreeList.Free | lib/exception/exception_c.c:265-268 | `free_queue` on the list: the queue joins the front; through a null pointer the list becomes empty |
| ExceptTasks.Workload.FreeWorkload | lib/exception/exception_c.c:134-141 | with no base queue saved, which is always so, every free queue is lost; nothing else changes |
| ExceptTasks.Workload.Swap | lib/exception/exception_c.c:147-152 | the base becomes the one saved for the next thread, which is NULL for every thread, so all queues in use are unreachable afterwards and keep their tasks; the timer and the UART interrupt are on afterwards, whatever was masked |
| ExceptTasks.Workload.constructor | lib/exception/exception_c.c:75-83 | all 16 queues are free, and no workload has a base queue |
| Workloads.SystemRunsKeep | lib/exception/exception_c.c:177-225 | over every run of arrivals, finishing tasks, switches, exits and kills: every chain, reachable or suspended, keeps its order and loses no task, and each queue of the pool is free, in use or lost; none is lost without a dead thread or a freed workload |
| Workloads.SwitchForgets | lib/thread/thread.c:84-97 | after a switch no queue is reachable; the thread that leaves and the one that comes back have their own chains as they were |
| Workloads.ArrivalRespects | lib/exception/exception_c.c:177-195 | an arrival preempts just when it is strictly higher than the running task, exactly if the running task's queue is reachable or the arrival is strictly higher |
| Workloads.PreemptsRuns | lib/exception/exception_c.c:116-119 | an arrival that preempts is the task that runs next |
| Workloads.UartOverTimer | lib/exception/exception_c.c:147-148 | a run in which a UART task preempts a timer task: the timer task's thread was suspended and has come back |
| Workloads.RunningHighestIff | lib/exception/exception_c.c:177-225 | the running task is of the highest priority among its thread's tasks exactly if no unreachable chain of the thread runs a higher one |
| Workloads.QueueAvailable | lib/exception/exception_c.c:250-257 | a queue is free exactly if those of the current thread, of suspended threads, and the lost ones are fewer than 16 |
| Workloads.QueueAvailableInRun | lib/exception/exception_c.c:250-257 | over runs from boot in which no thread dies: exactly if those of the current thread and of suspended threads are fewer than 16 |
| Workloads.PoolRunsOut | lib/thread/thread.c:224-231 | from any state with no base, suspending thread after thread in its timer task leads to one in which the next arrival finds no queue |
| Workloads.FreesWorkloadExact | lib/exception/exception_c.c:134-140 | `free_workload` empties the pool's free list, so it changes nothing exactly if the list was empty |
| Workloads.FreesWorkloadStarves | lib/exception/exception_c.c:134-141 | over every later run in which nothing else is lost, a queue is free exactly while fewer are in use than when `free_workload` was called; if none was in use then, no arrival is enabled again |
| Timer.InsertTheorem | lib/timer/timer.c:71-83 | insertion keeps the list sorted, adds one event and puts it behind all events with the same clock |
| Timer.HandleTheorem | lib/timer/timer.c:29-48 | each event due at the sampled count runs once, here or in another thread's handler while a callback is away, in list order in both places; nothing due is left; the handler runs exactly the due events just when none of them ran elsewhere |
| Timer.HandleConserves | lib/timer/timer.c:29-48 | every event that was in the list or was added meanwhile ran here, ran elsewhere or is left, as often as it occurs |
| Timer.HandleAlone | lib/timer/timer.c:29-48 | while no callback lets other handlers run: exactly the due prefix runs, and the rest with what callbacks added is left, in order |
| Timer.SplitRoundExact | lib/timer/timer.c:35-40 | a round of the handler's loop into which other handlers come after its test runs a due event, and each event runs once or is left, exactly if they take fewer events than are due; between the two statements of the pop, exactly if they take none |
| Timer.TickRunsElsewhere | lib/timer/timer.c:40 | a switch of threads due at 10 and a tick due at 11, handled at 12: this handler runs the first and another one the second |
| Timer.ClearExact | lib/timer/timer.c:89-103 | clearing ticks whatever the argument does what the interface says exactly if the events of the argument and the ticks are the same |
| Timer.EventQueue.Add | lib/timer/timer.c:50-87 | the splice as Insert of the old list; an event that comes first sets the comparator to the first count that is neither before its clock nor too soon, any other leaves it; the timer is on |
| Timer.EventQueue.AddTimerEvent | lib/timer/timer.c:50-87 | the event's clock is the count read plus the offset; the rest as Add says, with the count that `set_timeout` reads |
| Timer.Timeout | lib/timer/timer.c:124-129 | the least count that is not before the target and at least the minimal interval away |
| Timer.EventQueue.Interrupt | lib/timer/timer.c:29-48 | the loop as Handle of the old list, callbacks that add events and callbacks that let others take them included; if events are left, the timer is on and its comparator is the first count that is neither before the first event nor too soon |
| Timer.EventQueue.Clear | lib/timer/timer.c:89-103 | both loops: the list without its ticks |
| Uart.StepKeeps | lib/mini_uart.c:122-129 | every statement of `async_send_data` and every transmit interrupt between two of them keeps the ring's invariant |
| Uart.Transmission | lib/mini_uart.c:122-191 | under every interleaving: bytes sent, ring contents and the call in progress are what was submitted, in order; an index computed before an interrupt is still the tail; a producer at rest with bytes waiting has the interrupt on |
| Uart.DrainsAll | lib/mini_uart.c:181-191 | one interrupt with the transmitter ready often enough sends everything |
| Uart.DrainExact | lib/mini_uart.c:181-191 | the handler sends the oldest bytes, as many as the transmitter is found ready for, leaves the others in order, and turns itself off exactly when it is found ready with nothing left |
| Uart.WaitsExactly | lib/mini_uart.c:123 | a producer waits exactly while the ring is full |
| Uart.CallCompletes | lib/mini_uart.c:122-129 | a call with room, and no interrupt in it, is over after five statements, with its byte last in the ring, nothing else changed, and the interrupt on |
| Uart.SplitCountExact | lib/mini_uart.c:126 | with `len++` split by an interrupt the bytes still add up exactly if that interrupt sent none |
| Uart.Driver.Run | lib/mini_uart.c:122-129 | one statement on the driver's variables, as Next says |
| Uart.Driver.Enter | lib/mini_uart.c:122 | the call of `async_send_data` with its byte, as Next says |
| Uart.Driver.TransmitInterrupt | lib/mini_uart.c:181-191 | the handler's loop, as Next says |
| UartReceive.AcceptKeeps | lib/mini_uart.c:168-180 | the handler takes the first bytes, as many as there is room for, and turns the interrupt off exactly when some are left |
| UartReceive.Reception | lib/mini_uart.c:70-180 | over all reads and interrupts, bytes come out in the order they arrived, none lost or repeated, and a ring with room has its interrupt on |
| UartReceive.SplitReadExact | lib/mini_uart.c:72-75 | with the read split after `len--` the bytes add up, whatever they are, exactly if the interrupt in between brings none |
| UartReceive.Receiver.ReadData | lib/mini_uart.c:70-78 | returns the first byte that arrived and was not returned yet |
| UartReceive.Receiver.ReceiveInterrupt | lib/mini_uart.c:168-180 | the handler's loop, as Accept says |
| StrUtils.GetSize | lib/str_utils.c:13-17 | the length of the string with its NUL |
| StrUtils.StrCmp | lib/str_utils.c:144-154 | true exactly for equal strings |
| StrUtils.StrRev | lib/str_utils.c:156-168 | the string is turned round in its place and the rest of the buffer stays |
| StrUtils.Itoa | lib/str_utils.c:20-52 | the buffer starts with the prefix and the shortest numeral, then a NUL; what follows stays; an unknown radix gives the empty string |
| StrUtils.TextFits | lib/str_utils.c:20-52 | with its NUL the text of a word takes at most 11 bytes |
| StrUtils.Atoui | lib/str_utils.c:75-99 | the value of the digits modulo 2^32, past a "0x" in base 16; -1 for a wrong character or an unknown radix |
| StrUtils.ParseExact | lib/str_utils.c:75-99 | one more digit multiplies the word by the base and adds its value, modulo 2^32; with a character that is no digit, wherever it stands, the word is -1 |
| StrUtils.NumeralUnique | lib/str_utils.c:20-52 | the numeral is the only one of its value without leading zeros |
| StrUtils.RoundTrip | lib/str_utils.c:20-99 | `atoui(itoa(v))` is v for every word, in both radices |
| StrUtils.RoundTripBack | lib/str_utils.c:20-99 | `itoa(atoui(s))` is s exactly for the canonical texts: prefix, lower case, no leading zero, a value below 2^32 |
| StrUtils.LetterDigits | lib/str_utils.c:114-118 | the range test and the remainder by 32 of `carrtoi` accept exactly the hexadecimal letters, with their values |
| StrUtils.CarrToI | lib/str_utils.c:101-122 | the value of the field, without its first two characters in base 16; -1 for a wrong character |
| StrUtils.FieldReadsLow | lib/str_utils.c:104-108 | an eight-digit field reads as its value modulo 2^24, so right exactly for values below 2^24 |
| Initramfs.CheckMagic | lib/file_sys/initramfs.c:214-219 | true exactly for the six bytes of the magic |
| Initramfs.FindAddress | lib/file_sys/initramfs.c:104-129 | in an archive at a 4-aligned address: address and size of the data of the first file of the name; 0 when there is none or the name is null; 1 when the walk comes to something that is no header |
| Initramfs.LookupFirst | lib/file_sys/initramfs.c:104-129 | the first file of a name is found behind the packed files before it and its own header and name |
| Initramfs.LookupAbsent | lib/file_sys/initramfs.c:104-129 | a name that no file has is not found |
| Initramfs.LookupHolds | lib/file_sys/initramfs.c:104-129 | the bytes at the place found are the file's data |
| Initramfs.GetRamfsSize | lib/file_sys/initramfs.c:183-212 | the padded length through the trailer, as a 32-bit word; 1 when the walk comes to something that is no header |
| Initramfs.Unambiguous | lib/file_sys/initramfs.c:183-212 | memory holds at most one list of names and contents at an address |
| DeviceTree.ToLeU32 | lib/utils.c:27-35 | the loop reverses the four bytes: the result is their big-endian value |
| DeviceTree.AddPadding | lib/devicetree/dtb.c:95-99 | the first multiple at or after the address |
| DeviceTree.DtbParser | lib/devicetree/dtb.c:21-63 | for any tokens, known or not, up to FDT_END: the callback is called as CallsFor says, with exact pointers; an address below 10 gives 1 and no call |
| DeviceTree.TreeCalls | lib/devicetree/dtb.c:32-61 | for a flattened tree with any nesting and NOPs anywhere, once per property, in document order, with its name, data and length |
| DeviceTree.InitRamfile | lib/file_sys/initramfs.c:173-181 | the archive's address becomes the big-endian word at the data of the last call for a `linux,initrd-start` property, or stays |
| DeviceTree.ArchiveStart | lib/file_sys/initramfs.c:173-181 | in a tree whose archive properties have a word of data or more, that is the word at the start of the last of them in document order |
| DeviceTree.ShortStart | lib/file_sys/initramfs.c:175 | a shorter property reads as its data and padding, an empty one as the next token |

## Left out

- Hardware: registers, mailbox, vector table, context switch and exception levels. `switch_to` is "the chosen thread becomes current"; clocks, transmitter readiness and received bytes are parameters.
- Pointers to structures: pages, threads and regions are named by their index in the array that holds them; addresses appear where the code computes with them.
- MemoryReserve: requires the region to be wholly free, as the comment above the function asks.
- PageFree: leaves out the one address MEM_SIZE, for which the code reads behind the page array; so does IsAllocated.
- DynaAllocator.DynaAlloc: requires that `page_alloc` succeeds when a slab must be added; the code writes through the result unchecked.
- DynaAllocator.DynaFree: requires a live object, or an address that the code turns away; other addresses on allocated pages read a header that is none.
- Scheduler.MakeThread: requires that both stacks can be had, which the code does not check; its structures come from a table of enough entries (`Kernel` has them from `dyna_alloc`). So do Scheduler.Fork and Scheduler.RunProg. It leaves out that the call for the third thread starts the switching timer with `enable_context_swtich`.
- Scheduler.RunProg: leaves out finding and copying the program; its size is a parameter.
- Scheduler.RcAlloc: the region's structure is an entry of a table; what `dyna_alloc` does for it, and its failure, is in Kernel.RcAllocKeeps.
- Scheduler.RcFree: does not call `dyna_free`; that is in Kernel.RcFreeKeeps.
- Scheduler.Reap: does not call `free_workload` and `dyna_free`; those are in Kernel.ReapKeeps and Workloads.FreesWorkloadExact. The same goes for Scheduler.KillZombies.
- Scheduler.Schedule: does not call `swap_event_workload`, which is ExceptTasks.Workload.Swap.
- Scheduler.constructor: the idle and the boot thread have their stacks and structures already.
- SpawnKeeps: in `Threads`, requires that the stacks can be had, as ForkKeeps does; in `Kernel` those steps are enabled unless the code would write through a null pointer, which `Refusals` makes exact.
- Threads.RunsKeep: a step is indivisible, and page calls by others are no steps; the same goes for Threads.RunsReturnAll. `Kernel.RunsKeep` has the calls by others. Of the code only `fork_s` and `kill_curr_thread` mask the timer: the dead queue's `queue_pop` and `queue_push` are split in `SplitPop` and `SplitPush`, by whole pushes; a `queue_erase` of `kill_thread`, and a push on the run queue, that are split by `schedule` are not modelled, nor is `thread_init` split by another.
- The idle and the boot thread (ids 0 and 1): never queued, killed or reaped, and their stacks count as blocks of others. The boot thread's workload is `curr_workload` itself, but `schedule` never chooses that thread.
- `wait_queue`: nothing is ever put on it; it is an empty queue here.
- Signals and `sigreturn_s`: a handler runs on a stack of its own, so that `sp_el0` points into another page while it runs (lib/thread/signals.c:43-50). A thread that is switched out and killed then is outside of what StacksOk asks, and masking its pointer does not find its stack (`MaskFindsStack`).
- How soon dead threads are reaped: the idle thread runs only when no other can.
- ExceptTasks.Workload.EnqueueTask: requires a free queue when it needs one, because the code writes through the null pointer otherwise; `Workloads.QueueAvailable` says exactly when there is one. The pool of task structures, a full one, and the task lost on an unknown interrupt source are left out.
- ExceptTasks.FinishKeeps: is about a release that unlinks the drained queue, as are ExceptTasks.RunsKeep, Workloads.SystemRunsKeep and the class; `CodeExact` says over which runs of one workload the code's own does the same.
- FreeList.Free: the code also writes to a node behind an empty list's null pointer, and to page 0 for a null queue, which is left out.
- Kernel.RunsKeep: a call of either allocator is indivisible, here and in `SlabRuns`; but `add_timer_event` calls `dyna_alloc` from a timer task, which can come into another thread's `dyna_alloc` or `page_alloc`.
- Timer.EventQueue.Add: target clocks do not wrap at 2^64, and the event's allocation is taken to succeed.
- Timer.EventQueue.Interrupt: a callback is what happens to the list until it comes back, additions and removals; the freeing of the event, and a nested handler between the loop's end and the arming of the comparator, are left out. What a round that is split does is in SplitRoundExact; Handle takes a round's test and pop as one.
- HandleTheorem: requires that callbacks add only events after the sampled count; otherwise the handler may run an event that was not due when it looked. It takes the test and the pop of a round as one step; SplitRoundExact says what a split one does.
- Uart.Driver: one producer; `send_from_buf` and the string functions only repeat `async_send_data`.
- StrUtils.CarrToI: fields of at most nine characters, so that its int cannot overflow; the kernel reads fields of eight.
- Initramfs.FindAddress: sizes below 2^24 (see FieldReadsLow) and no file named as the trailer; list_ramfile and view_ramfile repeat the same walk.
- InitRamfile: the tree is well-formed and the names it refers to are terminated.
- `atoi`, `strtok`, `strchr`, `simple_alloc`, `memcpy`, the shell, the loggers and the boot loader.
