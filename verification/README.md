# Sandnix kernel: a Dafny model

This project models the parts of the Sandnix kernel in which several data structures have to be kept in step, and proves
what each of them keeps.

- **Kernel heap** (`Blocks`, `TreeLinks`, `TreeColors`, `TreeOrder`, `TreeMeaning`, `BlockTrees`, `HeapLayout`,
  `KernelHeap`). A best-fit allocator: address-ordered block lists tile each page block, and two red-black trees with parent
  pointers index the same blocks. The trees are objects with real `parent`, `left` and `right` pointers. A ghost map of
  links gives every node a rank and the interval of ranks below it, so structure, order and colours are statements about
  values; each pointer method is proved to turn one link map into another, and the lemmas about link maps do the rest.
  `TreeMeaning.IsRedBlackTree` reads the invariant back as the textbook definition. `KernelHeap.Heap.Requests` runs any
  sequence of allocations and releases; a ghost log, to which each call adds its outcome, says what came of them.
- **Address-space allocator** (`PageLayout`, `PageSearch`, `PageTables`). A linked list of page blocks kept in step with
  three maps. The maps are modelled as maps from keys as they were on insertion, so an entry whose block had changed since
  would break the invariant; a search walks any tree shape that has the map's keys. The free blocks are proved to be the
  gaps between the allocated places, and `PageTables.PageTable.Requests`, over any sequence of requests and any tree shapes,
  to leave what an allocator on sets of places leaves that serves each request from a gap.
- **Scheduler** (`Threads`, `Schedulers`, `WaitingTime`). One processor, 256 circular lists read from their heads, and a ghost
  record of the threads it was switched to.
- **Condition variable and message queue** (`CondProtocol`, `MsgQueue`). The first as atomic steps under its mutex, the
  second as single shared accesses of any number of threads.
- **Boot memory map** (`MemoryMap`). `should_merge` and `merge_mem`.
- **Strings and arithmetic** (`ByteCopy`, `WordSearch`, `Numerals`, `LongDivision`). Fast forms against plain definitions.

## Findings

Where the code does not do what it is for, the model follows the code, a lemma shows an input, and another says exactly when
the code is right.

- The guard of `core_mm_heap_alloc` counts one header where a new page block holds two, so some sizes get a payload that is
  too short (`GuardShort`, `LargeEnough`). On 32-bit numbers its sum wraps for the largest sizes, and every one of these then
  passes it and asks for no payload at all; 0xFFFF_FFF0 is one (`GuardExact`, `GuardWraps`).
- `alloc_page` does not refuse size 0. Served, such a request leaves a list that does not tile the range, and a request of any
  other size keeps the tiling (`PageTables.PageTable.AllocPage`, `ZeroBreaks`).
- A thread that sleeps for less than a microsecond is never due (`DueOnlyIfLong`). Woken by someone else, it may be told
  that almost 2^64 nanoseconds are left (`RestShown`); as long as it is not due, the rest reported stays within the time asked
  for exactly when that is at least a microsecond (`RestExact`). A wait on a condition with timeout 0 is such a sleep.
- `wakeup` reads the clock twice. When the sleeper falls due in between, the rest may be wrong as well (`RestShown`); it stays
  within the time asked for exactly when no more than that has gone by at the second reading (`RestInTime`).
- A single signal after a broadcast takes the wake limit back, so waiters the broadcast has resumed may be told to try again
  (`BroadcastLost`). A signal does no such harm exactly when it is a broadcast, or only one thread waits, or the second oldest
  waiter's ticket is not below the wake limit (`HarmlessExact`).
- `merge_mem` computes a size from the wrong record in one branch (`FaultyShown`, `FaultyExact`); outside it, merging ends and
  ends well (`MergingEnds`).
- `atoi` misreads some characters (`MisreadShown`). In bases up to 9 and from 16 on it lets the digit equal to the base
  through; in bases 11 to 15 it refuses every letter; in base 10 it is right. These are all (`ValueExact`), and the result is
  the standard reading of the string exactly when none of them is reached (`ReadingExact`).
- The mask test of `strchr` misfires on a highest byte of 128; the search then goes on (`HoleTestExact`).
- The heap's delete fix-up is not the textbook one: case 3 is entered whenever the near nephew is red, even if both are. The
  red-red pair this makes is gone after case 4 (`TreeColors.Case3Far`, `TreeColors.Case4Hang`, `TreeColors.HangRed`).

## Assumptions

- Heap headers have the sizes they have on 32-bit x86, 32 and 48 bytes (`heap_defs.h`). The scale of a heap leaves room for
  both headers and for 32-bit sums with three of them. Pages from the page allocator lie on 8-byte boundaries apart from
  every page block in use; the result of that call is a parameter.
- The range of a page table ends at or below 2^32, so no sum in `alloc_page` wraps. Insertions into the maps succeed;
  whether the heap has a descriptor for a piece of a split block is a parameter.
- The clock is read once per scheduling decision, and twice in `wakeup`. Lists at or above the dispatch level hold only
  threads ready to run, since those are taken without being asked; the list of idle tasks is empty; some thread is ready
  or due, so the idle thread is not needed.
- Tickets do not wrap around. A message is pushed without failure.
- Records of the boot memory map are non-empty and end below 2^64.
- Words are 4 bytes long, memory consists of whole words, and a string instruction reads an element before it writes it.

## Model

| member | source | states |
|---|---|---|
| TreeOrder.CompareOrders | src/sandnix/kernel/core/mm/heap/heap.c:1081-1100 | the comparison of blocks is a total preorder, by size first and then by page index, zero exactly when both agree |
| TreeLinks.RotateLinked | src/sandnix/kernel/core/mm/heap/heap.c:771-849 | a rotation keeps child and parent pointers consistent and every subtree in its interval |
| TreeLinks.RotateBack | src/sandnix/kernel/core/mm/heap/heap.c:771-849 | the opposite rotation at the new top restores every link and the root |
| BlockTrees.BlockTree.RotateLeft | src/sandnix/kernel/core/mm/heap/heap.c:771-809 | the pointers after a left rotation are those of the rotated link map |
| BlockTrees.BlockTree.RotateRight | src/sandnix/kernel/core/mm/heap/heap.c:811-849 | the same for a right rotation |
| TreeLinks.SwapLinked | src/sandnix/kernel/core/mm/heap/heap.c:1102-1169 | two nodes that change places leave a consistent tree, also when one is the other's child |
| BlockTrees.BlockTree.SwapNodes | src/sandnix/kernel/core/mm/heap/heap.c:1102-1169 | the pointers after swap_node are those of the tree with both nodes renamed |
| TreeColors.InsertCase1 | src/sandnix/kernel/core/mm/heap/heap.c:598-605 | with a red uncle the red-red pair moves up two levels and nothing else changes |
| TreeColors.InsertCase3 | src/sandnix/kernel/core/mm/heap/heap.c:606-610 | turning the parent brings an inner child to the outside, the red-red pair staying the only flaw |
| TreeColors.InsertCase2 | src/sandnix/kernel/core/mm/heap/heap.c:612-619 | with a black uncle and an outer child, the last rotation leaves no red-red pair and equal black heights |
| BlockTrees.BlockTree.Insert | src/sandnix/kernel/core/mm/heap/heap.c:542-657 | the tree is a sorted red-black tree again and has exactly one node more |
| TreeColors.Case3Far | src/sandnix/kernel/core/mm/heap/heap.c:895-902 | case 3 with a red near nephew, the far one red or not, gives the situation of case 4, a red-red pair allowed |
| TreeColors.Case4Hang | src/sandnix/kernel/core/mm/heap/heap.c:904-914 | after case 4's rotation all black heights are equal and only the far nephew may still be red next to red |
| TreeColors.HangRed | src/sandnix/kernel/core/mm/heap/heap.c:915-919 | blackening that nephew ends every red-red pair |
| BlockTrees.BlockTree.RemoveRebalance | src/sandnix/kernel/core/mm/heap/heap.c:851-971 | from a tree with one slot one black short, a red-black tree of the same nodes; it ends because the slot's interval grows |
| BlockTrees.BlockTree.Remove | src/sandnix/kernel/core/mm/heap/heap.c:659-769 | the tree is a sorted red-black tree again and has exactly this node less |
| TreeMeaning.IsRedBlackTree | src/sandnix/kernel/core/mm/heap/heap.c:973-1079 | following child pointers visits each linked block once in size order; root black, no red child of a red node, equal black counts on all paths |
| BlockTrees.BlockTree.FindFit | src/sandnix/kernel/core/mm/heap/heap.c:495-540 | a block of the least size at least the wanted one, and none exactly when all are smaller, including the climb through parents |
| HeapLayout.SplitLaid | src/sandnix/kernel/core/mm/heap/heap.c:245-264 | splitting a block keeps the list in address order without gap or overlap |
| HeapLayout.JoinLaid | src/sandnix/kernel/core/mm/heap/heap.c:346-380 | so does joining a block with the one behind it |
| HeapLayout.OnlyNeighbours | src/sandnix/kernel/core/mm/heap/heap.c:313-328 | on a page with one allocated block every other block is a direct neighbour of it |
| KernelHeap.GuardExact | src/sandnix/kernel/core/mm/heap/heap.c:172-176 | for every 32-bit size, the computed guard refuses exactly the sizes that do not fit if and only if its sum does not wrap |
| KernelHeap.GuardShort | src/sandnix/kernel/core/mm/heap/heap.c:174-176 | a size that passes the guard and gets a payload shorter than it |
| KernelHeap.GuardWraps | src/sandnix/kernel/core/mm/heap/heap.c:172-176 | every size whose sum wraps passes the guard and asks for a block of at most a header; 0xFFFF_FFF0 does |
| KernelHeap.Heap.constructor | src/sandnix/kernel/core/mm/heap/heap.c:100-116 | a new heap has no page, no block, allocated or free, and satisfies the invariant |
| KernelHeap.Heap.OnBuffer | src/sandnix/kernel/core/mm/heap/heap.c:118-152 | a heap on a buffer has one fixed page block, all of it free |
| KernelHeap.Heap.Alloc | src/sandnix/kernel/core/mm/heap/heap.c:154-283 | the least free block of at least the size rounded up with a header, and only when there is none a new page block over the pages offered; null exactly when that size is above the scale or neither is to be had, and then nothing changes; a block more than 56 bytes too large is cut to exactly that size and the rest, behind it on its page, is the one new free block, any other is handed out whole; no other block changes its size, exactly one allocated block more, and the invariant is kept |
| KernelHeap.Heap.LargeEnough | src/sandnix/kernel/core/mm/heap/heap.c:174-264 | the payload is as large as asked for, and from a new page if and only if size and both headers fit in the scale |
| KernelHeap.Heap.Free | src/sandnix/kernel/core/mm/heap/heap.c:285-386 | exactly this block is no longer allocated, the others keep their sizes, and its page leaves, with every block on it, exactly when it is not fixed and no allocated block is left on it |
| KernelHeap.Heap.DropPage | src/sandnix/kernel/core/mm/heap/heap.c:313-341 | after the neighbours of the last block leave the tree, no tree or list holds a block of the page |
| KernelHeap.Heap.MergePrev | src/sandnix/kernel/core/mm/heap/heap.c:343-362 | a free preceding block takes the freed one in, and what precedes the result is not free |
| KernelHeap.Heap.MergeNext | src/sandnix/kernel/core/mm/heap/heap.c:364-380 | so for the following block; the result has no free neighbour |
| KernelHeap.Heap.Requests | src/sandnix/kernel/core/mm/heap/heap.c:154-386 | from a heap with nothing allocated, after any sequence of allocations and releases the invariant holds, the allocated blocks are exactly those handed out and not given back, every page that was not there from the start holds one of them, and no request for a size in the scale that came with fitting pages was refused, unless the heap takes no pages |
| KernelHeap.Heap.LeavesLast | src/sandnix/kernel/core/mm/heap/heap.c:154-386 | the outcome of a run of requests is that of its last request on what the others left |
| KernelHeap.Heap.PayloadsApart | src/sandnix/kernel/core/mm/heap/heap.c:266-282 | no address is in two allocated payloads, all of which start at multiples of 8 inside their page |
| KernelHeap.Heap.PagesTiled | src/sandnix/kernel/core/mm/heap/heap.c:392-467 | each address behind a page's header is in exactly one block, which is in the used tree if marked allocated and in the free tree if not |
| PageSearch.ComparatorsOrder | src/sandnix/kernel/core/mm/paging/paging.c:1112-1136 | both comparators are total orders, zero only on keys the map takes for the same |
| PageSearch.FindBySize | src/sandnix/kernel/core/mm/paging/paging.c:1563-1581 | on any tree in size order, a key of the least sufficient size, or none if there is none |
| PageSearch.FindByAddr | src/sandnix/kernel/core/mm/paging/paging.c:1583-1598 | on any tree in address order, the key that contains the address, or none if there is none |
| PageLayout.Tiles | src/sandnix/kernel/core/mm/paging/paging.c:1300-1543 | each address of the range is in exactly one block of the list |
| PageLayout.GapsExact | src/sandnix/kernel/core/mm/paging/paging.c:1300-1344 | the free blocks are exactly the gaps between the allocated places: each free block fills a gap, and each gap is a single free block |
| PageLayout.Canonical | src/sandnix/kernel/core/mm/paging/paging.c:1300-1344 | so two tables with the same allocated places have the same free ones |
| PageLayout.ZeroBreaks | src/sandnix/kernel/core/mm/paging/paging.c:1419-1447 | cutting a block to the asked-for size keeps the tiling if and only if that size is positive |
| PageTables.PageTable.constructor | src/sandnix/kernel/core/mm/paging/paging.c:1243-1292 | the first table has one free block over the whole range, in both maps of free blocks |
| PageTables.PageTable.CollectFragment | src/sandnix/kernel/core/mm/paging/paging.c:1300-1344 | a run of free blocks around b becomes one block, lists and maps agree, and no two free blocks are neighbours |
| PageTables.PageTable.AllocPage | src/sandnix/kernel/core/mm/paging/paging.c:1346-1462 | with descriptors to be had, a request of positive size fails exactly when no free block is large enough or, for one with an address, none contains the range; without, it fails only for a piece left over before or behind; then every place is as before, and otherwise exactly the asked-for place, cut from the least sufficient block or at the address, becomes allocated; the tiling is kept if and only if the size is positive |
| PageTables.PageTable.ServedExact | src/sandnix/kernel/core/mm/paging/paging.c:1346-1447 | of any set of free places, the same in terms of the place chosen and the descriptors it needs |
| PageTables.PageTable.RollBack | src/sandnix/kernel/core/mm/paging/paging.c:1457-1461 | the pieces of a block that could not be cut to size become one free block again |
| PageTables.PageTable.FreePage | src/sandnix/kernel/core/mm/paging/paging.c:1511-1543 | exactly the block's place is no longer allocated and the invariant holds |
| PageTables.PageTable.Release | src/sandnix/kernel/core/mm/paging/paging.c:486-570 | the allocated block that contains the address is freed, and nothing changes exactly when there is none |
| PageTables.PageTable.Requests | src/sandnix/kernel/core/mm/paging/paging.c:1346-1543 | after any sequence of requests of positive size and releases the invariant holds, and the allocated places are those left by serving each request from the least sufficient or the asked-for gap between them, when descriptors are to be had, and by taking away the place that contains a released address; with nothing allocated there is one free block |
| PageTables.PageTable.AnswersExact | src/sandnix/kernel/core/mm/paging/paging.c:1346-1462 | in a run of requests, each one with descriptors to be had is refused exactly when no gap between the allocated places has room for it, and otherwise adds exactly the asked-for place |
| PageTables.PageTable.ReleaseExact | src/sandnix/kernel/core/mm/paging/paging.c:486-570 | in a run of requests, a release takes away exactly the place that contains the address |
| PageTables.PageTable.LeavesLast | src/sandnix/kernel/core/mm/paging/paging.c:1346-1543 | the outcome of a run of requests is that of its last request on what the others left |
| PageTables.PageTable.UsedKeys | src/sandnix/kernel/core/mm/paging/paging.c:1449-1453 | the used map holds exactly the allocated places, each under a begin that is still the block's own |
| PageTables.PageTable.FreeKeys | src/sandnix/kernel/core/mm/paging/paging.c:1333-1341 | both maps of free blocks hold exactly the free places, under keys that are still the blocks' own |
| PageTables.PageTable.ClearTable | src/sandnix/kernel/core/mm/paging/paging.c:1545-1561 | ends, with one free block over the whole range, from any table |
| Threads.DueExact | src/sandnix/kernel/core/pm/thread/thread_obj.c:328-398 | across clock wrap, a sleeper is due exactly when the elapsed time modulo 2^64 has reached its duration |
| Threads.DueOnlyIfLong | src/sandnix/kernel/core/pm/thread/thread_obj.c:385-398 | this holds for all clock values if and only if the duration is not zero microseconds; with zero the sleeper is never due |
| Threads.Thread.SetSleepTime | src/sandnix/kernel/core/pm/thread/thread_obj.c:328-335 | asked at any clock value, the sleeper can run exactly when a positive number of whole microseconds was asked for and has gone by |
| Threads.RestOfSleep | src/sandnix/kernel/core/pm/thread/thread_obj.c:328-348 | woken before it is due, a sleeper of one microsecond or more is reported exactly the whole microseconds that have not gone by, across clock wrap |
| Threads.RestExact | src/sandnix/kernel/core/pm/thread/thread_obj.c:328-348 | at every clock value at which the sleeper is not due the rest reported is at most the time asked for, if and only if that is at least 1000 nanoseconds |
| Threads.RestInTime | src/sandnix/kernel/core/pm/thread/thread_obj.c:337-348 | if the clock is read again within 2^64 nanoseconds, the rest reported is at most the time asked for if and only if no more than that time has gone by then |
| Threads.RestShown | src/sandnix/kernel/core/pm/thread/thread_obj.c:328-348 | asleep for 500 nanoseconds and woken after 5 microseconds, a thread is told of 2^64 - 5000; one that falls due a microsecond before the second reading of the clock, of 2^64 - 1000 |
| Threads.Thread.CanRun | src/sandnix/kernel/core/pm/thread/thread_obj.c:350-403 | the answer, and that a due sleeper, and nobody else, is woken with fresh time slices by being asked |
| Threads.Thread.Wakeup | src/sandnix/kernel/core/pm/thread/thread_obj.c:337-348 | a sleeper, and nobody else, becomes ready with fresh slices; if it slept for whole microseconds and is not due at either reading of the clock, it is reported the part of them that has not gone by at the second |
| Threads.Thread.Resume | src/sandnix/kernel/core/pm/thread/thread_obj.c:405-418 | a dispatch costs one slice below the dispatch level, with wrap-around from zero |
| Threads.BudgetExact | src/sandnix/kernel/core/pm/thread/thread_obj.c:420-431 | each eight priorities below the dispatch level share a budget, from one slice to eight |
| Threads.Thread.ResetTimeslice | src/sandnix/kernel/core/pm/thread/thread_obj.c:420-431 | a ready thread without slices gets its budget, any other thread keeps what it has |
| Schedulers.TurnedExact | src/sandnix/kernel/core/pm/thread/thread.c:1035-1057 | a circular list that has lost the thread at its head after being turned goes on from there in the old order |
| Schedulers.Scheduler.ScanList | src/sandnix/kernel/core/pm/thread/thread.c:1035-1057 | the first thread of a circular list that can run leaves it, those passed over go behind it in order |
| Schedulers.Scheduler.ResetTimeslices | src/sandnix/kernel/core/pm/thread/thread.c:1208-1228 | every waiting normal thread that is ready and has no slices left gets its budget |
| Schedulers.Scheduler.Preempt | src/sandnix/kernel/core/pm/thread/thread.c:1001-1072 | a current thread that can run gives way only to a thread of higher priority, one of the highest, and then goes to the tail of its own list |
| Schedulers.Scheduler.Elect | src/sandnix/kernel/core/pm/thread/thread.c:1090-1143 | a runnable thread of maximal priority; slices are refilled only when no thread at all can run |
| Schedulers.Scheduler.Replace | src/sandnix/kernel/core/pm/thread/thread.c:1074-1143 | a thread that cannot go on goes to the tail of its list unless suspended or dead, and the first thread that can run leaves the highest list with one |
| Schedulers.Scheduler.NextTask | src/sandnix/kernel/core/pm/thread/thread.c:993-1184 | the choice is runnable and of maximal priority, the first of its list that is, the current thread is kept on ties, and the lists are afterwards exactly the old ones with the choice taken out and the thread before at the tail of its own |
| Schedulers.Scheduler.OnTick | src/sandnix/kernel/core/pm/thread/thread.c:914-972 | while scheduling is on and no tick is in progress, no thread of higher priority than the current one can run afterwards; a current thread that is not ready is replaced; nothing changes during another tick, with scheduling off, or for a ready current thread that is of the highest priority or on a processor not yet enabled; a dispatch charges one slice, and others' slices change only by a refill |
| Schedulers.Scheduler.TickOnce | src/sandnix/kernel/core/pm/thread/thread.c:914-972 | among ready normal threads, a tick is one step of the abstract round of time slices, taken by the thread it switches to |
| WaitingTime.EveryoneDispatched | src/sandnix/kernel/core/pm/thread/thread.c:1133-1143 | in any run of rounds as long as twice the sum of all budgets, each thread is dispatched |
| Schedulers.Scheduler.Ticks | src/sandnix/kernel/core/pm/thread/thread.c:914-1228 | whatever the clock does, each tick switches to one of the threads, and over any sequence of ticks as long as twice the sum of all budgets, so of sixteen for each thread, the processor has been switched to every one of them |
| CondProtocol.AlwaysOrderly | src/sandnix/kernel/core/pm/lock/cond/cond.c:36-117 | after any events, tickets rise from head to tail of the wait list and the wake limit is not ahead of the ticket counter |
| CondProtocol.ListedExact | src/sandnix/kernel/core/pm/lock/cond/cond.c:36-117 | the wait list holds exactly the threads that came while the condition was alive and have not returned, each with the ticket it drew |
| CondProtocol.DeadExact | src/sandnix/kernel/core/pm/lock/cond/cond.c:94-100 | a waiter not yet returned gets EOWNERDEAD exactly when the condition has been destroyed |
| CondProtocol.ServesExact | src/sandnix/kernel/core/pm/lock/cond/cond.c:346-356 | right after a signal every waiter has success if it was a broadcast, and otherwise the oldest alone |
| CondProtocol.SuccessExact | src/sandnix/kernel/core/pm/lock/cond/cond.c:94-116 | a wait succeeds exactly when the last signal that found anyone waiting covers its ticket, and then the signal came after the ticket was drawn |
| CondProtocol.HarmlessExact | src/sandnix/kernel/core/pm/lock/cond/cond.c:325-356 | a signal takes success from no waiter if and only if it is a broadcast, or one thread waits, or the second oldest ticket is not below the wake limit |
| CondProtocol.BroadcastLost | src/sandnix/kernel/core/pm/lock/cond/cond.c:346-356 | a waiter a broadcast has covered is told to try again after a later single signal |
| CondProtocol.CondVar.StartWait | src/sandnix/kernel/core/pm/lock/cond/cond.c:47-64 | a waiter joins the tail with a ticket of its own, unless the condition is dead |
| CondProtocol.CondVar.FinishWait | src/sandnix/kernel/core/pm/lock/cond/cond.c:91-116 | the waiter leaves the list; EOWNERDEAD exactly on a dead condition, and on a live one success exactly when its ticket is below the wake limit |
| CondProtocol.CondVar.SignalAll | src/sandnix/kernel/core/pm/lock/cond/cond.c:310-383 | a single signal resumes exactly the oldest waiter, a broadcast all of them in order |
| MsgQueue.ThreadsKept | src/sandnix/kernel/core/vfs/msg/msg_queue_obj.c:103-282 | every step keeps mutual exclusion, that only a live queue is worked on under the lock, and that at most one thread drains |
| MsgQueue.AlwaysInStep | src/sandnix/kernel/core/vfs/msg/msg_queue_obj.c:103-282 | in every interleaving the count is the queue's length when the lock is free and the queue alive, and messages leave in the order they came, each once; at any time what has been received or cancelled has been referenced, and what has been referenced pushed, in that order |
| MsgQueue.PushedAsAsked | src/sandnix/kernel/core/vfs/msg/msg_queue_obj.c:103-194 | in every interleaving, what is pushed is what the thread that pushes was last asked to send, so the messages received, cancelled and left are those the senders gave, in the order of their pushes |
| MsgQueue.NeverStuck | src/sandnix/kernel/core/vfs/msg/msg_queue_obj.c:103-282 | a thread inside a call that does not want the lock can always take a step |
| MsgQueue.SendAlone | src/sandnix/kernel/core/vfs/msg/msg_queue_obj.c:103-194 | uninterrupted, send and forward add the message and its reference at the tail of a live queue and do nothing to a dead one |
| MsgQueue.RecvAlone | src/sandnix/kernel/core/vfs/msg/msg_queue_obj.c:196-242 | uninterrupted, recv takes the oldest message of a live queue |
| MsgQueue.RecvNothing | src/sandnix/kernel/core/vfs/msg/msg_queue_obj.c:196-242 | on an empty queue it goes to wait, and a dead one it leaves as it is |
| MsgQueue.DestroyAlone | src/sandnix/kernel/core/vfs/msg/msg_queue_obj.c:255-282 | uninterrupted, destroy cancels every message of a live queue in order and leaves a dead one as it is |
| MsgQueue.DrainIsAlone | src/sandnix/kernel/core/vfs/msg/msg_queue_obj.c:268-279 | once the queue is dead no step but the one drainer's changes it, and no pop ever finds it empty |
| MsgQueue.NoneForgotten | src/sandnix/kernel/core/vfs/msg/msg_queue_obj.c:255-282 | on a dead queue that nobody drains, every message pushed was received or cancelled |
| MsgQueue.DrainedToTheEnd | src/sandnix/kernel/core/vfs/msg/msg_queue_obj.c:274-281 | when the drainer is done every message was received or cancelled exactly once |
| MemoryMap.ShouldMergeExact | src/sandnix/kernel/hal/mmu/phymem/phymem.c:424-451 | two records are to be merged exactly when they share an address or are alike and touch |
| MemoryMap.NothingLeft | src/sandnix/kernel/hal/mmu/phymem/phymem.c:424-451 | a list without a pair to merge is pairwise disjoint |
| MemoryMap.TopIs | src/sandnix/kernel/hal/mmu/phymem/phymem.c:453-655 | what the highest type at an address is: the type of a covering record that no covering record exceeds |
| MemoryMap.MergeKeepsTop | src/sandnix/kernel/hal/mmu/phymem/phymem.c:453-655 | outside the faulty branch, a merge keeps the highest type at every address |
| MemoryMap.MergingKeepsTop | src/sandnix/kernel/hal/mmu/phymem/phymem.c:453-655 | so do any number of merges in any order |
| MemoryMap.MergeShrinks | src/sandnix/kernel/hal/mmu/phymem/phymem.c:157-175 | each merge outside the faulty branch makes a measure of the list smaller |
| MemoryMap.MergingEnds | src/sandnix/kernel/hal/mmu/phymem/phymem.c:157-175 | so merging ends, and a list with no pair left to merge is pairwise disjoint with the highest type of the first list at every address |
| MemoryMap.FaultyExact | src/sandnix/kernel/hal/mmu/phymem/phymem.c:555-564 | the faulty branch keeps them if and only if the addresses it adds are covered by at least that type already |
| MemoryMap.FaultyShown | src/sandnix/kernel/hal/mmu/phymem/phymem.c:555-564 | a list on which it does not |
| MemoryMap.MergeSound | src/sandnix/kernel/hal/mmu/phymem/phymem.c:453-655 | no empty record is left in the list |
| MemoryMap.RegionList.MergeMem | src/sandnix/kernel/hal/mmu/phymem/phymem.c:453-655 | the records changed in place hold the values of the merge function, each in an object of its own |
| LongDivision.ShiftSubtract | src/sandnix/kernel/hal/rtl/math/math.c:21-143 | exact quotient and remainder for every nonzero divisor and any word width; all ones and the dividend for zero |
| LongDivision.Div64 | src/sandnix/kernel/hal/rtl/math/math.c:21-50 | the quotient of 64-bit numbers |
| LongDivision.Mod64 | src/sandnix/kernel/hal/rtl/math/math.c:52-81 | the remainder of 64-bit numbers |
| LongDivision.Div32 | src/sandnix/kernel/hal/rtl/math/math.c:83-112 | the quotient of 32-bit numbers |
| LongDivision.Mod32 | src/sandnix/kernel/hal/rtl/math/math.c:114-143 | the remainder of 32-bit numbers |
| Numerals.HighFirst | src/sandnix/kernel/core/rtl/string/string.c:1023-1040 | the digits written lowest first and turned round are the numeral of the number |
| Numerals.NumeralExact | src/sandnix/kernel/core/rtl/string/string.c:1010-1119 | what is written stands for exactly the number, of any size, with digits of the base only and no leading zero |
| Numerals.LetterCase | src/sandnix/kernel/core/rtl/string/string.c:1043-1086 | letters are written in the case asked for |
| Numerals.ReadBack | src/sandnix/kernel/core/rtl/string/string.c:1010-1161 | reading a numeral in base 2 to 10 or 16 gives the number modulo 2^32, in either letter case |
| Numerals.ValueExact | src/sandnix/kernel/core/rtl/string/string.c:1139-1155 | in every base from 2 to 36, a character is given its proper value exactly when it is not the digit equal to the base, up to 9 and from 16 on, nor a letter digit of a base from 11 to 15 |
| Numerals.ReadingExact | src/sandnix/kernel/core/rtl/string/string.c:1121-1161 | the digits taken from a string are its proper ones if and only if no such character is reached; the result is then the number they stand for |
| Numerals.MisreadShown | src/sandnix/kernel/core/rtl/string/string.c:1139-1155 | an input for either fault, and that base 10 has none |
| Numerals.RoundTrip | src/sandnix/kernel/core/rtl/string/string.c:1010-1161 | writing a number in any of the three formats and reading it back gives it again, as a signed 32-bit word |
| Numerals.Itoa | src/sandnix/kernel/core/rtl/string/string.c:1010-1041 | the buffer holds the terminated decimal numeral |
| Numerals.Otoa | src/sandnix/kernel/core/rtl/string/string.c:1088-1119 | the buffer holds the terminated octal numeral |
| Numerals.Htoa | src/sandnix/kernel/core/rtl/string/string.c:1043-1086 | the buffer holds the terminated hexadecimal numeral |
| Numerals.SignedExact | src/sandnix/kernel/core/rtl/string/string.c:1121-1161 | the result of atoi is the number from -2^31 to 2^31 - 1 congruent to the word read |
| Numerals.Atoi | src/sandnix/kernel/core/rtl/string/string.c:1121-1161 | the value read up to the first character that does not count, as a signed word |
| WordSearch.LowTestExact | src/sandnix/kernel/core/rtl/string/string.c:770-789 | the mask test of strlen is nonzero if and only if a byte of the word is zero |
| WordSearch.MaskedExact | src/sandnix/kernel/core/rtl/string/string.c:136-144 | the mask test of memchr is nonzero if and only if the byte is in the word |
| WordSearch.HoleTestExact | src/sandnix/kernel/core/rtl/string/string.c:525-660 | the test of strchr catches every zero byte and misfires exactly on a highest byte of 128 |
| WordSearch.StrLen | src/sandnix/kernel/core/rtl/string/string.c:730-828 | the distance to the first zero byte, from any alignment |
| WordSearch.MemChr | src/sandnix/kernel/core/rtl/string/string.c:45-165 | the first occurrence in the buffer, or none exactly when there is none |
| WordSearch.StrChr | src/sandnix/kernel/core/rtl/string/string.c:497-708 | the first occurrence up to and including the terminator, or none exactly when there is none |
| ByteCopy.MoveForward | src/sandnix/kernel/core/rtl/string/string.c:260-333 | elements moved lowest first give a copy of the source for targets below it; callers owe that the width divides the distance |
| ByteCopy.MoveBackward | src/sandnix/kernel/core/rtl/string/string.c:348-427 | elements moved highest first do for targets above it, with the same duty |
| ByteCopy.MemCpy | src/sandnix/kernel/core/rtl/string/string.c:251-336 | for targets below the source or clear of it, the target gets what the source held and nothing else changes |
| ByteCopy.MemMove | src/sandnix/kernel/core/rtl/string/string.c:338-431 | the target gets what the source held before, for every overlap, length and alignment (ISO/IEC 9899:2011 section 7.24.2.2) |

## Left out

- Magic numbers, `HEAP_CHECK` and its checks, spin locks and the default heap's static buffer.
- The loop at heap.c:515-518, which cannot be entered, and the branch at heap.c:683-691 for a red node with a child, which a
  red-black tree does not have.
- BlockTrees.BlockTree.SwapNodes: only the pairs that remove_node swaps, a node with two children and the last node of its
  left subtree.
- KernelHeap.Heap.Requests: that without fitting pages a request is refused only when no free block is large enough, which
  `Alloc` states of each call.
- KernelHeap.Heap.Alloc: sizes whose 32-bit sum with the header wraps, which pass the guard (GuardWraps).
- In a split the heap inserts the rest into the tree before linking it into the list; the model links it first, since no one
  can look in between.
- PageTables.PageTable.Requests: requests of size 0, after which the list is no layout.
- Page objects, commit flags, page-table entries and cache refreshes of the paging code; a block has only begin, size and
  whether it is allocated.
- Schedulers.Scheduler.NextTask: the idle list, the idle thread and threads asleep at or above the dispatch level are outside
  its precondition, because the code takes such threads without asking them or overwrites a node it has unlinked.
- Schedulers.Scheduler.OnTick: saving and loading contexts, usage statistics and other processors.
- A thread's time slices and sleep times share a union in the source; here they are fields of their own, since each is read
  only in the status that wrote it.
- Suspending and resuming other threads, changing priorities, `core_pm_schedule` and `core_pm_sleep`.
- CondProtocol.CondVar.StartWait: the calling thread's suspension and timeout; a wait may end at any time.
- Condition variables: ticket wrap-around, dead mutexes, `core_pm_cond_multi_wait`, and resuming on destruction.
- What messages do on being sent, received, forwarded or cancelled, failures to lock, and the signalling inside the message
  queue beyond letting a waiting receiver go on at any time.
- MemoryMap.RegionList.MergeMem: the two list positions handed back to the caller, and the loop around it.
- Word-at-a-time code for 8-byte words.
- Maps, lists and queues of the runtime library, which stand as mathematical maps and sequences.
- Forking of page tables, copy-on-write, `hal_mmu_phymem_alloc` and `hal_mmu_phymem_free`, processes, exceptions, consoles,
  files, architecture code and build tools.
