# Models of the net_test buffers, pool, heap and INI parser

Seven components of the repository, each with the meaning it is meant to have
and the exact conditions under which it has it.

| file | models |
|---|---|
| `Bits.dfy`, `Slots.dfy` | wrap-around arithmetic, bit masks, counters mapped onto the slots of a power-of-two array |
| `Ringbuffer.dfy`, `RingbufferClass.dfy` | the lock-free SPSC ring buffer: as interleaved memory accesses, and as a class with its bulk loops |
| `LockFreeArray.dfy`, `LockFreeRuns.dfy` | the ticketed multi-producer array as a machine of single memory accesses for any number of producers, and used from one thread; which pops its consumer can trust |
| `StagingBuffer.dfy`, `StagingAccess.dfy` | the contiguous-record byte FIFO: by whole loop passes, peeks and releases, and as interleaved memory accesses |
| `NgxPool.dfy`, `NgxPoolClass.dfy` | the pool allocator on values, and on linked headers |
| `Bheap.dfy` | the indexed binary heap |
| `NgxQueue.dfy` | the circular queue |
| `IniText.dfy`, `IniParser.dfy` | escaping, quoting, and the INI printer and parser |

Code that updates objects in place is a class or a method with loops, tied by
its `ensures` to a function on values; the lemmas are about those functions.
Concurrent code is a state machine whose step is one access to shared memory,
executed in any order that respects each thread's own order (sequential
consistency). `StagingBuffer.dfy` also has a coarser machine, whose steps are a
loop pass, a peek and a release with nobody in between. What the system
allocator returns is an argument, with its promise (a fresh, aligned extent of
the length asked for) as an assumption of the step.

## What the code does and does not guarantee

* **Ring buffer.** In every interleaving, what was consumed followed by what is
  stored is what was published, and the producer never writes a slot the
  consumer may still read. Index width and wrap-around are part of the model, for
  index types of 32 bits and more; narrower ones are promoted before the
  subtraction, and `PromotedExact` says when the difference is still the count.
* **Ticketed array.** The indices stay ordered and each ticket has one holder. A
  pop of a published ticket returns that ticket's value in every run if and only
  if there are at most as many producers as slots (`PublishedPopExactly`, for
  every number of slots from two on; the default is 1024). With more, a slow
  producer can overwrite the ticket one lap later, because `empty()` tests
  `write_index`, not `max_num_read_index`, and lets the consumer run ahead. For
  pops before publication and for more producers, `PopExactByObservation` says,
  for each number of producers, what can be concluded from which tickets were
  found published, and `UnassuredRun` builds the run that fails in every other
  case. A consumer that always waits for publication sees a FIFO. A push is
  refused exactly when N - 1 tickets are unread, if and only if there is a single
  producer (`RefusalIsFullExactly`); with more, its `write_index` can be outrun,
  and `RefusalExact` says when. The compile-time assertion at line 31 of
  `basic/lock_free_array.h` accepts exactly the sizes its message excludes
  (`PowerOfTwoTest` says what the asserted expression tests), and for none of
  those sizes do the slots of less than N tickets stay apart
  (`MaskSeparatesExactly`); the model follows the message.
* **Staging buffer.** Outstanding bytes are distinct, shown in order, and records
  are shown whole, as long as loop passes, peeks and releases do not overlap.
  Access by access this fails in three places only, all because the producer's own
  peek may roll `consumer_pos_` over: under a peek of the consumer
  (`RollOverInsidePeek`), under a release of no bytes (`ZeroReleaseLosesBytes`),
  and too late, after the consumer has rolled over and gone on (`LateRollOver`).
  `CleanExactly` says, for every interleaving, which accesses leave the buffer
  right. A peek that begins with a byte to read before the end of the record is
  always right (`ReadingStaysClean`), and so is everything if the callers see to
  it that the producer's own peek overlaps neither a peek of the consumer nor a
  release of no bytes (`ApartRunIsClean`). A blocking
  call alone on a drained buffer ends exactly for sizes below N; `CanFinish` is
  the exact condition in every other state.
* **Pool.** Live allocations are disjoint, aligned and inside one block or one
  large extent, for requests of which the size plus 16 is below 2^64; counters are
  exact; at most seven blocks are scanned. For larger sizes the sum at line 179 of
  `core/ngx_pool.cpp` wraps: the allocation then lies wholly outside the extent
  that malloc granted (`LargeInsideExactly`) and overlaps the next one above it
  (`WrappedSizeOverlaps`).
* **Heap.** `erase` compares the moved value with the last slot instead of the
  parent, so it keeps heap order only under `EraseSafe`, which is exact. Contents
  and back-pointers are right in every case.
* **Circular queue.** A push acts as a bounded FIFO exactly if no get has happened
  yet or two slots are free; otherwise it empties the queue.
* **INI.** A document comes back from `dump` and `parse`, in whatever order the
  maps are enumerated and whatever its values are, if and only if its names and
  keys are ones the parser cannot misread (`DocOk`, proved exact by
  `RoundTripExactly`). `KeyOk` is the exact condition on one key. The other way
  round, `dump` throws on what `parse` read exactly if a section had no entry,
  and otherwise the document comes back unless an entry looks like a section
  header (`ParseThenDump`).

## Model

| member | source | states |
|---|---|---|
| Bits.PowerOfTwoTest | basic/ringbuffer.hpp:341 | the test on n & (n - 1) is 0 exactly for powers of two |
| Slots.IndexOfWrapped | basic/ringbuffer.hpp:325 | masking a counter kept modulo 2^w selects the slot of the unbounded counter |
| Slots.IndexApart | basic/lock_free_array.h:42-44 | counts less than N apart never share a slot |
| Slots.MaskSeparatesExactly | basic/lock_free_array.h:31-44 | masking with N - 1 separates all counts less than N apart if and only if N is a power of two |
| Slots.WindowPush | basic/ringbuffer.hpp:110-112 | a write behind the window appends its value and disturbs no other |
| Ringbuffer.SizeAssertion | basic/ringbuffer.hpp:347-348 | the assertion on buffer_mask holds exactly if the size is at most half the index range |
| Ringbuffer.CountsExact | basic/ringbuffer.hpp:85-95 | after any number of wraps both index differences are the true counts, and equal indices mean empty |
| Ringbuffer.PromotedExact | basic/ringbuffer.hpp:106 | for an index type promoted to int, the difference is the count, and a full buffer is seen as full, exactly while head has not wrapped past tail |
| Ringbuffer.SlotExact | basic/ringbuffer.hpp:110-112 | incrementing a wrapped index and masking it selects the slot of the true counter |
| Ringbuffer.NextKeepsInv | basic/ringbuffer.hpp:102-219 | every memory access of either side keeps the invariant, each side acting on a stale copy of the other's index |
| Ringbuffer.RunConserves | basic/ringbuffer.hpp:102-219 | in every interleaving, consumed followed by stored equals published, and at most buffer_size are stored |
| Ringbuffer.WriteAvoidsStored | basic/ringbuffer.hpp:104-112 | the producer's next write misses every slot still to be read |
| Ringbuffer.NoRace | basic/ringbuffer.hpp:104-216 | the slot about to be written is never the slot about to be read |
| Ringbuffer.AcceptsExactly | basic/ringbuffer.hpp:106-113 | a call takes exactly the values that fit in the slots really free when it loads tail, so an insert is refused exactly if the buffer is full then |
| Ringbuffer.TakesExactly | basic/ringbuffer.hpp:207-219 | a call takes exactly what is there when it loads head, so a remove comes back empty exactly if nothing is there then |
| Ringbuffer.RunPublishesWhatFits | basic/ringbuffer.hpp:102-115 | in every interleaving, what is published or being written is, call by call, the part of the offered values that fitted |
| Ringbuffer.RunRemovesWhatIsThere | basic/ringbuffer.hpp:207-219 | in every interleaving, each call removes as many values as it asked for or as there were |
| RingbufferClass.BulkInsert | basic/ringbuffer.hpp:358-365 | inserting one by one until refusal moves exactly the prefix that fits |
| RingbufferClass.BulkRemove | basic/ringbuffer.hpp:417-424 | removing one by one yields exactly the prefix that is there |
| RingbufferClass.Ring.ReadAvailable | basic/ringbuffer.hpp:85-87 | the number of elements stored |
| RingbufferClass.Ring.WriteAvailable | basic/ringbuffer.hpp:93-95 | the number of free slots |
| RingbufferClass.Ring.Insert | basic/ringbuffer.hpp:102-115 | appends unless full, and refuses only when full |
| RingbufferClass.Ring.Remove | basic/ringbuffer.hpp:207-219 | takes the oldest element unless empty |
| RingbufferClass.Ring.RemoveMany | basic/ringbuffer.hpp:183-191 | drops what that many single removes would drop |
| RingbufferClass.Ring.At | basic/ringbuffer.hpp:245-252 | the element at that offset, or nothing beyond the stored count |
| RingbufferClass.Ring.ConsumerClear | basic/ringbuffer.hpp:61-63 | empties the buffer |
| RingbufferClass.Ring.WriteBuff | basic/ringbuffer.hpp:352-371 | equals repeated single inserts |
| RingbufferClass.Ring.WriteBuffCallback | basic/ringbuffer.hpp:374-408 | publishes a prefix in order with the consumer free to run in each callback, and stops short only when full; each batch has the size aimed at or all the room there was, and is followed by one callback |
| RingbufferClass.Ring.ReadBuff | basic/ringbuffer.hpp:411-430 | equals repeated single removes and leaves the rest of the caller's buffer alone |
| RingbufferClass.Ring.ReadBuffCallback | basic/ringbuffer.hpp:433-467 | delivers the next published values in order with the producer free to run in each callback, and stops short only when empty; each batch has the size aimed at or all there was, and is followed by one callback |
| LockFreeArray.ReserveBounds | basic/lock_free_array.h:56-61 | a CAS that succeeds after a fullness test on stale indices still leaves one slot free |
| LockFreeArray.FillDisturbsNothing | basic/lock_free_array.h:63 | filling a slot disturbs no unread ticket if there are at most N producers, or if the ticket one lap earlier, or the one behind that, was found published |
| LockFreeArray.NextKeepsInv | basic/lock_free_array.h:52-116 | every memory access of any producer and of the consumer keeps the invariant |
| LockFreeArray.IndexOrder | basic/lock_free_array.h:52-116 | in every reachable state max_num_read_index <= write_index and read_index <= write_index <= read_index + N - 1, and published tickets are written |
| LockFreeArray.OneHolderPerTicket | basic/lock_free_array.h:56-65 | a ticket is held exactly while reserved and unpublished, by one producer |
| LockFreeArray.PushGoesOn | basic/lock_free_array.h:56-61 | whatever step is taken, a producer inside push keeps trying with its value until it has a new ticket for it or is refused, and it is refused only if the array is full or its write_index was outrun |
| LockFreeArray.TicketGoesOn | basic/lock_free_array.h:63-68 | a producer with a ticket writes its value into that ticket's slot and leaves push by publishing the ticket |
| LockFreeArray.EveryPushIsAccountedFor | basic/lock_free_array.h:52-71 | in every run the value of every call of push has one ticket, or was refused, or is still being tried |
| LockFreeArray.EmptyTestExact | basic/lock_free_array.h:106-123 | try_pop gives up exactly if the two indices it loaded, in either order, were equal when write_index was loaded |
| LockFreeArray.HeldAtMost | basic/lock_free_array.h:61-65 | reserved and unpublished tickets are at most as many as producers |
| LockFreeArray.PopReturnsItsTicket | basic/lock_free_array.h:106-116 | a pop returns its own ticket's value if that ticket was published when loaded, and there are at most N producers or the ticket N before or its successor was found published as well |
| LockFreeArray.PatientConsumerSeesFifo | basic/lock_free_array.h:106-116 | a consumer that pops only published tickets sees all values in ticket order |
| LockFreeArray.CopyExact | basic/lock_free_array.h:113-114 | once the previous lap is known to be written, the copy belongs to its ticket exactly if that slot has been written |
| LockFreeArray.PopCasSucceeds | basic/lock_free_array.h:115 | with one consumer the CAS of try_pop always succeeds |
| LockFreeArray.RefusalExact | basic/lock_free_array.h:56-60 | push refuses exactly if N - 1 tickets are unread and its write_index is current, or its write_index was outrun; the second is false exactly if the array is not full |
| LockFreeArray.LockFreeArray.Push | basic/lock_free_array.h:52-71 | from one thread: appends exactly if fewer than N - 1 are stored |
| LockFreeArray.LockFreeArray.TryPop | basic/lock_free_array.h:106-116 | from one thread: takes the oldest element, fails exactly when empty |
| LockFreeRuns.PublishedPopExactly | basic/lock_free_array.h:52-116 | every pop of a published ticket, in every run, returns that ticket's value if and only if there are at most as many producers as slots |
| LockFreeRuns.UnassuredRun | basic/lock_free_array.h:52-116 | for every N from two on, every number of producers and every observation that does not assure ticket i, a run in which ticket i comes back as another's or as the slot's old content |
| LockFreeRuns.PopExactByObservation | basic/lock_free_array.h:106-123 | for each number of producers, given which tickets were found published, ticket i is its own in every such run if and only if Assured holds |
| LockFreeRuns.SlowProducerOverwritesPublishedTicket | basic/lock_free_array.h:63-71 | for every N from two on, a reachable state of N + 1 producers in which the published ticket N was popped with ticket 0's value |
| LockFreeRuns.UnwrittenTicketIsPopped | basic/lock_free_array.h:106-123 | for every N from two on, a reachable state in which a pop returned the slot's old content |
| LockFreeRuns.StaleRefusal | basic/lock_free_array.h:56-60 | for every N and every number of producers from two on, a reachable state in which push refuses although nothing is unread |
| LockFreeRuns.RefusalIsFullExactly | basic/lock_free_array.h:56-60 | in every reachable state push refuses exactly when N - 1 tickets are unread, if and only if there is a single producer |
| StagingBuffer.OccupiedInside | basic/staging_buffer.h:92-105 | occupied offsets are distinct, inside the storage, and none when the positions are equal |
| StagingBuffer.PeekShowsOldest | basic/staging_buffer.h:92-105 | an uninterrupted peek shows a contiguous prefix of what is outstanding, nothing only if there is nothing, and a roll-over loses nothing |
| StagingBuffer.PeekShowsMost | basic/staging_buffer.h:92-105 | a peek shows all there is, or all up to the end of the record |
| StagingBuffer.AllocateQueues | basic/staging_buffer.h:36-78 | a returned region is inside the storage, disjoint from everything outstanding and queued behind it; failing changes nothing |
| StagingBuffer.AddressExact | basic/staging_buffer.h:36-78 | a returned record lies where the producer stood whenever it fits there, and at the start only if it does not |
| StagingBuffer.NonBlockingLeaves | basic/staging_buffer.h:36-78 | the result of a non-blocking call and everything it leaves, granted or refused, in terms of the positions before it |
| StagingBuffer.BlockingLeaves | basic/staging_buffer.h:36-78 | the same for a blocking call that runs alone and ends |
| StagingBuffer.InitialExact | basic/staging_buffer.h:21-23 | a new buffer is empty and grants every size below N at once |
| StagingBuffer.DeallocateDrops | basic/staging_buffer.h:85-89 | releasing at most what peek showed removes exactly those bytes |
| StagingBuffer.NonBlockingExact | basic/staging_buffer.h:36-78 | a non-blocking call succeeds exactly if the record fits behind the producer or, after a wrap, before the consumer |
| StagingBuffer.BlockingFinishesInTwo | basic/staging_buffer.h:39-70 | under CanFinish a blocking call alone returns within two loop passes |
| StagingBuffer.BlockingSpins | basic/staging_buffer.h:39-70 | otherwise no number of passes is enough |
| StagingBuffer.DrainedBlockingExact | basic/staging_buffer.h:36-78 | on a drained buffer, wherever it was drained, the call returns exactly for sizes below N |
| StagingBuffer.NextKeepsInv | basic/staging_buffer.h:36-105 | every whole loop pass, peek and release keeps min_free_space_ a sound bound and the bytes in order |
| StagingBuffer.RunIsByteFifo | basic/staging_buffer.h:36-105 | in every run of whole loop passes, peeks and releases pending bytes are distinct, inside the storage, and shown by the next peek in allocation order |
| StagingBuffer.PeekShowsWholeRecord | basic/staging_buffer.h:92-105 | the oldest pending record is shown in one piece at the address allocate returned |
| StagingBuffer.PendingRecordsDisjoint | basic/staging_buffer.h:36-78 | two records not yet released share no byte |
| StagingBuffer.Buffer.LoopBody | basic/staging_buffer.h:40-69 | one loop body acts as one pass on the state |
| StagingBuffer.Buffer.Alloc | basic/staging_buffer.h:36-78 | the whole call acts as Allocate, about which the lemmas are |
| StagingBuffer.Buffer.PeekBytes | basic/staging_buffer.h:92-105 | returns a contiguous prefix of the outstanding bytes and changes none of them |
| StagingBuffer.Buffer.Release | basic/staging_buffer.h:85-89 | removes exactly the oldest bytes handed back |
| StagingAccess.CleanKeepsInv | basic/staging_buffer.h:36-105 | every clean memory access of either side keeps the bytes in order, the bound sound and what the other side relies on |
| StagingAccess.PassIsPass | basic/staging_buffer.h:40-69 | the accesses of a loop pass with nobody in between act as the whole pass |
| StagingAccess.PeekIsPeek | basic/staging_buffer.h:92-105 | the accesses of a peek with nobody in between act as the whole peek |
| StagingAccess.WrapsOnlyIfNeeded | basic/staging_buffer.h:42-56 | in every interleaving the producer goes to the start only if the record does not fit behind it |
| StagingAccess.RightExactly | basic/staging_buffer.h:85-105 | an access leaves the pending bytes and what was last shown right if and only if it is clean or puts consumer_pos_ back unused |
| StagingAccess.UncleanReleaseExactly | basic/staging_buffer.h:85-89 | only deallocate(0) can fail to be clean, and then it does no harm exactly if the producer has not used the roll-over |
| StagingAccess.CleanExactly | basic/staging_buffer.h:36-105 | after every interleaving of clean accesses pending bytes are distinct, inside and shown in order, and the next access leaves them so exactly if it is clean or puts consumer_pos_ back unused |
| StagingAccess.ZeroReleaseLosesBytes | basic/staging_buffer.h:88-101 | for every N from four on, an interleaving in which deallocate(0) is about to make N - 1 pending bytes disappear |
| StagingAccess.ReadingStaysClean | basic/staging_buffer.h:93-98 | a peek that begins with a byte to read before the end of the record ends right, whatever clean accesses come in between |
| StagingAccess.ApartRunIsClean | basic/staging_buffer.h:68-101 | every run in which the producer's own peek overlaps no peek of the consumer and no release of no bytes is clean |
| StagingAccess.RollOverInsidePeek | basic/staging_buffer.h:94-101 | for every N from four on, an interleaving in which a peek is about to report N - 1 bytes with one pending |
| StagingAccess.LateRollOver | basic/staging_buffer.h:68-101 | for every N from four on, an interleaving in which the producer's roll-over is about to show a released byte again |
| NgxPool.Align | core/ngx_pool.h:10 | the next multiple of 8, less than 8 away |
| NgxPool.PoolRequest | core/ngx_pool.cpp:5-9 | whole pages, enough for the first block, and the size asked for exactly if it was whole pages |
| NgxPool.NoUnderflow | core/ngx_pool.cpp:81-82 | aligning last never passes end, so the size_t difference is the room left |
| NgxPool.PallocKeeps | core/ngx_pool.cpp:69-93 | for a size whose sum with the header does not wrap: a returned address is new, and the pool with it added keeps disjointness, alignment, containment, counts and staircase; null changes nothing |
| NgxPool.PallocFirstFit | core/ngx_pool.cpp:76-88 | a small request is served at the aligned last of the first block from pool->curr on with room, and changes no other block |
| NgxPool.PallocNewBlock | core/ngx_pool.cpp:90-173 | if none has room, the system is asked for a page; what the new block and the others then hold |
| NgxPool.NullExactly | core/ngx_pool.cpp:69-93 | palloc returns null exactly for size 0, or if the system is needed and refuses |
| NgxPool.StaircaseKept | core/ngx_pool.cpp:161-170 | a new block keeps the failure counters a staircase of at most seven |
| NgxPool.AllocateBlockKeeps | core/ngx_pool.cpp:140-173 | a new block starts with exactly the new allocation |
| NgxPool.AllocateLargeKeeps | core/ngx_pool.cpp:176-197 | a large allocation whose sum does not wrap is exactly one new extent |
| NgxPool.LargeInsideExactly | core/ngx_pool.cpp:176-197 | a large allocation lies inside the extent malloc granted exactly if size + 16 < 2^64, and otherwise wholly outside it |
| NgxPool.WrappedSizeOverlaps | core/ngx_pool.cpp:176-197 | after a request whose sum wraps, the next large allocation above it overlaps it |
| NgxPool.OwnerExact | core/ngx_pool.cpp:101-113 | the inclusive test p <= end matches a live address only in the block it lies in |
| NgxPool.RefBounded | core/ngx_pool.cpp:104-109 | the reference counter of a block with a live address is positive and its decrement never wraps |
| NgxPool.FreeSmallKeeps | core/ngx_pool.cpp:100-113 | freeing a small live address drops exactly its own block's count, and the last one makes the whole block available, exposing nothing live |
| NgxPool.FreeLargeKeeps | core/ngx_pool.cpp:114-136 | freeing a large live address unlinks exactly its own extent |
| NgxPool.FreeKeeps | core/ngx_pool.cpp:95-137 | freeing a live address removes exactly that allocation and keeps the invariant |
| NgxPool.FreeForeign | core/ngx_pool.cpp:95-137 | null and an address that nothing owns change nothing |
| NgxPool.RunIsSafe | core/ngx_pool.cpp:69-173 | in every run of requests whose sums do not wrap, live allocations are disjoint, aligned and contained, and counters equal the live counts |
| NgxPool.RunScansAtMostSeven | core/ngx_pool.cpp:77-170 | in every run the last seven blocks, or all, remain from pool->curr on, with the stated failure counters |
| NgxPool.DestroyFreesEachOnce | core/ngx_pool.cpp:34-62 | every page and every large block is freed, none twice, and the pool itself last |
| NgxPoolClass.Pool.constructor | core/ngx_pool.cpp:21-29 | the linked pool starts as Create |
| NgxPoolClass.Pool.Palloc | core/ngx_pool.cpp:69-93 | walking and updating the linked headers acts as Palloc on values |
| NgxPoolClass.Pool.AllocateBlock | core/ngx_pool.cpp:140-173 | acts as AllocateBlock on values |
| NgxPoolClass.Pool.AgeChain | core/ngx_pool.cpp:161-170 | the loop over the chain acts as Age |
| NgxPoolClass.Pool.AllocateLarge | core/ngx_pool.cpp:176-197 | acts as AllocateLarge on values |
| NgxPoolClass.Pool.Free | core/ngx_pool.cpp:95-137 | acts as Free on values |
| NgxPoolClass.Pool.Destroy | core/ngx_pool.cpp:34-62 | frees exactly the addresses of Destroyed |
| Bheap.InsertPermutes | basic/bheap.h:30-42 | insert adds exactly the new value |
| Bheap.ErasePermutes | basic/bheap.h:44-62 | erase removes exactly the value at idx, on any array |
| Bheap.SiftUpOrders | basic/bheap.h:90-98 | repairs a heap with one value too high |
| Bheap.SiftDownOrders | basic/bheap.h:100-128 | orders a subtree whose subtrees are ordered, and the pass after the recursive call exits without a swap |
| Bheap.SiftUpMoves | basic/bheap.h:90-98 | sift_up carries the value past exactly the ancestors below it, each of which moves down one step, and changes nothing else |
| Bheap.LargestExact | basic/bheap.h:108-118 | no child moves up unless it is above the node, and of two the left one unless the right one is above it |
| Bheap.SiftDownMoves | basic/bheap.h:100-128 | on ordered subtrees sift_down is one swap and the same one level down |
| Bheap.SecondPassSwaps | basic/bheap.h:100-128 | on other subtrees the pass after the recursive call can swap once more |
| Bheap.InsertOrders | basic/bheap.h:30-42 | insert keeps heap order |
| Bheap.TopIsGreatest | basic/bheap.h:64-69 | on a heap no value is above the top |
| Bheap.EraseOrdersExactly | basic/bheap.h:44-62 | erase leaves a heap if and only if EraseSafe holds |
| Bheap.PopCanBreakOrder | basic/bheap.h:71-78 | popping the heap 11, 10, 8 leaves 8, 10, which is no heap |
| Bheap.Heap.SiftUpFrom | basic/bheap.h:90-98 | acts as SiftUp on the values and keeps every back-pointer exact |
| Bheap.Heap.SiftDownFrom | basic/bheap.h:100-128 | loop and recursion act as SiftDown and keep every back-pointer exact |
| Bheap.Heap.InsertValue | basic/bheap.h:30-42 | the new handle joins the others, with its value and its position |
| Bheap.Heap.EraseAt | basic/bheap.h:44-62 | exactly the handle at idx leaves, or an error beyond the size; back-pointers stay exact |
| Bheap.Heap.Pop | basic/bheap.h:71-78 | returns the top value and erases it, or an error when empty |
| NgxQueue.StepIsFifo | core/ngx_queue.cpp:16-57 | one call acts as the bounded FIFO if and only if it is safe |
| NgxQueue.UnsafePushEmptiesQueue | core/ngx_queue.cpp:27-40 | an unsafe push reports success and leaves an empty queue |
| NgxQueue.RunIsFifo | core/ngx_queue.cpp:16-57 | a run agrees with the bounded FIFO if and only if all its pushes are safe |
| NgxQueue.SizeIsOutstandingModNalloc | core/ngx_queue.cpp:42-50 | after the first successful get the size is the outstanding count modulo nalloc |
| NgxQueue.Queue.SizeOf | core/ngx_queue.cpp:42-50 | the number of elements the queue shows |
| NgxQueue.Queue.IsEmpty | core/ngx_queue.cpp:52-57 | whether it shows none |
| NgxQueue.Queue.PushBack | core/ngx_queue.cpp:27-40 | acts as Step, and as the bounded FIFO under the safe guard |
| NgxQueue.Queue.PopFront | core/ngx_queue.cpp:16-25 | takes the oldest element shown, or nothing |
| IniText.TrimPadded | basic/config/config_parser.cpp:11-16 | trim removes the space around a text without any at its ends |
| IniText.TrimParts | basic/config/config_parser.cpp:11-16 | what trim leaves has no space at its ends, and what it removes is space |
| IniText.UnescapeEscape | basic/config/config_parser.cpp:30-101 | unescaping escaped text gives it back, whatever follows it |
| IniText.EscapeHasNoNewline | basic/config/config_parser.cpp:30-59 | escaped text has no raw newline |
| IniText.QuotedIsTight | basic/config/config_parser.cpp:103-117 | a printed value has no space at its ends and no newline |
| IniText.ValueRoundTrip | basic/config/config_parser.cpp:11-126 | every string survives quoting, trimming, unescaping and unquoting |
| IniText.SpaceTable | basic/config/config_parser.cpp:12 | the characters that trim removes |
| IniText.EscapeTable | basic/config/config_parser.cpp:30-59 | what each character is escaped to |
| IniText.UnescapeTable | basic/config/config_parser.cpp:62-101 | what each escape is undone to, and that every other backslash stays |
| IniText.QuotesTable | basic/config/config_parser.cpp:119-126 | one pair of equal quotes around a text is taken off, single or double, and nothing else |
| IniText.QuotedExactly | basic/config/config_parser.cpp:103-117 | a value is printed without quotes exactly if it has no space, quote or backslash |
| IniText.TrimString | basic/config/config_parser.cpp:11-16 | the erasing loops compute Trim |
| IniText.EscapeString | basic/config/config_parser.cpp:30-59 | the loop computes Escape |
| IniText.UnescapeString | basic/config/config_parser.cpp:62-101 | the loop computes Unescape |
| IniText.AddQuotesIfNeeded | basic/config/config_parser.cpp:103-117 | the loop computes AddQuotes |
| IniParser.PutThenMerge | basic/config/config_parser.h:205-210 | putting a member through operator[] twice and then merging others is merging them all, whatever the nodes were |
| IniParser.PutExactly | basic/config/config_parser.h:205-210 | operator[] twice stores one member, keeps all others, and turns what was no object into one |
| IniParser.DigitsRead | basic/config/config_parser.cpp:136-159 | the digits of a number, read from the most significant on, give the number, without leading zeros |
| IniParser.RenderSays | basic/config/config_parser.cpp:128-179 | the text of an integer, a boolean, a character or a string says what the value is |
| IniParser.CommentIgnored | basic/config/config_parser.cpp:192-195 | blank lines and comments change nothing |
| IniParser.StrayIgnored | basic/config/config_parser.cpp:202-210 | so does a line that is no header and has no delimiter, or comes before any section |
| IniParser.PaddedHeaderParses | basic/config/config_parser.cpp:196-199 | a header may have any space around it |
| IniParser.PaddedEntryParses | basic/config/config_parser.cpp:202-214 | an entry with any space around key and value stores the value without its escapes and one pair of quotes |
| IniParser.LastLineParses | basic/config/config_parser.cpp:191 | the last line needs no line end |
| IniParser.SampleText | basic/config/config_parser.cpp:220-243 | the text of a small document, character by character |
| IniParser.HeaderParses | basic/config/config_parser.cpp:196-199 | a header line opens the trimmed section as a fresh node |
| IniParser.EntryParses | basic/config/config_parser.cpp:202-214 | a printed entry is read back with the same key and text |
| IniParser.EntryStoredExactly | basic/config/config_parser.cpp:186-214 | a printed entry of a new key reaches its section, and is read back whatever follows it, if and only if KeyOk holds for it and its value |
| IniParser.TwoLineKeyLosesFirst | basic/config/config_parser.cpp:186-214 | a key of two lines comes back as its second line |
| IniParser.TextAddsShaped | basic/config/config_parser.cpp:186-214 | whatever text is parsed, every key it adds has no space at its ends, no delimiter, no line end and starts no comment |
| IniParser.EntriesParse | basic/config/config_parser.cpp:229-240 | the printed entries of a section are read back as its members |
| IniParser.SectionParses | basic/config/config_parser.cpp:225-241 | a printed section is read back as its members, whatever follows it |
| IniParser.MembersOfEnumeration | basic/config/config_parser.cpp:229-240 | the members do not depend on the order of enumeration |
| IniParser.RoundTrip | basic/config/config_parser.cpp:186-250 | parsing a document printed in any order gives it back with values as strings |
| IniParser.RoundTripExactly | basic/config/config_parser.cpp:186-250 | a document of sections printed in any order comes back if and only if DocOk holds for it |
| IniParser.Parse | basic/config/config_parser.cpp:186-218 | the line loop computes ParseText |
| IniParser.Dump | basic/config/config_parser.cpp:220-250 | prints some enumeration of sections and entries, or fails exactly if a section is not an object; a single value prints as a text that says what it is |
| IniParser.DumpThenParse | basic/config/config_parser.cpp:186-250 | whatever order dump uses, the document comes back exactly under DocOk; non-empty sections of strings come back unchanged, and every integer, boolean and character as a text that says what it was |
| IniParser.ReadBackExactly | basic/config/config_parser.cpp:186-250 | a document parsed from any text, printed in any order, comes back if and only if no entry looks like a section header |
| IniParser.ParseThenDump | basic/config/config_parser.cpp:186-250 | for any text with a section: dump throws exactly if parse left a section without entries, and otherwise parsing the dump gives the same document exactly if no entry looks like a header |

## Left out

- LockFreeArray.NextKeepsInv: the indices are unbounded here; a producer suspended while 2^64 tickets go by, which would let a stale CAS succeed, is not modelled.
- StagingBuffer.Buffer.Alloc: the blocking loop gets a number of passes and may report that they were not enough; waiting for a concurrent consumer is covered by the runs, not by this method.
- StagingBuffer.NextKeepsInv: one step is one whole loop pass, peek or release; single accesses are in StagingAccess.dfy. Record contents are not modelled.
- NgxPool.WrappedSizeOverlaps: the header written outside the granted extent is not modelled, only where the allocations lie.
- RingbufferClass.Ring.WriteBuffCallback: the consumer runs in the callbacks; the interleaving of single accesses is in Ringbuffer.dfy.
- Ring buffer: runs with index types narrower than unsigned int, producerClear under concurrency, peek and operator[], the pointer and callback variants of insert.
- Ticketed array: full, size, the blocking pop, more than one consumer.
- Staging buffer: num_allocates_, which nothing reads.
- Pool: ngx_reset_pool (empty), the Windows branch, freeing an address that is not live, the back-pointers to the pool.
- Queue: ngx_create_queue and its allocation, null queues, elements rewritten after get returned their address.
- Heap: the destructor and failing allocation of a handle.
- INI: other delimiters and line ends, static locals in dump, floating-point values, arrays inside get and set, ConfParser, ConfigFile.
- Weak memory orders, fences, padding and pause instructions.
- Sockets, event loops, thread pools, logging, date and time, shared memory: system calls or easy members.
