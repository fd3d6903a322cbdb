# c-embedded-utils: a verified model

This project models the hard parts of the embedded utilities library in Dafny and proves what
they keep. Six components are covered:

- **Resumable binary search** (`BsearchIter.dfy`). The iterator object, in 32-bit arithmetic,
  refines a reference machine that knows only a range and how many entries around its midpoint
  were skipped. Safety and cost hold for any caller, completeness for an honest one.
- **Bounded heap** (`HeapOrder.dfy`, `HeapRuns.dfy`, `BoundedHeap.dfy`). Sift-down stops at the
  first node without a right child, so a lone left child is never compared. The weaker order
  the code keeps, the exact condition under which a push restores full order, and the exact
  order in which a filled heap drains are proved for every strict weak order.
- **State machine engine** (`FsmSemantics.dfy`, `SimpleFsm.dfy`). Handlers are arbitrary
  functions of the call and of all earlier calls. Results are about the trace of callbacks.
- **Ring buffers** (`NumericOps.dfy`, `DropOldest.dfy`, `FastCircularBuffer.dfy`,
  `CircularBuffer.dfy`, `RingAgreement.dfy`, `SpscRing.dfy`, `SpscRuns.dfy`, `PlainSpsc.dfy`,
  `PlainRuns.dfy`). Both rings refine a queue that drops its oldest byte, the fast one across
  index wraparound; they answer alike; and both are proved for one producer and one consumer
  interleaved at every load and store, with the conditions under which the interleaved calls
  are the queue's.
- **Static pool** (`PtrStack.dfy`, `PoolLayout.dfy`, `StaticPool.dfy`). Free and held blocks
  are conserved for every configuration, and partition the buffer for every one that fits.
- **Little-endian packing** (`LittleEndian.dfy`, `FieldPacking.dfy`, `LePack.dfy`). Round trips
  of values, of bytes and of whole field lists.

`Foundations.dfy` holds result codes and `size_t`. The width of `size_t` is an unspecified
constant of at least 16 bits, so every result holds for every width. `Mod` is a remainder by
repeated subtraction, proved equal to `%`; `hide` statements keep recursive definitions out of
proofs that do not need them.

Objects of the source are classes whose methods follow the C bodies and whose contracts tie the
new state to reference functions; theorems about runs are lemmas about those functions.

## Where code and documentation disagree

The model follows the code.

- The heap's tests expect pops in rank order (tests/test_bounded_heap.c:118-127). Three pushes
  of 3, 2, 1 come out as 3, 1, 2 (`HeapRuns.DrainOutOfOrder`). `HeapOrder.PopIsTopIff` is the
  exact check to make before a pop; `HeapRuns.DrainFullyRankedIff` says for which heaps a whole
  drain keeps the promise.
- The state machine header promises that entry and exit are always called
  (include/cemb/simple_fsm.h:14-16). An event that asks for a state out of bounds leaves the
  machine running in a state it has exited, and the next event goes there
  (`FsmSemantics.OutOfBoundsEventBreaksBracketing`). `FsmSemantics.RunBreaksIffClashes` says
  exactly which calls break the promise: an event or stop to a machine running outside any state,
  or a start of a machine stopped inside one; `FsmSemantics.RunBreaksIffLogRejected` says the same
  from the caller's own calls and their codes. In runs that stay in bounds, as all do when the
  handlers only name existing states, only the second kind is left
  (`FsmSemantics.InBoundsRunBreaksIffReenters`). A start that goes out of bounds is harmless.
- The plain ring's header says it supports one producer and one consumer
  (include/cemb/circular_buffer.h:30). Interleaved in any way at their loads and stores, a push
  and a pop end as if run one after the other if and only if the ring holds more than one byte, is
  not full and does not occupy slots 0 to size - 2 exactly, or has capacity 1 and is empty or is
  given the byte it holds (`PlainSpsc.AllInterleavingsSafeIff`). What goes wrong otherwise: a push
  between a pop's read-index store and its comparison for the flag loses its own byte (ring of one
  byte held) or every byte (full ring), `CircularBuffer.PushInsidePopIsSafeIff`; a push between the
  comparison and the subtraction of a pop's count brings the write index back to 0, and the pop
  answers EMPTY on a full ring, `CircularBuffer.PushInsideCountIsSafeIff`; a pop between the last
  two stores of a push into an empty ring of two bytes or more makes an emptied ring pass for a
  full one, `CircularBuffer.PopInsidePushIsSafeIff`. Runs of any number of calls are runs of the
  reference queue as long as the indices differ whenever both calls are under way
  (`PlainRuns.CalmRunsAreQueueRuns`). The fast ring needs less: no pop may be disturbed by a store
  on a full ring (`SpscRuns.UndisturbedRunsAreQueueRuns`, and `SpscRing.InterleavingsDeliverInOrder`
  when there is no such store); `SpscRing.StoreKeepsSharedIff` and `SpscRing.OverwriteOvertakesPop`
  show what goes wrong otherwise.
- The pool's size check multiplies in `size_t` (src/mem_alloc/static_pool.c:11), so a product
  that wraps is accepted (`PoolLayout.AcceptedWithoutRoom`). `PoolLayout.AcceptedIffFitsOrWraps`
  says exactly what is accepted, `PoolLayout.BlocksInsideIffFits` what is safe.

## Model

| member | source | states |
|---|---|---|
| BsearchIter.ZigzagCoverage | src/search_algos/bsearch_iter.c:5-24 | repeated skips probe every index of any range exactly once, odd or even, leave the range only when all were probed, and never re-enter it; the probed indices are always one contiguous block |
| BsearchIter.NextPivotOffset | src/search_algos/bsearch_iter.c:5-19 | the offset rule moves to the next position of 0, +1, -1, +2, -2, ... |
| BsearchIter.NextStaysInside | src/search_algos/bsearch_iter.c:81-165 | for any notification the probe lies in the current range, and that within the initial one |
| BsearchIter.NextShrinks | src/search_algos/bsearch_iter.c:97-158 | every notification uses up an unprobed index, and one other than SKIP at least halves the range even in the middle of a zigzag |
| BsearchIter.RunBounded | src/search_algos/bsearch_iter.c:81-165 | invariant of every run with arbitrary notifications: position, fewer answers than entries, at most floor(log2 n) answers other than SKIP while the search goes on |
| BsearchIter.RunTerminates | src/search_algos/bsearch_iter.c:97-158 | any search is over after n answers, and after floor(log2 n) + 1 + (number of SKIPs) answers |
| BsearchIter.DoneIsFinal | src/search_algos/bsearch_iter.c:85-89 | a finished search ignores every further notification |
| BsearchIter.NextKeepsExactly | src/search_algos/bsearch_iter.c:81-165 | every notification closes exactly the indices it rules out (ABORT and EQ all of them); the search goes on exactly while one is left, and ends FOUND on EQ alone, at the probe |
| BsearchIter.RunLeavesOpen | src/search_algos/bsearch_iter.c:81-165 | after any run of notifications the indices that may still be probed are exactly those of the initial range that no answer ruled out |
| BsearchIter.ProbesDiffer | src/search_algos/bsearch_iter.c:53-58 | no run probes an index twice |
| BsearchIter.FoundOnlyByEq | src/search_algos/bsearch_iter.c:86-95 | a run ends FOUND exactly when EQ was given while it was open, at the index probed then; never by ABORT |
| BsearchIter.HonestStep | src/search_algos/bsearch_iter.c:81-165 | an honest answer on a table sorted where readable loses no readable match: each stays in the range and outside the skipped block, and FOUND / NOT_FOUND are true verdicts |
| BsearchIter.NoOverflowIffMargin | src/search_algos/bsearch_iter.c:21-158 | no run over [start, stop], whatever the notifications, computes a midpoint width or an index outside int32 if and only if one index is free on either side of the range and stop - start fits int32 |
| BsearchIter.Iterator.Init | src/search_algos/bsearch_iter.c:26-41 | rejects start >= stop and changes nothing, otherwise opens the search over [start, stop] |
| BsearchIter.Iterator.Notify | src/search_algos/bsearch_iter.c:81-165 | the in-place update in 32-bit arithmetic is one step of the reference machine, without overflow whenever the values of that step fit int32 |
| BsearchIter.Iterator.Deinit | src/search_algos/bsearch_iter.c:43-51 | an open search becomes NOT_FOUND, a verdict is kept |
| BsearchIter.Iterator.CheckIndex | src/search_algos/bsearch_iter.c:53-58 | while open, the index to check is the reference probe and lies in [left, right] |
| BsearchIter.Iterator.FoundIndex | src/search_algos/bsearch_iter.c:60-72 | the found index, or -1 when there is none |
| BsearchIter.Find | tests/test_bsearch_iter.c:13-54 | the honest driving loop, on any table whose search stays in int32, ends FOUND at an entry holding the target exactly when some readable entry holds it, within both probe bounds |
| BsearchIter.MarginSufficesForHonest | src/search_algos/bsearch_iter.c:97-158 | with one index free on either side every honest search stays in int32, whatever the table |
| HeapOrder.ArbitrateTakesTop | src/collections/bounded_heap.c:103-137 | swap arbitration brings the top of a node and its two children to the node; among equals the parent stays and the left child goes before the right |
| HeapOrder.PushKeepsOrder | src/collections/bounded_heap.c:143-177 | a push onto a heap in full order leaves full order |
| HeapOrder.PushOrderedIffSafe | src/collections/bounded_heap.c:143-177 | from the weaker order, a push restores full order if and only if there is no lone child, or its parent or the new item ranks at or above it; otherwise even the weaker order is lost |
| HeapOrder.PopKeepsOrderButLone | src/collections/bounded_heap.c:78-141 | a pop keeps every edge ordered except possibly the one to a lone left child, which still ranks at or below its grandparent |
| HeapOrder.PopIsTopIff | src/collections/bounded_heap.c:78-141 | under that order the popped item is top-ranked if and only if the size was not 2 or the two items were in order |
| HeapOrder.PushAdds | src/collections/bounded_heap.c:149-174 | a push adds exactly the new item |
| HeapOrder.PushDisplaces | src/collections/bounded_heap.c:158-174 | a push moves only items that rank strictly below the new one; equals keep their places |
| HeapOrder.PopDisplaces | src/collections/bounded_heap.c:89-138 | a pop moves an item only to its parent's place, and only past the replacing item, which it outranks |
| HeapOrder.PopRemoves | src/collections/bounded_heap.c:86-138 | a pop removes exactly the returned item |
| HeapRuns.RunConserves | src/collections/bounded_heap.c:78-177 | over every run, ordered or not, items held plus items returned equal initial items plus items accepted |
| HeapRuns.RunOrderedIffPushesSafe | src/collections/bounded_heap.c:78-177 | a run keeps the weaker order in every state if and only if all its accepted pushes are safe, and then every pop returns a top-ranked item except from a misordered pair |
| HeapRuns.SizesMakePushesSafe | src/collections/bounded_heap.c:101-177 | runs without a push at an even non-zero size reached by a pop push safely, whatever the items |
| HeapRuns.FillThenDrain | tests/test_bounded_heap.c:76-138 | n pushes then n pops return a permutation in rank order up to the last two, which are the two lowest-ranked |
| HeapRuns.DrainFullyRankedIff | src/collections/bounded_heap.c:96-101 | the whole drain is in rank order if and only if, with three items left, the third ranks at or above the second |
| HeapRuns.DrainOutOfOrder | src/collections/bounded_heap.c:101 | a concrete fill whose drain is out of order |
| HeapRuns.UnsafePushBreaksPop | src/collections/bounded_heap.c:101 | a concrete unsafe push after which a pop from three items is not the top |
| BoundedHeap.Heap.Init | src/collections/bounded_heap.c:46-58 | rejects a capacity of 0, otherwise an empty heap over the given storage |
| BoundedHeap.Heap.Peek | src/collections/bounded_heap.c:68-76 | the root, or EMPTY |
| BoundedHeap.Heap.Push | src/collections/bounded_heap.c:143-177 | the in-place sift-up computes the reference push and touches no slot beyond the new item; NO_MEM exactly when full |
| BoundedHeap.Heap.Pop | src/collections/bounded_heap.c:78-141 | the in-place sift-down computes the reference pop, returns the old root and parks it behind the live items; EMPTY exactly when empty |
| BoundedHeap.FillHeap | tests/test_bounded_heap.c:95-112 | pushing a list onto an empty heap builds the reference fill |
| BoundedHeap.DrainHeap | tests/test_bounded_heap.c:118-137 | popping until empty returns the reference drain |
| BoundedHeap.FillThenDrainHeap | tests/test_bounded_heap.c:76-138 | on the heap object, n pushes then n pops return a permutation in rank order up to the last two |
| BoundedHeap.DriveHeap | src/collections/bounded_heap.c:78-177 | any run of pushes and pops on the heap object is the reference run, with every item accounted for |
| FsmSemantics.ResolutionClassified | src/simple_fsm/simple_fsm.c:10-35 | resolution ends within the cap with the state in range; TIMEOUT if and only if exactly the cap was performed; NONE if and only if below the cap, after complete exit/entry pairs only, the last answer names the current state; OUT_OF_BOUNDS if and only if below the cap with one exit call more, and then the target asked for does not exist and the state is not left |
| FsmSemantics.ResolutionHops | src/simple_fsm/simple_fsm.c:15-31 | the calls made are complete exit/entry pairs, as many as were counted, each to a different state in range: the one the exit handler named, or else the last request of an entry or event handler |
| FsmSemantics.CallExplained | src/simple_fsm/simple_fsm.c:80-126 | what every call does, without reference to the engine's loop: refused calls and their codes; start and event follow the answer of the very handler they called, hop by hop, with each code characterised; stop's code says whether the exit handler named another state; deinit resets without callbacks |
| FsmSemantics.FollowsDetermines | src/simple_fsm/simple_fsm.c:10-35 | that account is complete: for given handlers only one trace, state and code satisfy it |
| FsmSemantics.StepSyncIff | src/simple_fsm/simple_fsm.c:88-126 | one call keeps the engine's record and the callbacks in agreement if and only if it is not an event that went out of bounds, a start that timed out, or a deinit while running |
| FsmSemantics.RunSyncIff | src/simple_fsm/simple_fsm.c:88-126 | over every run, record and callbacks agree throughout if and only if no call is one of those |
| FsmSemantics.StepBreaksIffClashes | src/simple_fsm/simple_fsm.c:80-126 | a call breaks the entry/exit bracketing if and only if, before it, the machine runs outside any state and gets an event or stop, or is stopped inside one and gets a start |
| FsmSemantics.RunBreaksIffClashes | src/simple_fsm/simple_fsm.c:80-126 | over every run the trace of callbacks is no longer bracketed if and only if some call of the run was such a clash |
| FsmSemantics.RunBreaksIffLogRejected | src/simple_fsm/simple_fsm.c:80-126 | the same decided from the calls and their return codes alone, by a watch of four states |
| FsmSemantics.UnbrokenIsBracketed | include/cemb/simple_fsm.h:14-16 | in an unbroken trace every event and exit goes to the state entered last and not exited since, and every entry but the first follows an exit |
| FsmSemantics.SessionOpensWithInitialEntry | src/simple_fsm/simple_fsm.c:88-104 | every session opens with the initial state's entry, and start leaves the machine running exactly on success |
| FsmSemantics.RunStaysInRange | src/simple_fsm/simple_fsm.c:10-126 | the current state is in range after every run |
| FsmSemantics.LostSyncBreaksTrace | src/simple_fsm/simple_fsm.c:23-24 | after an out-of-bounds event the next event or stop reaches an exited state, after a timed-out start the next start enters a second state |
| FsmSemantics.InRangeHandlersStayInBounds | src/simple_fsm/simple_fsm.c:23 | a resolution with handlers that only name existing states never returns OUT_OF_BOUNDS |
| FsmSemantics.InRangeRunStaysInBounds | src/simple_fsm/simple_fsm.c:23 | nor does any call of any run |
| FsmSemantics.InBoundsRunBreaksIffReenters | src/simple_fsm/simple_fsm.c:80-126 | a run that stays in bounds breaks the bracketing if and only if some start finds the machine stopped inside a state |
| FsmSemantics.OutOfBoundsEventBreaksBracketing | src/simple_fsm/simple_fsm.c:118-126 | a concrete machine that delivers an event to an exited state |
| SimpleFsm.Fsm.Init | src/simple_fsm/simple_fsm.c:41-78 | accepts exactly the valid configurations and changes nothing otherwise |
| SimpleFsm.Fsm.ResolveTransitions | src/simple_fsm/simple_fsm.c:10-35 | the loop over callbacks computes the reference resolution |
| SimpleFsm.Fsm.Start | src/simple_fsm/simple_fsm.c:88-104 | one start: enters the initial state, resolves, and runs on only if that succeeded; NOOP when already running |
| SimpleFsm.Fsm.OnEvent | src/simple_fsm/simple_fsm.c:118-126 | one event: delivered to the current state, then resolved; NOT_INITIALISED when stopped |
| SimpleFsm.Fsm.ForceStop | src/simple_fsm/simple_fsm.c:106-116 | one stop: exits the current state without following its request; INCOMPLETE if it asked for another, NOOP when stopped |
| SimpleFsm.Fsm.Deinit | src/simple_fsm/simple_fsm.c:80-86 | back to the initial state without callbacks |
| SimpleFsm.PerformAll | src/simple_fsm/simple_fsm.c:80-126 | any run of calls on the engine object is the reference run, code by code |
| SimpleFsm.PerformWatched | src/simple_fsm/simple_fsm.c:80-126 | after any run the watch over calls and codes tells whether the callbacks made are still bracketed |
| NumericOps.IsPower2Iff | src/operations/numeric_ops.c:3-6 | the test accepts exactly the powers of two |
| NumericOps.AcceptedSize | src/collections/fast_circular_buffer.c:10-24 | for every accepted size, masking any index, before or after it wraps, gives its remainder |
| Foundations.ModIsRemainder | src/collections/circular_buffer.c:48-51 | the remainder used for ring indices and for wrapped results is the mathematical one |
| Foundations.Log2IsFloor | src/search_algos/bsearch_iter.c:97-147 | the logarithm of the search bound is floor(log2 n) |
| DropOldest.PushesKeepNewest | include/cemb/circular_buffer.h:24-34 | any run of pushes leaves exactly the newest bytes in order |
| DropOldest.RepliesExplained | include/cemb/circular_buffer.h:24-34 | every reply of a run: a push succeeds exactly with a capacity above 0 and otherwise says NO_MEM, a pop takes the oldest byte or says EMPTY, a count tells how many are held |
| FastCircularBuffer.FastRing.Init | src/collections/fast_circular_buffer.c:6-30 | accepts exactly the powers of two from 2 up; an empty ring of that capacity |
| FastCircularBuffer.FastRing.Push | src/collections/fast_circular_buffer.c:41-54 | on wrapping indices: appends, dropping the oldest byte when full; NO_MEM exactly when deinitialised |
| FastCircularBuffer.FastRing.Pop | src/collections/fast_circular_buffer.c:56-66 | removes and returns the oldest byte, EMPTY exactly when there is none |
| FastCircularBuffer.FastRing.Count | src/collections/fast_circular_buffer.c:68-73 | the wrapped difference of the indices is the number of bytes held |
| CircularBuffer.Ring.Init | src/collections/circular_buffer.c:5-27 | rejects capacity 0; an empty ring otherwise |
| CircularBuffer.Ring.Push | src/collections/circular_buffer.c:39-55 | appends, dropping the oldest byte when full, by the stores that the interleaving results speak of; NO_MEM exactly when deinitialised |
| CircularBuffer.Ring.Pop | src/collections/circular_buffer.c:57-69 | removes and returns the oldest byte, by the stores that the interleaving results speak of; EMPTY exactly when there is none |
| CircularBuffer.Ring.Count | src/collections/circular_buffer.c:71-91 | the three-way case on indices and flag is the number of bytes held |
| CircularBuffer.PushInsidePopIsSafeIff | src/collections/circular_buffer.c:39-69 | for every capacity and byte, a push between the read-index store and the flag store of a pop ends, in bytes, fields and byte taken, like one of the two orders if and only if the ring held more than one byte and was not full or the indices were compared already, or has capacity 1 and is given the byte it holds; unless the first holds the ring ends empty |
| CircularBuffer.PushInsideCountIsSafeIff | src/collections/circular_buffer.c:57-80 | a push between the comparison and the subtraction of a pop's count is safe unless the read index is 0 and the write index the last; then the pop answers EMPTY on a full ring |
| CircularBuffer.PopInsidePushIsSafeIff | src/collections/circular_buffer.c:39-69 | for every capacity and byte, a pop between the write-index store and the flag store of a push ends like one of the two orders if and only if the ring held a byte and can hold two, or has capacity 1 and was empty or held that byte; otherwise the byte is taken and the emptied ring passes for full |
| PlainSpsc.AllInterleavingsSafeIff | src/collections/circular_buffer.c:39-91 | for every capacity, ring and byte: every interleaving of a push and a pop at their loads and stores ends, in bytes, fields and byte taken, like one of the two orders if and only if the ring holds more than one byte, is not full and does not have read index 0 with the last write index, or has capacity 1 and is empty or given the byte it holds |
| PlainRuns.ActTracks | src/collections/circular_buffer.c:39-91 | each load or store of either call keeps the ring in step with the reference queue, provided the indices differ while both calls are under way |
| PlainRuns.CalmRunsAreQueueRuns | src/collections/circular_buffer.c:39-91 | every run of any number of calls, interleaved at every load and store with the indices different whenever both calls are under way, is a run of the reference queue: each push takes effect once and in order, each pop is answered as by the queue, and at rest the ring holds the queue's bytes |
| RingAgreement.DriveFast | src/collections/fast_circular_buffer.c:41-73 | the fast ring answers every run, of any length, as the reference queue |
| RingAgreement.DrivePlain | src/collections/circular_buffer.c:39-91 | so does the plain ring |
| RingAgreement.DriveBoth | src/collections/fast_circular_buffer.c:41-73 | for every power-of-two capacity from 2 up and every sequence of calls both rings return identical codes, bytes and counts |
| SpscRing.ActKeepsInv | src/collections/fast_circular_buffer.c:41-66 | every single load or store of producer or consumer keeps the invariant, provided no byte is stored on a full ring |
| SpscRing.StoreKeepsSharedIff | src/collections/fast_circular_buffer.c:47 | a store keeps the ring's bytes if and only if the ring is not full or the byte equals the oldest one |
| SpscRing.InterleavingsDeliverInOrder | src/collections/fast_circular_buffer.c:47-64 | over every interleaving without a store on a full ring, published bytes are the delivered ones followed by those in the ring; a pop says EMPTY exactly when nothing was left as it loaded the write index, and otherwise takes the next byte in line |
| SpscRuns.ActTracks | src/collections/fast_circular_buffer.c:41-73 | each load or store keeps the ring in step with the reference queue, overwriting pushes included, provided no pop is disturbed by one |
| SpscRuns.UndisturbedRunsAreQueueRuns | src/collections/fast_circular_buffer.c:41-73 | every interleaving in which no pop has loaded anything when a byte is stored on a full ring, nor takes a step before that push is over, is a run of the reference queue: pushes take effect once and in order, each pop is answered as by the queue, dropped bytes included |
| SpscRuns.NeverFullIsUndisturbed | src/collections/fast_circular_buffer.c:41-73 | runs without a store on a full ring are among them |
| SpscRing.PushComputesAfter | src/collections/fast_circular_buffer.c:41-54 | the steps of a push taken together, on a full ring or not, are the push of the reference queue |
| SpscRing.PopComputesAnswer | src/collections/fast_circular_buffer.c:56-66 | the steps of a pop taken together are the pop of the reference queue |
| SpscRing.OverwriteOvertakesPop | src/collections/fast_circular_buffer.c:47-64 | a push begun on a full ring between the count and the load of a pop delivers the newest byte in the place of the oldest, in order only if they are equal |
| PtrStack.Stack.Push | src/collections/ptr_stack.c:32-42 | pushes, or NO_MEM exactly when full |
| PtrStack.Stack.Pop | src/collections/ptr_stack.c:44-55 | pops the last item pushed, or EMPTY exactly when empty |
| PtrStack.Stack.RemainingCount | src/collections/ptr_stack.c:25-30 | free places plus items make the capacity |
| PoolLayout.BlocksInsideIffFits | src/mem_alloc/static_pool.c:11-43 | all blocks lie inside the buffer if and only if the unreduced product of size and count fits |
| PoolLayout.AcceptedIffFitsOrWraps | src/mem_alloc/static_pool.c:11 | the size check accepts a configuration if and only if it fits or its product leaves size_t and wraps to no more than the buffer |
| PoolLayout.AcceptedWithoutRoom | src/mem_alloc/static_pool.c:11 | for every width of size_t, a configuration that passes the check without fitting |
| PoolLayout.FreeAndHeldPartition | src/mem_alloc/static_pool.c:27-93 | in a pool that fits, free and held blocks partition the slots without repeats and held blocks are disjoint pieces of the buffer |
| StaticPool.Pool.Init | src/mem_alloc/static_pool.c:27-46 | accepts exactly what the check accepts; all blocks free, none held; with no objects the stack is left as it was |
| StaticPool.Pool.Allocate | src/mem_alloc/static_pool.c:55-72 | hands out a free block, NO_MEM exactly when every block is held, free and held blocks conserved |
| StaticPool.Pool.Deallocate | src/mem_alloc/static_pool.c:74-86 | clears the pointer and puts the block on the stack unless that is full, OUT_OF_BOUNDS for NULL; free and held blocks stay conserved if and only if the pointer was NULL or held, or every block was free |
| StaticPool.Pool.AvailableCount | src/mem_alloc/static_pool.c:88-93 | the number of free blocks; with the held ones it makes the object count |
| StaticPool.FreeThenAllocate | src/mem_alloc/static_pool.c:55-86 | allocating right after a free hands back the same block and restores the pool |
| StaticPool.DrivePool | src/mem_alloc/static_pool.c:55-93 | after any run of a client that takes blocks and gives back ones it holds, its blocks and the free ones make the pool; in a pool that fits, its blocks are disjoint pieces of the buffer and none is free |
| LittleEndian.DecodeEncode | src/struct_pack/le_pack.c:45-145 | unpack after pack is the identity on unsigned values of any width |
| LittleEndian.EncodeDigits | src/struct_pack/le_pack.c:113-128 | byte k is digit k of the value to base 256, least significant first |
| LittleEndian.EncodeDecode | src/struct_pack/le_pack.c:45-145 | pack after unpack is the identity on bytes |
| LittleEndian.SignedDecodeEncode | src/struct_pack/le_pack.c:147-247 | unpack after pack is the identity on two's-complement values of any width |
| LittleEndian.SignedEncodeDecode | src/struct_pack/le_pack.c:147-247 | pack after signed unpack is the identity on bytes, and the value is in range |
| FieldPacking.WithinBufferIff | src/struct_pack/pack.c:3-8 | the bounds check is exact although its sum wraps |
| FieldPacking.FieldRoundTrip | src/struct_pack/le_pack.c:3-247 | every field of every type comes back from its bytes |
| FieldPacking.FieldRanges | src/struct_pack/le_pack.c:45-247 | the values of each type are exactly those of its C type |
| FieldPacking.BytesRoundTrip | src/struct_pack/le_pack.c:3-247 | every byte pattern comes back from its value, for a flag if and only if it is 0 or 1 |
| FieldPacking.AllPackedIff | src/struct_pack/le_pack.c:3-247 | every call of a list succeeds if and only if the list is empty or fits as a whole, and no raw block is empty |
| FieldPacking.RefusedFieldsLeaveNoTrace | src/struct_pack/le_pack.c:3-247 | packing any list gives the buffer that packing only its accepted fields gives, and those all pack |
| FieldPacking.PackAllFrame | src/struct_pack/le_pack.c:3-247 | packing any list, with refused fields or not, changes no byte outside its accepted fields |
| FieldPacking.ListRoundTrip | src/struct_pack/le_pack.c:3-247 | any list of typed fields packed back to back is read back whole |
| FieldPacking.KeptRoundTrip | src/struct_pack/le_pack.c:3-247 | of any list, exactly the accepted fields are read back |
| LePack.PackInteger | src/struct_pack/le_pack.c:45-240 | the stores of every integer width put the field's bytes at the offset and change nothing else; 0 and no change if it does not fit; byte k stored is digit k of the value to base 256 |
| LePack.UnpackUnsigned | src/struct_pack/le_pack.c:55-145 | the sum of shifted bytes is the decoded field, 0 if it does not fit |
| LePack.UnpackSigned | src/struct_pack/le_pack.c:157-247 | the same for signed types |
| LePack.PackBool | src/struct_pack/le_pack.c:23-33 | a flag stored as the byte 1 for true and 0 for false |
| LePack.UnpackBool | src/struct_pack/le_pack.c:35-43 | true exactly for the byte 1, false for all others; refused exactly outside the buffer |
| LePack.PackRaw | src/struct_pack/le_pack.c:3-11 | a block copied in place, 0 if empty or if it does not fit, byte by byte in the same order |
| LePack.UnpackRaw | src/struct_pack/le_pack.c:13-21 | a block copied out, 0 if empty or if it does not fit, byte by byte in the same order |
| LePack.PackList | src/struct_pack/le_pack.c:3-247 | calls back to back compute the reference list packing; each count is 0 or the field's size, the fields with a count are exactly those kept, and all have one exactly when the list packs |
| LePack.UnpackList | src/struct_pack/le_pack.c:13-247 | the unpack calls back to back compute the reference list unpacking |
| LePack.PackThenUnpack | src/struct_pack/le_pack.c:3-247 | the calls end to end read back the accepted fields, which are the whole list exactly when every pack call returned a count |

## Left out

- BsearchIter.Iterator.Init: ranges whose width does not fit int32 are excluded; the subtraction in the midpoint then has no defined result.
- BsearchIter.Find: searches on which a step's arithmetic is undefined are excluded, and only those. A caller that searches from a negative start cannot tell index -1 from "not found" by the index alone; the contract reports the verdict separately.
- Unsafe heap pushes: beyond conservation, nothing is claimed about the order in runs that make one.
- SimpleFsm.Fsm.OnEvent: handlers that call back into the engine are not modelled; the callback context is the trace of calls.
- SpscRing.InterleavingsDeliverInOrder: memory is sequentially consistent, as the source uses plain fields without fences.
- SpscRuns.UndisturbedRunsAreQueueRuns: the condition is sufficient; a store on a full ring that falls early in a pop's count can be harmless.
- PlainRuns.CalmRunsAreQueueRuns: the condition on runs of many calls is sufficient; it is exact for one push and one pop only (`PlainSpsc.AllInterleavingsSafeIff`). Memory is sequentially consistent here too.
- StaticPool.Pool.Allocate: use of a pool after its deinit, or after a client gave back a block it did not hold, is not modelled beyond the loss of conservation that `Deallocate` states.
- LePack.PackInteger: one method for the signed and unsigned forms of each width, whose stores coincide; right shifts of negative values are taken to be arithmetic, as compilers define them.
- LePack.UnpackSigned: conversions to signed types are taken to wrap, and so are the left shifts of a top byte from 0x80 on into the sign bit in the 32- and 64-bit forms, which the language leaves undefined.
- Pointers: the pool's are offsets into its buffer, the heap's items are values of any type; null-pointer assertions are not modelled.
- src/collections/copy_queue.c: its byte offsets only grow, so it is a queue for its first element_count items only; not modelled.
- src/operations/bit_ops.c: one straight-line bit expression over 32-bit words; not modelled.
- src/events/static_event_publisher.c: calls every listener of an array in turn; what listeners do is outside the library; not modelled.
- src/mem_alloc/i_pool_allocator.c: forwards each call to the function pointers of a pool; the pool itself is modelled.
