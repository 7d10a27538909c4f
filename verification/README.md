# A model of the timer heap, the echo reactor and the queue checks

This project models the parts of the libevent re-write that carry state, loops and arithmetic, and proves what
they are for. Run `dafny verify dfyconfig.toml` to check all of it.

| files | what they model |
|---|---|
| `Timevals.dfy` | timeval arithmetic and comparison (`src/event2/util.h:174-196`), the key type of the heap |
| `HeapSpec.dfy`, `HeapProofs.dfy`, `HeapRuns.dfy` | the heap operations as functions on a sequence, what they achieve, and whole runs as a priority queue |
| `HeapWords.dfy`, `HeapGrowth.dfy` | the 32-bit index arithmetic, and the cost of growing the array, which the heap itself keeps account of |
| `MinHeap.dfy` | the heap as it is: an array of events, each of which stores its own position, changed in place |
| `MinHeapAsWritten.dfy` | the text of `src/event2/minheap-internal.h` with no line repaired |
| `QueueLinks.dfy`, `Queues.dfy` | the LIST and TAILQ integrity checks and insert-before, on linked nodes of any shape |
| `Reactor.dfy`, `ReactorInvariant.dfy`, `ReactorEcho.dfy`, `ReactorRuns.dfy`, `ReactorOutcomes.dfy`, `ReactorTimeout.dfy` | the echo server as a state machine together with the kernel's view of it, what every run keeps, and what every entry, batch and sweep brings about |
| `SlotMemory.dfy`, `ReactorLayouts.dfy` | the bytes of a slot, and what the NUL stored past its buffer does to whole runs |
| `ReactorServer.dfy` | the echo server in place: a slot table, proved to take the state machine's steps |

The heap, the queue and the server are classes whose methods change their fields as the C code does. Each method is
proved equal to a function, and what the source promises is proved about that function: for every input, for every
run, or for every reachable state.

## Where the code does not do what it is for

Several lines cannot be meant as they stand. Each of them is modelled twice: as written, with the exact condition
under which the operation still does its work and an input for which it does not; and with the repair below, on which the
main theorems rest.

| line | as written | repair used | what is proved of the text |
|---|---|---|---|
| `src/event2/util.h:189` | the borrow subtracts a million | it adds one | exact if and only if no borrow is taken; otherwise off by two seconds |
| `src/event2/minheap-internal.h:66` | top is null exactly when the heap is not empty | the test the other way round | never right; pop faults if and only if there is something to pop |
| `src/event2/minheap-internal.h:162`, `166` | the sift up stores `e` in the parent, and its position as the hole | move the parent down; put `e` into the hole | a push does its work if and only if it is refused; the first one leaves the array |
| `src/event2/minheap-internal.h:184` | the final store goes to `min_child` | it goes to the hole | erase and adjust do their work only where nothing has to move down and the stray store stays inside the array |
| `src/event2/minheap-internal.h:96-105` | after an upward sift: position not reset, returns -1 | both branches reset it and return 0 | included in the condition for erase |
| `src/event2/event-internal.h:179` | copies the target's `tqe_next` | copies its `tqe_prev` | the queue is rejected by the check, every time |
| `src/event2/util-internal.h:121` | leaves at once unless the queue is empty | leaves at once if it is empty | right if and only if the queue is not empty and is sound; passes a cycle |
| `src/reactor/reactorServer.cpp:113` | the search counts in an `i` of its own | it counts in the outer `i` | for any value the unset `i` may have: exactly when the call does what it is for, and exactly when the server at least survives it |
| `src/reactor/reactorServer.cpp:148`, `153` | a read of 128 bytes stores its NUL past `buf`, which is in `len` | the store is left out | all theorems on runs hold with this line as written too, whichever byte of `len` is first in memory; its runs are those of the repaired program if and only if the high byte is, or no read fills the buffer; otherwise such a read is never answered |

The misspelt names in `src/event2/util-internal.h` (lines 106, 113, 121, 129, 130, 137, 138) are read as the names they stand
for: `field`, `nextp`, `EVUTIL_ASSERT`. The macros are not expanded anywhere in the repository; `EVUTIL_ASSERT` is not
part of this model, and a failing assertion is the answer `false`. `src/event2/event-internal.h` includes
`<sys/queue.h>` first, so its own `TAILQ_INSERT_BEFORE` is the one in use only where that header defines none.

Four more facts about the code are kept as they are and stated as lemmas. The search for a free slot and the `fcntl` call may end
`acceptconn` without closing the accepted descriptor (`src/reactor/reactorServer.cpp:119-130`): such descriptors are
kept in `refused`, and they are the only ones that leak. The answers of `epoll_create` and `socket` are used unchecked
(192, 215-220): the invariant is established if and only if both are descriptors. `last_active` is an `int` (41, 55): from
2038-01-19 03:14:08 UTC on, the sweep closes connections that are active. And the array's doubling wraps at
2^31 elements: the amortised bound on copying holds for 2^31 + 1 pushes and is lost with the next one.

## What is assumed

* Of the kernel: `epoll_ctl` carries out an addition of an open, unregistered descriptor and a change or removal of a registered one,
  and refuses the rest, which the program does not notice; `close` drops a registration; `accept` hands out no descriptor that is
  already open; `epoll_wait` reports each registered slot at most once per call.
* What `accept`, `fcntl`, `recv`, `send`, `socket`, `epoll_create`, `time` and `realloc` answer is an input, so the theorems
  hold for every sequence of answers.
* `recv` and `send` move at most as many bytes as they are given room for.

## Model

| member | source | states |
|---|---|---|
| Timevals.ArithmeticIsExact | src/event2/util.h:174-191 | adding and subtracting are exact on the total number of microseconds for all inputs, and keep microseconds in [0, 10^6) |
| Timevals.AddSubUndo | src/event2/util.h:174-191 | on canonical timevals each of the two undoes the other, field by field |
| Timevals.TotalIsInjective | src/event2/util.h:174-191 | a canonical timeval is determined by its total, so that exactness pins the result down |
| Timevals.SubAsWrittenIsExactIffNoBorrow | src/event2/util.h:183-191 | the subtraction as written is right, and canonical, exactly when no borrow is taken; with one it is two seconds off |
| Timevals.SubAsWrittenFails | src/event2/util.h:189 | 1 s minus 1 us, as written, is -1000001 us |
| Timevals.CmpIsOnTotals | src/event2/util.h:193-196 | each of `<`, `>`, `<=`, `>=`, `==`, `!=` on canonical timevals is that comparison of their totals, and a timeval is set unless its total is zero |
| Timevals.CmpNeedsNormal | src/event2/util.h:193-195 | an input outside canonical form on which comparison and totals disagree |
| Timevals.GreaterIsStrictTotalOrder | src/event2/util.h:193-195 | `>` is irreflexive, transitive, asymmetric and total |
| Timevals.CmpIsShiftInvariant | src/event2/util.h:174-195 | adding or subtracting a common duration changes no comparison |
| Timevals.TimerAdd | src/event2/util.h:174-182 | the field-by-field macro gives the exact sum, in canonical form, also when the output is one of the inputs or both |
| Timevals.TimerSub | src/event2/util.h:183-191 | the same for the difference, with the repaired borrow |
| Timevals.TimerSubAsWritten | src/event2/util.h:183-191 | the macro's text computes what SubAsWrittenIsExactIffNoBorrow is about, whatever is aliased |
| Timevals.TimerClear | src/event2/util.h:192 | leaves a timeval that is canonical, zero and not set |
| HeapProofs.SiftUpOrders | src/event2/minheap-internal.h:157-167 | if order holds everywhere but above the hole, and across it, the sift up ends in a heap |
| HeapProofs.SiftDownOrders | src/event2/minheap-internal.h:169-185 | if order holds everywhere but below the hole, and across it, the sift down ends in a heap |
| HeapProofs.SiftUpPermutes | src/event2/minheap-internal.h:157-167 | the sift up loses and duplicates nothing: the multiset is that with the event in the hole |
| HeapProofs.SiftDownPermutes | src/event2/minheap-internal.h:169-185 | the same for the sift down |
| HeapProofs.PushCorrect | src/event2/minheap-internal.h:69-76 | push keeps order and adds exactly the one event |
| HeapProofs.RootIsMinimum | src/event2/minheap-internal.h:65-67 | no event is due before the root |
| HeapProofs.PopCorrect | src/event2/minheap-internal.h:78-86 | pop keeps order and removes exactly the root |
| HeapProofs.EraseCorrect | src/event2/minheap-internal.h:92-106 | erase at any position, the last included, keeps order with one sift in one direction and removes exactly that event |
| HeapProofs.EraseDirectionMatters | src/event2/minheap-internal.h:95-101 | sifting down alone restores order exactly when the last event is not due before the hole's parent |
| HeapProofs.AdjustCorrect | src/event2/minheap-internal.h:108-121 | adjust restores order from any heap broken only at the edges touching e, with the same members |
| HeapProofs.AdjustDirection | src/event2/minheap-internal.h:112-119 | adjust sifts up exactly when the event is due strictly before its parent, else down |
| HeapProofs.AnyKeyChangeIsAdjustable | src/event2/minheap-internal.h:108-121 | any new timeout for one event of a heap leaves a heap that adjust repairs |
| HeapProofs.DrainSorts | src/event2/minheap-internal.h:78-86 | popping until empty yields every event once, in nondecreasing timeout order |
| HeapProofs.UpMovesIsTheClimb | src/event2/minheap-internal.h:157-167 | the event ends as many levels up as others are moved, having passed exactly those due strictly after it, and stops below the first that is not |
| HeapProofs.DownMovesIsTheDescent | src/event2/minheap-internal.h:169-185 | the event ends as many levels below its hole as others are moved, and each of these is due strictly before it |
| HeapProofs.UpMovesLogarithmic | src/event2/minheap-internal.h:157-167 | a sift up in a heap of n events moves at most floor(log2 n) of them |
| HeapProofs.UnconditionalMovesLogarithmic | src/event2/minheap-internal.h:145-155 | the unconditional sift keeps the same bound |
| HeapProofs.DownMovesLogarithmic | src/event2/minheap-internal.h:169-185 | a sift down from position i moves at most floor(log2(n / (i + 1))) events |
| HeapProofs.ShiftKeepsOrder | src/event2/minheap-internal.h:38-39 | every timeout moved by one duration, forwards or backwards, is that much later or earlier, and heap order is kept and reflected |
| HeapWords.WordsAreExactUpTo | src/event2/minheap-internal.h:145-185 | the unsigned parent and child words and the signed stored index are the mathematical ones exactly up to their bounds; `(0-1)/2` is 2^31 - 1; only 2^32 - 1 is stored as -1 |
| HeapWords.PositionsFitIff | src/event2/minheap-internal.h:145-155 | the stored positions of n events are their positions exactly for n <= 2^31 |
| HeapWords.NewCapacityIs | src/event2/minheap-internal.h:126-129 | the capacity asked for in numbers: 8 at first, then doubled, less 2^32 from 2^31 on, and never fewer than needed |
| HeapWords.NewCapacitySuffices | src/event2/minheap-internal.h:123-130 | the capacity asked for suffices and never shrinks, also when doubling wraps |
| HeapWords.RequestFitsInSize | src/event2/minheap-internal.h:130-137 | a request is let through exactly when its byte count fits: always where size_t has 64 bits, up to 2^32 - 1 bytes where it has 32 |
| HeapGrowth.CopiesAreAmortised | src/event2/minheap-internal.h:123-143 | any run that never holds more than 2^31 + 1 events copies fewer than two elements for each event stored, with removals and refusals interleaved at will |
| HeapGrowth.FewStoresStayWithin | src/event2/minheap-internal.h:69-76 | a run that stores at most m events is one that never holds more than m |
| HeapGrowth.AmortisationEndsAtTheWrap | src/event2/minheap-internal.h:126-129 | k pushes and nothing else meet the bound exactly for k <= 2^31 + 1, the doubling having wrapped at 2^31 |
| HeapGrowth.AmortisedUpToIff | src/event2/minheap-internal.h:123-143 | a cap of m on the size guarantees the bound for every run under it exactly for m <= 2^31 + 1 |
| HeapRuns.PushRefines | src/event2/minheap-internal.h:69-76 | push is insertion into the map from events to timeouts, and keeps events distinct |
| HeapRuns.EraseRefines | src/event2/minheap-internal.h:92-106 | erase is removal of that event from the map |
| HeapRuns.AdjustRefines | src/event2/minheap-internal.h:108-121 | a new timeout and adjust is an update of the map |
| HeapRuns.PopIsFirstDue | src/event2/minheap-internal.h:78-86 | the event popped is one no other is due before |
| HeapRuns.StepRefines | src/event2/minheap-internal.h:69-121 | every operation keeps order and distinctness and is a step of the abstract priority queue, refused pushes included |
| HeapRuns.RunRefines | src/event2/minheap-internal.h:69-121 | any interleaving of push, pop, erase and adjust answers as the abstract priority queue may, and keeps the invariant |
| MinHeaps.MinHeap.constructor | src/event2/minheap-internal.h:41-45 | a new heap is valid and empty, and has copied nothing |
| MinHeaps.MinHeap.ElemInit | src/event2/minheap-internal.h:53-55 | a fresh event has no position and joins the events the invariant speaks of; the contents stay |
| MinHeaps.MinHeap.Empty | src/event2/minheap-internal.h:57-59 | true exactly when the heap holds nothing |
| MinHeaps.MinHeap.Top | src/event2/minheap-internal.h:65-67 | null exactly when empty, else an event no other is due before |
| MinHeaps.MinHeap.PositionIsFound | src/event2/event_struct.h:77-80 | an event's stored position is -1 exactly when it is outside the heap, else where it is found; the heap is one HeapRuns speaks of |
| MinHeaps.MinHeap.Reserve | src/event2/minheap-internal.h:123-143 | 0 exactly when there is room, or the allocator grants and the new capacity fits a 32-bit size_t in bytes where size_t has 32 bits; then room for n, contents kept, the old cells copied; else -1 and nothing changes |
| MinHeaps.MinHeap.Push | src/event2/minheap-internal.h:69-76 | joint invariant of order and positions; 0 exactly when there is room or room is granted, spelled out as for Reserve; on 0 the contents are those of the pushed heap and the capacity is known, on -1 nothing has changed; takes the step Store or Refuse of the account of copies, keeping it paid; moves at most floor(log2 n) events |
| MinHeaps.MinHeap.Pop | src/event2/minheap-internal.h:78-86 | null and no change when empty, else the first-due event, its position reset, everything else kept in a valid heap; the step Remove of the account; at most floor(log2 n) moves |
| MinHeaps.MinHeap.Erase | src/event2/minheap-internal.h:92-106 | -1 and no change for an event outside; else 0, exactly that event gone, its position reset, the heap valid; the step Remove of the account; at most floor(log2 n) moves |
| MinHeaps.MinHeap.Adjust | src/event2/minheap-internal.h:108-121 | pushes an event from outside, with the same answer and the same account of room and copies; repairs any change of the timeout of one inside, reallocating nothing; at most floor(log2 n) moves |
| MinHeaps.MinHeap.CopiesAreFew | src/event2/minheap-internal.h:123-143 | a heap changed by its operations alone has copied fewer than two elements for every event it ever stored |
| MinHeaps.MinHeap.PopAll | src/event2/minheap-internal.h:78-86 | popping the heap in place until it is empty yields its events once each in nondecreasing timeout order, and leaves no known event with a position |
| MinHeaps.MinHeap.Restore | src/event2/minheap-internal.h:111-120 | the branch for an event inside: from order broken around e to a valid heap with the same members |
| MinHeaps.MinHeap.ShiftUp | src/event2/minheap-internal.h:157-167 | in place, with a hole in the array: ends in the laid-out sift up, every position right, with the counted number of moves |
| MinHeaps.MinHeap.ShiftUpUnconditional | src/event2/minheap-internal.h:145-155 | the same, the first move being made without a comparison |
| MinHeaps.MinHeap.ShiftDown | src/event2/minheap-internal.h:169-185 | the same downwards, also when the hole is the cell just given up |
| MinHeaps.MinHeap.SmallerChild | src/event2/minheap-internal.h:174-176 | the branch-free child choice picks the right child unless there is none or it is due strictly after the left, without reading past the end |
| MinHeapAsWritten.TopNeverMeets | src/event2/minheap-internal.h:65-67 | as written, top is wrong on every heap |
| MinHeapAsWritten.PopFaultsIffNonempty | src/event2/minheap-internal.h:78-86 | as written, pop faults exactly when there is something to pop |
| MinHeapAsWritten.ShiftUpBreaksLinks | src/event2/minheap-internal.h:157-167 | as written, a sift up that does not fault always breaks a position |
| MinHeapAsWritten.PushMeetsIffRefused | src/event2/minheap-internal.h:69-76 | as written, push does its work exactly when it refuses to |
| MinHeapAsWritten.FirstPushFaults | src/event2/minheap-internal.h:166 | the very first push reaches cell 2^31 - 1 |
| MinHeapAsWritten.ShiftDownMisplaces | src/event2/minheap-internal.h:169-185 | as written, an event sifted down from outside is told a position it is not at |
| MinHeapAsWritten.ShiftDownDuplicates | src/event2/minheap-internal.h:169-185 | as written, an event sifted down from a position with children breaks the positions |
| MinHeapAsWritten.ShiftUpLoopLinks | src/event2/minheap-internal.h:145-155 | the unconditional sift, whose text is right, ends with every position right |
| MinHeapAsWritten.EraseMeetsIffLast | src/event2/minheap-internal.h:92-106 | as written, erase does its work exactly for an event outside, or for the last one when cell 2n exists |
| MinHeapAsWritten.EraseRootFails | src/event2/minheap-internal.h:92-106 | two events, the root erased: the root stays and the other event is outside the live cells |
| MinHeapAsWritten.EraseUpFails | src/event2/minheap-internal.h:96-105 | six events, the fourth erased through the upward sift: the caller is told -1, and the erased event its old position, where another one now is |
| MinHeapAsWritten.AdjustMeetsIff | src/event2/minheap-internal.h:111-120 | as written, adjust does its work exactly when the event moves up, or is childless and the stray store stays inside the array |
| MinHeapAsWritten.AdjustRootFails | src/event2/minheap-internal.h:111-120 | two events, the root adjusted with its timeout unchanged: it is stored over the other, which is lost |
| MinHeapAsWritten.AdjustOutsideIsPush | src/event2/minheap-internal.h:108-110 | for an event outside, adjust is push, and as written fails with it |
| QueueLinks.WalkEndsOrRepeats | src/event2/util-internal.h:97-107 | among finitely many nodes a chain of next pointers ends or comes back |
| QueueLinks.CursorsMeet | src/event2/util-internal.h:97-107 | on every graph the two cursors meet, at a node or past the end: the first loop terminates |
| QueueLinks.RevisitMeansCyclic | src/event2/util-internal.h:100-105 | cursors meeting at a node means that the chain has no end |
| QueueLinks.ChainIsUnique | src/event2/util-internal.h:108-115 | a queue that ends is one sequence of nodes |
| QueueLinks.OkIsAboutTheChain | src/event2/util-internal.h:108-140 | the verdicts of both checks are about that sequence |
| QueueLinks.TailqOkIsListOkAndTail | src/event2/util-internal.h:131-140 | soundness of a tail queue, said without naming the sequence: it is sound as a list, and its tail pointer is the location of the next field of the node after which the walk ends, if there is one |
| QueueLinks.ListOkIsAcyclicAndBackLinked | src/event2/util-internal.h:94-116 | soundness of a list, said without naming the sequence: it ends, and each node reached points back at the location pointing at it |
| QueueLinks.CheckTailqAsWrittenIsRightIff | src/event2/util-internal.h:118-141 | what Queue.CheckTailqAsWritten is proved to answer from the whole text is right exactly for sound non-empty queues |
| QueueLinks.CheckTailqAsWrittenPassesACycle | src/event2/util-internal.h:121 | a node that is its own successor passes |
| QueueLinks.InsertedChain | src/event2/event-internal.h:176-185 | whatever is put into the new element's prev, it comes exactly before the target in the forward chain |
| QueueLinks.InsertBeforeKeepsOk | src/event2/event-internal.h:176-185 | with the target's prev copied, every queue the check accepts is still accepted, the target being the head or not |
| QueueLinks.InsertBeforeAsWrittenIsAlwaysRejected | src/event2/event-internal.h:179 | with the target's next copied, both checks reject the queue, every time |
| Queues.Queue.Ends | src/event2/util-internal.h:98-107 | the tortoise-and-hare loop terminates on every graph, and passes exactly the chains that end |
| Queues.Queue.PointsBack | src/event2/util-internal.h:108-115 | the second loop passes exactly when every node points back, and leaves nextp at the last node's next field, or at the head of an empty queue |
| Queues.Queue.CheckNonempty | src/event2/util-internal.h:122-140 | everything behind the emptiness test, both loops and the tail test included: reads through null exactly for an empty queue, else passes exactly the sound ones |
| Queues.Queue.CheckList | src/event2/util-internal.h:94-116 | the list check terminates on every graph and passes exactly the sound lists |
| Queues.Queue.CheckTailq | src/event2/util-internal.h:118-141 | the tail-queue check terminates on every graph and passes exactly the queues sound as lists whose tail pointer is their last node's next location |
| Queues.Queue.CheckTailqAsWritten | src/event2/util-internal.h:118-141 | the whole text, with only its emptiness test as it stands: the verdict is the one the check is for exactly on sound non-empty queues; every other non-empty queue passes as well, and an empty one is read through a null pointer |
| Queues.Queue.Foreach | src/event2/event-internal.h:170-174 | visits the nodes of the queue once each, in order |
| Queues.Queue.InsertBefore | src/event2/event-internal.h:176-185 | the four stores, in place: the accepted queue is still accepted, the element exactly before the target |
| Reactor.FirstFree | src/reactor/reactorServer.cpp:113-117 | the first idle client slot, or 1024 when there is none; never the listener's |
| ReactorInvariant.LiveDescriptorsAreDistinct | src/reactor/reactorServer.cpp:64-97 | live slots hold distinct open descriptors |
| ReactorInvariant.EventAddIsLegal | src/reactor/reactorServer.cpp:70-77 | MOD is legal and ADD is not for a live slot; ADD is legal and MOD is not for an idle slot given an unregistered descriptor |
| ReactorInvariant.EventDelLoosens | src/reactor/reactorServer.cpp:86-97 | event_del takes exactly the slot's registration away and keeps table and kernel in agreement |
| ReactorInvariant.CloseSettles | src/reactor/reactorServer.cpp:159-166 | closing the descriptor of a slot just idled restores the full invariant |
| ReactorInvariant.RearmSettles | src/reactor/reactorServer.cpp:156-158 | setting and adding an idle slot again restores the full invariant |
| ReactorInvariant.AcceptAtMeetsIff | src/reactor/reactorServer.cpp:99-143 | with the outer `i` unset: for every value it may have, exactly when acceptconn does what it does with the search repaired |
| ReactorInvariant.AcceptAtRefusesWithRoom | src/reactor/reactorServer.cpp:119-122 | with 1024 idle slots and `i` happening to be 1024, the connection is refused, the invariant being kept |
| ReactorInvariant.AcceptAtKeepsIff | src/reactor/reactorServer.cpp:99-143 | with the outer `i` unset: for every value it may have, exactly when the server stays in its table with its invariant |
| ReactorInvariant.AdmitOverLiveBreaks | src/reactor/reactorServer.cpp:132-133 | a connection put over a live slot always breaks the agreement of kernel and table |
| ReactorInvariant.AcceptAtFails | src/reactor/reactorServer.cpp:102-119 | a freshly started server leaves its table when `i` happens to be -1 |
| ReactorInvariant.AcceptKeeps | src/reactor/reactorServer.cpp:99-143 | with the search repaired, acceptconn keeps the invariant and every live slot with its connection |
| ReactorInvariant.ReceiveKeeps | src/reactor/reactorServer.cpp:145-169 | recvdata keeps the invariant whatever recv answers |
| ReactorInvariant.SendKeeps | src/reactor/reactorServer.cpp:171-189 | senddata keeps the invariant whatever send answers |
| ReactorInvariant.CallKeeps | src/reactor/reactorServer.cpp:255-261 | a live slot's callback is set, runs on its own slot, keeps the invariant and leaves every other live slot and its connection alone |
| ReactorInvariant.CloseThenDel | src/reactor/reactorServer.cpp:238-242 | the sweep's order, closing first and removing after, ends as the callbacks' order does |
| ReactorInvariant.SweepStepKeeps | src/reactor/reactorServer.cpp:229-244 | one step of the sweep keeps the invariant |
| ReactorInvariant.SweepKeeps | src/reactor/reactorServer.cpp:229-244 | any number of steps does |
| ReactorInvariant.StartEstablishesIff | src/reactor/reactorServer.cpp:191-220 | start-up establishes the invariant exactly when epoll_create and socket both answer with a descriptor |
| ReactorEcho.Sizes | src/reactor/reactorServer.cpp:24-25 | 1024 client slots and the listener's, 128 bytes of buffer each |
| ReactorEcho.ReceiveOutcome | src/reactor/reactorServer.cpp:145-169 | waiting bytes, all of them up to 128 or the first 128, are held for sending on the same descriptor, freshly stamped, with a length of zero if the NUL wiped it out; anything else closes slot and descriptor; no other slot changes |
| ReactorEcho.SendOutcome | src/reactor/reactorServer.cpp:171-189 | the whole chunk received just before is sent if there is room for it, else exactly its first bytes that there is room for, and the slot reads again; no room, or no length left, closes it |
| ReactorEcho.AcceptOutcome | src/reactor/reactorServer.cpp:99-143 | the connection goes into the first idle of 1024 slots with a number never used; without one, or without O_NONBLOCK, its descriptor stays open |
| ReactorEcho.FailedAcceptChangesNothing | src/reactor/reactorServer.cpp:104-110 | an accept that gives no descriptor changes nothing |
| ReactorEcho.ReceiveConverses | src/reactor/reactorServer.cpp:145-169 | recvdata keeps receives and sends alternating on every connection |
| ReactorEcho.SendConverses | src/reactor/reactorServer.cpp:171-189 | senddata keeps them alternating, each send a prefix of the chunk before |
| ReactorEcho.AcceptConverses | src/reactor/reactorServer.cpp:99-143 | acceptconn starts an empty conversation without touching the others |
| ReactorEcho.CallConverses | src/reactor/reactorServer.cpp:255-261 | whichever callback a live slot has keeps the conversations |
| ReactorEcho.SweepConverses | src/reactor/reactorServer.cpp:229-244 | so does the sweep |
| ReactorEcho.StartConverses | src/reactor/reactorServer.cpp:191-220 | a server that gets its two descriptors starts with both invariants |
| ReactorEcho.EchoIsExact | src/reactor/reactorServer.cpp:145-189 | if every send is complete, the received stream is the sent stream and at most one pending chunk |
| ReactorEcho.EchoOfLiveConnection | src/reactor/reactorServer.cpp:145-189 | in every server state the pending chunk of a live connection is what its slot holds for sending |
| ReactorRuns.ReceiveEndsWritingOrDead | src/reactor/reactorServer.cpp:255-261 | after a slot closed itself in the first test of its entry, the second test does not fire |
| ReactorRuns.Entry | src/reactor/reactorServer.cpp:253-262 | one entry keeps both invariants and every other live slot with its connection |
| ReactorOutcomes.EntryReads | src/reactor/reactorServer.cpp:255-257 | a client slot waiting to read and reported readable runs recvdata on its own descriptor |
| ReactorOutcomes.EntryReadsAndWrites | src/reactor/reactorServer.cpp:255-261 | reported writable as well, it then runs senddata, exactly if recvdata has not closed it |
| ReactorOutcomes.EntryWrites | src/reactor/reactorServer.cpp:259-261 | a client slot waiting to write and reported writable runs senddata |
| ReactorOutcomes.EntryAccepts | src/reactor/reactorServer.cpp:255-257 | the listener reported readable runs acceptconn |
| ReactorOutcomes.EntryIgnores | src/reactor/reactorServer.cpp:255-261 | an entry reporting nothing its slot waits for changes nothing |
| ReactorOutcomes.EntryOutcome | src/reactor/reactorServer.cpp:253-262 | what an entry puts on its slot's connection, for every combination of masks and answers, and whether the connection outlives it |
| ReactorOutcomes.RoundOutcome | src/reactor/reactorServer.cpp:226-262 | over a whole round, whatever the other entries close and open: every ready client slot's connection has had exactly that put on it, and is still open in its slot exactly if it outlives its entry |
| ReactorOutcomes.RoundLeavesAlone | src/reactor/reactorServer.cpp:226-262 | over a whole round, a live slot without an entry and its connection's log are untouched |
| ReactorOutcomes.RoundAccepts | src/reactor/reactorServer.cpp:226-262 | over a whole round, what the listener's entry accepts ends in the slot that was the first idle one when its turn came, or refused when there was none or fcntl failed |
| ReactorRuns.Dispatch | src/reactor/reactorServer.cpp:253-262 | no stale dispatch: when an entry's turn comes its slot holds the connection it held when the batch was taken, whatever was closed and reused meanwhile |
| ReactorRuns.Run | src/reactor/reactorServer.cpp:225-263 | both invariants hold in every state any run of sweeps and batches reaches |
| SlotMemory.EndStringIsTheStore | src/reactor/reactorServer.cpp:39-40 | derived from the bytes of `buf` and `len`: the NUL behind n bytes ends the string inside the buffer; at its end it makes a length of 128 read back as 0 where the low byte is first, and leaves it where the high byte is |
| SlotMemory.ValueOfBytes | src/reactor/reactorServer.cpp:40-40 | what is written to `len` is read back, in either byte order |
| ReactorLayouts.FullReadIsNeverEchoed | src/reactor/reactorServer.cpp:145-189 | as written, low byte first, in every run: a chunk that fills the buffer is the last thing ever to go over its connection |
| ReactorLayouts.RunsAlikeIff | src/reactor/reactorServer.cpp:148-153 | a run as written and the same run with the NUL left out go through the same states exactly if the high byte is first or no read in the run fills the buffer |
| ReactorServer.EchoServer.StoreNul | src/reactor/reactorServer.cpp:153-153 | the store of one byte into the slot's memory is the step EndStringIsTheStore speaks of |
| ReactorRuns.ListenerStays | src/reactor/reactorServer.cpp:45-45 | in every run the listener's slot stays live, reading, with acceptconn, and unchanged |
| ReactorRuns.OnlyRefusedLeak | src/reactor/reactorServer.cpp:119-130 | in every run the open descriptors are the epoll instance, those of live slots, and the refused ones |
| ReactorTimeout.CursorMoves | src/reactor/reactorServer.cpp:229-232 | the k-th step of a sweep looks at the slot k ahead of the cursor, cyclically |
| ReactorTimeout.TurnIsDistance | src/reactor/reactorServer.cpp:229-232 | so within 1024 steps each slot is looked at exactly once, at its distance |
| ReactorTimeout.SweptIs | src/reactor/reactorServer.cpp:228-244 | the sweep of a round closes exactly the live slots idle for 60 seconds among the 100 that follow the cursor modulo 1024, leaves every other slot as it is, and leaves the cursor 100 on |
| ReactorTimeout.FirstSweep | src/reactor/reactorServer.cpp:225-232 | the first sweep of a started server looks at slots 0 to 99 in this order |
| ReactorTimeout.ElevenSweepsVisitAll | src/reactor/reactorServer.cpp:226-263 | in any eleven rounds, with any clocks and any callbacks in between, the sweep looks at every client slot |
| ReactorTimeout.SweepSparesActive | src/reactor/reactorServer.cpp:237-243 | a slot not idle for 60 seconds keeps its connection and descriptor through any sweep |
| ReactorTimeout.SweepSparesUnvisited | src/reactor/reactorServer.cpp:229-243 | so does a slot whose turn does not come |
| ReactorTimeout.SweepClosesIdle | src/reactor/reactorServer.cpp:233-243 | a live slot idle for 60 seconds is closed, with its descriptor, when its turn comes |
| ReactorTimeout.TurnComes | src/reactor/reactorServer.cpp:225-263 | over whole rounds: a slot's turn comes in the round its distance from the cursor, counted in hundreds, says, after at most ten; if no callback runs on it until then it is closed there exactly if idle |
| ReactorTimeout.ElevenRoundsCloseIdle | src/reactor/reactorServer.cpp:225-263 | a slot idle by the clock of each of eleven rounds, no callback running on it, is closed by one of their sweeps, with its descriptor |
| ReactorTimeout.Int32IsExactIff | src/reactor/reactorServer.cpp:55-55 | the stamp is the time exactly before 2^31 seconds, and 2^32 less from then on |
| ReactorTimeout.IdleTestIsRightIff | src/reactor/reactorServer.cpp:237-238 | the idle test with the truncated stamp is the intended one exactly when the stamp fits or the slot is idle anyway |
| ReactorTimeout.ActiveWithinAMinuteSurvives | src/reactor/reactorServer.cpp:237-243 | in every reachable state, a slot whose last callback ran less than 60 seconds ago outlives the next sweep, as long as that second fits an int |
| ReactorTimeout.SweepClosesActiveAfter2038 | src/reactor/reactorServer.cpp:55-55 | a connection admitted at second 2^31 is closed in that second |
| ReactorServer.EchoServer.constructor | src/reactor/reactorServer.cpp:44-45 | the table starts zeroed |
| ReactorServer.EchoServer.SetEvent | src/reactor/reactorServer.cpp:47-59 | field by field, exactly one slot changes, idle, without events, stamped, and its buffer and length do not |
| ReactorServer.EchoServer.AddEvent | src/reactor/reactorServer.cpp:64-84 | takes the state machine's step, on which EventAddIsLegal and RearmSettles rest |
| ReactorServer.EchoServer.DelEvent | src/reactor/reactorServer.cpp:86-97 | takes the step of EventDelLoosens, and none for an idle slot |
| ReactorServer.EchoServer.SearchFree | src/reactor/reactorServer.cpp:113-117 | the loop, counting in the outer variable, finds the first idle client slot |
| ReactorServer.EchoServer.AcceptConnection | src/reactor/reactorServer.cpp:99-143 | takes the step of AcceptKeeps and AcceptOutcome |
| ReactorServer.EchoServer.Receive | src/reactor/reactorServer.cpp:145-169 | takes the step of ReceiveKeeps and ReceiveOutcome, the NUL stored where it falls |
| ReactorServer.EchoServer.Send | src/reactor/reactorServer.cpp:171-189 | takes the step of SendKeeps and SendOutcome |
| ReactorServer.EchoServer.CallBack | src/reactor/reactorServer.cpp:256-256 | the indirect call takes the step that EntryReads, EntryWrites and EntryAccepts say it is |
| ReactorServer.EchoServer.InitListen | src/reactor/reactorServer.cpp:191-207 | takes the step of StartEstablishesIff |
| ReactorServer.EchoServer.SweepLoop | src/reactor/reactorServer.cpp:228-244 | the loop of a hundred steps, wrapping its cursor, is the sweep SweptIs speaks of |
| ReactorServer.EchoServer.DispatchLoop | src/reactor/reactorServer.cpp:253-262 | the loop over the ready entries is the dispatch that is never stale, each entry with the outcome EntryOutcome gives it |
| ReactorServer.EchoServer.OneRound | src/reactor/reactorServer.cpp:226-262 | one turn of the endless loop is one round of the runs above, with the outcomes RoundOutcome, RoundAccepts and SweptIs give it |

## Left out

- MinHeaps.MinHeap.Push: the operations are called with at most 2^31 - 1 events in the heap, which a push may raise to 2^31. That is as far as stored positions can be right at all (HeapWords.PositionsFitIff): whatever event the next push put into cell 2^31 would be told -2^31. What the operations do with such a heap is not modelled.
- Timevals.TimerAdd: does not model overflow of `tv_sec`; seconds are unbounded.
- MinHeapAsWritten.Push: the unrepaired heap operations are modelled on values, not in place, so that whole memories can be compared; aliasing is captured by the map from events to stored positions.
- MinHeapAsWritten.Pop: a read of an unused cell or a store outside the array is a fault; what a C program does after it is not modelled.
- SlotMemory.EndStringIsTheStore: `len` directly follows `buf`, as it does for every alignment of int up to four bytes, and is read in one of the two usual byte orders; other layouts are not modelled.
- ReactorInvariant.AcceptAtKeepsIff: what a store outside the table does is not modelled; leaving the table is the end of the run.
- `min_heap_dtor_`, `min_heap_size_` and `min_heap_elt_is_stop_`: one field or one call each.
- The union of `min_heap_idx` with the link of the common-timeout queue: the index is a field of its own.
- The allocator: `realloc` fails or copies; contents of fresh cells are not modelled.
- Sockets, epoll and printing themselves: only their answers are, as inputs. `fcntl`, `bind` and `listen` on the listening socket have no effect in the model, as their answers are not looked at.
- `epoll_wait` failing ends the program; the runs are those in which it does not.
- `src/epollDemo`, `src/eventBaseDemo`, `src/log.c`, the flag constants and configuration headers, and the APIs of which only prototypes exist: no state or loop of their own to prove anything hard about.
- Threads and locks: the modelled code is single-threaded.
