# Sorted linked-list sets, a fine-grained priority queue, and A* search

This project models the core of a parallel-computing exercise repository in
Dafny and proves properties of that model. The core has three parts:

- **Three sorted linked-list sets of 32-bit integers.** Each implements one
  set interface: a sequential list, a list under one reader-writer lock with
  an element counter, and a list with one lock per node searched
  hand-over-hand. Every list runs from a head sentinel holding
  `numeric_limits<int>::lowest()` to a tail sentinel holding `max()`.
- **A priority queue kept as a sorted linked list with one lock per node.**
  `push` inserts before the first element that is not below the value, so
  equal priorities leave in arrival order. `pop` removes the cell just
  before the tail.
- **A\* search over a road network.** This covers the sequential
  `AStar::search` and the four parallel drivers, which relax the popped
  node's edges in per-thread chunks. On the Python side it covers the test
  driver's conversion of a NetworkX graph into the two dictionaries the
  network is built from, and its decision whether the C++ and NetworkX
  paths agree.

## How the model is built

**Linked lists.** Each list is a pool of cells, stored as a `seq` of
(value, next-index) pairs. Index 0 is the head sentinel, 1 the tail and -1
null. A ghost `spine` lists the data cells in order, and the classes'
methods update the pool in place, as the C++ code updates `next` pointers.

**Locks.** A lock is membership of a cell's index in a ghost set of locks
the calling thread holds. Each operation of the locked structures is
verified as if it ran alone, from a quiescent structure.

**What is proved about the lists:**

- The order invariant is preserved.
- Add and remove report whether the set changed, and change exactly one
  element.
- Size counts the elements.
- The order check succeeds on every valid list.
- For the queue:
  - push keeps the invariant and keeps equal priorities in arrival order;
  - pop returns the highest priority, and among equal priorities the
    earliest push;
  - draining the queue yields its multiset in non-increasing order, with
    equal priorities first-in first-out.

**A\* search.**

- The open set is a multiset of (id, f) entries. Each step pops an entry of
  least f, and any tie-break is allowed, so both the `std::priority_queue`
  and the sorted-list queue containers are covered.
- Path length is a natural number. The heuristic is a parameter: it is
  `max()` (here `None`) when either node record has id 0.
- **What is proved:**
  - unknown start and goal ids give the two errors;
  - a non-empty result is a path from start to goal along edges whose every
    node after the start could be pushed;
  - an empty result means no such path exists.
- The search loop terminates. Its measure is, in order:
  1. the nodes never scored;
  2. the sum of the g scores;
  3. the number of open entries.
- The chunked edge loops of the parallel drivers have the same effect as
  relaxing all edges in order. Every edge index falls in exactly one
  thread's chunk.

**Graph conversion.** The model states what the test driver's conversion
produces:

- the coordinate map;
- one list per weighted-edge source, holding each target once, in order of
  first appearance, with its least weight;
- empty lists for nodes that have coordinates and no list.

Source paths below are relative to the repository root.

## Model

| member | source | states |
|---|---|---|
| ISet.AscendingCardinality | cpp_integration/include/data_structure/set_sequential.h:139-149 | a strictly ascending list has exactly as many cells as distinct elements, so counting cells gives the set's size |
| ISet.StopPosition | cpp_integration/include/data_structure/set_sequential.h:95-100 | where the sorted walk stops decides membership: v is in the set exactly when the cell there holds v |
| ISet.InsertAscending | cpp_integration/include/data_structure/set_sequential.h:102-122 | inserting an absent value at its stop position keeps the list strictly ascending and adds exactly that value |
| ISet.RemoveAscending | cpp_integration/include/data_structure/set_sequential.h:124-136 | removing one cell keeps the list strictly ascending and removes exactly its value |
| LinkedCells.LinkAfter | cpp_integration/include/data_structure/set_sequential.h:114-115 | linking a new cell after position k leaves a well-formed list whose contents have the new value inserted at k |
| LinkedCells.Unlink | cpp_integration/include/data_structure/set_sequential.h:131 | redirecting the cell at position k past its successor leaves a well-formed list with that one element removed |
| LinkedCells.PosInjective | cpp_integration/include/data_structure/set_sequential.h:33-43 | distinct positions on the walk from head to tail are distinct cells, so the walk never revisits a cell |
| SortedSetList.EmptyPool | cpp_integration/include/data_structure/set_sequential.h:47-71 | the initial pool is a valid empty list with head linked straight to tail |
| SortedSetList.FindPredecessor | cpp_integration/include/data_structure/set_sequential.h:33-43 | find_node returns the cell at the position k where every earlier value is below v and the value at k, if any, is at least v |
| SortedSetList.CheckSortedChain | cpp_integration/include/data_structure/set_sequential.h:152-171 | the order check returns true exactly when the head value followed by the contents never decreases |
| SortedSetList.SortedListPassesCheck | cpp_integration/include/data_structure/set_sequential.h:152-171 | on every well-formed set the order check's condition holds |
| SortedSetList.SpliceInPreserves | cpp_integration/include/data_structure/set_sequential.h:112-121 | the add splice at the stop position of an absent value keeps the sorted-list invariant and adds exactly v to the set |
| SortedSetList.SpliceOutPreserves | cpp_integration/include/data_structure/set_sequential.h:129-134 | the remove splice keeps the sorted-list invariant and removes exactly the unlinked value |
| SetSequential.SortedLinkedListSequential.constructor | cpp_integration/include/data_structure/set_sequential.h:47-71 | a fresh set is valid and empty, its head linked to its tail |
| SetSequential.SortedLinkedListSequential.Contains | cpp_integration/include/data_structure/set_sequential.h:95-100 | true exactly when v is in the set |
| SetSequential.SortedLinkedListSequential.Add | cpp_integration/include/data_structure/set_sequential.h:102-122 | true exactly when v was absent; afterwards the set is the old one plus v; a duplicate leaves the list untouched |
| SetSequential.SortedLinkedListSequential.Remove | cpp_integration/include/data_structure/set_sequential.h:124-136 | true exactly when v was present; afterwards the set is the old one minus v; an absent value leaves the list untouched |
| SetSequential.SortedLinkedListSequential.Size | cpp_integration/include/data_structure/set_sequential.h:139-149 | the walk's count is the number of elements of the set |
| SetSequential.SortedLinkedListSequential.CheckInvariants | cpp_integration/include/data_structure/set_sequential.h:152-171 | the result is the non-decreasing test over the head sentinel and the contents, and it is true on every valid set |
| SetCoarse.SortedLinkedListCoarseLock.constructor | cpp_integration/include/data_structure/set_coarse.h:54-79 | a fresh set is valid and empty with counter 0 |
| SetCoarse.SortedLinkedListCoarseLock.Contains | cpp_integration/include/data_structure/set_coarse.h:105-111 | true exactly when v is in the set |
| SetCoarse.SortedLinkedListCoarseLock.Add | cpp_integration/include/data_structure/set_coarse.h:114-143 | add's outcome and new set as for the ISet interface, with the counter kept equal to the number of elements |
| SetCoarse.SortedLinkedListCoarseLock.Remove | cpp_integration/include/data_structure/set_coarse.h:146-169 | remove's outcome and new set as for the ISet interface, with the counter kept equal to the number of elements |
| SetCoarse.SortedLinkedListCoarseLock.Size | cpp_integration/include/data_structure/set_coarse.h:172-176 | the counter is the number of elements |
| SetCoarse.SortedLinkedListCoarseLock.CheckInvariants | cpp_integration/include/data_structure/set_coarse.h:179-202 | the order check's result is the non-decreasing test and it is true on every valid set |
| SetFine.SortedLinkedListFineLock.constructor | cpp_integration/include/data_structure/set_fine.h:86-110 | a fresh set is valid and empty, with no lock held |
| SetFine.SortedLinkedListFineLock.Lock | cpp_integration/include/data_structure/set_fine.h:30 | taking a cell's non-recursive mutex requires that the thread does not hold it, and adds it to the held set |
| SetFine.SortedLinkedListFineLock.Unlock | cpp_integration/include/data_structure/set_fine.h:32 | releasing requires the thread to hold the lock, and removes it from the held set |
| SetFine.SortedLinkedListFineLock.FindAndLockHoh | cpp_integration/include/data_structure/set_fine.h:46-75 | the hand-over-hand walk never takes a lock twice and returns the two distinct cells around v's stop position, with exactly their two locks held |
| SetFine.SortedLinkedListFineLock.Contains | cpp_integration/include/data_structure/set_fine.h:135-161 | true exactly when v is in the set; every lock is released |
| SetFine.SortedLinkedListFineLock.Add | cpp_integration/include/data_structure/set_fine.h:163-211 | add's outcome and new set as for the ISet interface, the counter kept equal to the size, every lock released |
| SetFine.SortedLinkedListFineLock.LinkNew | cpp_integration/include/data_structure/set_fine.h:173-185 | the splice under the two locks keeps the set valid and adds exactly v |
| SetFine.SortedLinkedListFineLock.Remove | cpp_integration/include/data_structure/set_fine.h:213-260 | remove's outcome and new set as for the ISet interface, the counter kept equal to the size, every lock released |
| SetFine.SortedLinkedListFineLock.UnlinkNext | cpp_integration/include/data_structure/set_fine.h:224-235 | the unlink under the two locks keeps the set valid and removes exactly the value at that position |
| SetFine.SortedLinkedListFineLock.Size | cpp_integration/include/data_structure/set_fine.h:263-267 | the counter is the number of elements |
| SetFine.SortedLinkedListFineLock.CheckInvariants | cpp_integration/include/data_structure/set_fine.h:272-295 | the unlocked order check's result is the non-decreasing test and it is true on every quiescent valid set |
| SetFine.AddAllDistinct | cpp_integration/tests/set_concurrent_test.cpp:82-106 | adding pairwise distinct values to an empty set (one interleaving of the concurrent adders) and counting the adds that return true gives one success per value; the counter and the set end as exactly those values |
| IPQ.PushPosition | cpp_integration/include/data_structure/pq_fine.h:75-95 | the push position is the first index whose element is not below v: everything before it is below v |
| IPQ.PushKeepsOrder | cpp_integration/include/data_structure/ipq.h:26-31 | inserting at the push position keeps the queue ascending under the comparator |
| IPQ.PushKeepsFifo | cpp_integration/include/data_structure/ipq.h:26-31 | inserting at the push position with a stamp later than all others keeps equal priorities in arrival order |
| IPQ.InsertKeepsFifo | cpp_integration/include/data_structure/pq_fine.h:167-168 | inserting a newest element after everything below it keeps equal priorities in arrival order |
| IPQ.LastIsHighest | cpp_integration/include/data_structure/ipq.h:33-38 | the last element of an ordered queue has the highest priority |
| IPQ.LastIsOldest | cpp_integration/include/data_structure/ipq.h:14-16 | the last element is the earliest push among the elements of its priority |
| IPQ.DropLastKeepsOrder | cpp_integration/include/data_structure/pq_fine.h:229-231 | removing the last element keeps both the order and the arrival order |
| IPQ.OrderedIsAdjacentOrdered | cpp_integration/include/data_structure/pq_fine.h:265-276 | an ordered queue passes the comparison of each data cell with the one before it |
| IPQ.HeadCheckPassesWhenHeadIsLowest | cpp_integration/include/data_structure/pq_fine.h:259-276 | the comparison with the head sentinel also passes when no element is below the head value |
| IPQ.DrainOrder | cpp_integration/tests/pq_sequential_test.cpp:241-290 | emptying a queue from the tail yields its multiset in non-increasing priority with equal priorities in push order |
| IPQ.ReverseNonIncreasing | cpp_integration/tests/pq_sequential_test.cpp:241-290 | an ordered queue read from the tail never goes up in priority |
| IPQ.ReverseFifo | cpp_integration/tests/pq_sequential_test.cpp:241-290 | a queue in arrival order, read from the tail, gives equal priorities in push order |
| Seqs.ReverseMultiset | cpp_integration/src/demo/astar.cpp:69 | reversing keeps the multiset of elements |
| PqFine.SortedLinkedListFineLockPQ.constructor | cpp_integration/include/data_structure/pq_fine.h:99-127 | a fresh queue holds the comparator and the two sentinel values, is valid and empty, and holds no lock |
| PqFine.SortedLinkedListFineLockPQ.Lock | cpp_integration/include/data_structure/pq_fine.h:43 | taking a cell's mutex requires that the thread does not hold it |
| PqFine.SortedLinkedListFineLockPQ.Unlock | cpp_integration/include/data_structure/pq_fine.h:45 | releasing requires the thread to hold the lock |
| PqFine.SortedLinkedListFineLockPQ.FindAndLockForPush | cpp_integration/include/data_structure/pq_fine.h:75-95 | the walk returns the two distinct cells around the push position with exactly their locks held |
| PqFine.SortedLinkedListFineLockPQ.Push | cpp_integration/include/data_structure/pq_fine.h:154-187 | v is inserted at the push position with the newest stamp; the invariant holds; size is up by one; the multiset gains v; no lock is left held |
| PqFine.SortedLinkedListFineLockPQ.LinkNew | cpp_integration/include/data_structure/pq_fine.h:167-170 | the splice at the push position keeps the invariant and inserts v there |
| PqFine.SortedLinkedListFineLockPQ.Pop | cpp_integration/include/data_structure/pq_fine.h:189-242 | an empty queue gives no value and is unchanged; otherwise pop returns and removes the last element, which has the highest priority and is the earliest push of that priority; no lock is left held |
| PqFine.SortedLinkedListFineLockPQ.WalkToLast | cpp_integration/include/data_structure/pq_fine.h:210-219 | the walk ends holding exactly the locks of the last two cells before the tail |
| PqFine.SortedLinkedListFineLockPQ.UnlinkLast | cpp_integration/include/data_structure/pq_fine.h:229-231 | redirecting the next-to-last cell to the tail keeps the invariant and drops exactly the last element |
| PqFine.SortedLinkedListFineLockPQ.Empty | cpp_integration/include/data_structure/pq_fine.h:244-248 | true exactly when the queue holds no element |
| PqFine.SortedLinkedListFineLockPQ.Size | cpp_integration/include/data_structure/pq_fine.h:250-254 | the counter is the number of elements |
| PqFine.SortedLinkedListFineLockPQ.CheckInvariantsAsWritten | cpp_integration/include/data_structure/pq_fine.h:256-284 | the check as written: the comparison test over the head sentinel followed by the contents |
| PqFine.SortedLinkedListFineLockPQ.CheckInvariants | cpp_integration/include/data_structure/pq_fine.h:256-284 | the check over data cells only; it is true on every valid queue, whatever the comparator |
| PqFine.PushKeepsInv | cpp_integration/include/data_structure/pq_fine.h:164-170 | the push splice keeps the queue invariant and inserts v at its position with the clock as its stamp |
| PqFine.DropLastKeepsInv | cpp_integration/include/data_structure/pq_fine.h:229-231 | the pop splice keeps the queue invariant and drops the last element and its stamp |
| PqFine.OrderCheck | cpp_integration/include/data_structure/pq_fine.h:256-284 | the walk returns true exactly when each compared pair is in order and the count equals the counter |
| PqFine.PushPositionUnique | cpp_integration/include/data_structure/pq_fine.h:75-95 | the walk's stopping index is the push position |
| PqFine.Drain | cpp_integration/tests/pq_sequential_test.cpp:241-290 | popping until empty gives the reversed contents: the same multiset, non-increasing, with equal priorities in push order |
| PqFineGreater.GreaterIsStrictWeakOrder | cpp_integration/src/demo/astar.cpp:251 | std::greater, A*'s comparator, is a strict weak order |
| PqFineGreater.AsWrittenCheckRejectsGreater | cpp_integration/include/data_structure/pq_fine.h:271 | under std::greater the as-written check fails on any queue whose first element is above lowest() |
| PqFineGreater.PushZeroThenCheck | cpp_integration/include/data_structure/pq_fine.h:256-284 | a fresh greater-ordered queue after push(0): the as-written check fails and the corrected check succeeds |
| AStarRelax.RelaxEdgeEffect | cpp_integration/src/demo/astar.cpp:84-119 | one edge gives its target a g score and grows no existing score; the open set only gains entries for the target, and only when it is pushable; an improving edge writes the target's g score and predecessor whether or not it is pushable, and pushes exactly when it is; any other edge changes nothing |
| AStarRelax.NeighborSearchTask | cpp_integration/src/demo/astar.cpp:200-249 | the task's loop over [begin, end) has exactly the effect of relaxing those edges in order |
| AStarRelax.RelaxRangeSplit | cpp_integration/src/demo/astar.cpp:364-377 | relaxing a range is relaxing its two halves in turn |
| AStarRelax.RelaxRangeEffect | cpp_integration/src/demo/astar.cpp:84-119 | a range adds exactly its targets to the g scores, grows no existing score, and pushes only pushable nodes |
| AStarChunks.ChunkSize | cpp_integration/src/demo/astar.cpp:365 | the rounded-up chunk size is the least one with which NUM_THREADS chunks cover all edges |
| AStarChunks.ChunkMembership | cpp_integration/src/demo/astar.cpp:364-377 | every edge index lies in exactly one thread's chunk, thread index / chunk_size, which is below NUM_THREADS |
| AStarChunks.ChunkStep | cpp_integration/src/demo/astar.cpp:368-371 | a chunk starting before the end is non-empty and ends where the next begins; every chunk from the end on is empty |
| AStarChunks.NextChunk | cpp_integration/src/demo/astar.cpp:368-377 | relaxing chunk t after the earlier chunks covers the edges up to chunk t + 1's start |
| AStarChunks.RunChunk | cpp_integration/src/demo/astar.cpp:368-377 | one turn of the chunk loop, with or without skipping empty chunks, extends the relaxed prefix to the next chunk's start |
| AStarChunks.ExpandInChunks | cpp_integration/src/demo/astar.cpp:443-454 | the chunked expansion (thread pool or thread vector) equals relaxing all edges in order |
| AStarSearch.MinExists | cpp_integration/src/demo/astar.cpp:54-55 | a non-empty open set has an entry of least f |
| AStarSearch.InitialState | cpp_integration/src/demo/astar.cpp:47-50 | the state before the loop, with the start alone scored 0 and open, satisfies both loop invariants |
| AStarSearch.PopKeepsSound | cpp_integration/src/demo/astar.cpp:54-55 | popping a non-goal entry keeps the state sound and shrinks the loop measure; a popped node without an adjacency list leaves the state complete |
| AStarSearch.PopKeepsComplete | cpp_integration/src/demo/astar.cpp:54-55 | after a pop, every node still open or expanded stays so, except the popped one |
| AStarSearch.DroppedKeepsComplete | cpp_integration/src/demo/astar.cpp:80-81 | skipping a popped non-goal node with no adjacency list keeps the state complete |
| AStarSearch.SoundAfterImprove | cpp_integration/src/demo/astar.cpp:93-97 | one improving write of g and came_from keeps the state sound |
| AStarSearch.ParentsAfterImprove | cpp_integration/src/demo/astar.cpp:93-97 | after an improving write every predecessor link is still an edge from a popable node and strictly decreasing in (g, time of write) |
| AStarSearch.OpenAfterImprove | cpp_integration/src/demo/astar.cpp:99-109 | pushing only pushable entries keeps every open entry scored and popable |
| AStarSearch.RelaxEdgeKeepsSound | cpp_integration/src/demo/astar.cpp:84-119 | relaxing one edge of the node being expanded keeps the state sound |
| AStarSearch.RelaxRangeKeepsSound | cpp_integration/src/demo/astar.cpp:84-119 | relaxing a range of its edges keeps the state sound |
| AStarSearch.RelaxEdgeKeepsComplete | cpp_integration/src/demo/astar.cpp:84-119 | relaxing one edge keeps every other node open or expanded |
| AStarSearch.RelaxRangeKeepsComplete | cpp_integration/src/demo/astar.cpp:84-119 | relaxing a range keeps every other node open or expanded |
| AStarSearch.SumGDecrease | cpp_integration/src/demo/astar.cpp:93-97 | lowering one g score lowers the sum of all g scores |
| AStarSearch.RelaxEdgeProgress | cpp_integration/src/demo/astar.cpp:93-97 | relaxing an edge either scores a new node, lowers the sum of g scores, or changes no score |
| AStarSearch.RelaxRangeProgress | cpp_integration/src/demo/astar.cpp:84-119 | the same for a range of edges |
| AStarSearch.ExpandKeepsInvariants | cpp_integration/src/demo/astar.cpp:84-119 | expanding the popped non-goal node re-establishes soundness and completeness without raising the measure |
| AStarSearch.ProgressDecreased | cpp_integration/src/demo/astar.cpp:52-55 | a pop followed by an expansion strictly decreases the loop measure |
| AStarSearch.PathInScores | cpp_integration/src/demo/astar.cpp:122-123 | with the open set empty, every node on a pushable path from the start has a g score |
| AStarSearch.ExhaustedMeansNoPath | cpp_integration/src/demo/astar.cpp:122-123 | an exhausted open set means no pushable path from start to goal exists |
| AStarSearch.Expand | cpp_integration/src/demo/astar.cpp:361-379 | every driver's edge loop equals relaxing all edges of the popped node in order |
| AStarSearch.Reconstruct | cpp_integration/src/demo/astar.cpp:59-71 | following predecessors from the goal terminates and, reversed, gives a pushable path from start to goal; [start] when start is the goal |
| AStarSearch.Step | cpp_integration/src/demo/astar.cpp:73-119 | one loop turn after popping a non-goal entry keeps both invariants and strictly decreases the measure |
| AStarSearch.Run | cpp_integration/src/demo/astar.cpp:44-124 | a non-empty result is a pushable path from start to goal, an empty one means no such path exists, and start = goal gives [start] |
| AStarSearch.Search | cpp_integration/src/demo/astar.cpp:27-124 | an unknown start, then an unknown goal, is an error; otherwise the result is as for Run, for every driver; every node after the start has a record whose id is not 0, and a goal whose record has id 0 is found only as the start |
| AStarSearch.PushablePathRecords | cpp_integration/include/demo/astar.h:18-21 | because a record with id 0 makes the estimate max() and such a neighbour is never pushed (astar.cpp:100-107), every node after the start of a followable path has a record with a non-zero id, and with a goal of id 0 the only such path is the start alone |
| PrepareData.CoordsKeys | cpp_integration/testAStar.py:85-89 | nodes_dict holds exactly the ids of nodes that have both coordinates |
| PrepareData.CoordsValue | cpp_integration/testAStar.py:85-89 | with distinct node ids, each such node maps to its own (y, x) |
| PrepareData.MergeTargets | cpp_integration/testAStar.py:104-113 | merging (v, w) keeps the list's targets and their order, and appends v when it is new |
| PrepareData.MergeOthers | cpp_integration/testAStar.py:104-113 | merging leaves every entry for another target where it was |
| PrepareData.MergeAppends | cpp_integration/testAStar.py:112-113 | with no entry for v, merging appends (v, w) |
| PrepareData.MergeWeight | cpp_integration/testAStar.py:106-110 | the single entry for v ends with the smaller of the two weights |
| PrepareData.MergeEdge | cpp_integration/testAStar.py:104-113 | the inner loop over u's list computes the merge |
| PrepareData.ExtractCoords | cpp_integration/testAStar.py:85-89 | the coordinate loop computes the coordinate map |
| PrepareData.CollapseEdges | cpp_integration/testAStar.py:95-113 | the edge loop computes the collapsed adjacency lists |
| PrepareData.CollapseTargets | cpp_integration/testAStar.py:95-113 | u has a list exactly when it is the source of a weighted edge; the list's targets are its weighted edges' targets, deduplicated in order of first appearance |
| PrepareData.CollapseDistinct | cpp_integration/testAStar.py:104-113 | each list has at most one entry per target |
| PrepareData.CollapseLeast | cpp_integration/testAStar.py:95-113 | every entry carries the least weight of the weighted u -> target edges |
| PrepareData.CollapseSound | cpp_integration/testAStar.py:95-113 | every listed target comes from a weighted edge |
| PrepareData.CollapseKeepsEdge | cpp_integration/testAStar.py:95-113 | every weighted edge survives in its source's list, whether or not its endpoints have coordinates |
| PrepareData.AddEmptyLists | cpp_integration/testAStar.py:118-121 | the completion loop adds an empty list for each key of nodes_dict without one, and changes nothing else |
| PrepareData.CompletedStep | cpp_integration/testAStar.py:119-121 | one turn of the completion loop keeps the completion property |
| PrepareData.PrepareCppData | cpp_integration/testAStar.py:75-124 | the two dictionaries are the coordinate map and the collapsed lists completed with the coordinate keys |
| PrepareData.PreparedKeys | cpp_integration/testAStar.py:75-124 | graph_dict's keys are the weighted-edge sources and the nodes with coordinates; the added keys get empty lists and the collapsed lists are kept |
| PrepareData.PathMatch | cpp_integration/testAStar.py:257-275 | the match decision is true exactly when both found the same path or neither found one: a raised call or an empty C++ path matches exactly a NetworkX None, a non-empty C++ path never matches None, and two found paths match exactly when equal |
| PrepareData.PathMatchCases | cpp_integration/testAStar.py:143-146 | a raised C++ call (None) or an empty C++ path matches exactly a NetworkX run without a path; equal paths match when non-empty |

## Left out

- The ISet and IPriorityQueue interfaces are not Dafny traits. Each class
  states the interface's contract directly, through the predicates of the
  ISet and IPQ modules (AddOutcome, RemoveOutcome, IsHighest,
  IsOldestOfItsPriority, ...). The set interface's contracts
  (cpp_integration/include/data_structure/iset.h:18-32) are carried by each
  set class's Add, Remove, Contains, Size and CheckInvariants. The queue
  interface's contracts (cpp_integration/include/data_structure/ipq.h:14-58)
  are carried by the queue's Push, Pop, Empty, Size and CheckInvariants.
- Concurrency is not modelled. Locks are a ghost set, and each operation is
  verified as if it ran alone from a quiescent structure. Linearizability
  under interleaving, the coarse set's reader-writer lock, and the atomic
  counters' memory orders are not modelled.
- The thread pool and thread objects of the parallel A* drivers are not
  modelled. Chunks run one after another in thread order, which is one of
  the schedules the drivers allow. The shared-map mutexes are left out.
- Node deallocation, destructors, move semantics and the copy/move deletions
  are not modelled: the pool of cells only grows.
- The allocation-failure and exception paths are not modelled. These are
  the `bad_alloc` rethrows in add and push, and the catch-and-unlock blocks
  of the fine-grained set.
- `assert`s inside the operations (nullptr checks) are not modelled as
  branches, because they cannot fail on a well-linked list. The failing
  assertions of check_invariants are modelled as the result false.
- Floating point is not modelled.
  - A* costs and g scores are natural numbers (here `nat`), with an absent
    score as infinity.
  - The comparison with `numeric_limits<double>::max()` is an absent score
    or a `None` heuristic.
  - Graph weights in the Python conversion are mathematical reals.
- The Haversine formula is not modelled: the distance estimate is an
  arbitrary parameter. Only the id-0 case, which gives max(), is modelled.
- A\* optimality (that the returned path is a shortest one) is not stated.
  The Haversine estimate in km is not shown to be admissible for the graph's
  weights, and the search has no closed set.
- AStarSearch.Search / AStarSearch.ValidDriver: a parallel driver needs
  at least one thread, so NUM_THREADS <= 0 is not modelled. The source does
  not check it. With 0, the chunk size divides by zero
  (cpp_integration/src/demo/astar.cpp:365, 444, 529, 612). With a negative
  count, the chunk loops (astar.cpp:368, 445, 532, 613) run no chunk, so no
  neighbour is relaxed and every goal other than the start gives an empty
  path; the thread-pool drivers also pass the negative count to ThreadPool
  as a huge size (astar.cpp:326, 488). The test driver passes only 2, 4
  and 6 threads.
- AStarSearch.Run does not fix the tie-break among entries of least f. Any
  entry of least f may be popped, so the result is stated for every
  tie-break rather than as the one path a given container returns.
- The `numeric_limits<AStarNode>` specialisation is modelled only as the
  head and tail sentinel values passed to the queue.
- aStarWithVectorFunction.cpp, the pybind bindings and `convert`, the
  benchmarks, report scripts, timing, logging and the
  missing-coordinate/missing-weight warning counters are not part of this
  model.
- The NetworkX search itself and the OSM download are not part of this
  model. PathMatch takes both results as inputs.
- PrepareData.AddEmptyLists visits the keys of nodes_dict in an arbitrary
  order (the Python dictionary's order is not modelled). Its result does not
  depend on the order.
- NetworkX's own graph containers are not modelled: nodes and edges are
  given as sequences in iteration order.

## Findings

| source | as written | input that shows it | evidently intended | confidence | as-written member | corrected member |
|---|---|---|---|---|---|---|
| cpp_integration/include/data_structure/pq_fine.h:271 | check_invariants compares the first data cell with the head sentinel holding `numeric_limits<T>::lowest()`. With the `std::greater` comparator that A* uses (cpp_integration/src/demo/astar.cpp:251), lowest() is the greatest element under the comparator, so `!comp(curr->val, pred->val)` fails at the first data cell of every non-empty queue. | a fresh `std::greater` queue of ints after `push(0)`: comp(0, INT_MIN) is true, so the assertion fails | compare data cells with each other only, so the check holds for every comparator | not executed | PqFineGreater.PushZeroThenCheck | PqFine.SortedLinkedListFineLockPQ.CheckInvariants |
