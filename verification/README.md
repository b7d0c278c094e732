# Verified models of persistent and concurrent data structures

This project models the parts of the repository whose correctness is hardest to see by reading
them, and proves what their documentation, tests or comments promise. Every file declares one
module; `dafny verify dfyconfig.toml` checks them all.

**A crash-consistent allocator and the tree on top of it.** `PersistentMemory` is a memory of words
with pending stores: a crash keeps any subset of the stores that have not been flushed.
`PendingStores` is about programs that run while somebody else's stores are pending.
`Clumps`, `PoolLogic` and `AllocatorPrograms` describe a pool of clumps and every operation of
libpmemalloc as an ordered program of stores and flushes; `CrashSafety`, `RecoveryWalk`, `Recovery`,
`Reservation`, `Atomicity` and `Conflicts` prove what every crash point of every operation, and of
recovery itself, leaves behind. `Allocator` is the allocator in place (class `PmemPool`, which records each store and flush
it issues) and is proved to issue exactly those programs. `PoolRuns` lifts the results to every run
of every client, with calls, stores, flushes and crashes in any order. `SearchTree`, `PersistentTree`,
`TreeInsert`, `TreeFree`, `TreeCrashes` and `TreeRuns` lift this to the string-counting search tree and to whole
histories of calls and crashes; `TreeCode` is the tree's code in place. `PoolCheck` is the pool
checker.

**Two lock-free queues as step systems.** `FifoSpec` says what one atomic queue is. `CasSteps` and
`CasQueue` are the Michael-Scott queue with any number of threads, one atomic word access or
compare-and-swap per step; `LlscSteps`, `LlscQueue`, `LlscCounts` and `LlscWaiting` are the queue
built from load-linked/store-conditional variables, its reference counts and the wait in its
dequeue. `CasProgress` and `LlscProgress` say that calls can always finish.

**Hash tables.** `Arithmetic` and `Chains` hold shared facts. `StripedTable`, `StripedSteps`, `StripedHash` and `StripedProgress` model
the striped-lock table with its resize protocol for any number of threads; `ChainList`,
`BucketArray` and `StripedTableCode` are its chains, its bucket array and its calls in place. `CuckooTables` and `CuckooHash` are the
two-table cuckoo set, `OpenAddress` the tombstone table, `ProbeHashSet` the double-hashing set.

**Small protocols and transformations.** `OnceLock` (a once-initialised lock), `BenchmarkWorker`
(a handshake of a worker and its driver), `CloVec` and `CloVecCode` (option lists to a Cartesian
product of records), `PcmDisk` (a sparse disk of pages that must act as one flat array). `Bytes`
and `Options` are shared.

## Reading the model

- Memory is a map from byte addresses to words; an address not written yet reads zero, as in a new
  file. A program is a list of blocks: some stores, then one flush. `TornRun` lists the images a
  crash can leave; the lemmas of `PersistentMemory` prove that these are exactly the images of the
  instruction-by-instruction machine.
- A pool image has a meaning: which clumps are live once recovery has completed, their sizes and
  redo lists, and the value every live word will have (`Live`, `Final`, `SameLogic`). `Keeps` says a
  program keeps that meaning at every one of its crash points, for every word that its redo entries
  do not give two values (`Contested` words). `Good` images are those a run can leave, `Idle` ones
  have no operation in progress, `Rested` ones have been recovered.
- `Holds(m, end, t)` says that the pool image m means the tree t and nothing else: the live clumps are
  exactly its nodes.
- A thread of a step system is a program counter with its local variables, and `Step` is the step it
  takes next. A run is any sequence of such steps by any threads. Chains of list nodes, and
  counts of what happened, are carried along as part of the state so that properties can refer
  to list indices; no step reads them to decide anything.
- Callers of the allocator are asked for what the original asserts (the state of the clump), and
  that the recorded targets are user words, for the atomicity results words of clumps that stay live.

## Where the code differs from what is said about it

- Two redo entries of one clump for the same word with different values break the promised
  atomicity: the list is cleared last to first, and a crash in between makes recovery replay a
  prefix. `Conflicts` proves that this is the only way to break it, and `ActivateIsAtomic` and
  `FreeIsAtomic` that such entries spoil no word but their own.
- The checker asserts that ACTIVE and FREE clumps have empty redo lists
  (linux-examples-master/libpmemalloc/pmemalloc.c:870-890). Neither is an invariant: recovery has
  no case for ACTIVE clumps, and freeing a RESERVED clump does not clear its list. `PoolCheck` shows
  for every pool how either fails (`OnFreeThenCrash`, `OnActiveThenFree`), and gives the exact
  conditions under which any recovered pool (`RecoveredPassesExactly`), and any pool after the
  freeing of a reservation (`FreedReservationPasses`), passes. What does hold is that a clump entering RESERVED has an empty list (part of `Reserved` in `Reservation`).
- Because of that, crashes between onfree and free of one node use up its three slots, and then the
  tree can no longer be freed; `FreeEmpties` has the exact condition.
- `unlink` of the second queue waits for the version to change and then decrements the newer
  version's count (AlgorithmCollection-master/queue/LLSCLockFreeQueue.c:188-199). The count law is
  therefore exact only on runs without such a decrement (`CountLawExactly`), and a dequeue on an
  empty queue leaves its wait if and only if it looks again after the version of head has moved on,
  which only another thread's store into head brings about (`EmptyDequeueWaitsExactly`).
- The exit tag of that queue is 12 bytes, but its compare-and-swap covers 8
  (AlgorithmCollection-master/queue/LLSCLockFreeQueue.h:17-22): only the count and the transfers
  left ever change, so no node is ever freed. The model has just these two.
- The chain deletion of the striped table reads `curr->key` before it tests `curr` for null
  (AlgorithmCollection-master/hash/StripedHash.c:198): it reads through the null pointer if and only
  if the chain is not empty and every key in it is smaller (`DeleteNodeAsWritten`). The other
  results are about `DeleteNode`, which tests first.
- `get_lock` spins for ever when the word is one below the run id; `GetsTheLockExactly` and
  `NextRunCanStart` say when that can and cannot happen.
- The relocation of the cuckoo table never helps an add: both multipliers being odd, the two buckets of
  a key are those of its residue class, so a node moved out of the one goes to the other, which add has
  just found at the threshold. An add that meets two buckets at the threshold always doubles the table
  (AlgorithmCollection-master/hash/ConcurrentCuckooHash.c:444-551; `Relocate` and `Add` of
  `CuckooHash`).
- The cuckoo table never finds a place for a key, however often it doubles, when neither limit is
  positive, and always does when one is (`PlacedExactly`); its constructor is asked for one positive
  limit.
- The block copy of fewer than 64 bytes writes before its destination (`CopyIsExact`); whole
  sectors never come to that.
- A request without segments ends with the error it starts out with
  (Mnemosyne-master/kernelmode/pcmdisk/brd.c:386); `MakeRequest` says so.

## Model

| member | source | states |
|---|---|---|
| `PersistentMemory.CrashPointsAreBlockCrashes` | linux-examples-master/libpmem/pmem_cl.c:94-116 | A crash between any two stores or flushes of a program leaves exactly the images in which one of its blocks (stores, then one persist) is torn: both directions, with stores of earlier code still pending. |
| `PersistentMemory.CrashPointsAreTornRuns` | linux-examples-master/libpmem/pmem_cl.c:94-116 | For blocks that flush what they store, the crash images of a program are exactly: some blocks durable, the next one torn, the rest absent. |
| `PersistentMemory.CrashWithLooseStores` | linux-examples-master/libpmem/pmem_cl.c:94-116 | Unflushed stores of earlier code stay pending while self-flushing blocks run on other lines, and a crash tears both independently. |
| `PersistentMemory.TornRunAppend` | linux-examples-master/libpmem/pmem_cl.c:94-116 | A torn run of a concatenation is a torn run of the first part, or the first part done and a torn run of the second. |
| `PendingStores.ProgramRuns` | linux-examples-master/libpmem/pmem_cl.c:94-116 | Whatever stores of others are pending, on whatever lines, a self-flushing program does to what the processor reads exactly what it says; afterwards only stores of others are pending, none of them on a line it flushed. |
| `PendingStores.LooseCrash` | linux-examples-master/libpmem/pmem_cl.c:94-116 | A crash image of a program run with stores of others pending is a crash image of the program run alone from a memory that differs from the durable one only where those stores go. |
| `Clumps.HeadsTile` | linux-examples-master/libpmemalloc/pmemalloc.c:113-171 | The clumps from any point on are disjoint 64-byte multiples ending at the zero-size sentinel, so every walk over them ends there. |
| `Clumps.HeadsCover` | linux-examples-master/libpmemalloc/pmemalloc.c:113-171 | No gap: every byte of the pool lies in some clump. |
| `Clumps.PayloadsDisjoint` | linux-examples-master/libpmemalloc/pmemalloc.c:422-505 | A payload cell belongs to one clump only and is never a header cell. |
| `Clumps.FreshPoolTiles` | linux-examples-master/libpmemalloc/pmemalloc.c:303-309 | For every pool size from the minimum on, the size arithmetic of a new pool gives one free clump that tiles it up to the sentinel. |
| `CrashSafety.RedoKeeps` | linux-examples-master/libpmemalloc/pmemalloc.c:614-660 | Replaying the redo entries of a busy clump from any entry on, torn anywhere, changes neither which clumps are live nor, for words that no two entries disagree about, what they will hold. |
| `CrashSafety.FinishKeeps` | linux-examples-master/libpmemalloc/pmemalloc.c:614-660 | Replaying, clearing the list and storing the final state, torn anywhere, keeps that meaning, and ends with the clump in its final state and an empty list. |
| `CrashSafety.RecoverClumpKeeps` | linux-examples-master/libpmemalloc/pmemalloc.c:122-167 | What recovery does for one clump, in each of the states it has a case for, keeps the meaning of the pool at every crash point. |
| `Atomicity.CommittedMeaning` | linux-examples-master/libpmemalloc/pmemalloc.c:636-650 | The store of the busy state is where the meaning changes, and it changes to exactly this: the clump becomes live (resp. not), every user word is promised its redo value, all else is as before. |
| `RecoveryWalk.RecoverFromKeeps` | linux-examples-master/libpmemalloc/pmemalloc.c:105-172 | The recovery walk keeps the meaning at every crash point and ends with FREE and ACTIVE clumps only. |
| `RecoveryWalk.CoalesceKeeps` | linux-examples-master/libpmemalloc/pmemalloc.c:184-232 | Coalescing keeps the meaning at every crash point, changes headers of free clumps only, and leaves no two free neighbours. |
| `Recovery.RecoveryIsCrashProof` | linux-examples-master/libpmemalloc/pmemalloc.c:105-172 | After any number of crashed recoveries, the next one that completes leaves only FREE and ACTIVE clumps, exactly the live ones with their lists, and the promised value in every word that no two redo entries disagree about. |
| `Recovery.RecoveryIsIdempotent` | linux-examples-master/libpmemalloc/pmemalloc.c:105-172 | Recovering a recovered pool stores nothing. |
| `AllocatorPrograms.ClumpSizeRounds` | linux-examples-master/libpmemalloc/pmemalloc.c:424 | The size of a clump for a request is the one number of whole chunks that holds a header and the request with less than a chunk to spare. |
| `Reservation.ReserveFailsExactly` | linux-examples-master/libpmemalloc/pmemalloc.c:436-505 | At rest, reserve fails if and only if there is no contiguous stretch of n free bytes, n being the smallest number of whole chunks that holds a header and the request. |
| `Reservation.ReserveIsSafe` | linux-examples-master/libpmemalloc/pmemalloc.c:436-505 | A success takes the first free clump of at least those n bytes, hands out n or n+64 of them with an empty redo list, leaves no two free neighbours, and a crash inside it changes nothing live. |
| `Reservation.RecordKeeps` | linux-examples-master/libpmemalloc/pmemalloc.c:518-603 | Recording a redo entry, torn anywhere, leaves the pool meaning what it meant, or for an ACTIVE clump what it means with the entry. |
| `Atomicity.ActivateIsAtomic` | linux-examples-master/libpmemalloc/pmemalloc.c:614-660 | A crash anywhere in activate, its flush of the payload included, with any of the caller's stores into the payload still pending, then any number of crashed recoveries and a completed one: either the clump is ACTIVE with the new payload and every target has its new value, or nothing has changed and the clump is FREE. Redo entries that contradict each other spoil their own words only. |
| `Atomicity.FreeIsAtomic` | linux-examples-master/libpmemalloc/pmemalloc.c:671-731 | The same for freeing an ACTIVE clump, coalescing included, contradicting entries too. |
| `Atomicity.FreeReservation` | linux-examples-master/libpmemalloc/pmemalloc.c:695-719 | Freeing a RESERVED clump changes nothing live at any crash point and leaves no two free neighbours. |
| `Conflicts.ActivateAtomicExactly` | linux-examples-master/libpmemalloc/pmemalloc.c:614-660 | The whole of activate, with payload stores pending, is all-or-nothing under crashes if and only if no two redo entries of the clump name the same address with different values. |
| `Conflicts.FreeAtomicExactly` | linux-examples-master/libpmemalloc/pmemalloc.c:671-731 | The same exact condition for freeing. |
| `Allocator.PmemPool.Create` | linux-examples-master/libpmemalloc/pmemalloc.c:303-331 | A new pool is one free clump up to the sentinel. |
| `Allocator.PmemPool.Recover` | linux-examples-master/libpmemalloc/pmemalloc.c:105-172 | The walk in place issues exactly the stores and flushes of the recovery program, in order. |
| `Allocator.PmemPool.CoalesceFree` | linux-examples-master/libpmemalloc/pmemalloc.c:184-232 | In place; issues exactly the coalescing program; afterwards no two neighbours are free and nothing live has changed. |
| `Allocator.PmemPool.Start` | linux-examples-master/libpmemalloc/pmemalloc.c:341-352 | Recovery and coalescing at start-up bring every good image to rest without changing its meaning. |
| `Allocator.PmemPool.Reserve` | linux-examples-master/libpmemalloc/pmemalloc.c:422-505 | In place: null without any store exactly when no stretch of n free bytes exists (n as above), otherwise the payload of the first clump that has them, which then has n or n+64 bytes; nothing live changes. |
| `Allocator.PmemPool.OnActive` | linux-examples-master/libpmemalloc/pmemalloc.c:518-554 | Records the pair in the first empty slot, or fails without a store when all three are taken; a coalesced pool stays so. |
| `Allocator.PmemPool.OnFree` | linux-examples-master/libpmemalloc/pmemalloc.c:567-603 | The same for an ACTIVE clump. |
| `Allocator.PmemPool.Activate` | linux-examples-master/libpmemalloc/pmemalloc.c:614-660 | In place: the clump is ACTIVE with its size and an empty list, every recorded assignment has been made in order, no other header and no other payload cell has changed, and a coalesced pool stays so. |
| `Allocator.PmemPool.Free` | linux-examples-master/libpmemalloc/pmemalloc.c:671-731 | In place: the clump is gone, every other clump that is not free keeps its size, state and list, for an ACTIVE one every recorded assignment has been made, no other payload cell has changed, and no two neighbours are free. |
| `PoolLogic.LastEntryWins` | linux-examples-master/libpmemalloc/pmemalloc.c:625-632 | Where redo entries name one word several times, replaying them leaves the value of the last. |
| `PoolCheck.Check` | linux-examples-master/libpmemalloc/pmemalloc.c:793-901 | For every file: the walk of the checker accepts if and only if the size is at least the minimum, the clumps tile the pool up to its last one with known states, and ACTIVE and FREE clumps have empty lists. |
| `PoolCheck.RecoveredPassesExactly` | linux-examples-master/libpmemalloc/pmemalloc.c:870-890 | For every good pool: recovered, it passes if and only if no ACTIVE clump had redo entries when the crash came, and no FREE clump that coalescing leaves (none free or freed by recovery before it) had any. |
| `PoolCheck.OnFreeThenCrash` | linux-examples-master/libpmemalloc/pmemalloc.c:567-603 | The assertion that ACTIVE clumps have empty lists is not an invariant: onfree, then a crash, and every recovered pool fails the check. |
| `PoolCheck.FreedReservationPasses` | linux-examples-master/libpmemalloc/pmemalloc.c:695-719 | Freeing a RESERVED clump of any idle pool: the pool passes afterwards if and only if no ACTIVE clump has entries and no FREE one that coalescing leaves, the freed clump counting as free. |
| `PoolCheck.FreedReservationPassesExactly` | linux-examples-master/libpmemalloc/pmemalloc.c:695-719 | Freed from a pool that passes, a reservation spoils it if and only if it had entries and no free clump comes before it. |
| `PoolCheck.OnActiveThenFree` | linux-examples-master/libpmemalloc/pmemalloc.c:518-554 | The assertion about FREE clumps is no invariant either: in every idle pool, onactive and then free of a reservation with no free clump before it makes the check fail. |
| `PoolRuns.CallIsSafe` | linux-examples-master/libpmemalloc/pmemalloc.c:422-731 | Every call that meets its assertions, from every pool at rest: each crash image of it is one that recovery handles, and completed it leaves the pool idle and coalesced. |
| `PoolRuns.CallCrashIsGood` | linux-examples-master/libpmemalloc/pmemalloc.c:422-731 | The same for crashes while any stores of the client to user words are pending, wherever they go. |
| `PoolRuns.EventRests` | linux-examples-master/libpmemalloc/pmemalloc.c:341-731 | A call completed or crashed and recovered, or a store or flush of the client, leaves the pool at rest. |
| `PoolRuns.EveryCourseIsSound` | linux-examples-master/libpmemalloc/pmemalloc.c:303-731 | Any client, every run from a new pool on, of completed and crashed calls, stores and flushes: between events the pool is idle and coalesced and a reservation fails if and only if no stretch of free bytes is large enough; every image a crash may leave at any moment tiles the pool and is one that recovery handles. |
| `SearchTree.InsertSorted` | linux-examples-master/binarytree/tree.c:93-131 | Insertion keeps a strict search tree strict, and its keys grow by the string at most. |
| `SearchTree.InsertCounts` | linux-examples-master/binarytree/tree.c:93-131 | The map from strings to counts changes at the inserted string only, by one modulo the width of the counter. |
| `SearchTree.CompareOrders` | linux-examples-master/binarytree/tree.c:111-125 | The comparison is negative if and only if the first string precedes the second in a dictionary: they agree up to some place, and there the first ends or has the smaller byte. |
| `SearchTree.WalkIsSorted` | linux-examples-master/binarytree/tree.c:149-166 | A walk lists every entry of the map, each once, in the strict order of a dictionary. |
| `SearchTree.PrunedCounts` | linux-examples-master/binarytree/tree.c:184-200 | Removing any subtrees leaves a restriction of the map. |
| `TreeCrashes.InsertIsAtomic` | linux-examples-master/binarytree/tree.c:104-121 | A crash between any two instructions of reserve, fill, onactive and activate leaves an image that means the old tree or the tree with the new node, complete. |
| `TreeCrashes.InsertCompletes` | linux-examples-master/binarytree/tree.c:104-121 | Without a crash the tree with the new node is durable, and the pool is at rest. |
| `TreeCrashes.FreeOnlyPrunes` | linux-examples-master/binarytree/tree.c:184-200 | A crash anywhere while a tree is freed leaves the old tree with whole subtrees removed: no dangling link, and the map is a restriction of the old one. |
| `TreeCrashes.FreeEmpties` | linux-examples-master/binarytree/tree.c:184-200 | Freeing empties the tree if and only if every node still has an empty redo slot; crashes between onfree and free use slots up. |
| `TreeRuns.BumpIsAtomic` | linux-examples-master/binarytree/tree.c:122-128 | A crash in the count update leaves the old count or the new one. |
| `TreeRuns.RepUnique` | linux-examples-master/binarytree/tree.c:60-69 | A pool image holds at most one tree. |
| `TreeRuns.EventKeeps` | linux-examples-master/binarytree/tree.c:80-211 | One call, completed or crashed anywhere and recovered, takes a pool at rest holding a tree to one at rest holding a tree, with the map changed as promised. |
| `TreeRuns.HistoriesKeepTheTree` | linux-examples-master/README:255-259 | Over every history of completed and crashed inserts and frees from a new pool on, with any number of crashed recoveries after each: the pool is at rest, holds a strict search tree, its non-free clumps are exactly the nodes (nothing leaks), and every insert went in completely or not at all. |
| `TreeRuns.CountsAreInsertions` | linux-examples-master/binarytree/tree.c:122-128 | Over every such history, the count of a string is the number of its insertions since the tree was last emptied, modulo 2 to the 32; a string is in the tree exactly if that number is not zero. |
| `TreeCode.StrCmp` | linux-examples-master/binarytree/tree.c:111-125 | The loop gives a negative, zero or positive difference exactly when the argument precedes, equals or follows the stored string in dictionary order of unsigned bytes. |
| `TreeCode.StrCpy` | linux-examples-master/binarytree/tree.c:115-116 | The copy loop stores the string and its terminator. |
| `TreeCode.CreateNode` | linux-examples-master/binarytree/tree.c:104-121 | The instructions of the node creation are exactly the program proved atomic; it fails without a store exactly when no clump fits. |
| `TreeCode.InsertSubtree` | linux-examples-master/binarytree/tree.c:93-131 | The recursive insert in place issues exactly the program of an insert and has its effect. |
| `TreeCode.InsertIn` | linux-examples-master/binarytree/tree.c:136-142 | On success the map has changed at the string alone. It succeeds if and only if the string is there already or a free stretch holds a node for it (whole chunks, less than one to spare); otherwise nothing was stored. |
| `TreeCode.WalkSubtree` | linux-examples-master/binarytree/tree.c:149-166 | The recursive walk yields the in-order entries. |
| `TreeCode.FreeSubtree` | linux-examples-master/binarytree/tree.c:184-200 | The recursive free in place issues exactly the program proved to prune. |
| `TreeCode.FreeFrom` | linux-examples-master/binarytree/tree.c:205-211 | Afterwards the tree is empty and every clump free; it stops early exactly when a node has no empty redo slot. |
| `FifoSpec.HistoryIsInOrder` | AlgorithmCollection-master/queue/CASLockFreeQueue.c:100-165 | Any history whose every step is an enqueue at the back or a dequeue of the front of one sequence: what came out, followed by what is left, is what was there at first followed by what went in. |
| `CasSteps.StepKeeps` | AlgorithmCollection-master/queue/CASLockFreeQueue.c:100-165 | Every atomic read or compare-and-swap of any thread keeps the list, the counts and what every other thread has read consistent. |
| `CasQueue.StepRefines` | AlgorithmCollection-master/queue/CASLockFreeQueue.c:100-165 | Every step of every interleaving does nothing abstractly, or is the one atomic step of its call: an idle thread begins exactly the call it is told to make, with that argument; append of that argument at the successful link, removal of exactly the returned front at the successful swing of head; an empty answer saw the queue empty during its call. |
| `CasQueue.QueueIsFifo` | AlgorithmCollection-master/queue/CASLockFreeQueue.c:100-165 | In every run, what was dequeued followed by what is in the queue is what was enqueued, in order. |
| `CasQueue.CountsAreIndices` | AlgorithmCollection-master/queue/CASLockFreeQueue.c:100-165 | In every reachable state both counts are the list indices of their nodes, and tail is neither behind head nor more than one node behind the end. |
| `CasQueue.CountsNeverFall` | AlgorithmCollection-master/queue/CASLockFreeQueue.c:120-158 | Both counts are monotone over every stretch of every run. |
| `CasQueue.HelpingInstallsTheSameCount` | AlgorithmCollection-master/queue/CASLockFreeQueue.c:143-158 | A dequeue that helps the tail with head.count + 1 installs the count the tail would have got. |
| `CasQueue.RetriesAreBounded` | AlgorithmCollection-master/queue/CASLockFreeQueue.c:109-158 | Lock freedom, for every thread of every run: the retries of its call are paid for by progress of the queue since it began, and progress is at most three steps per enqueue. |
| `CasQueue.TailReachesTheNode` | AlgorithmCollection-master/queue/CASLockFreeQueue.c:112-125 | After its last compare-and-swap, won or lost, an enqueue leaves the tail at its node or beyond. |
| `CasProgress.EveryCallCanFinish` | AlgorithmCollection-master/queue/CASLockFreeQueue.c:100-165 | From every state of every run, a thread that steps alone has returned from its call within 39 steps. |
| `LlscSteps.StepKeeps` | AlgorithmCollection-master/queue/LLSCLockFreeQueue.c:98-312 | In every interleaving `ver` stays the list index of the current node and the other cell holds node ver-1 or ver+1. |
| `LlscSteps.StoreSucceedsExactly` | AlgorithmCollection-master/queue/LLSCLockFreeQueue.c:119-129 | A conditional store finds the expected cell if and only if nobody has stored for its version: at most one succeeds per version and stale ones always fail. |
| `LlscQueue.StepRefines` | AlgorithmCollection-master/queue/LLSCLockFreeQueue.c:261-312 | Every step does nothing abstractly or is the one atomic step of its call: an idle thread begins exactly the call it is told to make, with that argument; append of that argument at the link of next, removal of the front at the successful store into head. |
| `LlscQueue.QueueIsFifo` | AlgorithmCollection-master/queue/LLSCLockFreeQueue.c:261-312 | In every run, unlink steps included, what was dequeued followed by what is in the queue is what was enqueued, in order. |
| `LlscCounts.VersionsAreWonInOrder` | AlgorithmCollection-master/queue/LLSCLockFreeQueue.c:119-143 | Over any run, the versions won by successful stores into a variable are consecutive, each once. |
| `LlscCounts.CountLawExactly` | AlgorithmCollection-master/queue/LLSCLockFreeQueue.c:98-199 | For every node the exit count, the entry counts and transfers owed to it equal its holders, and transfersLeft is two minus the completed transfers, if and only if no unlink has decremented a count. |
| `LlscCounts.CleanMeansUnheld` | AlgorithmCollection-master/queue/LLSCLockFreeQueue.c:161-182 | On such runs a node whose exit tag is clean is held by nobody. |
| `LlscWaiting.AnotherStored` | AlgorithmCollection-master/queue/LLSCLockFreeQueue.c:185-199 | In every run: if the version of head has gone past the one a waiting thread holds, then another thread's store into head did it. |
| `LlscWaiting.EmptyDequeueWaitsExactly` | AlgorithmCollection-master/queue/LLSCLockFreeQueue.c:185-199 | From every reachable state with a thread in the wait of unlink, over every further run: the thread leaves the wait if and only if it takes a step after the version of head has gone past its own, and it never leaves unless another thread has stored into head for that version. |
| `LlscWaiting.LoneDequeueNeverReturns` | AlgorithmCollection-master/queue/LLSCLockFreeQueue.c:287-312 | A concrete run: one thread that dequeues from a new queue never returns. |
| `LlscProgress.EveryCallCanFinish` | AlgorithmCollection-master/queue/LLSCLockFreeQueue.c:98-312 | From every state of every run, a thread that steps alone has, within 48 steps, returned from its call, or is in the wait of a dequeue that saw the queue empty. |
| `Chains.InsertFinds` | AlgorithmCollection-master/hash/StripedHash.c:77-104 | Adding to a sorted chain adds the pair if its key was absent and changes no other look-up. |
| `Chains.RemoveFinds` | AlgorithmCollection-master/hash/StripedHash.c:182-206 | Removing a key changes no other look-up. |
| `StripedTable.LockOfKey` | AlgorithmCollection-master/hash/StripedHash.c:29-41 | The lock of a key is the same before and after every resize. |
| `StripedTable.AddGets` | AlgorithmCollection-master/hash/StripedHash.c:139-172 | One chain changed: the look-ups of the whole table change at the new key only. |
| `StripedTable.DeleteGets` | AlgorithmCollection-master/hash/StripedHash.c:217-244 | One chain changed: the key is gone, everything else stays. |
| `StripedTable.DoubledKeeps` | AlgorithmCollection-master/hash/StripedHash.c:407-425 | Starting a resize changes no look-up. |
| `StripedTable.MovedInv` | AlgorithmCollection-master/hash/StripedHash.c:425-441 | Moving the first node of an old bucket keeps every node in the bucket of its residue, sorted. |
| `StripedTable.MovedGets` | AlgorithmCollection-master/hash/StripedHash.c:425-441 | and changes no look-up. |
| `StripedSteps.StepKeeps` | AlgorithmCollection-master/hash/StripedHash.c:139-451 | Mutual exclusion, an up-to-date bucket index and the shape of the table hold after every step of any number of threads adding, deleting and resizing. |
| `StripedHash.StepRefines` | AlgorithmCollection-master/hash/StripedHash.c:139-451 | Every step leaves the map alone or is the one atomic effect of its call: an idle thread begins exactly the operation it is told to call; a false add means the key was there or each of the three attempts saw a resize. |
| `StripedHash.ResizedMeansGrown` | AlgorithmCollection-master/hash/StripedHash.c:147-167 | An attempt counts as resized only if the table really grew after it began. |
| `StripedHash.ActsSafely` | AlgorithmCollection-master/hash/StripedHash.c:149-161 | A bucket is touched under the lock of its keys, with the index of the present size, outside any resize, by one thread only. |
| `StripedHash.GrowsBeforeReturning` | AlgorithmCollection-master/hash/StripedHash.c:165-171 | A call that the policy tells to resize does not return before the table has grown, whichever thread doubles it; one that is not told so returns. |
| `StripedHash.NoDeadlock` | AlgorithmCollection-master/hash/StripedHash.c:29-41 | In every reachable state, if a thread is inside a call some thread inside a call can step. |
| `StripedProgress.AllReturn` | AlgorithmCollection-master/hash/StripedHash.c:139-451 | No livelock: whatever steps a schedule picks among those that threads inside calls can take, all calls return. |
| `StripedHash.TableIsAMap` | AlgorithmCollection-master/hash/StripedHash.c:139-451 | In every run the table agrees with the map obtained by replaying the calls the threads were told to make, with their answers, in the order of their effects. |
| `ChainList.List.Walk` | AlgorithmCollection-master/hash/StripedHash.c:83-90 | The loop stops at the first node whose key is not smaller. |
| `ChainList.List.AddNodeOp` | AlgorithmCollection-master/hash/StripedHash.c:77-104 | In place: false and no change if the key is there, otherwise the node is linked in at its sorted place. |
| `ChainList.List.DeleteNode` | AlgorithmCollection-master/hash/StripedHash.c:182-206 | In place: the node of the key is unlinked and its value returned (the null test comes first). |
| `ChainList.List.DeleteNodeAsWritten` | AlgorithmCollection-master/hash/StripedHash.c:182-206 | With the tests in the order they are written: it reads through the null pointer if and only if the chain is not empty and every key in it is smaller; otherwise it does what DeleteNode does. |
| `ChainList.List.FindNode` | AlgorithmCollection-master/hash/StripedHash.c:255-275 | True exactly when the key is in the chain. |
| `ChainList.MoveFirst` | AlgorithmCollection-master/hash/StripedHash.c:428-440 | The first node of an old bucket is unlinked and linked into its new bucket, without copying; no look-up is lost. |
| `StripedTableCode.HashTable.Add` | AlgorithmCollection-master/hash/StripedHash.c:139-172 | In place, called alone: true exactly when the key was absent; the map changes by the pair only; the table doubles exactly when there are then five nodes or more to a bucket. |
| `StripedTableCode.HashTable.Delete` | AlgorithmCollection-master/hash/StripedHash.c:217-244 | In place, called alone: returns the value and removes the key, nothing else. |
| `StripedTableCode.HashTable.FindKey` | AlgorithmCollection-master/hash/StripedHash.c:286-296 | True exactly when the key is stored. |
| `StripedTableCode.HashTable.Resize` | AlgorithmCollection-master/hash/StripedHash.c:407-451 | In place: twice the buckets, every node relinked, the same map and count. |
| `CuckooTables.BucketsAreResidueClasses` | AlgorithmCollection-master/hash/ConcurrentCuckooHash.c:354-362 | With power-of-two sizes and the odd multipliers, two keys share a bucket of either table if and only if they are congruent modulo its size. |
| `CuckooTables.AppendKeeps` | AlgorithmCollection-master/hash/ConcurrentCuckooHash.c:495-551 | Adding at the tail of a bucket of the key changes the map by the pair only. |
| `CuckooTables.RemoveKeeps` | AlgorithmCollection-master/hash/ConcurrentCuckooHash.c:554-586 | Removing from a bucket changes the map at the key only. |
| `CuckooTables.ResizeAlwaysFits` | AlgorithmCollection-master/hash/ConcurrentCuckooHash.c:365-426 | While resize moves its nodes, the next one always finds a place below the thresholds: its error exit is unreachable. |
| `CuckooHash.FullClassIsFar` | AlgorithmCollection-master/hash/ConcurrentCuckooHash.c:495-551 | If both buckets of an absent key are full, some stored key of its class lies at least the table size away; so doubling cannot go on for ever. |
| `CuckooHash.PlacedExactly` | AlgorithmCollection-master/hash/ConcurrentCuckooHash.c:495-551 | Over the tables an add of an absent key meets while it keeps doubling: if one of the limits is positive a place turns up after as many doublings as the farthest stored key is away; if none is, no table, however often doubled, has one. |
| `CuckooHash.CuckooTable.Contains` | AlgorithmCollection-master/hash/ConcurrentCuckooHash.c:429-441 | True exactly when the key is stored. |
| `CuckooHash.CuckooTable.Delete` | AlgorithmCollection-master/hash/ConcurrentCuckooHash.c:554-586 | The value of the key, which is gone; nothing else changes. |
| `CuckooHash.CuckooTable.Resize` | AlgorithmCollection-master/hash/ConcurrentCuckooHash.c:365-426 | Twice the buckets, the same map, every node placed. |
| `CuckooHash.CuckooTable.Relocate` | AlgorithmCollection-master/hash/ConcurrentCuckooHash.c:444-492 | However many nodes it shifts between the buckets of a class, the map is unchanged, and it ends; from a bucket above the threshold it succeeds if and only if the other bucket of the class was below it to begin with. |
| `CuckooHash.CuckooTable.Add` | AlgorithmCollection-master/hash/ConcurrentCuckooHash.c:495-551 | True exactly when the key was absent; through every relocation and resize the map changes by the new pair only; terminates. The pair goes to the tail of a bucket below the threshold if there is one, and then nothing else changes; otherwise the table doubles, once if a bucket is below the probe size. |
| `CuckooHash.TwoToAdds` | AlgorithmCollection-master/hash/ConcurrentCuckooHash.c:292-305 | The size asked for is an exponent: a table of exponent a+b has as many buckets as one of a times one of b, and one of exponent 1 has two. |
| `OpenAddress.ProbeReaches` | AlgorithmCollection-master/hash/OpenAddressHash.c:269-273 | The probe path of a key reaches every slot |
| `OpenAddress.ProbeOnce` | AlgorithmCollection-master/hash/OpenAddressHash.c:269-273 | and each only once in table_size steps. |
| `OpenAddress.SearchMisses` | AlgorithmCollection-master/hash/OpenAddressHash.c:102-160 | A search that stops at an empty slot or at the end of the path has missed no pair with the key. |
| `OpenAddress.KeepsPaths` | AlgorithmCollection-master/hash/OpenAddressHash.c:59-127 | Filling a slot at the end of an unbroken path, or putting a tombstone, leaves no stored key behind an empty slot. |
| `OpenAddress.PathMeetsFree` | AlgorithmCollection-master/hash/OpenAddressHash.c:59-85 | While the table is not full every probe path meets a free slot. |
| `OpenAddress.HashTable.Add` | AlgorithmCollection-master/hash/OpenAddressHash.c:59-85 | Always finds a slot, the first free one of the path; the bag grows by the pair; the table doubles exactly when more than four fifths of its slots would be occupied. |
| `OpenAddress.HashTable.Resize` | AlgorithmCollection-master/hash/OpenAddressHash.c:238-266 | Twice the slots, the same bag and count. |
| `OpenAddress.HashTable.Find` | AlgorithmCollection-master/hash/OpenAddressHash.c:137-160 | True exactly when some pair has the key. |
| `OpenAddress.HashTable.Delete` | AlgorithmCollection-master/hash/OpenAddressHash.c:102-127 | Takes one pair with the key out of the bag, the first on the path, exactly when there is one. |
| `ProbeHashSet.HashAdds` | mytestCode/LinearProbHashTab/hashtable.cpp:10-15 | The hash of one character is its signed value, and the hashes of the parts of a string add up, all modulo 2 to the 32. |
| `ProbeHashSet.ComputeHash` | mytestCode/LinearProbHashTab/hashtable.cpp:10-15 | The loop computes the sum of the characters, wrapped to 32 bits, signs included. |
| `ProbeHashSet.WalkInjective` | mytestCode/LinearProbHashTab/hashtable.cpp:30-42 | In a power-of-two table an odd step never comes back to a slot within TABLE_SIZE steps. |
| `ProbeHashSet.PathCovers` | mytestCode/LinearProbHashTab/hashtable.cpp:30-42 | The probe visits every slot exactly once. |
| `ProbeHashSet.Misses` | mytestCode/LinearProbHashTab/hashtable.cpp:34-44 | A look-up that ends at a free slot, or after every slot, has not missed the value. |
| `ProbeHashSet.AddedKeeps` | mytestCode/LinearProbHashTab/hashtable.cpp:51-57 | Adding at the slot a look-up found keeps every value reachable and stored once, and adds that value only. |
| `ProbeHashSet.HashSet.Lookup` | mytestCode/LinearProbHashTab/hashtable.cpp:28-44 | Null if and only if the table is full and the value absent. |
| `ProbeHashSet.HashSet.Contains` | mytestCode/LinearProbHashTab/hashtable.cpp:46-49 | Exact membership. |
| `ProbeHashSet.HashSet.Add` | mytestCode/LinearProbHashTab/hashtable.cpp:51-57 | The value is in the set afterwards, unless the table was full without it; no other value comes or goes. |
| `OnceLock.InitialisedOnce` | nvml-master/src/benchmarks/obj_locks.cpp:177-200 | For any number of threads, with even run ids and a word not one below the current id: never two threads in init_lock, nobody returns before it is done, and it succeeds at most once per run. |
| `OnceLock.PublishSucceeds` | nvml-master/src/benchmarks/obj_locks.cpp:192-196 | The second compare-and-swap never fails: only a failed init_lock returns null. |
| `OnceLock.InitDecides` | nvml-master/src/benchmarks/obj_locks.cpp:185-196 | Whoever initialises the lock returns it, the word being the run id, if init_lock succeeded, and null, the word being 0, if it failed. |
| `OnceLock.GetsTheLockExactly` | nvml-master/src/benchmarks/obj_locks.cpp:177-200 | A lone caller can get the lock if and only if the word is not one below the run id. |
| `OnceLock.LosersGetIt` | nvml-master/src/benchmarks/obj_locks.cpp:182-200 | Once the word is the run id, a thread still in the loop has the lock after one step of its own, and one whose compare-and-swap is about to fail after two, whatever the others do in between. |
| `OnceLock.EverybodyCanGetIt` | nvml-master/src/benchmarks/obj_locks.cpp:182-200 | From every state of every run of any number of threads, each thread on its way to the lock can still get it. |
| `OnceLock.NextRunCanStart` | nvml-master/src/benchmarks/obj_locks.cpp:449-450 | With ids that grow by two, however a run ended its word does not hang the next one: a half-initialised lock is initialised again. |
| `OnceLock.StepsOfOneHang` | nvml-master/src/benchmarks/obj_locks.cpp:449-450 | With ids that grow by one the word of a finished run does hang the next. |
| `BenchmarkWorker.NoAssertionFails` | nvml-master/src/benchmarks/benchmark_worker.cpp:44-105 | Under every schedule with spurious wakeups no state assertion fails, and the state only ever moves to the next of the enumeration. |
| `BenchmarkWorker.SignalsReachTheirSleeper` | nvml-master/src/benchmarks/benchmark_worker.cpp:44-65 | A signal never meets a sleeper that waits for something else, and an unsignalled sleeper has missed nothing. |
| `BenchmarkWorker.NoDeadlock` | nvml-master/src/benchmarks/benchmark_worker.cpp:154-219 | Some thread can always step until both are done. |
| `BenchmarkWorker.CallbacksRunOnce` | nvml-master/src/benchmarks/benchmark_worker.cpp:71-105 | In every schedule the callbacks of init, run and exit are executed at most once and in order, each while its state is set, and have been when benchmark_worker_init, _join and _exit return. |
| `BenchmarkWorker.EveryScheduleEnds` | nvml-master/src/benchmarks/benchmark_worker.cpp:44-219 | No schedule takes more than 104 steps and two for every spurious wakeup; one that leaves nobody a step has executed all three callbacks and brought both threads to their end. |
| `CloVec.FieldHoldsItsDigit` | nvml-master/src/benchmarks/clo_vec.cpp:254-279 | After any sequence of option stores, in every record a field no later store touched holds the value picked by its mixed-radix digit of the record number; rejected stores and empty lists change nothing. |
| `CloVec.UncoveredBytesAreZero` | nvml-master/src/benchmarks/clo_vec.cpp:45-73 | Bytes outside every stored field are still zero. |
| `CloVec.DigitsOfIndex` | nvml-master/src/benchmarks/clo_vec.cpp:268-276 | Every choice of values is the digits of some record number |
| `CloVec.IndexOfDigits` | nvml-master/src/benchmarks/clo_vec.cpp:268-276 | and of only one. |
| `CloVec.CartesianProduct` | nvml-master/src/benchmarks/clo_vec.cpp:143-279 | With disjoint fields the vector is exactly the Cartesian product of the value lists: its length is the product of their lengths, and records and choices correspond one to one. |
| `CloVecCode.Memcpy` | nvml-master/src/benchmarks/clo_vec.cpp:239 | Writes the bytes at the offset and nothing else. |
| `CloVecCode.OptionVector.constructor` | nvml-master/src/benchmarks/clo_vec.cpp:45-73 | One zeroed record. |
| `CloVecCode.OptionVector.GetArgs` | nvml-master/src/benchmarks/clo_vec.cpp:89-107 | The walk returns the record of that number, or null past the end. |
| `CloVecCode.OptionVector.Grow` | nvml-master/src/benchmarks/clo_vec.cpp:143-166 | Record i is a copy of record i modulo the old length; old records stay where they were. |
| `CloVecCode.OptionVector.StoreValue` | nvml-master/src/benchmarks/clo_vec.cpp:230-243 | The store of a one-value list; rejected, with no change, if the field ends outside the record. |
| `CloVecCode.OptionVector.StoreList` | nvml-master/src/benchmarks/clo_vec.cpp:254-279 | The store of the specification: every value in its own copy of the vector. |
| `PcmDisk.PcmMemcpy` | Mnemosyne-master/kernelmode/pcmdisk/pcm.c:981-1018 | The block loop with its step back writes the n bytes, and for fewer than 64 also the bytes before them. |
| `PcmDisk.CopyIsExact` | Mnemosyne-master/kernelmode/pcmdisk/pcm.c:1003-1018 | Copies of n bytes write exactly [dst, dst+n) if and only if n is 0 or at least 64. |
| `PcmDisk.PartsMeet` | Mnemosyne-master/kernelmode/pcmdisk/brd.c:240-254 | The second part of a transfer starts at offset 0 of the next page, where the first ended, and fits in it. |
| `PcmDisk.PartsAreWholeBlocks` | Mnemosyne-master/kernelmode/pcmdisk/brd.c:259-303 | Neither part of a transfer of whole sectors makes the block copy step back. |
| `PcmDisk.FlatIsLastUpdate` | Mnemosyne-master/kernelmode/pcmdisk/brd.c:121-145 | A byte of the flat array is what the last update of its address wrote, and zero if there was none: both directions. |
| `PcmDisk.Disk.LookupPage` | Mnemosyne-master/kernelmode/pcmdisk/brd.c:121-145 | The page filed under the index of the sector, whose index is that one, or null. |
| `PcmDisk.Disk.InsertPage` | Mnemosyne-master/kernelmode/pcmdisk/brd.c:152-198 | Adds a zeroed page, and no other, where there was none, or fails; no byte of the disk changes. |
| `PcmDisk.Disk.CopyToSetup` | Mnemosyne-master/kernelmode/pcmdisk/brd.c:240-254 | Both pages of the transfer exist afterwards and no others are added, or memory ran out; no byte of the disk changes. |
| `PcmDisk.Disk.CopyTo` | Mnemosyne-master/kernelmode/pcmdisk/brd.c:259-303 | Changes exactly the bytes of the transfer, across the page boundary, to those of the source. |
| `PcmDisk.Disk.CopyFrom` | Mnemosyne-master/kernelmode/pcmdisk/brd.c:308-337 | Reads exactly the bytes of the transfer; missing pages read as zeroes. |
| `PcmDisk.Disk.DoSegment` | Mnemosyne-master/kernelmode/pcmdisk/brd.c:342-376 | One segment of a request: the disk keeps looking like the flat array after all updates so far. |
| `PcmDisk.Disk.MakeRequest` | Mnemosyne-master/kernelmode/pcmdisk/brd.c:378-410 | A whole request: past the end, or without segments, it fails and nothing is done; a write appends its segments to the updates in order, up to the first failed allocation; a read fills every segment from the flat array, segments of one memory page included. |

## Left out

- File, mapping and flush system calls, module setup, the instruction-counting harness, all command-line programs and all printing: input/output and foreign calls.
- Creation of a pool file interrupted by a crash: the code marks it as unhandled (linux-examples-master/libpmemalloc/pmemalloc.c:331).
- Failure of malloc and calloc, and wrap-around of sizes, versions, counts and table sizes: integers are unbounded. The count in a tree node does wrap at its 32 bits, and the string hash at its own.
- Offsets and pointers of the pool are one address each, and the pool is mapped at offset 0; the conversions between them are not modelled.
- Memory cells are named by their first byte and hold what one store writes (a word, the count or a byte of a string), which a crash keeps or loses whole; stores of different widths to overlapping bytes are not modelled, a new clump's payload counting as unspecified until it is filled in.
- Other threads using one pool at the same time: the allocator has no locks and is modelled with one caller.
- `pmemalloc_static_area` and the statistics of `pmemalloc_check`: they would only add easy members.
- Freeing of queue nodes and the fields that would allow it: compiled out in one queue, unreachable in the other; nodes are never reused.
- The entry tag and the exit tag of the second queue are read in one step, as their 64-bit copies are on the platform; the pair of words in the first queue is read word by word, in either order.
- `find` of the striped table is modelled called alone (`StripedTableCode.HashTable.FindKey`): it does not check the table size again after it has locked.
- `setSize` of the striped table is exact in the sequential model only; when to resize is left open in the concurrent one, which covers every policy.
- The replacement of the bucket array and the doubling of `table_size` in `resize` are one step, and the old buckets are never freed: they are freed after the unlocks, when no thread looks at them.
- Concurrency of the cuckoo table, and its set size: it is modelled called by one thread.
- `CuckooHash.c`, `Hash.c` and `RefinableHash.c`: the same chains as the striped table, or not what their names say.
- Negative keys of the open-addressing and striped tables: their remainder would be negative in the original.
- The table of the double-hashing set has any power-of-two size instead of 256.
- Condition variables and mutexes of the worker are modelled by their rules; of its callbacks it is recorded when they are executed, and the optional ones are taken to be there.
- Option parsing around the option vector, and freeing it.
- Crash mode, latency and statistics of the persistent-memory disk, its locks, its control device and the release of its pages.
- PcmDisk.Disk.DoSegment: a transfer is of whole sectors and at most a page, as the block layer guarantees; others are not covered.
- PcmDisk.PcmMemcpy: source and destination must not overlap, and there must be room for the bytes the step back touches.
- Recovery of the memory contents of a RESERVED clump: user words that no live clump owns are unspecified after a crash.
- Other benchmarks, the configuration readers and the evaluation scripts.
