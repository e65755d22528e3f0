# CollabWrite engine: a verified model

This project models the transactional engine of CollabWrite (`src/engine`) and proves properties of it. Each
stretch of code between two `await`s is one atomic step; promises become outcomes (pending, granted, cancelled),
files become values that a crash keeps, and a lock timeout is a cancellation that may come at any time. Objects
whose methods update their fields are classes here; what their methods promise is stated with functions of the
old state, and the theorems about whole runs are lemmas about those functions.

| part | files |
|---|---|
| Locks and deadlocks | `LockTable`, `LockManager`, `Graphs`, `Tarjan`, `WaitFor`, `DeadlockDetector`, `LockRuns`, `LockOrder`, `LockDeadlock`, `LockProgress`, `LockHolding` |
| Transactions, log and recovery | `Records`, `RecoveryManager`, `EngineState`, `EngineLog`, `EngineKeeps`, `EngineRuns`, `EngineLimits`, `TransactionManager` |
| Buffer pool and storage | `LRUCache`, `BufferPool`, `Storage` |
| Index | `Keys`, `TreeShape`, `TreeEntries`, `TreeMerge`, `TreeUpdate`, `TreeScan`, `TreeHeight`, `TreeValidate`, `TreeSeparators`, `TreeExactness`, `BPlusTree`, `IndexManager` |
| Bytes on disk | `Bytes`, `Checksum`, `Page`, `WAL`, `Utf8`, `Documents`, `DocumentEdit` |
| Scheduling and merging | `WorkerPool`, `TaskQueues`, `Scheduler`, `ConflictResolver`, `MergeOrder` |
| Shared facts | `Ids`, `Collections`, `Sorting` |

The engine as a state machine (`EngineState`) puts the real lock table, the log, the page file, the buffer pool and
the transactions together. Its steps are finer than the program's: a crash may come between the commit record and
any page flush, or between any two undo writes. `TransactionManager` shows that each method of the program is a
run of these steps; `EngineRuns` shows, for every run, serialisability in commit order, live atomicity and recovery.

## Hypotheses

Some claims hold only under conditions that the callers of the program meet or must meet. They appear as
preconditions or guards:

- transaction ids are not reused while the log is kept (`EngineState.Enabled`, case `Start`);
- a transaction has at most one lock request outstanding (`LockRuns.Allowed`);
- only a running transaction, or a victim that has written nothing, is aborted (`EngineState.Enabled`);
- a deadlock victim has not written yet: `EngineLimits.VictimThatWroteLeaks` shows what happens otherwise, and
  `EngineLimits.MarkingIsSafe` that this is exactly the condition for victims whose changed pages nobody waits for;
- a crash finds no committed update after an uncommitted one on the same page:
  `EngineLimits.AbortThenCommitIsLost` shows the loss otherwise, and `EngineRuns.CrashSafe` gives the exact condition;
- a page image carries the id of the page it is logged for, and is not empty.

## Where the code and its comments disagree

- `src/engine/lock/DeadlockDetector.js:13-14` says that a cycle is precisely a deadlock. A cycle always is one
  (`LockRuns.ReportedIsStuck`, `LockDeadlock.StuckIsDeadlock`). The converse fails with shared locks in play:
  `LockDeadlock.MixedModesHideDeadlock` gives a reachable deadlock of three transactions, in a table without any cycle.
  In all modes, a deadlock is a set whose members each wait for a member or are queued behind one
  (`LockDeadlock.DeadlockIsJam`); so a table hides no deadlock if and only if each set of that kind contains a cycle
  (`LockDeadlock.DetectorSeesEveryDeadlock`). With exclusive locks alone that is so:
  `LockDeadlock.ExclusiveDeadlockHasCycle`.
- `src/engine/index/BPlusTree.js:13-14` takes a separator to be the smallest key of the subtree to its right.
  Insertion keeps that for every tree (`BPlusTrees.BPlusTree.Insert`), deletion does not: `TreeExactness.DeletionSpoils`
  is an input, and `BPlusTrees.BPlusTree.Delete` says exactly when it is lost. The dropped key then is a separator, and
  its leaf stays full enough, is the first child of its parent, or takes a key from the right because the left sibling
  has none to lend. Searching does not depend on it: it needs only the bounds that `validate` checks, and those always
  hold (`TreeValidation.ValidateFindsNothing`).
- `src/engine/index/BPlusTree.js:19` gives one minimum for all nodes but the root, ceil(maxKeys / 2); the code lets
  internal nodes hold one key less than leaves if `maxKeys` is odd (`src/engine/index/BPlusTree.js:62-73`).
  `TreeShape.HalfFull` shows the one minimum for even `maxKeys`, `TreeShape.SplitHalfFull` that every split of an
  internal node misses it for odd ones.
- `src/engine/recovery/RecoveryManager.js:81-84` counts an aborted transaction among the losers, so its writes are
  undone again at recovery, also over later commits: `EngineLimits.AbortThenCommitIsLost` is a run, and
  `EngineRuns.CrashSafe` says exactly when a committed write survives.
- `src/engine/transaction/TransactionManager.js:164` speaks of a scratch copy of the page; the mutator works on the
  cached page itself, which is what `Transactions.TransactionManager.WriteLocked` models.
- `src/engine/recovery/WAL.js:179-181` drops a torn record on reading but leaves its bytes in place, so that
  acknowledged records behind it are swallowed. `WriteAheadLog.TornTailSwallows` and `TornLengthSwallows` say what is
  read for any bytes behind a cut, `SurvivorsOfTornTail` which records survive, and `AppendReadsBack` that everything
  appended is read if and only if the cut was at the end of a record.

## Model

| member | source | states |
|---|---|---|
| Tarjan.FindCycles | src/engine/lock/DeadlockDetector.js:75-121 | for every finite graph the search ends and returns exactly the strongly connected components with two or more members, each once, sorted, pairwise disjoint |
| Tarjan.Search.StrongConnect | src/engine/lock/DeadlockDetector.js:83-115 | one visit closes off the components below it and keeps the index, low-link and stack invariants for the rest |
| Tarjan.Search.Descend | src/engine/lock/DeadlockDetector.js:91-93 | visiting an unnumbered neighbour keeps the invariants; the node's low-link then accounts for that edge too, and no other low-link has changed |
| DeadlockDetection.DeadlockDetector.BuildWaitForGraph | src/engine/lock/DeadlockDetector.js:56-68 | the graph has exactly the edges from waiters to holders in a conflicting mode |
| DeadlockDetection.DeadlockDetector.SelectVictim | src/engine/lock/DeadlockDetector.js:128-140 | the victim holds no more locks than any member of the cycle, and none with as few is younger |
| DeadlockDetection.DeadlockDetector.Detect | src/engine/lock/DeadlockDetector.js:147-166 | a sweep reports exactly the cycles, takes the best victim of each, releases the victims and nothing else, and leaves only old cycles without victims |
| DeadlockDetection.DeadlockDetector.SweepUntilClear | src/engine/lock/DeadlockDetector.js:147-166 | repeated sweeps come to an end with no cycle left, in no more rounds than there were nodes on cycles, plus one |
| LockTable.DrainSettles | src/engine/lock/LockManager.js:220-251 | after draining, the head of a non-empty queue conflicts with a holder, and holders are still one exclusive or all shared |
| LockTable.DrainServesPrefix | src/engine/lock/LockManager.js:220-251 | draining serves a prefix of the queue in arrival order and touches nobody else's lock |
| LockTable.DrainServesWhileFitting | src/engine/lock/LockManager.js:220-251 | draining serves each request in its own mode as long as the next one fits the holders at that point, and stops at the first one that does not |
| LockTable.DrainThenRelease | src/engine/lock/LockManager.js:202-213 | draining before or after a transaction's locks go makes no difference |
| LockTable.CancelThenRelease | src/engine/lock/LockManager.js:202-213 | cancelling a transaction's requests one by one, with a drain each, is the same as dropping them all at once |
| LockManagement.AcquireKeepsTable | src/engine/lock/LockManager.js:119-165 | a request keeps the holders agreeing and loses no wakeup |
| LockManagement.LockManager.Acquire | src/engine/lock/LockManager.js:119-165 | a request is granted at once if and only if its lock is covered, or its transaction is the only holder, or nobody else is queued and no other holder conflicts; as an upgrade exactly if it alone holds the lock in shared mode and asks for the exclusive one; otherwise it is queued last and pending |
| LockManagement.LockManager.DrainQueue | src/engine/lock/LockManager.js:220-251 | the loop drains the entry, and resolves just the promises of the requests served, each as an upgrade exactly if it was one when served |
| LockManagement.LockManager.CancelRequest | src/engine/lock/LockManager.js:259-268 | the request is gone, its promise rejected, and whoever it kept waiting is served |
| LockManagement.LockManager.TimeOut | src/engine/lock/LockManager.js:156-159 | the timer cancels just this request, keeps every invariant, and is counted |
| LockManagement.LockManager.Release | src/engine/lock/LockManager.js:187-192 | one lock is released and the queue drained |
| LockManagement.LockManager.ReleaseAll | src/engine/lock/LockManager.js:202-213 | the transaction neither holds nor awaits anything, every queue is settled, empty entries are pruned; its own pending promises are rejected, and of the others none is, though some may be granted |
| LockManagement.LockManager.GetWaitForEdges | src/engine/lock/LockManager.js:289-301 | an edge is listed exactly for each queued request and each conflicting holder |
| LockRuns.StepKeeps | src/engine/lock/LockManager.js:119-268 | requests, cancellations and finishing all keep the table invariants and the single outstanding request |
| LockOrder.NobodyOvertakes | src/engine/lock/LockManager.js:119-268 | in every run: while a request is queued, whoever gets its resource was queued in front of it or held the resource already |
| LockRuns.StuckForever | src/engine/lock/LockManager.js:202-251 | no run of steps by others ever takes a request of a stuck set out of its queue, or changes a lock that a member holds |
| LockRuns.ReportedIsStuck | src/engine/lock/DeadlockDetector.js:75-121 | every component the detector reports is stuck |
| LockDeadlock.FrontBlockedStaysQueued | src/engine/lock/LockManager.js:220-268 | in all modes: no run of steps by others takes a request of a set out of its queue if and only if in every queue the first request of a member is blocked by a holder in the set |
| LockDeadlock.DeadlockIsJam | src/engine/lock/DeadlockDetector.js:13-14 | in all modes: a set of waiting transactions that others can never serve is exactly a non-empty set whose members each wait for a member or are queued behind one |
| LockDeadlock.StuckIsDeadlock | src/engine/lock/DeadlockDetector.js:13-14 | a set of transactions that wait for each other is such a deadlock |
| LockDeadlock.SeenIsReported | src/engine/lock/DeadlockDetector.js:75-121 | a cycle within a set puts two of its members in one component that the detector reports |
| LockDeadlock.ReportedIsSeen | src/engine/lock/DeadlockDetector.js:75-121 | a reported component within a set is a cycle within it |
| LockDeadlock.DetectorSeesEveryDeadlock | src/engine/lock/DeadlockDetector.js:13-14 | every deadlock of a table contains a cycle of the wait-for graph if and only if every cycle that goes through holders and through earlier requests of a queue does |
| LockDeadlock.ExclusiveDeadlockHasCycle | src/engine/lock/LockManager.js:289-301 | with exclusive locks only, every deadlock contains a reported component |
| LockDeadlock.HiddenDeadlockReachable | src/engine/lock/LockManager.js:119-180 | a run of requests that ends in a certain table with shared and exclusive locks |
| LockDeadlock.MixedModesHideDeadlock | src/engine/lock/LockManager.js:289-301 | in that table exactly the set of all three transactions is a deadlock, and neither it nor any other set contains a cycle of the wait-for graph |
| LockProgress.AscendingKept | src/engine/Engine.js:379-382 | as long as requests ascend, whoever is queued for a page holds only lower ones, whatever the step; asking again for a covered lock ascends, too |
| LockProgress.SomebodyRuns | src/engine/lock/LockManager.js:173-251 | in a table where waiters hold only lower pages, while anybody waits, some lock holder does not, queues counted |
| LockProgress.AscendingNeverBlocks | src/engine/Engine.js:379-452 | after no run of ascending requests from the empty table is everybody with a lock blocked |
| LockProgress.EditsAscend | src/engine/Engine.js:379-452 | the requests of an edit ascend: first its pages in ascending order, then each again for writing |
| WaitFor.ReleaseCreatesNoCycle | src/engine/lock/LockManager.js:202-251 | every cycle left after a release was there before and avoids the released transaction |
| LockHolding.StepKeepsHolding | src/engine/transaction/TransactionManager.js:117-125 | until it finishes, a transaction keeps every lock at least as strongly as it got it, whatever the others do |
| LockHolding.ExclusiveIsAlone | src/engine/lock/LockManager.js:173-180 | nobody else holds a resource that is held exclusively |
| Recovery.WritesRecover | src/engine/recovery/RecoveryManager.js:95-147 | for every log, recovery sets each page to the first loser's before-image if there is one, else to the last winner's after-image, else leaves it |
| Recovery.InterruptionIsHarmless | src/engine/recovery/RecoveryManager.js:141-154 | stopping after any number of page writes and abort records does not change what recovery restores |
| Recovery.RecoveryIsIdempotent | src/engine/recovery/RecoveryManager.js:134-154 | nor do any number of interrupted attempts in a row |
| Recovery.RecoveryManager.Analyse | src/engine/recovery/RecoveryManager.js:60-86 | winners are those with a commit record, losers those that began without one, aborted ones included |
| Recovery.RecoveryManager.Redo | src/engine/recovery/RecoveryManager.js:95-108 | the winners' after-images go to the file, forwards |
| Recovery.RecoveryManager.Undo | src/engine/recovery/RecoveryManager.js:118-132 | the losers' before-images go to the file, backwards |
| Recovery.RecoveryManager.Recover | src/engine/recovery/RecoveryManager.js:141-154 | every page holds what the log says it should, every loser gets an abort record, one each, and the two counts are the page writes of the two passes |
| EngineRuns.EngineIsSerialisableAndDurable | src/engine/transaction/TransactionManager.js:117-280 | in every run with crashes, committed transactions read what they would have read one at a time in commit order; unmodified pages show the outcome of that serial execution, and so do recovered ones with no committed update after an uncommitted one |
| EngineRuns.RecoversTo | src/engine/recovery/RecoveryManager.js:81-132 | in every run, recovery takes a page back to its contents last committed before the first update that did not commit |
| EngineRuns.CrashSafe | src/engine/recovery/RecoveryManager.js:81-132 | recovery restores the last committed contents exactly if there is no uncommitted update, or the last committed one comes before it, or happened to write the same image |
| EngineRuns.CrashKeeps | src/engine/recovery/RecoveryManager.js:141-154 | after crash and recovery every page shows its last committed contents, and all invariants hold for the runs that follow |
| EngineRuns.AbortRestores | src/engine/transaction/TransactionManager.js:242-263 | once all its writes are undone, pages an aborting transaction modified show their last committed contents |
| EngineKeeps.HolderSees | src/engine/transaction/TransactionManager.js:136-151 | whoever holds a page's lock reads its own last write, or else the last committed contents, however frames came and went |
| EngineKeeps.WriteKeeps | src/engine/transaction/TransactionManager.js:169-202 | a write keeps every engine invariant: its before-image is the last committed contents, and the page stays its writer's alone |
| EngineKeeps.LogCommitKeeps | src/engine/transaction/TransactionManager.js:211-217 | a commit record turns the writer's contents into the committed ones without changing what any other transaction has read |
| EngineKeeps.EvictKeeps | src/engine/buffer/BufferPool.js:145-158 | stealing a dirty page of a running transaction keeps every engine invariant |
| EngineKeeps.UndoneShows | src/engine/transaction/TransactionManager.js:245-249 | what undoing leaves on a page is what was committed before the transaction first wrote it |
| EngineLimits.AbortThenCommitIsLost | src/engine/recovery/RecoveryManager.js:81-84 | a run after which a crash loses a committed write |
| EngineLimits.VictimThatWroteLeaks | src/engine/transaction/TransactionManager.js:274-280 | a run in which another transaction reads a victim's write before it is undone, so that no serial order explains it |
| EngineLimits.MarkedWriterLeaks | src/engine/transaction/TransactionManager.js:274-280 | in any state, once a running transaction with a changed page is marked, a new transaction can read the change and commit |
| EngineLimits.MarkingIsSafe | src/engine/transaction/TransactionManager.js:274-280 | marking a transaction whose changed pages nobody else awaits keeps every run explainable by a serial order if and only if it has written nothing |
| Transactions.TransactionManager.constructor | src/engine/transaction/TransactionManager.js:59-72 | a new manager is an engine in which nothing has happened |
| Transactions.TransactionManager.StartTransaction | src/engine/transaction/TransactionManager.js:79-87 | begins a transaction under an id no record uses, and logs it |
| Transactions.TransactionManager.AcquireLock | src/engine/transaction/TransactionManager.js:117-120 | up to the wait: a lock request step for a running transaction, refused otherwise; it is granted at once under the condition of `LockManager.Acquire`, and then the lock is held |
| Transactions.TransactionManager.ReadLocked | src/engine/transaction/TransactionManager.js:123-150 | from the check after a granted wait on: succeeds if and only if the transaction is running and the page can be loaded, and returns what the page showed; the run behind it is eviction, fetch and read |
| Transactions.TransactionManager.WriteLocked | src/engine/transaction/TransactionManager.js:123-201 | from the check after a granted wait on: succeeds if and only if the transaction is running, the page can be loaded and the version, if one is given, matches; a mismatch is exactly what is called stale; success logs both images and changes only this page, failure logs nothing |
| Transactions.TransactionManager.CommitTransaction | src/engine/transaction/TransactionManager.js:211-229 | a run that logs the commit, brings every modified page to the file and releases the locks of this transaction alone; no page changes what it shows |
| Transactions.TransactionManager.AbortTransaction | src/engine/transaction/TransactionManager.js:242-264 | a run after which this transaction alone is gone, with an abort record, modified pages show their last committed contents and all others what they showed |
| Transactions.TransactionManager.MarkDeadlockVictim | src/engine/transaction/TransactionManager.js:274-280 | the locks of the victim go, its writes stay; an unknown transaction changes nothing; for a victim that has not written this is a step of the engine, and every invariant stays |
| Recency.LinksAreMutual | src/engine/buffer/LRUCache.js:95-110 | in the recency list, next and previous are inverse, and only the ends lack one |
| Recency.LRUCache.Touch | src/engine/buffer/LRUCache.js:44-54 | the page moves to the front and the others keep their order |
| Recency.LRUCache.Remove | src/engine/buffer/LRUCache.js:60-65 | the page leaves the list and the others keep their order |
| Recency.LRUCache.EvictionOrder | src/engine/buffer/LRUCache.js:72-78 | walking the previous links from the tail lists all pages, least recent first |
| Recency.LRUCache.UsageOrder | src/engine/buffer/LRUCache.js:81-87 | walking the next links from the head lists all pages, most recent first |
| Recency.BridgedInPlace | src/engine/buffer/LRUCache.js:103-110 | after unlinking, every remaining node has the links of the shorter list |
| Buffering.BufferPool.FetchPage | src/engine/buffer/BufferPool.js:69-87 | succeeds if and only if the page is resident, or there is a frame for it and the file, once that frame is free, holds it intact; which error otherwise; the page is then pinned and most recent; at most one frame went, the least recent unpinned one, only if the pool was full; no page changes what it shows |
| Buffering.BufferPool.EvictOne | src/engine/buffer/BufferPool.js:145-158 | the least recently used unpinned frame goes, written back if dirty; failure exactly if all are pinned |
| Buffering.BufferPool.UnpinPage | src/engine/buffer/BufferPool.js:95-100 | one pin fewer, never below zero; dirty frames stay dirty |
| Buffering.BufferPool.FlushPage | src/engine/buffer/BufferPool.js:119-126 | a dirty page reaches the file and is clean; no page changes what it shows |
| Buffering.BufferPool.FlushAll | src/engine/buffer/BufferPool.js:132-138 | the file holds what every resident page shows, all frames are clean, and the count is that of the dirty ones |
| Buffering.BufferPool.Invalidate | src/engine/buffer/BufferPool.js:166-169 | readers of this page see the file again, readers of others see no change |
| Buffering.EvictedOk | src/engine/buffer/BufferPool.js:145-158 | writing back and dropping a frame keeps list and table in step and every view as it was |
| Storage.StorageManager.AllocatePage | src/engine/storage/StorageManager.js:202-213 | the new page is the largest so far and belongs to this document alone; documents' page lists stay ascending and disjoint |
| Storage.StorageManager.CreateDocument | src/engine/storage/StorageManager.js:165-174 | a new document gets one fresh page, empty, at the end of the file; a known one is left alone |
| Storage.StorageManager.ReadPage | src/engine/storage/StorageManager.js:239-250 | refuses the directory region, pages past the end of the file and damaged images, and returns any other image |
| BPlusTrees.BPlusTree.Insert | src/engine/index/BPlusTree.js:130-147 | adds exactly one posting and keeps order, separator bounds, fill, equal depth, parents and leaf chain; of the separators that are not stored keys only this key can leave, and none can join, so exact separators stay exact |
| BPlusTrees.BPlusTree.Delete | src/engine/index/BPlusTree.js:247-268 | removes exactly one posting or key, says whether there was one, and keeps every tree invariant through the whole cascade; which separators are no longer stored keys afterwards, and that exact separators stay exact if and only if the deletion does not spoil them |
| BPlusTrees.BPlusTree.AddKey | src/engine/index/BPlusTree.js:141-145 | a new key goes into its leaf, and whatever has to be split is split |
| BPlusTrees.BPlusTree.DropKey | src/engine/index/BPlusTree.js:258-262 | a key leaves its leaf, and whatever is underfull is mended |
| BPlusTrees.BPlusTree.SplitLeaf | src/engine/index/BPlusTree.js:149-163 | an overfull leaf becomes two without changing what is stored, and all invariants hold up to the root |
| BPlusTrees.BPlusTree.InsertIntoParent | src/engine/index/BPlusTree.js:170-189 | a separator finds its place in the parent, or in a new root |
| BPlusTrees.BPlusTree.SplitInternal | src/engine/index/BPlusTree.js:191-204 | an overfull internal node becomes two, its middle key moving up |
| BPlusTrees.BPlusTree.Rebalance | src/engine/index/BPlusTree.js:270-297 | an underfull node takes a key from its left sibling if that can lend one, else from the right one if that can, else is joined with the left one or, without one, the right one; the deficit moves up and ends at the root |
| BPlusTrees.BPlusTree.BorrowFromLeft | src/engine/index/BPlusTree.js:299-312 | a key comes over from the left; both nodes are full enough and nothing stored changes |
| BPlusTrees.BPlusTree.BorrowFromRight | src/engine/index/BPlusTree.js:314-327 | the same from the right |
| BPlusTrees.BPlusTree.MergeNodes | src/engine/index/BPlusTree.js:336-360 | two siblings become one, the parent loses the separator between them and is mended in turn |
| BPlusTrees.BPlusTree.Absorb | src/engine/index/BPlusTree.js:338-352 | the left sibling has everything that the right one had, and the leaf chain and the moved children follow |
| BPlusTrees.BPlusTree.FindLeaf | src/engine/index/BPlusTree.js:104-112 | descends to the leaf whose range covers the key, in as many hops as the tree has levels below the root |
| BPlusTrees.BPlusTree.Search | src/engine/index/BPlusTree.js:211-216 | returns the documents stored under the key after h hops, h >= 1 only if 2^(h+1) or more keys are stored |
| BPlusTrees.BPlusTree.RangeScan | src/engine/index/BPlusTree.js:223-237 | returns exactly the postings in the range, ascending |
| BPlusTrees.BPlusTree.AllEntries | src/engine/index/BPlusTree.js:366-378 | the leaf chain lists every posting, ascending |
| BPlusTrees.BPlusTree.Height | src/engine/index/BPlusTree.js:89-97 | the number of levels; a tree of height h >= 2 holds at least 2 * (internalMin + 1)^(h-2) * leafMin keys, and at least 2^h |
| TreeHeight.TallTreesAreFull | src/engine/index/BPlusTree.js:72-73 | the same for every tree that satisfies the invariants |
| TreeHeight.HeightIsLogarithmic | src/engine/index/BPlusTree.js:72-97 | hence 2^h keys or more |
| TreeMerge.DisjointSpans | src/engine/index/BPlusTree.js:389-430 | two nodes of equal height that are not the same have disjoint key ranges |
| TreeMerge.RecutOk | src/engine/index/BPlusTree.js:299-327 | any new cut between two siblings, of leaves or of internal nodes, keeps the tree invariants, how full the two are excepted |
| TreeMerge.MergeOk | src/engine/index/BPlusTree.js:336-360 | joining two siblings keeps the tree invariants, how full the joined node and the parent are excepted |
| TreeValidation.ValidateFindsNothing | src/engine/index/BPlusTree.js:386-430 | the walk of `validate`, bounds and depths handed down, reports nothing for any tree that satisfies the invariants, and meets leaves at one depth only |
| TreeShape.HalfFull | src/engine/index/BPlusTree.js:19 | for even maxKeys every node but the root holds ceil(maxKeys / 2) keys |
| TreeShape.SplitHalfFull | src/engine/index/BPlusTree.js:191-204 | the right half of an internal split holds ceil(maxKeys / 2) keys exactly if maxKeys is even |
| TreeSeparators.KeysUnderRange | src/engine/index/BPlusTree.js:13-16 | under a node are exactly the stored keys of its range |
| TreeSeparators.ExactMeansNoneStale | src/engine/index/BPlusTree.js:13-14 | every separator is the smallest key under the child to its right if and only if every separator is a stored key |
| TreeSeparators.SeparatorIsUnique | src/engine/index/BPlusTree.js:13-14 | a separator between leaves occurs in no other internal node |
| TreeSeparators.RecutStale | src/engine/index/BPlusTree.js:299-327 | a new cut between leaves replaces the separator there by a stored key; between internal nodes no separator comes or goes |
| TreeSeparators.MergeStale | src/engine/index/BPlusTree.js:336-352 | merging leaves drops the separator between them; merging internal nodes drops none |
| TreeExactness.ExactAfterDelete | src/engine/index/BPlusTree.js:258-297 | with exact separators before, dropping a key leaves them exact if and only if it does not spoil them: the key is no separator, or its leaf underflows and is mended from the left |
| TreeExactness.DeletionSpoils | src/engine/index/BPlusTree.js:247-264 | a tree of five keys with exact separators, and the deletion after which one separator is stored nowhere |
| TreeEntries.EntriesOfKey | src/engine/index/BPlusTree.js:130-147 | changing one key in the leaf that covers it changes that key's posting in the whole tree, and no other |
| TreeScan.PassKey | src/engine/index/BPlusTree.js:223-237 | between a key of a leaf and the next one along the chain there is no other posting |
| IndexManagement.IndexManager.IndexDocument | src/engine/index/IndexManager.js:93-103 | afterwards the index agrees with the current texts, this document's replaced |
| IndexManagement.IndexManager.RemoveDocument | src/engine/index/IndexManager.js:110-118 | afterwards the index agrees with the texts without this document |
| IndexManagement.IndexManager.Search | src/engine/index/IndexManager.js:125-129 | finds exactly the documents whose current text has the keyword, ascending |
| IndexManagement.IndexManager.FullScan | src/engine/index/IndexManager.js:159-167 | the documents of any list whose text has the keyword, and no others, in order and as often as they are listed |
| Sorting.SortAscKeeps | src/engine/index/IndexManager.js:166 | sorting loses, adds and repeats nothing |
| IndexManagement.IndexManager.Benchmark | src/engine/index/IndexManager.js:180-204 | the two searches agree exactly if there are no iterations or the scanned documents with the keyword are the indexed ones, each once; over the current texts they always do; the height reported is the number of levels, logarithmic in the number of keys |
| IndexManagement.IndexManager.SearchPrefix | src/engine/index/IndexManager.js:138-150 | finds exactly the documents with a keyword of that prefix, ascending, and nothing for an empty prefix |
| IndexManagement.PrefixIsRange | src/engine/index/IndexManager.js:142-144 | for keywords over a-z and 0-9, the range up to the last code unit is exactly the prefix |
| Checksum.TableStepIsByteStep | src/engine/storage/Page.js:38-67 | a step by table lookup is eight steps of the bitwise shift register of section 3.2.9 of IEEE 802.3 |
| Checksum.Crc32 | src/engine/storage/Page.js:60-67 | the table-driven loop computes the bitwise checksum of the bytes outside the skipped range |
| Checksum.BuildTable | src/engine/storage/Page.js:38-48 | the table holds eight bit steps of every byte |
| Checksum.ByteStepInjective | src/engine/storage/Page.js:60-67 | a byte step is injective in the register and in the byte |
| Checksum.OneByteMatters | src/engine/storage/Page.js:60-67 | changing one byte changes the register, whatever follows |
| Checksum.CheckValue | src/engine/storage/Page.js:38-67 | the checksum of "123456789" is the published check value of CRC-32 |
| Pages.OneByteIsCaught | src/engine/storage/Page.js:275-308 | of a serialized page of any size with one byte changed, exactly what reads as blank is accepted |
| Pages.BlankIsEmpty | src/engine/storage/Page.js:297-301 | no page with records reads as blank |
| Pages.Page.InsertRecord | src/engine/storage/Page.js:146-163 | exactly when the record fits and its fields are in range, it comes last; otherwise the page holds what it held |
| Pages.Page.StoreRecord | src/engine/storage/Page.js:154-158 | a record with all fields in range is spelled in full, any other up to the field that is not |
| Pages.Page.ReadRecord | src/engine/storage/Page.js:170-189 | the first record with the identity, or none |
| Pages.Page.ListRecords | src/engine/storage/Page.js:192-209 | the walk over the bytes gives back the records in order |
| Pages.Page.RewriteRecords | src/engine/storage/Page.js:250-268 | the page then holds exactly the new records; or it is unchanged, exactly if they do not fit; or, exactly if a field or their number is out of range, its area holds what was written up to there |
| Pages.Page.EndOffset | src/engine/storage/Page.js:123-130 | the walk ends right behind the last record |
| Pages.Page.Serialize | src/engine/storage/Page.js:275-281 | the image carries a matching checksum and a clear dirty flag, and spells the same page |
| Pages.Deserialize | src/engine/storage/Page.js:291-308 | accepts an image of the right size exactly if it is blank or its checksum matches |
| Pages.RoundTrip | src/engine/storage/Page.js:192-308 | serializing, deserializing and listing gives the records back |
| WriteAheadLog.ReadsBack | src/engine/recovery/WAL.js:113-230 | reading inverts appending, an absent image being an empty one |
| WriteAheadLog.TruncationKeepsWholeRecords | src/engine/recovery/WAL.js:186-230 | a log cut after any byte reads back as exactly the records that fit whole |
| WriteAheadLog.TornTailSwallows | src/engine/recovery/WAL.js:179-230 | bytes behind a torn record whose length is in the file: too few are lost altogether; otherwise those that were missing go into one mixed-up record, and reading goes on behind them |
| WriteAheadLog.TornLengthSwallows | src/engine/recovery/WAL.js:179-230 | the same for a cut inside the length field: the length read is put together from both sides |
| WriteAheadLog.SurvivorsOfTornTail | src/engine/recovery/WAL.js:179-230 | if the torn record ends where some appended record begins, that one and all behind it are read, and none before it |
| WriteAheadLog.AppendReadsBack | src/engine/recovery/WAL.js:74-230 | for every log and every cut: all that may be appended is read behind the whole records if and only if no part of a record was left |
| WriteAheadLog.WAL.Append | src/engine/recovery/WAL.js:113-140 | the file grows by one record with the next sequence number, or a field is out of range and nothing changes |
| WriteAheadLog.WAL.ReadAll | src/engine/recovery/WAL.js:186-230 | returns all records appended, in order, with consecutive sequence numbers |
| WriteAheadLog.RecordSurvives | src/engine/recovery/WAL.js:142-174 | a record of any kind comes back from its entry as itself |
| Utf8.DecodesEncoded | src/engine/Engine.js:328 | decoding inverts encoding (section 3 of RFC 3629) |
| Utf8.Examples | src/engine/Engine.js:228 | a character of each length is encoded as in the examples of section 7 of RFC 3629 |
| Utf8.BoundaryIsBetweenCharacters | src/engine/Engine.js:236-237 | a position whose byte does not continue a character lies between whole characters |
| Documents.SplitIntoChunks | src/engine/Engine.js:227-244 | with room for the metadata on the first page the loop ends; every chunk fits its page, encodes whole characters, could not take the next character as well unless it is the last, and together they make up the text |
| Documents.FilledIsFewest | src/engine/Engine.js:227-244 | no split of the text into pieces that fit their pages needs fewer pages |
| Documents.EditFits | src/engine/Engine.js:209-214 | rewriting a page with its metadata and chunk overflows it exactly if the chunk is longer than the capacity |
| DocumentEdits.ReadDocument | src/engine/Engine.js:308-335 | version and metadata of the first page, and the decoded content of all pages, in order |
| DocumentEdits.NewDocumentHolds | src/engine/Engine.js:287-293 | a new document holds the empty text |
| DocumentEdits.ExecuteEdit | src/engine/Engine.js:384-452 | an edit of a document that holds a text is refused exactly for a base version that is not the current one, metadata that does not fit, or a version used up; otherwise it leaves sealed images that hold the text after the operation, the new metadata and the next version in every record, on no more new pages than the text needs |
| DocumentEdits.EditRoundTrip | src/engine/Engine.js:308-452 | reading an edited document back from its images gives the text after the operation, the new metadata and the next version |
| Scheduling.Scheduler.Submit | src/engine/scheduler/Scheduler.js:107-130 | the task gets a fresh id and is enqueued, then work is handed out as by `Dispatch`; none is completed, and every task ever submitted stays, unchanged, in exactly one queue, on one worker, or once among the completed |
| Scheduling.Scheduler.Dequeue | src/engine/scheduler/Scheduler.js:151-166 | takes the head of the queue, or of the next document with work in turn; nothing exactly if there is no work |
| Scheduling.Scheduler.Dispatch | src/engine/scheduler/Scheduler.js:169-182 | the tasks handed out are the first ones of the queue, or those whose documents have their turns, in that order, each to the first idle worker from the cursor on; queues, rotation and workers change in no other way, and while running there is no queued task or no idle worker afterwards |
| Scheduling.Scheduler.Finish | src/engine/scheduler/Scheduler.js:210-234 | exactly this worker's task joins the completed ones, with its outcome; the counters follow, no other worker loses its task, and work is handed out as by `Dispatch` |
| Scheduling.Scheduler.SetPolicy | src/engine/scheduler/Scheduler.js:80-84 | changes the policy exactly if no task is queued, so none is stranded |
| Scheduling.Scheduler.QueueLength | src/engine/scheduler/Scheduler.js:72-77 | the number of tasks queued, each counted once |
| Scheduling.Scheduler.GetMetrics | src/engine/scheduler/Scheduler.js:242-255 | submitted tasks are the queued, the running and the completed ones together; dispatched ones the running and the completed; completed ones those that succeeded and those that failed |
| Scheduling.Scheduler.RunNext | src/engine/scheduler/Scheduler.js:174-200 | the worker gets the first task of the queue, or of the next document in turn, which leaves its queue and moves the rotation on |
| Scheduling.TasksAddUp | src/engine/scheduler/Scheduler.js:169-234 | when every id handed out is in exactly one place, there are as many as tasks queued, workers busy and tasks completed together |
| TaskQueues.InsertByPriority | src/engine/scheduler/Scheduler.js:271-279 | the scan from the back finds the end of the priority tasks |
| TaskQueues.InsertedIsOrdered | src/engine/scheduler/Scheduler.js:271-279 | a queue stays priority tasks first, each kind in order of arrival |
| TaskQueues.RotationIsFair | src/engine/scheduler/Scheduler.js:133-166 | whatever arrives, while a document has work and is not served, no other document is served twice |
| TaskQueues.HistoryIsFair | src/engine/scheduler/Scheduler.js:133-182 | in every history of a rotation, from any point on: as long as no task of a document with queued work is started, no other document has two started |
| Scheduling.Scheduler.DocumentsTakeTurns | src/engine/scheduler/Scheduler.js:107-234 | the same for the scheduler, whatever is submitted, finished and dispatched since |
| TaskQueues.ServesIfWork | src/engine/scheduler/Scheduler.js:151-166 | one round of the rotation finds work exactly if there is some |
| Workers.WorkerPool.Acquire | src/engine/scheduler/WorkerPool.js:100-110 | the first idle worker from the cursor on, going round; none exactly if all are busy |
| Conflicts.OverlapsIsCollide | src/engine/conflict/ConflictResolver.js:108-122 | the test on ranges holds exactly if both operations insert in the same place, or both remove some character, or one that removes nothing lies inside what the other removes |
| Conflicts.MergeConverges | src/engine/conflict/ConflictResolver.js:108-174 | within the base text a merge succeeds exactly if the operations do not collide, has every insertion, lacks exactly the removed characters, and does not depend on the order |
| Conflicts.DeleteUndoesInsert | src/engine/conflict/ConflictResolver.js:131-145 | deleting what was inserted gives the text back if and only if the insertion was not beyond the text |
| Conflicts.ConflictResolver.Merge | src/engine/conflict/ConflictResolver.js:159-174 | succeeds, and is counted, exactly if the operations do not collide; within the base text the result has both insertions and lacks exactly the removed characters |
| Conflicts.ConflictResolver.AssertNoConflict | src/engine/conflict/ConflictResolver.js:94-101 | passes exactly equal versions, and counts |
| Conflicts.OutsideTheTextOrderMatters | src/engine/conflict/ConflictResolver.js:135-143 | for positions past the end of the text the two orders can differ |
| MergeOrder.OrderMatters | src/engine/conflict/ConflictResolver.js:159-174 | for all operations, within the text or beyond it, the order of merging matters if and only if they do not collide, the left one reaches beyond the text, and it would land among, behind or on the characters that the right one appends there |

## Left out

- The client, the server, SQL, authentication, metrics, the message queue and collaboration presence: no part of the engine's hard state.
- File-system calls and fsync: disk and log are values that a process crash keeps as written; page writes are atomic, and torn log writes are treated in `WAL` alone.
- Timers, promises, timestamps, wait-time statistics and logging: a promise is an outcome, a lock timeout is a cancellation at any time.
- Checkpoints: recovery ignores them; the log keeps the record kind.
- Index persistence and the bytes of the page directory: simple codecs beside those of `WAL` and `Page`; a directory that outgrows its region is not modelled.
- The regular expression of `tokenize` and lower-casing: parameters of `IndexManager`, with the fact that keywords are over a-z and 0-9.
- Strings as UTF-16: texts are sequences of Unicode characters, keys are compared by code point, and positions in `ConflictResolver` count characters; outside the basic plane the program counts and compares code units, and edits that cut a surrogate pair in two are not modelled.
- The JSON inside the metadata record: opaque bytes.
- Page allocation within engine runs: `EngineState` takes the file as if every page a run uses had been allocated, empty, before it began.
- The in-memory shape of a page in engine runs: `EngineState` and `TransactionManager` work on images; `Page` connects images and records.
- Mutators that throw halfway: a mutator is a total function on images.
- A victim that ignores the error and goes on: `assertActive` forgets the mark after one refusal; here a marked victim can only abort.
- The scheduler's waiting and turnaround times, and clearing its history between benchmarks.
- Transactions.TransactionManager.CommitTransaction: flushes the page of each write, so a page written twice is flushed twice, the second time without effect, where the program keeps a list without repetitions.
- Conflicts.MergeConverges: says what the merged text is for positions within the base text only; for all positions, `MergeOrder.OrderMatters` says exactly when the two orders give different texts.
- Documents.SplitIntoChunks: needs room for the metadata on the first page; without it, whatever the chunks are, the edit cannot rewrite that page.
- DocumentEdits.ExecuteEdit: an edit that fails leaves the pages alone; in the program the first page may have been half rewritten, until the abort restores it. Page ids stay below 2^32, and new pages are numbered from a parameter on.
- Transactions.TransactionManager.ReadLocked: returns the image; version and records, which the program returns, are functions of it.
- Transactions.TransactionManager.AbortTransaction: the program would also undo a transaction that has committed already, if asked to; here nothing happens then.
- Transactions.TransactionManager.MarkDeadlockVictim: after a victim that has written, nothing is said about the invariants; `EngineLimits.MarkedWriterLeaks` says what can happen.
