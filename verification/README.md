# OrangeSQL in Dafny

A model of the transaction, storage, log and parsing layers of OrangeSQL, with proofs about whole
runs of them. `dafny verify dfyconfig.toml` checks everything.

Objects that the engine updates in place are classes whose methods are proved against functions on
a value state; the theorems are about those functions, for every input and every run.

| file | content |
|---|---|
| LockTable, TwoPhase | the lock table and its steps; two-phase locking over runs |
| WaitGraph, LockManager, TransactionManager | the holder-to-waiter graph, both cycle searches, victim choice, deadlock resolution |
| OpenCalls, LateGrants, ActiveRuns | which `acquireLock` calls are inside their wait loop; grants after a release; which runs keep all waiters active |
| Deadlocks, Verdicts | deadlock as the modes define it, against what the search reports for the table and for each transaction |
| PoolState, PoolRuns, BufferPool | frames, recency list and disk; cache refinement over runs with client writes; the pool object |
| Bytes, LogCodec, LogState, LogManager | log records as bytes, write buffer and file, crash images, the log object |
| Recovery, CheckpointText, CheckpointManager | back chains, truncation, redo selection, the checkpoint text |
| Decimal, ExprSyntax, ExprProofs, ExprParser | tokens, trees, the parser as a function, its round trip, the parser object |
| Base64, BTreeNode, Histogram, WalRow | the streaming codec, the sorted-array node, equal-depth histograms, the row codec |
| Common | options and a fact about finite sets |

Conventions of the model:

- One method body, or one turn of the wait loop of `acquireLock`, is one atomic step; mutexes and
  latches are not modelled. The wait loop reads the entry list again on every turn.
- `acquireLock` blocks its caller, so a transaction has at most one call inside the wait loop. Other
  threads may release the transaction meanwhile, as the deadlock detector does.
- A client may write to a page it was given at any time; the pool does not see it.
- Clocks are parameters: elapsed milliseconds in the wait loop, seconds in log records, an access
  counter in the buffer pool that grows with every access.
- Hash-table iteration order is an arbitrary choice. Traversals of the log go in LSN order, which
  is what the source's reverse iteration presumes.
- An eviction loop that finds nothing to evict never ends in the source. In the model it is an
  outcome (`Spins`, `done == false`), and the exact condition for it is part of the contract.
- A thrown exception is an error value.
- `hide` statements at the head of a proof only narrow what the verifier looks at.

Where the code does less than its documentation suggests, the code is followed, and the exact
condition is proved:

- The lock matrix refuses IX with IX and admits S with SIX (`LockTable.MatrixAgainstTextbook`).
- A transaction released while it is inside the wait loop can still be granted, exactly then
  (`LateGrants.LateGrantIffInWaitLoop`), and the victim of a detected deadlock is such a transaction:
  after its release it is granted a lock and two transactions each precede the other
  (`LateGrants.VictimBreaksSerialisability`). Runs in which locks leave together and every release
  finds its transaction outside the loop and is its last word serialise
  (`LateGrants.SettledRunsSerialise`).
- A transaction aborted in its wait loop can go on to wait again without being active, on the path of
  a detector that then looks it up in vain (`ActiveRuns.AbortedWaiterIsOnPath`); all waiters are
  active exactly when every request that had to wait came from an active transaction
  (`ActiveRuns.WaitersActiveIff`).
- The deadlock search knows no modes and skips a waiter's own entries. Of the table as a whole: some
  member of every mutual block is told; a mutual block exists exactly when some cycle has refusing
  edges only; and when nobody is told, a deadlock exists exactly when some transaction is refused by
  an entry of its own (`Deadlocks.ReportsOverRuns`, `Deadlocks.CompatibleHolderIsReported`,
  `Deadlocks.SelfBlockIsMissed`).
- The search from a transaction follows the edges from holders to waiters, to those who wait for it,
  where the comments in the source say it follows what the transaction waits for
  (transaction/lock_manager.cpp:316, transaction/transaction_manager.cpp:489). A transaction is
  deadlocked exactly when a chain of blockers leads to it from a refusing cycle or a self-blocked
  transaction (`Verdicts.DoomedIffChain`), so the verdict on it is right exactly when such a chain
  and a cycle among those who wait for it are both there or both absent. It is always right for
  members of refusing cycles (`Verdicts.CycleMemberIsTold`), and a report is right whenever every
  edge refuses and no waiter has two, as when only X is asked for (`Verdicts.SoleRefusersVerdict`,
  `Verdicts.VerdictsOverRuns`). In general it is wrong both ways: a bystander is told
  (`Verdicts.BystanderIsTold`), and those waiting behind a deadlock are not
  (`Verdicts.FollowerIsNotTold`, `Verdicts.BehindSelfBlockIsMissed`).
- Fetching a page for writing marks the frame before the write, so a flush in between takes the mark
  away and eviction then loses the write (`PoolRuns.FlushedMarkLosesWrite`). Pages show their last
  stored contents exactly when none leaves memory unmarked while it differs from the disk
  (`PoolRuns.ShowsLastStoreIff`).
- FIFO eviction ignores pins (`PoolState.FifoEvictsPinnedIff`). The strategy is private and is only
  ever set to LRU (storage/buffer_pool.cpp:19), so neither FIFO nor CLOCK is selected as shipped.
- The split of a leaf drops its middle pair (`BTreeNodes.LeafSplitLosesMiddle`).
- A row of 65536 fields or more, or with a text of 2^32 bytes or more, does not come back
  (`WalRows.RowRoundTripIff`), and such a text makes the size computed exceed the bytes written
  (`WalRows.SizeIsExactIff`).
- `f(x)` is a column followed by an unread parenthesis, because the column branch comes first
  (`ExprProofs.CallIsColumn`).

## Model

| member | source | states |
|---|---|---|
| LockTable.LockTableSafety | transaction/lock_manager.cpp:14-185 | in every run of requests, retries, give-ups, releases and upgrades, the entries of a resource are pairwise compatible both ways, an X entry is alone, and at most one entry is X, IX or SIX |
| LockTable.StepKeepsConsistent | transaction/lock_manager.cpp:269-304 | every single step keeps all entry lists pairwise compatible |
| LockTable.RefusedUpgradeKeepsEntries | transaction/lock_manager.cpp:153-185 | an upgrade that is not granted leaves every resource's multiset of modes and holders, and the waiters, as they were |
| LockTable.GrantedUpgradeTradesOneEntry | transaction/lock_manager.cpp:153-179 | a granted upgrade exchanges one entry of the transaction for the new mode and touches no other resource |
| LockTable.DropHolderKeepsOrder | transaction/lock_manager.cpp:100-105 | removal of a holder's entries keeps the order of the others |
| LockTable.UpgradeOutcome | transaction/lock_manager.cpp:153-185 | an upgrade times out exactly when the transaction holds nothing on the resource, and is granted exactly when, its first entry aside, every entry admits the new mode |
| LockTable.SoleEntryUpgrade | transaction/lock_manager.cpp:172-178 | with one entry of its own, an upgrade is granted exactly when every entry of another transaction admits the new mode |
| LockTable.GrantOutcome | transaction/lock_manager.cpp:23-81 | a request or a turn of the wait loop is granted exactly when every entry admits the mode, and the new entry is then the last |
| LockTable.MatrixAgainstTextbook | transaction/lock_manager.cpp:269-294 | the matrix is symmetric and is the usual multi-granularity one, save that it refuses IX with IX and admits S with SIX |
| TwoPhase.HeldUntilRelease | transaction/lock_manager.cpp:61-81 | under the strict discipline, a mode stays in force, possibly as a stronger one, until its transaction releases everything |
| TwoPhase.ClashIsSeparatedByRelease | transaction/lock_manager.cpp:116-151 | between two incompatible grants on a resource to different transactions, the earlier one released everything |
| TwoPhase.ReleaseOrderSerialises | transaction/transaction_manager.cpp:148-149 | release order is a serial order: each clash over the whole run agrees with it, and the first transaction's release falls between the two grants |
| TwoPhase.RankIsInjective | transaction/transaction_manager.cpp:198-199 | the serial order gives different transactions different places |
| TwoPhase.ConflictsAreAcyclic | transaction/lock_manager.cpp:14-151 | the conflict relation of a strict two-phase run has no cycle of any length |
| LateGrants.LateGrantIffInWaitLoop | transaction/lock_manager.cpp:38-151 | after a release of a transaction, some continuation without a new request of it grants it a lock exactly when it was inside a wait loop at the release; on its first release, exactly when its waiting list was not empty |
| LateGrants.SettledReleaseIsFinal | transaction/lock_manager.cpp:116-151 | a release outside the wait loop is followed by no grant until the transaction asks again |
| LateGrants.WaitListShowsCall | transaction/lock_manager.cpp:31-71 | until its first release, a transaction has a waiting list exactly while its call is inside the wait loop |
| LateGrants.SettledRunsSerialise | transaction/transaction_manager.cpp:125-216 | when every release finds its transaction outside a wait loop and is its last word, and locks leave together, the run is strictly two-phase and its conflict relation has no cycle |
| LateGrants.VictimBreaksSerialisability | transaction/transaction_manager.cpp:456-475 | a run in which the victim of a detected deadlock is granted after its release and each of two transactions precedes the other |
| LateGrants.WeakenedLockAdmitsClash | transaction/lock_manager.cpp:153-185 | a run in which trading X for IS by an upgrade lets a clashing S in with nothing released |
| LateGrants.StrictRunWithClash | transaction/lock_manager.cpp:116-151 | the discipline admits runs with clashes |
| OpenCalls.RunsAreTidy | transaction/lock_manager.cpp:31-81 | in every run a waiting list names the resource of the transaction's open call, and an open call missing from the lists belongs to a transaction that holds nothing |
| WaitGraph.TrappedUnfolds | transaction/lock_manager.cpp:306-328 | the depth-first recurrence holds of the existence of a walk that runs into itself or the current path |
| WaitGraph.TrappedIffCycleReachable | transaction/lock_manager.cpp:262-267 | such a walk from an empty path exists exactly when a cycle of the graph is reachable |
| WaitGraph.BlockedSetIsDetected | transaction/lock_manager.cpp:237-267 | a non-empty set of waiters each with an edge from a member contains one from which the search succeeds |
| WaitGraph.TrapIffCycle | transaction/lock_manager.cpp:306-328 | the search succeeds from some transaction exactly when the edge set has a cycle |
| Deadlocks.PatienceHelpsIffSpared | transaction/lock_manager.cpp:38-87 | turning the wait loops and finishing the transactions outside them can let the open calls of a given set all end in a grant exactly when no deadlocked set meets it |
| Deadlocks.StuckIffDeadlocked | transaction/lock_manager.cpp:38-87 | waiters each refused because of a member exist exactly when turning the wait loops and finishing the transactions outside them cannot let every open call end in a grant |
| Deadlocks.DoomedIffNeverGranted | transaction/lock_manager.cpp:38-87 | a transaction is in a deadlocked set exactly when no such continuation ends its call |
| Deadlocks.DeadlockPersists | transaction/lock_manager.cpp:38-87 | a deadlocked set stays deadlocked with the same calls open, whatever others do, until a member gives up, releases or upgrades |
| Deadlocks.MutualBlockIsDetected | transaction/lock_manager.cpp:237-267 | of waiters each refused because of another member, some member's search succeeds |
| Deadlocks.MutualBlockIffRefusingCycle | transaction/lock_manager.cpp:237-260 | such a set exists exactly when the graph has a cycle in which every holder has an entry that refuses the waiter's mode |
| Deadlocks.MissedIffSelfBlocked | transaction/lock_manager.cpp:242-243 | when the search is silent, a deadlock exists exactly when some waiting transaction is refused by an entry of its own |
| Deadlocks.ReportsOverRuns | transaction/lock_manager.cpp:237-328 | the three statements above, of the table as a whole after every run of the lock manager |
| Verdicts.DoomedIffChain | transaction/lock_manager.cpp:38-87 | a transaction is in a deadlocked set exactly when a chain of blockers leads to it from a cycle of refusing edges or from a transaction refused by an entry of its own |
| Verdicts.CycleMemberIsTold | transaction/lock_manager.cpp:262-328 | a member of a cycle of refusing edges is deadlocked and its own search succeeds |
| Verdicts.SoleRefusersVerdict | transaction/lock_manager.cpp:262-328 | where every edge refuses and no waiter has two, a transaction's search succeeds exactly when it is on a cycle of refusing edges, so no report is wrong |
| Verdicts.VerdictsOverRuns | transaction/lock_manager.cpp:237-328 | after every run and for every transaction: the exact condition for it to be deadlocked, members of refusing cycles are told, and in runs that ask only for X nobody else is |
| Verdicts.BystanderIsTold | transaction/lock_manager.cpp:306-328 | a run in which the search succeeds, over a cycle of refusing edges, for a transaction that is not deadlocked |
| Verdicts.FollowerIsNotTold | transaction/lock_manager.cpp:306-328 | a run in which a transaction waiting for a member of a deadlock is deadlocked and its search fails |
| Verdicts.BehindSelfBlockIsMissed | transaction/lock_manager.cpp:242-243 | a run in which a transaction waiting behind a self-blocked one is deadlocked, not self-blocked, and every search fails |
| Deadlocks.DecisiveIff | transaction/lock_manager.cpp:269-304 | a refused mode is refused by every entry of a consistent resource, whatever they are, exactly for X and IS |
| Deadlocks.ReportsAreExactForXAndIS | transaction/lock_manager.cpp:237-267 | when the open calls are refused in X or IS, the search succeeds somewhere exactly when a mutual block exists |
| Deadlocks.SelfBlockIsMissed | transaction/lock_manager.cpp:242-243 | a transaction that asks for X on what it holds in S is deadlocked and nothing is reported |
| Deadlocks.CompatibleHolderIsReported | transaction/lock_manager.cpp:245-255 | a run in which a cycle is reported and nobody is deadlocked |
| WaitGraph.TrapHasWaiter | transaction/transaction_manager.cpp:459-461 | where a cycle is reachable, it is reachable from a waiting transaction |
| WaitGraph.ReleaseAllEdges | transaction/lock_manager.cpp:116-151 | releasing a transaction removes exactly the edges that touch it and adds none |
| WaitGraph.ReleaseShrinksGraph | transaction/lock_manager.cpp:116-151 | releasing a transaction with an edge makes the edge set strictly smaller |
| WaitGraph.BlockedRequestIsSeen | transaction/lock_manager.cpp:22-33 | a refused request has an incompatible entry against it, and every other holder of the resource gets an edge to the requester |
| WaitGraph.GrantEndsWaiting | transaction/lock_manager.cpp:60-81 | a granted retry was compatible with all entries, holds the resource and waits for everything else as before |
| WaitGraph.ReleaseHolds | transaction/lock_manager.cpp:90-114 | releasing one resource takes exactly that transaction off exactly that resource |
| LockManagement.LockManager.AcquireLock | transaction/lock_manager.cpp:14-33 | immediate grant or enqueueing, as the table step |
| LockManagement.LockManager.WaitTurn | transaction/lock_manager.cpp:38-87 | timeout, deadlock at multiples of 100 ms exactly when a cycle is reachable, or the retry step |
| LockManagement.LockManager.RemoveFromWaitQueue | transaction/lock_manager.cpp:372-378 | the transaction no longer waits for the resource |
| LockManagement.LockManager.ReleaseLock | transaction/lock_manager.cpp:90-114 | all entries of the holder on one resource go, an empty list goes with them |
| LockManagement.LockManager.ReleaseAllLocks | transaction/lock_manager.cpp:116-151 | the loop over the table removes the holder everywhere and ends its waiting |
| LockManagement.LockManager.UpgradeLock | transaction/lock_manager.cpp:153-185 | the three outcomes and the new table of an upgrade |
| LockManagement.LockManager.GetWaitingTransactions | transaction/lock_manager.cpp:237-260 | the result lists exactly the graph successors of a transaction |
| LockManagement.LockManager.HasDeadlock | transaction/lock_manager.cpp:262-267 | true exactly when a cycle is reachable from the transaction |
| LockManagement.LockManager.CheckDeadlock | transaction/lock_manager.cpp:306-328 | terminates; true exactly when a walk from the start runs into itself or the marked path; marks are restored when false |
| TransactionManagement.TransactionManager.CheckDeadlock | transaction/transaction_manager.cpp:481-500 | the vector search has the same verdict, restores the vector when false, and otherwise leaves a simple path whose last node has an edge back into it |
| TransactionManagement.PathNodesHaveEdges | transaction/transaction_manager.cpp:463-471 | every node of such a path has an outgoing edge |
| TransactionManagement.TransactionManager.SelectVictim | transaction/transaction_manager.cpp:463-468 | the first among the least important transactions of the path, in the order Low, Normal, High, Critical |
| TransactionManagement.TransactionManager.Abort | transaction/transaction_manager.cpp:176-216 | an active transaction loses all locks and waits and becomes inactive |
| TransactionManagement.TransactionManager.ResolveFrom | transaction/transaction_manager.cpp:459-475 | on a cycle, a least important node of a simple closing path is aborted, the graph shrinks, and others keep what they hold and await |
| TransactionManagement.TransactionManager.DetectDeadlocks | transaction/transaction_manager.cpp:456-475 | a turn aborts someone exactly when some active transaction reaches a cycle, and then the graph shrinks |
| TransactionManagement.TransactionManager.ResolveAll | transaction/transaction_manager.cpp:451-479 | with no new requests, repeated turns end, no cycle is left, survivors keep their locks, and a cycle-free table is left alone |
| ActiveRuns.WaitersActiveIff | transaction/transaction_manager.cpp:463-471 | all waiting transactions are active throughout a run exactly when every request that had to wait came from an active transaction |
| ActiveRuns.AbortedWaiterIsOnPath | transaction/transaction_manager.cpp:463-471 | a run in which a transaction aborted in its wait loop waits again, inactive, on a cycle reachable from an active one |
| PoolRuns.ShowsLastStoreIff | storage/buffer_pool.cpp:29-268 | over every run with client writes at any time, each page always shows its last stored contents exactly when no page leaves memory unmarked while it differs from the disk |
| PoolRuns.CacheRefinesMap | storage/buffer_pool.cpp:29-196 | when every write goes to a marked frame or the next action marks it, each page always shows its last stored contents, clean frames equal the disk, the recency list is exact, and a flush makes the disk the map |
| PoolRuns.FlushedDiskIsMapIff | storage/buffer_pool.cpp:157-167 | after a run that loses nothing, a flush makes the disk alone the map of last stored contents exactly when no change is unmarked |
| PoolRuns.FlushedMarkLosesWrite | storage/buffer_pool.cpp:252-268 | a run in which a page is fetched for writing, flushed, written and evicted, and shows the old contents again |
| PoolRuns.MarkedRunLosesNothing | storage/buffer_pool.cpp:134-144 | writes that are marked by the next action are never lost |
| PoolRuns.StepRefinesIff | storage/buffer_pool.cpp:29-220 | each action has on the view the effect of the reference map exactly when it forgets nothing |
| PoolRuns.StepIsShaped | storage/buffer_pool.cpp:29-220 | each action keeps the exact recency order, the page counter and the size bound, whatever clients wrote |
| PoolRuns.PinsProtect | storage/buffer_pool.cpp:226-268 | a page whose pins are not used up stays resident through every LRU or CLOCK eviction, its count being pins less unpins |
| PoolRuns.PinCount | storage/buffer_pool.cpp:51-53 | from any count, zero included, every fetch with PIN, hit or miss, adds a pin, every unpin takes one, and a page that leaves memory has none |
| PoolRuns.PinnedFetchProtects | storage/buffer_pool.cpp:81-87 | a page fetched with PIN, in memory or not, stays resident through every LRU or CLOCK eviction until its pins are used up |
| PoolRuns.WriteFetchIsKept | storage/buffer_pool.cpp:47-87 | what is written right after a fetch for writing, hit or miss, is shown until the next write to the page, through every flush and eviction |
| PoolRuns.LedgerAgrees | storage/buffer_pool.cpp:29-196 | after every run, residence, pins, mark and access time of every page are what a ledger of the actions says |
| PoolRuns.RecencyFollowsLedger | storage/buffer_pool.cpp:270-278 | after every run the recency list names exactly the resident pages, later fetched or created before earlier |
| PoolRuns.DiskWrites | storage/buffer_pool.cpp:146-187 | a page is written to the disk exactly when it is marked and is flushed or leaves memory |
| PoolState.StoreIsShaped | storage/buffer_pool.cpp:46-58 | a client's store shows at once and leaves clean frames equal to the disk exactly when it hits a marked frame or changes nothing |
| PoolState.TouchIsShaped | storage/buffer_pool.cpp:33-59 | a hit keeps the view and the exact recency order |
| PoolState.LoadIsShaped | storage/buffer_pool.cpp:69-98 | reading a page into a frame keeps the view and the exact recency order |
| PoolState.CreateIsShaped | storage/buffer_pool.cpp:101-132 | a new page is fresh and is the only change of the view |
| PoolState.DropKeepsViewIff | storage/buffer_pool.cpp:174-187 | a page leaves memory with the view kept exactly when it has no unmarked change |
| PoolState.FlushAllPersistsView | storage/buffer_pool.cpp:157-167 | flushing everything makes the disk equal to the view exactly when no change is unmarked |
| PoolState.EvictionsKeepView | storage/buffer_pool.cpp:252-268 | a sequence of evictions keeps the view exactly when no victim has an unmarked change |
| PoolState.EvictionsRemove | storage/buffer_pool.cpp:226-268 | evictions remove exactly their victims, and outside FIFO never a pinned page |
| PoolState.FifoTakesLast | storage/buffer_pool.cpp:241-246 | FIFO takes the last page of the recency list |
| PoolState.FifoEvictsPinnedIff | storage/buffer_pool.cpp:241-246 | FIFO picks a pinned page exactly when the least recent page is pinned |
| PoolState.FifoEvictsPinned | storage/buffer_pool.cpp:241-246 | a pool in which FIFO picks a pinned page |
| BufferPooling.OldestUnpinned | storage/buffer_pool.cpp:228-236 | the last unpinned page of the list has the oldest access of all unpinned pages |
| BufferPooling.BufferPool.FetchPage | storage/buffer_pool.cpp:29-99 | returns what the page showed or reports a missing page; the page is then the most recent, with one pin more if asked for and a mark if for writing, on a hit and on a miss; evicts proper victims only; keeps the view when no change is unmarked; spins exactly when as many frames are pinned as fit |
| BufferPooling.BufferPool.CreateNewPage | storage/buffer_pool.cpp:101-132 | the new page alone changes the view when no change is unmarked; fails to end exactly when no room can be made |
| BufferPooling.BufferPool.UnpinPage | storage/buffer_pool.cpp:134-144 | one pin less, never below zero, and the dirty mark only added |
| BufferPooling.BufferPool.FlushPage | storage/buffer_pool.cpp:146-155 | a dirty resident page is written and marked clean |
| BufferPooling.BufferPool.FlushAll | storage/buffer_pool.cpp:157-167 | the loop writes every dirty page; the disk then shows the old view exactly when no change is unmarked |
| BufferPooling.BufferPool.DiscardPage | storage/buffer_pool.cpp:174-187 | a resident page is written back if dirty and forgotten; the view stays exactly when the page has no unmarked change |
| BufferPooling.BufferPool.DiscardAll | storage/buffer_pool.cpp:189-196 | the pool empties; the view stays exactly when no change is unmarked |
| BufferPooling.BufferPool.SetPoolSize | storage/buffer_pool.cpp:211-220 | proper victims leave until the new size is met, or the old size stays when too many frames are pinned |
| BufferPooling.BufferPool.EvictUntilBelow | storage/buffer_pool.cpp:65-67 | the eviction loop ends exactly when the pinned frames leave room, having evicted just enough |
| BufferPooling.BufferPool.EvictPage | storage/buffer_pool.cpp:252-268 | drops the strategy's victim, or changes nothing when there is none |
| BufferPooling.BufferPool.UpdateLRU | storage/buffer_pool.cpp:270-278 | the page moves to the front, once |
| BufferPooling.BufferPool.SelectVictim | storage/buffer_pool.cpp:226-250 | no victim exactly when no frame qualifies, and the strategy's promise otherwise |
| BufferPooling.BufferPool.SelectVictimClock | storage/buffer_pool.cpp:305-325 | the victim is the first unpinned frame from the hand on, going round, and the hand stands behind it; none exactly when all are pinned |
| LogCodec.DecodeEncode | transaction/log_manager.cpp:423-501 | every record is read back from the front of any byte stream |
| LogCodec.RecordLayout | transaction/log_manager.cpp:423-460 | the place of each field in the bytes of a record |
| Bytes.ByteAt | transaction/log_manager.cpp:423-460 | numbers are stored little-endian |
| LogCodec.DecodeTorn | transaction/log_manager.cpp:462-501 | a record cut short at any byte is not taken for a record |
| LogCodec.DecodeCutStream | transaction/log_manager.cpp:462-501 | a stream of records cut at any byte decodes to exactly the records whole before the cut |
| LogState.StepIsValid | transaction/log_manager.cpp:88-241 | every log step keeps conservation, numbering, links and retained records |
| LogState.LogConservation | transaction/log_manager.cpp:88-123 | in every run with logging on, file and buffer are the encodings of all records in LSN order, the buffer fits, LSNs count up, and any crash leaves a readable prefix, of the callers' own records |
| LogState.HistoryIsAppended | transaction/log_manager.cpp:91-105 | after every run the log holds what the callers appended, in order: transaction, type, page, offset and payload as given, the time of the append, and the link to the transaction's record before it |
| LogState.AppendSpillsIff | transaction/log_manager.cpp:108-118 | an append sends the buffer to the file exactly when the estimated record size does not fit behind it |
| LogState.CrashYieldsPrefix | transaction/log_manager.cpp:378-385 | at any crash, also in the middle of a buffer write, the file decodes to a prefix of what was written that contains all that was flushed |
| LogState.AnnouncedRecordsSurvive | transaction/wal.cpp:72-78 | after a page write is announced with an appended LSN, every later crash leaves all records up to it readable |
| LogState.AnnouncementCoversIffAppended | transaction/wal.cpp:72-78 | the announcement covers its LSN exactly when that LSN was already appended |
| LogState.NotedPagesSurvive | transaction/wal.cpp:72-78 | after every run and any crash, each page's noted LSN is that of its last announcement, and all records up to it are readable as the callers appended them |
| LogState.NotesAreAnnounced | transaction/wal.cpp:72-78 | the pages noted are those announced, each with the LSN of its last announcement |
| LogState.LoggedRunWritesAll | transaction/log_manager.cpp:107-117 | as long as logging is on, everything appended is written |
| LogState.RunGrows | transaction/log_manager.cpp:210-219 | history, file and flushed part only grow |
| LogManagement.SerializeRecord | transaction/log_manager.cpp:423-460 | the fields written one by one into the buffer are the encoding, and its length is returned |
| LogManagement.DeserializeRecord | transaction/log_manager.cpp:462-501 | the fields read one by one are the record, and its length is returned |
| LogManagement.LogManager.AppendLogRecord | transaction/log_manager.cpp:88-123 | next LSN, link to the transaction's previous record, in-memory copy, and bytes in the fixed buffer, flushed first when they might not fit |
| LogManagement.LogManager.FlushBufferToFile | transaction/log_manager.cpp:378-385 | the used part of the buffer moves to the file |
| LogManagement.LogManager.Flush | transaction/log_manager.cpp:210-219 | everything written is in the file |
| LogManagement.LogManager.TruncateLog | transaction/log_manager.cpp:225-241 | exactly the records below the LSN are forgotten |
| LogManagement.LogManager.GetLogsSince | transaction/log_manager.cpp:174-190 | the retained records above the LSN, ascending |
| LogManagement.LogManager.GetLogsForTransaction | transaction/log_manager.cpp:192-208 | the retained records of the transaction, ascending |
| LogManagement.WalManager.BeforePageWriteRule | transaction/wal.cpp:72-78 | the log is flushed and the page noted |
| Recovery.BackChainIsComplete | transaction/log_manager.cpp:98-105 | from a transaction's last LSN the links visit exactly its retained records, in reverse and with strictly decreasing LSNs |
| Recovery.ChainDescends | transaction/log_manager.cpp:98-105 | along a chain each record is the one the link before it names, with a smaller LSN, and the walk ends only where a link leads to no retained record |
| Recovery.BackChainsOverRuns | transaction/log_manager.cpp:88-123 | in every run whose callers leave the link at zero, every chain is complete |
| Recovery.RedoIgnoresTruncation | transaction/checkpoint.cpp:188-266 | recovery on a log truncated at a checkpoint finds the same checkpoint and redoes the same records as on the full history |
| Recovery.CheckpointsAreInvisibleToRedo | transaction/checkpoint.cpp:45-64 | the same after every run of appends and checkpoints |
| Recovery.TruncationKeepsRedoUpToCheckpoint | transaction/log_manager.cpp:225-241 | any truncation keeps the redo list up to the last checkpoint and empties it past it |
| Recovery.RedoIsAllOrNothing | transaction/checkpoint.cpp:239-266 | all data records of a transaction after the checkpoint are redone, in order, if it commits after it, and none otherwise |
| Recovery.RedoIsExact | transaction/checkpoint.cpp:233-266 | the records redone have strictly ascending LSNs and are exactly the inserts, updates and deletes after the checkpoint whose transaction has a commit after it |
| CheckpointText.TextRoundTrip | transaction/checkpoint.cpp:147-230 | the parser recovers every printed list of transaction ids, the empty one included |
| CheckpointText.TextLines | transaction/checkpoint.cpp:147-170 | the first line is FULL or INCR, the second lists the active transactions, the third no dirty pages |
| CheckpointText.TextSample | transaction/checkpoint.cpp:147-170 | the text of a full checkpoint with transactions 7 and 120 |
| CheckpointText.WriteText | transaction/checkpoint.cpp:147-169 | the appending loop prints the text |
| CheckpointText.FindActive | transaction/checkpoint.cpp:206-230 | the scanning loops compute the parse, errors included |
| CheckpointText.ParseSamples | transaction/checkpoint.cpp:206-230 | what is read from texts that were not printed: blanks, signs, trailing characters and commas, missing markers |
| Checkpointing.PayloadRoundTrip | transaction/checkpoint.cpp:171-230 | the list also survives the zero-terminated bytes of the record |
| Checkpointing.CheckpointManager.CreateCheckpoint | transaction/checkpoint.cpp:45-84 | the checkpoint record is appended and the log truncated to it |
| Checkpointing.CheckpointManager.WriteCheckpointRecord | transaction/checkpoint.cpp:147-178 | one record with the printed text is appended and its LSN remembered in both managers |
| Checkpointing.CheckpointManager.FindLastCheckpointRecord | transaction/checkpoint.cpp:196-237 | the checkpoint with the highest LSN and its parsed list |
| Checkpointing.CheckpointManager.RedoFromCheckpoint | transaction/checkpoint.cpp:239-266 | the two passes select the committed data records |
| Checkpointing.CheckpointManager.RecoverFromCheckpoint | transaction/checkpoint.cpp:90-102 | recovery on the in-memory log equals recovery on the full history |
| ExprProofs.RoundTrip | parser/sql_parser.cpp:570-903 | every tree, rendered with parentheses only where the level demands, parses back to itself and leaves a suffix that does not continue it unread |
| ExprProofs.RoundTripIff | parser/sql_parser.cpp:570-903 | the condition on the suffix is exact: tree and suffix come back exactly when no loop or option still open after the last token of the tree takes the first token of the suffix |
| ExprProofs.ParseIsGreedy | parser/sql_parser.cpp:574-781 | what any accepted parse leaves starts with nothing its loops could have taken |
| ExprProofs.CallIsColumn | parser/sql_parser.cpp:839-853 | a name before a parenthesis is read as a column and the parenthesis is left |
| ExprProofs.ChainReadsBack | parser/sql_parser.cpp:574-590 | the loops associate to the left |
| ExprProofs.ParseConserves | parser/sql_parser.cpp:570-903 | consumed tokens without parentheses are the in-order tokens of the tree, and the rest is untouched |
| ExprProofs.AcceptedRoundTrip | parser/sql_parser.cpp:570-903 | whatever is accepted renders to tokens that parse to the same tree |
| ExprProofs.TighterBindsFirst | parser/sql_parser.cpp:574-781 | of any two binary operators the tighter takes the operand between them and of equally tight ones the left: OR, AND, equality, comparison, sums, products |
| ExprProofs.PrefixBindsFirst | parser/sql_parser.cpp:783-800 | NOT, minus and plus before an operand bind tighter than any binary operator |
| ExprProofs.NullTestBinds | parser/sql_parser.cpp:628-647 | a null test takes the equality, comparison, sum or product before it and binds tighter than AND and OR |
| ExprProofs.LiteralsMean | parser/sql_parser.cpp:802-838 | only TRUE is true, integers up to the largest int are read as written, larger ones throw, texts are taken as they are |
| ExprProofs.ParseBalances | parser/sql_parser.cpp:874-890 | an accepted expression closes exactly the parentheses it opens |
| ExprProofs.SyntaxErrors | parser/sql_parser.cpp:570-903 | no tokens, a missing right operand, NOT without LIKE, IS without NULL and a dot without a name are errors |
| ExprParser.SqlParser.ParseExpression | parser/sql_parser.cpp:570-572 | the parser object computes the parsing function |
| ExprParser.SqlParser.ParseLogicalOr | parser/sql_parser.cpp:574-590 | level OR, as the parsing function |
| ExprParser.SqlParser.ParseLogicalAnd | parser/sql_parser.cpp:592-608 | level AND, as the parsing function |
| ExprParser.SqlParser.ParseEquality | parser/sql_parser.cpp:610-706 | the equality chain and at most one null test, as the parsing function |
| ExprParser.SqlParser.ParseRelational | parser/sql_parser.cpp:708-737 | the relational chain, where NOT must precede LIKE |
| ExprParser.SqlParser.ParseAdditive | parser/sql_parser.cpp:739-759 | the additive chain |
| ExprParser.SqlParser.ParseMultiplicative | parser/sql_parser.cpp:761-781 | the multiplicative chain |
| ExprParser.SqlParser.ParseUnary | parser/sql_parser.cpp:783-800 | prefix operators |
| ExprParser.SqlParser.ParsePrimaryToken | parser/sql_parser.cpp:802-903 | literals, columns and parentheses |
| Decimal.DecimalRoundTrip | transaction/checkpoint.cpp:162-224 | printed decimal numbers are read back |
| Decimal.LeadingDigit | transaction/checkpoint.cpp:162-224 | the first digit weighs most |
| Decimal.NoLeadingZero | transaction/checkpoint.cpp:162 | no positive number is printed with a leading zero |
| Base64.Encode | include/utils.h:369-395 | the bit accumulator with 32-bit wrap-around produces the encoding of section 4 of RFC 4648, of length four times the groups |
| Base64.Decode | include/utils.h:397-421 | on every string, the bytes of the sextets read up to the first '=': alphabet symbols count with their values, other characters are skipped, a zero character is a zero sextet that sets the low bit of the one before it |
| Base64.DecodeInvertsEncode | include/utils.h:369-421 | decoding inverts encoding for every byte sequence |
| Base64.Accumulate | include/utils.h:376-385 | wrap-around of the accumulator changes no bit still to be emitted |
| Base64.OthersAreSkipped | include/utils.h:407-408 | a character outside the alphabet is as if it were not there |
| Base64.PaddingEnds | include/utils.h:405 | nothing after the first '=' is read |
| Base64.Alphabet | include/utils.h:366-367 | the symbols are those of table 1 of RFC 4648 |
| Base64.RfcVectors | include/utils.h:369-395 | the reference encoding meets test vectors of section 10 of RFC 4648 |
| BTreeNodes.BTreeNode.FindKeyIndex | index/btree_node.cpp:159-178 | the match, or the last smaller key |
| BTreeNodes.BTreeNode.FindChildIndex | index/btree_node.cpp:180-192 | the number of keys not above the argument |
| BTreeNodes.BTreeNode.ShiftRight | index/btree_node.cpp:341-355 | everything from the position on moves up one place |
| BTreeNodes.BTreeNode.ShiftLeft | index/btree_node.cpp:325-339 | everything after the position moves down one place |
| BTreeNodes.BTreeNode.InsertAt | index/btree_node.cpp:101-124 | insertion at a position into keys and values or children; nothing happens on a full node |
| BTreeNodes.BTreeNode.Insert | index/btree_node.cpp:77-99 | map update on a leaf, refused without change exactly when full and absent; sortedness kept |
| BTreeNodes.BTreeNode.RemoveAt | index/btree_node.cpp:126-147 | map removal of the key at the position |
| BTreeNodes.BTreeNode.Split | index/btree_node.cpp:194-234 | keys are left, split key, right; children of an internal node are left then right, and one more than the keys in each half if they were so before; a full node gives two of 63 keys |
| BTreeNodes.InsertIsMapUpdate | index/btree_node.cpp:91-124 | insertion between smaller and greater keys is map update and keeps the order |
| BTreeNodes.RemoveIsMapRemoval | index/btree_node.cpp:126-147 | removal at a position is map removal and keeps the order |
| BTreeNodes.LeafSplitLosesMiddle | index/btree_node.cpp:199-219 | the halves of a leaf together are the old map without the split key |
| Histograms.ValueOrder | storage/record.cpp:168-195 | the comparison of values is a total preorder |
| Histograms.OrderMeans | storage/record.cpp:168-195 | numbers by size, false before true, texts as in a dictionary, types by their number, other types all alike |
| Histograms.BuildHistogram | metadata/statistics.cpp:447-502 | the buckets cut an ordered permutation of the sample, counts sum to its size, all but the last hold n / k samples (one if there are fewer samples than buckets), and between min(n, k) and 2k - 1 arise |
| Histograms.CutDescribes | metadata/statistics.cpp:480-499 | the buckets are consecutive non-empty slices with their first and last values as bounds |
| Histograms.BoundsOrdered | metadata/statistics.cpp:482-487 | bounds are ordered within and across buckets |
| Histograms.BucketCount | metadata/statistics.cpp:474-478 | at most 2k - 1 buckets |
| Histograms.BucketsAreEqual | metadata/statistics.cpp:474-499 | all buckets but the last hold n / k samples, or one, the last at least one and no more; at least min(n, k) buckets arise |
| Histograms.GetPercentile | metadata/statistics.cpp:18-34 | null outside [0, 1] or without buckets, else the bucket where the running count reaches the rank |
| Histograms.PercentileRank | metadata/statistics.cpp:23-33 | the value stands not before the rank and less than one bucket past it |
| Histograms.PercentileCovers | metadata/statistics.cpp:23-33 | at least as many samples as the rank are not above the value |
| Histograms.PercentileError | metadata/statistics.cpp:18-34 | the value for a positive rank stands not before it and less than n / k samples past it, or exactly at it with fewer samples than buckets |
| WalRows.RowRoundTripIff | transaction/wal.cpp:97-235 | a row comes back exactly when it has fewer than 65536 fields, its texts are under 2^32 bytes and its other-typed fields carry nothing |
| WalRows.SizeIsExactIff | transaction/wal.cpp:97-167 | the size computed is the number of bytes written exactly when every text is under 2^32 bytes |
| WalRows.DecodeEncodedRow | transaction/wal.cpp:97-235 | what comes back of any row |
| WalRows.RowSample | transaction/wal.cpp:97-167 | the bytes of a row with a field of each type |
| WalRows.DecodeSamples | transaction/wal.cpp:169-235 | what is read from bytes cut short |
| WalRows.RowSize | transaction/wal.cpp:97-120 | the precomputed size is the length of the buffer, the bytes written and what long texts leave over |
| WalRows.SerializeRow | transaction/wal.cpp:122-167 | the buffer of that size is filled with the encoding, and zeros where texts were cut to 32-bit lengths |
| WalRows.DeserializeRow | transaction/wal.cpp:169-235 | the moving pointer never passes the end and computes the decoding of arbitrary bytes |

## Left out

- Whole-tree B-tree operations (index/btree.cpp), node merge, redistribution and compaction: they do not keep a map as written.
- Leaf links, levels and page ids of B-tree nodes; `BTreeNode::remove(key)`, which is a search followed by removal at the index.
- Slotted pages, tables and the record serialisation of storage/record.cpp: no record fits a page, and types are guessed from sizes.
- Undo, redo and savepoint bodies, which are stubs; `LogManager::init`, reads of old records from disk, log rotation and archiving.
- The lexer; FLOAT literals, IN, BETWEEN, CASE, subqueries and statements, which the parsing function reports as errors.
- Wait queues, lock granularity, lock statistics and `checkTimeouts`: no grant and no edge depends on them.
- The `parent` map of the lock manager's search, which is written and never read.
- Mutexes, condition variables, background threads, file errors and the optimizer.
- Distinct counts and ratios of histograms: they rest on an order of values that has no definition in the sources.
- LogManagement.LogManager.AppendLogRecord: requires fewer than 2^64 appends, and payloads under 65536 bytes, since the length field has 16 bits; times are whole seconds, as the encoding stores them.
- LogManagement.DeserializeRecord: the source checks no bounds, so the caller supplies a whole record.
- Checkpointing.CheckpointManager.CreateCheckpoint: requires a text that fits the 16-bit length, since the record's length field keeps the low 16 bits only; the flush of dirty pages before it is BufferPooling.BufferPool.FlushAll.
- Checkpointing.CheckpointManager.WriteCheckpointRecord: the same bound on the text.
- BTreeNodes.BTreeNode.Split: requires a key and children beyond the middle, without which the source's counts wrap around; copies children only up to the child count, where the source reads one slot more.
- BTreeNodes.BTreeNode.Insert: keys are integers; string keys use the same code.
- Histograms.GetPercentile: percentiles are real numbers, without the rounding of doubles.
- BufferPooling.BufferPool.CreateNewPage: page ids are fresh, which the source's counter does not ensure across restarts.
- TransactionManagement.TransactionManager.Abort: leaves out the undo call, a stub, and the ABORT record, which LogManagement.LogManager.AppendLogRecord would append.
- WalRows.DeserializeRow: a BIGINT field cut short is zero, where the source leaves part of the value unset.
- ExprParser.SqlParser.ParseEquality: IN and BETWEEN clauses are errors.
- ExprParser.SqlParser.ParsePrimaryToken: FLOAT literals, subqueries and CASE are errors.
- Histograms.BuildHistogram: buckets carry no distinct counts.
- TransactionManagement.TransactionManager.ResolveAll: requires every waiting transaction to be active, which ActiveRuns.WaitersActiveIff reduces to the requests made; otherwise the source dereferences a null pointer.
