# DART tasking data dependencies: a Dafny model

This project models three parts of DASH/DART in Dafny. Its centre is the
data-dependency engine of the DART tasking runtime. The other two parts
are the position arithmetic of `dash::GlobIter` and the team-slot table
of the System V shared-memory barrier area.

**The data-dependency engine.** When a task is created with dependencies,
the engine does the following:
- It files each local dependency in the dependency table of the task's
  parent. The table is a hash table of `DepHashSize` buckets, and each
  bucket is a stack of entries with the newest first. The matchers rely
  on the table's order. When dependencies are filed in phase order, every
  entry is in a phase no earlier than any writer or read filed below it
  on its address (`Matching.PhaseOrdered`), so the writers on an address
  appear newest phase first.
- It matches each new dependency against the entries already filed. It
  adds an edge from every producer the new task must wait for and counts
  each edge in the task's `unresolvedDeps`.
- It sends requests for dependencies on other units and counts them in
  `unresolvedRemoteDeps`. A task waiting on a remote unit is kept in the
  remote-blocked list.
- It answers requests from other units. Each request is matched against
  the table of the current task. It is then either attached to the
  closest earlier-phase writer or released at once. A writer in the same
  phase or later becomes a direct dependency of the remote task.
- It releases successors when a task finishes. A successor whose counters
  both reach zero is handed to the scheduler.

The model has these parts:
- `DepTypes` holds tasks (a class whose counters and successor stacks the
  engine updates), entries, dependency descriptors and the events the
  engine emits.
- `DepHash` holds the bucket hash and the table.
- `Matching` holds the pure scans of a bucket: the immediate matcher, the
  delayed matcher, the copy-in scan and the remote matcher.
- `DataDeps` holds the engine (class `Engine`). Its fields are the
  source's globals: the free list of recycled entries, the queue of
  unhandled remote requests, the remote-blocked list and the
  local-deferred queue. A log records the calls the engine makes into
  transport, scheduler and copy-in code, in order.

Every `for` and `while` loop of the source is a `while` loop with its
invariants, proved against a specification function over the inputs. The
one `do`-`while` loop, in `handle_copyin`, runs at most twice and is
written out as its two rounds (CopyinRound, CopyinRetry). Pure specification
functions are related by lemmas to the properties the code promises.

`GlobIterator` models the iterator index. The index is a `size_t`, so
every change to it wraps modulo 2^64. Distances are signed 64-bit values.

`ShmemBarriers` models the team-slot table in shared memory:
- slot 0 holds `DART_TEAM_ALL`;
- new teams take the lowest free slot and the next team id;
- teams are found by a linear scan and freed by clearing their slot.

## Model

| member | source | states |
|---|---|---|
| DepHash.HashGptr | dart-impl/tasking/src/internal/dart_tasking_datadeps.c:65-86 | the slot of a pointer is always a valid bucket index |
| DepHash.MixFitsWord | dart-impl/tasking/src/internal/dart_tasking_datadeps.c:71-78 | the shifted and xor-ed address, segment and unit fit in the 64-bit word the hash is computed in |
| DepHash.HashIgnoresAlignmentBits | dart-impl/tasking/src/internal/dart_tasking_datadeps.c:75 | addresses that differ only in their two low bits land in the same bucket |
| DepHash.PushEntryFilesAtHead | dart-impl/tasking/src/internal/dart_tasking_datadeps.c:224-251 | filing allocates the table when it is missing, puts the entry at the head of its bucket, leaves every other bucket alone, and adds exactly the entry's task to the table's tasks |
| Matching.StopIndex | dart-impl/tasking/src/internal/dart_tasking_datadeps.c:539-551 | the immediate matcher stops at the first same-address entry that is the task's own or a writer, and at no earlier entry |
| Matching.ProducersMembers | dart-impl/tasking/src/internal/dart_tasking_datadeps.c:566-585 | the producers of a new dependency are exactly the other tasks whose entries the walk passes and that conflict with it (any same-address entry for a write, a writer for a read); the task never waits for itself |
| Matching.MatchedBucketKeepsEntries | dart-impl/tasking/src/internal/dart_tasking_datadeps.c:544-548 | matching changes the bucket only by turning the task's own read entry at the stop index into a read-write one; tasks, addresses and phases of all entries stay |
| Matching.ReadWaitsForLastWriter | dart-impl/tasking/src/internal/dart_tasking_datadeps.c:566-595 | a read waits for exactly the most recently filed writer on its address when no other entry on the address comes first |
| Matching.ProducersNone | dart-impl/tasking/src/internal/dart_tasking_datadeps.c:539-542 | with no entry on the address the dependency waits for nobody |
| Matching.WriteWaitsForReadersAndWriter | dart-impl/tasking/src/internal/dart_tasking_datadeps.c:566-595 | a write waits for every other task with an entry on the address up to and including the most recent writer |
| Matching.RepeatedDependencyAddsNothing | dart-impl/tasking/src/internal/dart_tasking_datadeps.c:544-551 | a second dependency of a task on an address it already filed stops at its own entry and adds no edge |
| Matching.DelayedIndex | dart-impl/tasking/src/internal/dart_tasking_datadeps.c:633-650 | the delayed matcher's producer is the first writer on the address in the dependency's phase or earlier, and no earlier entry qualifies |
| Matching.NextOut | dart-impl/tasking/src/internal/dart_tasking_datadeps.c:638-642 | the next-out task is the last later-phase writer on the address before the producer, none after it |
| Matching.NextOutIsEarliestLaterWriter | dart-impl/tasking/src/internal/dart_tasking_datadeps.c:633-642 | with writers in phase-descending order, the next-out task is the writer of the earliest later phase |
| Matching.InsertAtPlacesBefore | dart-impl/tasking/src/internal/dart_tasking_datadeps.c:690-700 | insertion puts the entry just before the producer; entries before it keep their places, those after move by one, nothing is lost |
| Matching.OrderedWritersDescend | dart-impl/tasking/src/internal/dart_tasking_datadeps.c:327-328 | in a bucket kept in the table's order, the writers on each address are in phase-descending order, as the remote matcher assumes |
| Matching.DelayedInsertKeepsOrder | dart-impl/tasking/src/internal/dart_tasking_datadeps.c:685-700 | inserting a delayed input right before its producer keeps the bucket in the table's order |
| Matching.PushKeepsOrder | dart-impl/tasking/src/internal/dart_tasking_datadeps.c:235-251 | pushing an entry at the head keeps the bucket in the table's order when it is filed in phase order (no writer or read on its address from a later phase) |
| Matching.MatchedBucket | dart-impl/tasking/src/internal/dart_tasking_datadeps.c:544-548 | the bucket after the immediate matcher: the task's own read entry at the stop index becomes a read-write one when the new dependency writes (see MatchedBucketKeepsEntries) |
| Matching.MatchedBucketKeepsOrder | dart-impl/tasking/src/internal/dart_tasking_datadeps.c:544-548 | the upgrade keeps the bucket in the table's order and keeps what filing in phase order means |
| Matching.CopyinIndex | dart-impl/tasking/src/internal/dart_tasking_datadeps.c:466-497 | the copy-in scan ends at the first entry on the destination from an earlier phase or writing it in the same phase |
| Matching.CopyinFoundIff | dart-impl/tasking/src/internal/dart_tasking_datadeps.c:466-497 | the scan finds a copy-in task exactly when a same-phase writer of the destination comes before every earlier-phase entry on it |
| Matching.RemoteScanFinds | dart-impl/tasking/src/internal/dart_tasking_datadeps.c:309-370 | the candidate is an active writer on the address from an earlier phase, and a new direct candidate is an active writer in the request's phase or later |
| Matching.DirectIsEarliestLaterWriter | dart-impl/tasking/src/internal/dart_tasking_datadeps.c:353-366 | when each inspected writer's task is in its entry's phase, the direct candidate is a writer the walk passes and has the earliest phase among them |
| Matching.CandidateIsFirstEarlierWriter | dart-impl/tasking/src/internal/dart_tasking_datadeps.c:337-352 | the candidate is the first earlier-phase writer, and every writer the walk passes on the way is still active |
| Matching.NoCandidateMeansNoEarlierActiveWriter | dart-impl/tasking/src/internal/dart_tasking_datadeps.c:337-352 | without a candidate, the walk either met an inactive writer or no writer on the address is from an earlier phase |
| DataDeps.ReleaseEvents | dart-impl/tasking/src/internal/dart_tasking_datadeps.c:911-919 | one release is sent per remote successor, in stack order, with the successor's origin, task and dependency |
| DataDeps.RemoveFirst | dart-impl/tasking/src/internal/dart_tasking_datadeps.c:109-114 | removal from the remote-blocked list drops exactly one occurrence of the task and keeps the rest |
| DataDeps.Matches | dart-impl/tasking/src/internal/dart_tasking_datadeps.c:292-371 | each pending request gets the match of its own bucket scan |
| DataDeps.MatchInBucket | dart-impl/tasking/src/internal/dart_tasking_datadeps.c:309-370 | the candidate and the direct candidate are tasks of the scanned bucket |
| DataDeps.RecycledAreReleased | dart-impl/tasking/src/internal/dart_tasking_datadeps.c:404-412 | the entries handed back to the free list are as many zeroed entries as requests that were released |
| DataDeps.ReleaseEnqueuesIff | dart-impl/tasking/src/internal/dart_tasking_datadeps.c:873-882 | releasing a finished task's successors enqueues a task exactly when it is a successor in state Created, has no remote dependencies left and its local counter drops to zero |
| DataDeps.CancelEventsIff | dart-impl/tasking/src/internal/dart_tasking_datadeps.c:934-940 | cancelling enqueues exactly the remote-blocked tasks with no local dependencies left, and nothing else |
| DataDeps.StillReadyIff | dart-impl/tasking/src/internal/dart_tasking_datadeps.c:264-276 | the deferred tasks moved to the thread queue are exactly those with no remote dependencies left |
| DataDeps.LocallyFiledAtHead | dart-impl/tasking/src/internal/dart_tasking_datadeps.c:786-796 | a local dependency ends up at the head of its bucket above the matched entries, other buckets unchanged, and its task joins the table's tasks |
| DataDeps.LocallyFiledKeepsOrder | dart-impl/tasking/src/internal/dart_tasking_datadeps.c:786-796 | matching and filing a local dependency in phase order keeps every bucket of the table in the table's order |
| DataDeps.DelayedFiledKeepsOrder | dart-impl/tasking/src/internal/dart_tasking_datadeps.c:685-700 | filing a delayed input before its producer keeps every bucket of the table in the table's order |
| DataDeps.ReleaseLocalCounter | dart-impl/tasking/src/internal/dart_tasking_datadeps.c:88-98 | the local counter drops by one and stays non-negative; the result says whether both counters are zero |
| DataDeps.HandleLocalDirect | dart-impl/tasking/src/internal/dart_tasking_datadeps.c:421-441 | a direct dependency on an active task adds one edge and one count; otherwise nothing changes |
| DataDeps.MatchEntry | dart-impl/tasking/src/internal/dart_tasking_datadeps.c:542-595 | one step of the immediate matcher: whether it stops, whether it upgrades, and that an edge is added exactly to an active conflicting producer not already listing the task |
| DataDeps.MatchBucket | dart-impl/tasking/src/internal/dart_tasking_datadeps.c:539-597 | the walk adds edges from exactly the active producers not yet listing the task, counts each once, and reports an upgrade exactly when the own entry is a read and the new one writes |
| DataDeps.MatchRound | dart-impl/tasking/src/internal/dart_tasking_datadeps.c:542-595 | one step of the walk over a local entry: it stops and upgrades as the matcher decides, and the set of producers that gained the task as successor grows by exactly the eligible producer of this entry, each counted once in the task's dependency counter |
| DataDeps.MatchInSlot | dart-impl/tasking/src/internal/dart_tasking_datadeps.c:533-604 | the table changes only by the upgrade, keeps its tasks, and the edges are as for the bucket walk |
| DataDeps.MatchLocal | dart-impl/tasking/src/internal/dart_tasking_datadeps.c:524-605 | the same for the dependency's own bucket |
| DataDeps.ScanRemote | dart-impl/tasking/src/internal/dart_tasking_datadeps.c:307-371 | the loop computes the remote matcher's candidate and direct candidate |
| DataDeps.ScanDelayed | dart-impl/tasking/src/internal/dart_tasking_datadeps.c:633-650 | the loop finds the delayed producer and the next-out task, or reports the task's own entry that the source asserts cannot be there |
| DataDeps.DelayedEdges | dart-impl/tasking/src/internal/dart_tasking_datadeps.c:650-682 | an active producer gains the task as a successor; an inactive next-out task aborts; an active one becomes the task's successor |
| DataDeps.WaitFor | dart-impl/tasking/src/internal/dart_tasking_datadeps.c:479-484 | the producer gains the task as successor and the task's counter grows by one; nothing else changes |
| DataDeps.InsertKeepsTable | dart-impl/tasking/src/internal/dart_tasking_datadeps.c:690-700 | inserting an entry keeps the table well formed and adds exactly its task |
| DataDeps.ScanCopyin | dart-impl/tasking/src/internal/dart_tasking_datadeps.c:466-497 | the loop ends where the copy-in scan ends |
| DataDeps.RemoteRequestsAppend | dart-impl/tasking/src/internal/dart_tasking_datadeps.c:734-798 | the requests of two runs of calls are those of the first followed by those of the second |
| DataDeps.Engine.constructor | dart-impl/tasking/src/internal/dart_tasking_datadeps.c:121-126 | all lists start empty and the unit id is fixed |
| DataDeps.Engine.AllocateElem | dart-impl/tasking/src/internal/dart_tasking_datadeps.c:181-208 | the entry carries the dependency, task and origin, and it is taken from the free list when that is not empty |
| DataDeps.Engine.RecycleElem | dart-impl/tasking/src/internal/dart_tasking_datadeps.c:214-222 | a zeroed entry is pushed onto the free list |
| DataDeps.Engine.FreeEntries | dart-impl/tasking/src/internal/dart_tasking_datadeps.c:128-137 | every entry of the list is recycled |
| DataDeps.Engine.AddLocal | dart-impl/tasking/src/internal/dart_tasking_datadeps.c:235-251 | the entry is filed at the head of its bucket in the parent's table |
| DataDeps.Engine.FileBefore | dart-impl/tasking/src/internal/dart_tasking_datadeps.c:685-700 | the delayed entry is inserted just before the producer, the table keeps its shape, and a delayed input filed before its producer keeps the table's order |
| DataDeps.Engine.MatchDelayed | dart-impl/tasking/src/internal/dart_tasking_datadeps.c:614-715 | the delayed matcher aborts exactly on the task's own entry or an inactive next-out task; it files the entry exactly when there is a producer and no next-out task; the edges are those of DelayedEdges; a delayed input keeps the table's order |
| DataDeps.Engine.MatchDelayedInSlot | dart-impl/tasking/src/internal/dart_tasking_datadeps.c:623-714 | the same for a given bucket, order included |
| DataDeps.Engine.CopyinRound | dart-impl/tasking/src/internal/dart_tasking_datadeps.c:465-499 | when the scan finds a copy-in task the task waits for it and files a read of the destination; otherwise nothing changes |
| DataDeps.Engine.RequestCopy | dart-impl/tasking/src/internal/dart_tasking_datadeps.c:505-512 | one copy-task request is logged, and the parent's table and the free list become what the request leaves: the given table, and the list with its first entries taken |
| DataDeps.Engine.CopyinRetry | dart-impl/tasking/src/internal/dart_tasking_datadeps.c:501-513 | after a copy task is requested, the scan is repeated once on the table the request leaves. When it finds the copying task, the task waits for it and files a read of the destination after one more free-list pop. Otherwise a second request follows, and the table and free list are what that request leaves |
| DataDeps.Engine.HandleCopyin | dart-impl/tasking/src/internal/dart_tasking_datadeps.c:444-516 | the task waits for the first copy-in task found, either before or after requesting one, and files a read of the destination. The requests made are zero, one or two, and the table and free list are those the last step leaves: the filing's pop, or the requests' own effects |
| DataDeps.Engine.RequestRemote | dart-impl/tasking/src/internal/dart_tasking_datadeps.c:767-784 | a remote request is sent and counted only under the root task, and the task joins the remote-blocked list at its first remote dependency |
| DataDeps.Engine.FileLocal | dart-impl/tasking/src/internal/dart_tasking_datadeps.c:791-795 | a local dependency is matched and then filed; the edges are exactly those of the immediate matcher; filed in phase order, it keeps the table's order |
| DataDeps.Engine.Resolve | dart-impl/tasking/src/internal/dart_tasking_datadeps.c:741-744 | a dependency in DART_PHASE_TASK takes the task's phase; any other keeps its own |
| DataDeps.Engine.RouteOf | dart-impl/tasking/src/internal/dart_tasking_datadeps.c:735-797 | ignored, direct and copy-in dependencies are recognised by kind first; then a pointer whose unit (translated unless the team is DART_TEAM_ALL) is not this unit is remote; a local one is a delayed input or an immediate one |
| DataDeps.Engine.Requests | dart-impl/tasking/src/internal/dart_tasking_datadeps.c:734-798 | the requests handle_task sends: one per remote dependency, with its phase resolved, in order (HandleTask's ensures ties its log to this) |
| DataDeps.Engine.CopyinBranch | dart-impl/tasking/src/internal/dart_tasking_datadeps.c:765-766 | the copy-in branch only makes copy-task requests, sends no dependency request, and tasks only gain edges and counts |
| DataDeps.Engine.LocalBranch | dart-impl/tasking/src/internal/dart_tasking_datadeps.c:786-796 | a delayed input goes to the delayed matcher, anything else is matched and filed at the head; only a delayed input can abort; tasks only gain edges; the table's order is kept when the dependency is filed in phase order |
| DataDeps.Engine.DirectBranch | dart-impl/tasking/src/internal/dart_tasking_datadeps.c:763-764 | the direct branch only adds edges and counts |
| DataDeps.Engine.RemoteBranch | dart-impl/tasking/src/internal/dart_tasking_datadeps.c:767-784 | under the root task exactly one request is sent and counted and the task is remote-blocked at its first one; under a nested task nothing changes |
| DataDeps.Engine.HandleDep | dart-impl/tasking/src/internal/dart_tasking_datadeps.c:735-797 | one dependency is routed by kind and unit; a request is sent exactly for a remote one under the root; a local one is filed after matching; tasks only gain edges and counts; only a delayed one can abort |
| DataDeps.Engine.HandleNext | dart-impl/tasking/src/internal/dart_tasking_datadeps.c:734-798 | one more dependency handled keeps the request log, remote counter and remote-blocked list in step with the dependencies seen so far |
| DataDeps.Engine.HandleTask | dart-impl/tasking/src/internal/dart_tasking_datadeps.c:723-801 | all dependencies are handled in order unless a delayed one aborts; the requests sent are exactly those for the remote dependencies, in order; the remote counter grows by their number; the task is remote-blocked once it has any |
| DataDeps.Engine.Reset | dart-impl/tasking/src/internal/dart_tasking_datadeps.c:139-154 | a task's table and remote successors are recycled entry by entry and its counters are cleared; a task without a table is left alone |
| DataDeps.Engine.ReleaseRemoteCounter | dart-impl/tasking/src/internal/dart_tasking_datadeps.c:100-116 | the remote counter drops by one; at zero the task leaves the remote-blocked list; the result says whether both counters are zero |
| DataDeps.Engine.ReleaseRemoteDep | dart-impl/tasking/src/internal/dart_tasking_datadeps.c:892-902 | the task is enqueued exactly when the release leaves it with no dependencies |
| DataDeps.Engine.ReleaseRemoteDependencies | dart-impl/tasking/src/internal/dart_tasking_datadeps.c:907-922 | every remote successor is released and recycled and the list is emptied |
| DataDeps.Engine.ReleaseHead | dart-impl/tasking/src/internal/dart_tasking_datadeps.c:874-881 | the first successor is popped, its counter drops, and it is enqueued exactly when it is Created and both counters are zero |
| DataDeps.Engine.ReleaseSuccessors | dart-impl/tasking/src/internal/dart_tasking_datadeps.c:873-882 | every successor's counter drops by its number of occurrences and the enqueued tasks are those of ReadyOnRelease |
| DataDeps.Engine.ReleaseLocalTask | dart-impl/tasking/src/internal/dart_tasking_datadeps.c:864-885 | remote successors are released first unless the task was cancelled, then the local successors are released |
| DataDeps.Engine.CancelRemoteDeps | dart-impl/tasking/src/internal/dart_tasking_datadeps.c:930-943 | the remote-blocked list is emptied, every task on it has its remote counter cleared, and the enqueued tasks are those of CancelEvents |
| DataDeps.Engine.HandleRemoteTask | dart-impl/tasking/src/internal/dart_tasking_datadeps.c:806-824 | a request other than a read is refused with an invalid-argument error and changes nothing; a read is queued |
| DataDeps.Engine.AnswerRequest | dart-impl/tasking/src/internal/dart_tasking_datadeps.c:373-412 | a direct candidate is announced, counted and remote-blocked at its first remote dependency; the request is attached to the candidate or released and recycled |
| DataDeps.Engine.FindMatch | dart-impl/tasking/src/internal/dart_tasking_datadeps.c:307-371 | the scan of the request's bucket returns the remote match, whose tasks belong to the table |
| DataDeps.Engine.AnswerNext | dart-impl/tasking/src/internal/dart_tasking_datadeps.c:292-412 | one request is matched and answered; only the direct candidate's counter and the candidate's remote successors change |
| DataDeps.Engine.AnswerAt | dart-impl/tasking/src/internal/dart_tasking_datadeps.c:292-413 | one round of the pass extends the log, the free list, the remote-blocked list and every task's remote counter and remote successors by exactly the effect of one more answered request |
| DataDeps.Engine.AnswerAll | dart-impl/tasking/src/internal/dart_tasking_datadeps.c:291-413 | the loop answers every pending request in queue order, and the state is that of all answers from the state before the pass |
| DataDeps.Engine.HandleDeferredLocal | dart-impl/tasking/src/internal/dart_tasking_datadeps.c:253-281 | the deferred queue is emptied and exactly the tasks without remote dependencies are pushed, in order |
| DataDeps.Engine.HandleDeferredRemote | dart-impl/tasking/src/internal/dart_tasking_datadeps.c:283-419 | every pending request is answered in queue order; the queue is emptied; counters, successor lists, the free list and the remote-blocked list change exactly as the answers say |
| DataDeps.Engine.HandleRemoteDirect | dart-impl/tasking/src/internal/dart_tasking_datadeps.c:831-859 | an active task records the remote task as a direct remote successor; for an inactive one the remote task is released at once |
| GlobIterator.ToDiff | dash/include/dash/GlobIter.h:124-126 | converting to gptrdiff_t loses nothing modulo 2^64 and keeps small values |
| GlobIterator.AdvanceBack | dash/include/dash/GlobIter.h:170-178 | stepping by n and back by n gives the index back |
| GlobIterator.WrapOffset | dash/include/dash/GlobIter.h:180-194 | `it + n` and `it - n`, which convert n to size_t first, agree with `+=` and `-=` |
| GlobIterator.DiffOfAdvance | dash/include/dash/GlobIter.h:180-203 | `(it + n) - it == n` for every offset, wrap-around included |
| GlobIterator.ComparisonsFollowIndex | dash/include/dash/GlobIter.h:201-228 | equality is a zero distance, and below 2^63 `<` agrees with the sign of the distance |
| GlobIterator.GlobIter.Default | dash/include/dash/GlobIter.h:45-49 | a default iterator has null memory and pattern and index 0 |
| GlobIterator.GlobIter.constructor | dash/include/dash/GlobIter.h:54-60 | an iterator on the given memory and pattern at the given index |
| GlobIterator.GlobIter.AtStart | dash/include/dash/GlobIter.h:54-60 | with the index argument left to its default, the iterator is on the given memory and pattern at index 0, position 0 |
| GlobIterator.GlobIter.Pos | dash/include/dash/GlobIter.h:124-126 | the position is the index read as a signed value |
| GlobIterator.GlobIter.Increment | dash/include/dash/GlobIter.h:139-143 | prefix `++` advances the index by one, modulo 2^64 |
| GlobIterator.GlobIter.PostIncrement | dash/include/dash/GlobIter.h:147-152 | postfix `++` returns a copy at the old index and advances by one |
| GlobIterator.GlobIter.Decrement | dash/include/dash/GlobIter.h:156-160 | prefix `--` moves back by one, modulo 2^64 |
| GlobIterator.GlobIter.PostDecrement | dash/include/dash/GlobIter.h:164-168 | postfix `--` returns a copy at the old index and moves back by one |
| GlobIterator.GlobIter.AddAssign | dash/include/dash/GlobIter.h:170-173 | `+=` advances by n |
| GlobIterator.GlobIter.SubAssign | dash/include/dash/GlobIter.h:175-178 | `-=` moves back by n |
| GlobIterator.GlobIter.Plus | dash/include/dash/GlobIter.h:180-186 | `it + n` is a new iterator on the same memory whose distance from `it` is n |
| GlobIterator.GlobIter.Minus | dash/include/dash/GlobIter.h:188-194 | `it - n` is a new iterator from which n steps forward lead back to `it` |
| GlobIterator.GlobIter.Sum | dash/include/dash/GlobIter.h:196-199 | `it1 + it2` is the sum of the indices modulo 2^64 |
| GlobIterator.GlobIter.Distance | dash/include/dash/GlobIter.h:201-204 | `it1 - it2` is the difference of the indices modulo 2^64, and exactly the difference when that fits in gptrdiff_t |
| GlobIterator.GlobIter.Less | dash/include/dash/GlobIter.h:206-208 | `<` compares the indices alone |
| GlobIterator.GlobIter.LessEq | dash/include/dash/GlobIter.h:210-212 | `<=` compares the indices alone |
| GlobIterator.GlobIter.Greater | dash/include/dash/GlobIter.h:214-216 | `>` compares the indices alone |
| GlobIterator.GlobIter.GreaterEq | dash/include/dash/GlobIter.h:218-220 | `>=` compares the indices alone |
| GlobIterator.GlobIter.Equal | dash/include/dash/GlobIter.h:222-224 | `==` compares the indices alone, not the memory or the pattern |
| GlobIterator.GlobIter.NotEqual | dash/include/dash/GlobIter.h:226-228 | `!=` is the negation of `==` on the indices |
| ShmemBarriers.FirstMatch | dart-impl/shmem/dart-shmem/sysv/shmem_barriers_sysv.c:88-104 | the first used slot holding the team id, -1 when there is none |
| ShmemBarriers.SyncArea.Init | dart-impl/shmem/dart-shmem/sysv/shmem_barriers_sysv.c:31-40 | all slots are free except slot 0, which holds DART_TEAM_ALL, and the next team id is 1 |
| ShmemBarriers.SyncArea.NewTeam | dart-impl/shmem/dart-shmem/sysv/shmem_barriers_sysv.c:62-85 | the lowest free slot from 1 takes the next team id, which is returned and then incremented; -1 exactly when all slots are used, and then nothing changes; the new team is found in its slot |
| ShmemBarriers.SyncArea.FindTeam | dart-impl/shmem/dart-shmem/sysv/shmem_barriers_sysv.c:88-104 | the result is the first used slot holding the team, -1 when there is none |
| ShmemBarriers.SyncArea.DelTeam | dart-impl/shmem/dart-shmem/sysv/shmem_barriers_sysv.c:106-130 | the team's first slot is freed unless it is slot 0, after which the team is no longer found |
| ShmemBarriers.SyncArea.BarrierWait | dart-impl/shmem/dart-shmem/sysv/shmem_barriers_sysv.c:134-143 | -1 exactly for a slot outside the table, 0 otherwise |

## Left out

- Locks, atomics and the threads they protect against are not modelled. Every operation runs alone, and atomic increments are plain updates.
- Logging, debug output and the `printf` in the delayed matcher are not modelled.
- `dart_tasking_datadeps_init` beyond the unit id, `..._fini` and `..._progress` are not modelled. They only free memory or pass through to the transport.
- Transport, scheduler and copy-in calls (`dart_tasking_remote_*`, `dart__tasking__enqueue_runnable`, `dart_tasking_copyin_create_task`) are not modelled. They appear as events appended to the engine's log.
- Unit translation (`dart_team_unit_l2g`) and pointer localisation are function parameters of HandleDep and HandleTask.
- The effect of each `dart_tasking_copyin_create_task` request is a parameter (`CopyinRequests`) of the copy-in operations: the parent's table after the first and after the second request, and how many entries each takes from the free list.
- `dart_myid` is the engine's `myGuid` constant.
- The identity of recycled entries is not modelled. The free list holds zeroed entry values and the table holds entry values. Memory reuse and aliasing between a recycled cell and a live entry are therefore not captured.
- The C union that holds a dependency's pointer, direct task or copy-in payload is kept as separate fields. Reading the wrong member is not modelled.
- The producers that fill the local-deferred queue live outside this code and are not modelled. The thread queue filled by HandleDeferredLocal is its `pushed` result.
- The sysv barrier itself (`sysv_barrier_create`, `sysv_barrier_await`), the area's shared-memory attachment and its mutex are not modelled. BarrierWait only checks the slot.
- Dereference, subscript, locality queries and the conversion to a global pointer in `GlobIter` go through the pattern and global memory and are not modelled. The memory and pattern are opaque numbers.
- A failed `DART_ASSERT` in the delayed matcher stops the program. It is modelled as the `Aborted` result, which also ends HandleTask. Other asserts (counter underflow, a non-null task in `dephash_allocate_elem`) are preconditions.
- DataDeps.Engine.HandleTask: its ensures does not carry HandleDep's per-dependency facts across the loop: that tasks only gain edges, and that local dependencies are filed. The loop states the requests, the remote counter and the remote-blocked list; each HandleDep call states the rest.
- DataDeps.Engine.HandleDep: for copy-in, direct and delayed dependencies it states only that tasks gain edges and that only a delayed dependency can abort. Their exact effects are stated by HandleCopyin, HandleLocalDirect and MatchDelayed.
- The assertion in handle_copyin after the first copy-task request always holds, because its argument is the non-zero round counter. The model therefore gives that path no failure case.
- The task states and `IS_ACTIVE_TASK` are not part of this model's source. The states are Root, Created, Queued, Deferred, Running, Finished and Cancelled; a task is active unless it is Finished or Cancelled, so Root, Queued, Deferred and Running tasks count as active.
- `DART_PHASE_TASK`, `DART_TEAM_ALL`, `DART_TASKING_DATADEPS_LOCAL_SEGID` and `MAXNUM_TEAMS` are not defined in this model's source. They are constants fixed when the engine or the slot table is created.
- `dart_tasking_tasklist_remove` is not part of this model's source. It is modelled as RemoveFirst, which drops the first occurrence of the task.
- The counters are `int32_t` in the source and unbounded integers here. Overflow past 2^31 - 1 is not modelled.
- Matching.RemoteScanFinds: the direct candidate is proved to be the earliest-phase writer the walk passes only when each writer's task is in the phase its entry was filed in (DirectIsEarliestLaterWriter). The source compares the candidate task's phase with the entry's phase, and when the two differ the candidate need not be the earliest.
- DataDeps.Engine.FileLocal: the table's order holds only when callers file dependencies in phase order. It is proved for FileLocal, LocalBranch, FileBefore and the delayed matcher. HandleDep, HandleTask and the copy-in branch (which files a read of the destination) do not carry it.
- DataDeps.Engine.HandleCopyin: each copy-task request is assumed to change only the parent's table and the free list, as its `CopyinRequests` parameter gives them. Edges that the new copy task gains from the tasks it depends on, and any other counter or successor change the request makes, are not captured. Where no copying task is found, the tasks are therefore stated unchanged.
- DataDeps.Engine.CopyinRetry: the same assumption about the requests applies. Each request's effect on the table and free list is given, not derived from the copy task's own dependencies.
- ShmemBarriers.SyncArea.NewTeam: `nextid` is a C `int` in the source and an unbounded integer here. Overflow past 2^31 - 1, which would let two teams share an id, is not modelled.
- Tests and examples of the repository are not modelled.
