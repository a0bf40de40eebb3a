# A verified model of the quorum journal node

One journal node keeps a replicated edit log: it promises epochs to writers, stores segments of consecutive
transactions, and takes part in a Paxos-like recovery of the last segment. This project models that node
(`src/Journal.cpp` and the files it rests on) together with the algorithms of its bundled web server
(`util/mongoose.c`) that stand on their own, and proves what they are for.

`dafny verify dfyconfig.toml` checks everything.

## How the model is built

* **A world of atomic file operations** (`Disk.dfy`). The directory is a value: log files, paxos records and
  the two epoch files. Every change is one operation, and a fault schedule that the theorems quantify over
  decides for each whether it works, fails, or falls together with a crash just before or just after it. So
  crash points inside `acceptRecovery`, `persistPaxosData` and `replaceFile` are all covered. A dead process
  changes nothing and answers nothing; a restart drops the volatile fields and runs the constructor.
* **Imperative classes over functional specifications.** `Journal`, `FileJournalManager`,
  `PersistentLongFile`, the stream classes, the digest contexts, the I/O buffer and the web socket connection
  are classes with the original's fields and loops. Each method of `Journal` is proved equal to a function of
  the old state (`JournalSpec.dfy`); `Journal.Serve` and `Journal.Boot` are exactly one `Step` of the state
  machine, and the theorems about runs are about `Step`.
* **Safety and progress.** Beside the safety theorems, `JournalCalm.dfy` and `JournalProgress.dfy` show that the
  protocol gets on while no file operation fails: for each kind of request, and for a new writer's whole recovery
  and whole segment, they say exactly from which states it succeeds. So the safety theorems are not about a node
  that refuses everything. `JournalReplies.dfy` says what the answers mean, and `JournalCommitted.dfy` that accepted
  recoveries do not discard what is committed, each for every fault schedule. `JournalDeadEnd.dfy` has the states from which a recovery never succeeds again.
* **Runs are proved move by move.** Every step changes the disk by a sequence of thirteen kinds of
  move (`JournalMoves.dfy`, `JournalTrails.dfy`); an invariant is shown for each move, and then holds at every
  crash point of every request.

### What is assumed of the environment

Stated as `Honest` and `OneTryPerEpoch`, and used only where a theorem says so:

* transaction ids are not negative, `records` encodes exactly the announced consecutive transactions, a
  segment is not finalized empty, and no log reaches 4 GiB;
* a download that completes is the whole segment that was asked for (one that breaks off may have left
  anything in the temporary file);
* each epoch tries at most once to have a recovery of a given segment accepted. `JournalAtomicity.AtomicIff`
  shows what this is for: the accepting is atomic exactly if nothing that an earlier try of the same epoch left
  behind gets in the way. `SecondTryHappens` and `LeftoverHappens` are runs in which something does.

Fencing, the order of requests, the epoch invariants and the permanence of finalized segments need none of
these.

### Where the code and its comments disagree

The model follows the code.

* A new promise resets the serial to 0, so a writer's first request must carry at least 1; a fresh process
  starts at -1 (`src/Journal.h:51`, `src/Journal.h:159-161`).
* `startLogSegment` is meant to refuse only a left-over segment with transactions in it, but it tolerates one
  only if its scan finds exactly the one transaction `txid`; a file without any transaction aborts the process
  (`src/Journal.cpp:354-375`). `JournalCalm.StartIff` has the exact condition, `JournalProgress.SecondStartStops`
  an input that hits it, and `JournalProgress.StartAfterPromiseIff` what `newEpoch` does about it.
* `journal()` only logs when no segment is open (`src/Journal.cpp:421-423`) and would go on to write through
  a null pointer; the model calls this an abort, and `JournalRecovery.ChecksNeverFire` shows that it cannot
  happen.
* A finalize that fails on the count has already closed the segment (`src/Journal.cpp:225-236`); the retry goes by
  the scan, and succeeds (`JournalProgress.RetryFinalizes`).
* `prepareRecovery` rolls a half-done recovery forward even if the segment has been finalized since
  (`src/Journal.cpp:516-524`). Then there are two logs of one segment, and the lookup calls that an error
  (`src/FileJournalManager.cpp:145-146`), in this preparation and in every later one: `JournalCalm.PrepareIff`,
  `JournalDeadEnd.DeadEndHappens`, `JournalDeadEnd.NeverPreparedAgain`.
* `acceptRecovery` ignores an error of `getSegmentInfo` and goes on as if there were no segment
  (`src/Journal.cpp:776`): `JournalCalm.AcceptBesideFinalized`.
* Its check that nothing committed is discarded looks at the file in place, not at a half-done recovery that goes
  further (`src/Journal.cpp:809-816`): `JournalCommitted.LosesIff`, `JournalCommitted.ExposedHappens`. A preparation
  would have rolled that one forward.
* `EditLogFile::operator<` answers yes for equal keys (`src/EditLogFile.cpp:27`). Sorting is only ever asked
  of files with distinct keys: see `FileNames.ListingReadsBack` and `FileJournalManagers.MatchedExactly`.
* The committed txid is written without a line end and never reads back
  (`util/BestEffortLongFile.h:98-121`); the model treats it as volatile.
* In a glob pattern with alternatives an empty match of any but the last one is lost
  (`util/mongoose.c:2443-2447`): `Glob.EmptyMatchIsLost`, `Glob.AlternativesIff`.
* The URL encoder looks a byte up with `strchr`, which finds the terminator for the byte 0; that byte is
  copied unescaped (`util/mongoose.c:3371-3373`).

## Model

| member | source | states |
|---|---|---|
| JournalRecovery.AcceptIsAtomic | src/Journal.cpp:732-869 | Unless an earlier try of the same epoch is in the way, a crash or error anywhere inside acceptRecovery leaves the segment's effective content and record entirely old or entirely new; new exactly when the record's rename happened, and the record is in place whenever the reply is success |
| JournalRecovery.CommitIsAtomic | src/Journal.cpp:833-864 | From the staging of the record on, the effective view switches with the rename of the record and at no other file operation |
| JournalRecovery.StepKeepsEffective | src/Journal.cpp:614-639 | Preparing a recovery, rolling a half-done one forward, newEpoch, restarts and everything about other segments leave a segment's effective view unchanged, at every crash point |
| JournalRecovery.MoveKeepsEffective | util/JNServiceMiscUtils.cpp:131-155 | Removing the target, renaming over it and moving an empty file aside each keep the effective view; an empty file counts as absent |
| JournalAtomicity.SecondTryIsNotAtomic | src/Journal.cpp:833-864 | For every state with a record of the same epoch and another end wanted: dying in the download leaves an effective content that is neither old nor new |
| JournalAtomicity.LeftoverIsNotAtomic | src/Journal.cpp:836-858 | For every state with the wanted end in place and another temporary file of the same epoch: the request succeeds, and the effective content is the left-over file |
| JournalAtomicity.DyingDownload | src/Journal.cpp:879-908 | A process that dies in the download leaves the part it has in the temporary file, and no other log changes, except that empty ones may move aside |
| JournalAtomicity.AtomicIff | src/Journal.cpp:732-869 | acceptRecovery is atomic for all faults and all honest downloads if and only if: with the wanted end in place, no temporary file of this epoch is there, or it equals the log in place, or the very same record is; with another end or none in place, the record is not of this epoch |
| JournalAtomicity.SecondTryHappens | src/Journal.cpp:496-869 | Every recovery that goes well leads to a state in which a second try of its epoch for another end is not atomic |
| JournalAtomicity.SecondTryOnFreshNode | src/Journal.cpp:732-869 | A concrete run from a freshly formatted node that ends in such a state |
| JournalAtomicity.LeftoverHappens | src/Journal.cpp:732-869 | A writer that dies in a download and comes back cannot have what is in place accepted atomically in the same epoch |
| JournalRecovery.DoneIsAccepted | src/Journal.cpp:833-869 | Success means that the record is in place and the log it promises is where the next look finds it |
| JournalRecovery.StepKeepsSettled | src/Journal.cpp:732-869 | One event keeps an accepted recovery accepted, or finalized with that end, unless it starts the segment or has another recovery of it accepted and passes its check |
| JournalRecovery.FinalizeSettles | src/Journal.cpp:211-282 | An accepted segment can only be finalized with the end that was accepted |
| JournalRecovery.PersistFrame | src/Journal.cpp:566-665 | Persisting a record and reading it back gives the new record or the old one, the new one if it succeeded, and no other segment's record changes |
| JournalRecovery.PrepareReports | src/Journal.cpp:519-560 | Where a recovery is accepted, or finalized since, a successful preparation reports its end, and its epoch unless the segment is finalized with that end |
| JournalRecovery.AcceptedIsDurable | src/Journal.cpp:732-869 | After acceptRecovery succeeded, every later successful prepareRecovery reports that end and epoch, or the segment finalized with it, through any batches, finalizing, refused requests, faults, crashes and restarts, until a start or another recovery of the segment passes its check |
| JournalRecovery.PrepareAgrees | src/Journal.cpp:528-536 | In every state that satisfies the invariant, the accepted end and the end found on disk agree |
| JournalRecovery.AcceptInOrder | src/Journal.cpp:762-770 | The record in place is never of a newer epoch than the request that passed the check |
| JournalRecovery.StreamIsThere | src/Journal.cpp:415-425 | A batch for a segment never meets a missing stream |
| JournalRecovery.ChecksNeverFire | src/Journal.cpp:765-770 | In every run the aborts for a mismatched recovery, an out-of-order epoch, a misfiled record and a missing stream are unreachable |
| JournalCommitted.AcceptKeepsCommitted | src/Journal.cpp:809-816 | Whatever fails on the way: an accepted recovery of an unfinalized segment whose file in place holds s..e does not end below the committed txid c, if s <= c <= e |
| JournalCommitted.LosesIff | src/Journal.cpp:774-816 | From a good state some recovery of the segment is accepted below a committed txid of its effective log if and only if a half-done recovery waits that goes past the file in place, which is all the check looks at, and past what the node knows to be committed |
| JournalCommitted.ExposedHappens | src/Journal.cpp:833-864 | A recovery of more than the node has that crashes between record and rename, and a restart, lead to such a state |
| JournalCommitted.CommittedStays | src/Journal.cpp:732-869 | In every run: a committed txid that the effective log of an unfinalized segment holds when a recovery of it is accepted, it holds afterwards, whatever fails, unless the state is of that kind |
| JournalSafety.MoveKeepsDisk | src/Journal.cpp:251-263 | Every atomic move keeps: each segment file holds exactly the consecutive transactions its name promises, and each paxos record is backed by the file it names |
| JournalSafety.StepKeepsInv | src/Journal.cpp:93-869 | Every request, fault, crash and restart keeps the node invariant: the disk is in order, and an open segment's file holds exactly what the counter says and has no paxos record |
| JournalRuns.RunKeepsInv | src/Journal.h:44-75 | The invariant holds in every state a run from a freshly formatted node reaches |
| JournalRuns.TriesAreFirst | src/JNStorage.h:80-84 | One try per epoch means that each acceptRecovery meets a disk without a record or temporary file of its epoch |
| JournalRuns.SegmentsAreContiguous | src/Journal.cpp:440-465 | In every reachable state a file of segment S holds exactly S, S+1, ... up to some k, and a finalized one exactly up to the end in its name |
| JournalRuns.RunKeepsOneFinal | src/FileJournalManager.cpp:71-96 | In every reachable state a start has at most one finalized file |
| JournalRuns.CounterAgreesWithScan | src/Journal.cpp:225-263 | While a segment is open, finalizing by counter accepts exactly the end the byte scan would |
| JournalRuns.FinalizedIsForever | src/FileJournalManager.cpp:71-96 | A finalized segment with a transaction keeps its name and every byte through any events, honest or not |
| JournalRuns.FinalizedStaysInRuns | src/Journal.cpp:354-375 | Whatever an admissible run has finalized, every longer run still has, byte for byte |
| JournalEpochs.StepEpochs | src/Journal.cpp:113-120 | Each step keeps both epochs from decreasing and the writer epoch and every accepted epoch at most the promise; only startLogSegment changes the writer epoch |
| JournalEpochs.RunEpochs | src/Journal.cpp:377-401 | The same over whole runs with restarts |
| JournalEpochs.SuccessPromises | src/Journal.cpp:144-160 | A request that succeeds speaks for an epoch not below the promise and leaves that epoch promised |
| JournalEpochs.Fencing | src/Journal.cpp:143-205 | Once the promise of an epoch is on disk, whichever request wrote it and whatever came of that request, no request of a smaller epoch ever succeeds, through any events and restarts |
| JournalEpochs.SuccessFences | src/Journal.cpp:94-136 | In particular after any request that succeeded |
| JournalEpochs.RunOpenedBy | src/Journal.cpp:322-404 | A current segment was opened, since the process started, by a successful startLogSegment of the writer epoch on disk |
| JournalEpochs.SingleWriter | src/Journal.cpp:406-468 | Every acknowledged batch carries the promised epoch, which is the writer epoch, which is the epoch that opened the segment |
| JournalEpochs.StepOrder | src/Journal.cpp:163-185 | A request that passes its check is ahead of the node's (epoch, serial), and the node is not behind it afterwards |
| JournalEpochs.InOrder | src/Journal.cpp:143-185 | Between restarts the requests that pass their check strictly increase in (epoch, serial), and the committed txid never decreases |
| QuorumVisibility.AckedIsCovered | src/Journal.cpp:406-468 | A node that acknowledges a batch has the segment to the batch's end and no accepted recovery of it |
| QuorumVisibility.StepKeepsCovers | src/Journal.cpp:211-282 | It keeps both through every event, unless it starts the segment or accepts a recovery of it and passes its check |
| QuorumVisibility.CoveredIsReported | src/Journal.cpp:495-560 | A node that has them answers a preparation with the start and the exact end of the log it has, which is at or past the batch, and whether it is in progress |
| QuorumVisibility.AckedIsReported | src/Journal.cpp:495-560 | On one node every later preparation describes the log the node then has, up to the batch at least, until a start or a recovery of the segment passes its check |
| QuorumVisibility.OldBeforePromise | src/Journal.cpp:143-160 | What succeeded for an old epoch succeeded before the node promised the newer one, by whatever request |
| QuorumVisibility.NewEpochPromises | src/Journal.cpp:94-136 | A newEpoch that succeeds is such a promise |
| QuorumVisibility.BatchIsVisible | src/Journal.cpp:93-136 | If a majority acknowledged a batch and a majority promised a newer epoch, some node did both in this order, and each later preparation there describes the log it has, the batch included, until a start or a recovery of the segment passes its check there |
| QuorumVisibility.CoveredIsNamed | src/Journal.cpp:122-133 | A successful newEpoch names the start of the latest segment with a transaction, which is at or past every segment that is covered |
| QuorumVisibility.AckedIsNamed | src/Journal.cpp:94-136 | On one node, after an acknowledged batch a successful newEpoch names the start of the node's latest segment, which is that of the batch or a later one, until a start or a recovery of the segment passes its check |
| QuorumVisibility.SegmentIsNamed | src/Journal.cpp:94-136 | If a majority acknowledged a batch and a majority answers a newer epoch's newEpoch, some node did both in this order and names the start of its latest segment, that of the batch or a later one, unless a start or a recovery of the segment has passed its check there in between |
| QuorumVisibility.AcceptedIsRemembered | src/Journal.cpp:496-560 | On one node an accepted recovery is reported by every later preparation until a start or another recovery of the segment passes its check |
| QuorumVisibility.RecoveryIsVisible | src/Journal.cpp:732-869 | If a majority accepted a recovery and a majority promised a newer epoch, some node did both in this order, and each later preparation there reports the accepted recovery until a start or another recovery of the segment passes its check there |
| JournalProgress.RunIsGood | src/Journal.h:44-75 | Every state of an admissible run with the process up satisfies what the two progress theorems ask for |
| JournalCalm.CalmCheckIff | src/Journal.cpp:144-185 | While nothing fails, the check passes exactly the requests that are not from before the promise, are new within their epoch, and do not take back what is committed; it aborts exactly for the last alone, refuses the rest, and a request from before the promise changes nothing |
| JournalReplies.NewEpochIff | src/Journal.cpp:94-120 | While nothing fails, newEpoch succeeds if and only if the namespaces agree and the epoch is newer than the promise; otherwise nothing changes |
| JournalReplies.NewEpochNames | src/Journal.cpp:122-133 | Whatever fails on the way: a successful newEpoch names the start of a segment with a transaction, past which no other such segment starts, and nothing exactly if there is no transaction; no segment is open afterwards |
| JournalReplies.PreparedSays | src/Journal.cpp:511-541 | Whatever fails on the way: an answered preparation of an unfinalized segment names the epoch of the record, if there is one, and a segment exactly if the effective log has transactions, namely from its start to exactly the last one, in progress where there is no record; and this log is in place afterwards, with nothing half done and no segment open |
| JournalReplies.PreparedSaysFinalized | src/Journal.cpp:522-541 | Of a finalized segment it names exactly the end it is finalized with, and no accepted epoch |
| JournalReplies.PreparedTells | src/Journal.cpp:543-556 | It names the writer epoch, and the committed txid if one is known |
| JournalReplies.StartedMeans | src/Journal.cpp:354-404 | Whatever failed before: after a start that succeeded the file is eight bytes, the layout version and flags 0, there is no record, the epoch is promised and the writer's, and the segment is open |
| JournalReplies.FinalizedMeans | src/Journal.cpp:211-282 | Whatever failed before: after a finalize that succeeded the finalized file holds exactly the announced transactions, there is no record, and the segment is not open |
| JournalCalm.PrepareIff | src/Journal.cpp:496-560 | While nothing fails, a preparation in turn succeeds if and only if the segment is not finalized with an unfinished log beside it or a half-done recovery that would be rolled forward beside it; otherwise it is refused |
| JournalCalm.FinalizedPrepare | src/Journal.cpp:519-560 | Of a finalized segment without another log the preparation reports the finalized end, no accepted epoch, and the same two |
| JournalCalm.BlockedPrepare | src/Journal.cpp:516-524 | Otherwise the preparation is refused, and the unfinished log, rolled forward if it was half done, lies beside the finalized one |
| JournalCalm.PrepareMovesEmpty | src/Journal.cpp:305-310 | A preparation of a segment that was started and never written moves its file aside and names no segment |
| JournalCalm.AcceptIff | src/Journal.cpp:776-869 | While nothing fails, a recovery in turn with a complete download, of an unfinalized segment, is accepted if and only if it does not end below the committed txid while the file in place holds that transaction; otherwise the process aborts for that |
| JournalCalm.AcceptFinalizedIff | src/Journal.cpp:776-869 | Of a finalized segment it is accepted if and only if it has the finalized end, and then no log changes; the abort is for discarding exactly if the finalized log holds the committed txid and the wanted end is below it |
| JournalCalm.AcceptBesideFinalized | src/Journal.cpp:776-777 | With two logs of the segment every end is accepted, because the error of the lookup is ignored |
| JournalCalm.BrokenDownload | src/Journal.cpp:879-908 | A recovery whose download breaks off, with nothing in place, is refused, leaves no temporary file, and changes no log |
| JournalCalm.JournalIff | src/Journal.cpp:407-468 | While nothing fails, a batch in turn is acknowledged if and only if it is the writer's, for the open segment, and starts at the next txid; then the file grows by exactly its bytes. A batch of the writer for another segment closes the open one; any other that is refused leaves it open, and no file changes |
| JournalCalm.FinalizeIff | src/Journal.cpp:211-282 | While nothing fails, a finalize in turn succeeds if and only if the log holds exactly up to the announced end and nothing else of the segment is finalized, or the segment is finalized with that end already and has no other log; then the file has the log's bytes and the record is gone. It aborts exactly for another end of a finalized segment. Only this segment is closed |
| JournalCalm.StartIff | src/Journal.cpp:354-404 | While nothing fails, a start in turn of an unfinalized segment succeeds if and only if there is no file of it or the scan finds exactly its first transaction, and then the file is eight bytes, the layout version and flags 0; otherwise the process aborts and no log changes |
| JournalCalm.StartFinalized | src/Journal.cpp:354-364 | A finalized segment is never started: the process aborts, or with an unfinished log beside it the request is refused, and no file changes |
| JournalCalm.ScanMovesEmpty | src/Journal.cpp:58-73 | The storage scan moves a segment's file aside if and only if it is empty and no file above it has a transaction |
| JournalProgress.RestartServes | src/Journal.h:44-75 | After a restart without faults a request passes the check exactly if its epoch is the promised one and its serial at least 0, or its epoch is newer and its serial at least 1 |
| JournalProgress.FormattedPromises | src/Journal.h:44-58 | A freshly formatted node promises exactly the positive epochs, and names no segment |
| JournalProgress.RecoveryIff | src/Journal.cpp:93-869 | From a good state a new epoch's newEpoch, prepareRecovery, acceptRecovery and finalizeLogSegment all succeed, while nothing fails, if and only if: a finalized segment has the wanted end and nothing unfinished beside it, and of any other the recovery does not end below the committed txid while the effective log holds that transaction. Then the finalized segment holds exactly the agreed transactions |
| JournalProgress.RetryFinalizes | src/Journal.cpp:224-263 | A finalize with a wrong end is refused and closes the segment; the next one with the right end succeeds, byte for byte |
| JournalDeadEnd.DeadEndHappens | src/Journal.cpp:274-280 | From every state with part of a segment written: a recovery of more that crashes after the record's rename, a restart, a finalize whose removal of the record fails, and a preparation lead to two logs of the segment |
| JournalDeadEnd.StepKeepsStuck | src/Journal.cpp:516-524 | Every event keeps such a pair of logs, unless it has another recovery of the segment accepted and passes its check |
| JournalDeadEnd.NeverPreparedAgain | src/FileJournalManager.cpp:125-147 | Until then no preparation of the segment succeeds, through any requests, faults, crashes and restarts |
| JournalProgress.SendSucceeds | src/Journal.cpp:407-468 | While nothing fails, any list of consecutive batches of an open segment is acknowledged one by one, and the file grows by exactly their bytes |
| JournalProgress.StartAfterPromiseIff | src/Journal.cpp:94-404 | From every good state a new epoch that has been promised can start an unfinalized segment if and only if it is startable or its file is empty and on top; otherwise the process aborts |
| JournalProgress.WriterSucceeds | src/Journal.cpp:93-468 | From every good state a new epoch can promise, start a segment that is startable in this sense, write any batches, each with its committed txid, and finalize; the file is exactly header and batches, and begins with the layout version |
| JournalProgress.SecondStartStops | src/Journal.cpp:365-375 | Starting the open segment again before anything was written to it aborts the process |
| JournalTrails.StepTrail | src/Journal.cpp:93-869 | Every step changes the disk by a sequence of the moves its request is allowed, each of them sound in admissible states |
| JournalTrails.PrepareTrail | src/Journal.cpp:495-560 | Behind its check, prepareRecovery only tidies empty files and rolls the recorded recovery forward, one atomic move at a time |
| JournalTrails.AcceptTrail | src/Journal.cpp:732-869 | Behind its check, acceptRecovery only tidies, fetches or discards its own temporary file, records, and rolls forward, each move sound when the request is admissible |
| JournalTrails.StartTrail | src/Journal.cpp:322-404 | Behind its check, startLogSegment only takes over as writer, purges the record, and, with no record left and no other log of that start, creates the file over at most the one transaction |
| JournalTrails.FinalizeTrail | src/Journal.cpp:211-282 | Behind its check, finalizeLogSegment only purges the record and renames a log that, in admissible states, holds exactly the announced range |
| JournalFrames.ReplaceFileFrame | util/JNServiceMiscUtils.cpp:131-155 | Whatever fails or crashes, replaceFile has done nothing, removed only the target, or moved the source over it; success means the last |
| JournalFrames.ReplaceBridgesFailures | util/JNServiceMiscUtils.cpp:137-155 | With both files there, it succeeds through k failing operations if and only if k is at most 5 |
| JournalFrames.GetSegmentInfoFrame | src/Journal.cpp:289-315 | Looking at a segment at most moves a file without transactions aside |
| Journals.Journal.constructor | src/Journal.h:44-75 | A restart forgets the volatile fields, runs the storage scan and comes up exactly when the scan succeeds |
| Journals.Journal.NewEpoch | src/Journal.cpp:94-136 | The new state and reply are those of the specification, for every fault schedule |
| Journals.Journal.CheckRequest | src/Journal.cpp:144-185 | Refuses smaller epochs and old serials, promises larger epochs, remembers the committed txid, halts if it would move back |
| Journals.Journal.CheckWriteRequest | src/Journal.cpp:188-205 | In addition refuses every epoch but the writer's |
| Journals.Journal.StartLogSegment | src/Journal.cpp:322-404 | The new state and reply are those of the specification, aborts included |
| Journals.Journal.OpenSegment | src/Journal.cpp:377-404 | Writer epoch, then record purged, then file created, then fields set; any failure stops there |
| Journals.Journal.JournalTxns | src/Journal.cpp:407-468 | The new state and reply are those of the specification: wrong segment closes, wrong next txid refuses, a failed write halts |
| Journals.Journal.FinalizeLogSegment | src/Journal.cpp:211-282 | The new state and reply are those of the specification, by counter and by scan |
| Journals.Journal.PrepareRecovery | src/Journal.cpp:496-560 | The new state is that of the specification, and so is the reply |
| Journals.Journal.AcceptRecovery | src/Journal.cpp:732-869 | The new state and reply are those of the specification, for every download |
| Journals.Journal.AcceptSegment | src/Journal.cpp:746-869 | The part behind the request check, with its order of checks, transfer, record and rename |
| Journals.Journal.GetSegmentInfo | src/Journal.cpp:289-315 | Empty in-progress files are moved aside and count as absent; the answer is that of the specification |
| Journals.Journal.ScanStorageForLatestEdits | src/Journal.cpp:42-77 | The loop does what the recursive specification of the scan does |
| Journals.Journal.ReplaceFile | util/JNServiceMiscUtils.cpp:131-155 | Up to five tries to remove the target, then one rename |
| JournalFrames.MoveAsideFrame | src/EditLogFile.cpp:51-61 | Moving a file without transactions aside takes at most that file away, brings at most its .empty file, and leaves every other file where it is, whatever fails |
| Journals.Journal.PersistPaxosData | src/Journal.cpp:645-665 | Written beside, then renamed into place |
| Journals.Journal.CompleteHalfDoneAcceptRecovery | src/Journal.cpp:615-639 | Moves the temporary file named by the record into place if it is still there |
| Journals.Journal.PurgePaxosDecision | src/Journal.cpp:477-490 | Removes the record if there is one |
| Journals.Journal.SyncLog | src/Journal.cpp:879-908 | Whatever a transfer comes to, only the temporary file of this segment and epoch changes; a broken one is removed |
| Journals.Journal.UpdateLastPromisedEpoch | src/Journal.h:153-163 | The serial goes back to 0 exactly when the promise was written |
| Journals.Journal.AbortCurSegment | src/Journal.h:165-176 | Closes the open segment, if there is one |
| Journals.Journal.GetEditLogManifest | src/Journal.cpp:690-729 | Without in-progress logs: answers with the manifest, or with nothing exactly because two listed segments overlap |
| Journals.Journal.Serve | src/Journal.h:100-109 | One call is one step of the state machine the run theorems are about |
| Journals.Journal.Boot | src/Journal.h:44-75 | Construction is the restart step of that state machine |
| PersistentLongFiles.PersistentLongFile.Get | util/PersistentLongFile.h:45-56 | Reads the durable cell: file or default, whatever the cache holds |
| PersistentLongFiles.PersistentLongFile.Set | util/PersistentLongFile.h:58-66 | Writes the durable cell; a write skipped because of the cache was not needed, a failed one changes neither |
| StorageScan.ScanDownFinds | src/Journal.cpp:58-73 | The scan stops at the highest file with a transaction and moves aside exactly the files above it |
| StorageScan.ScanFindsLatest | src/Journal.cpp:41-77 | The result is the segment highest in sort order that contains a transaction; exactly the empty ones above it are moved, no file with records is |
| StorageScan.ScanIsIdempotent | src/Journal.cpp:41-77 | A second scan finds the same and changes nothing |
| StorageScan.CalmScanSucceeds | src/Journal.cpp:41-77 | Without faults the scan of readable files succeeds |
| StorageScan.RestartSucceeds | src/Journal.h:59-74 | However a run ended, a restart without faults brings the node up |
| StorageScan.ManifestIsExact | src/Journal.cpp:689-729 | In every reachable state a manifest is exactly the finalized segments ending at or past sinceTxId, disjoint and in order |
| StorageScan.OverlapExcludesManifest | src/Journal.cpp:672-687 | Two wanted segments that overlap mean there is no manifest |
| FileJournalManagers.NeighboursSuffice | src/Journal.cpp:672-687 | Where first <= last, checking neighbours makes all pairs disjoint and ordered |
| FileJournalManagers.CheckIfLogsInSequence | src/Journal.cpp:673-687 | True if and only if every two neighbours are apart |
| FileJournalManagers.MatchedExactly | src/FileJournalManager.cpp:176-209 | A listing has exactly the segment files, each once, with the ids of its name |
| FileJournalManagers.Sort | src/EditLogFile.cpp:15-28 | For distinct keys the code's comparison sorts, and keeps exactly the elements |
| FileJournalManagers.SortedUnique | src/EditLogFile.cpp:15-28 | There is only one sorted order of a set of distinct names |
| FileJournalManagers.FileJournalManager.GetFilesInDirectory | src/FileJournalManager.cpp:149-165 | Every name once, in no particular order |
| FileJournalManagers.FileJournalManager.MatchEditLogs | src/FileJournalManager.cpp:167-174 | Exactly the segment files of the directory |
| FileJournalManagers.FileJournalManager.GetLogFiles | src/FileJournalManager.cpp:99-116 | Exactly the logs that start at or past the txid or contain it, sorted |
| FileJournalManagers.FileJournalManager.GetLogFile | src/FileJournalManager.cpp:125-147 | The one log that starts at the txid; none and several are told apart |
| FileJournalManagers.FileJournalManager.GetRemoteEditLogs | src/FileJournalManager.cpp:32-55 | Exactly the segments a reader from that txid on may want, with or without those still being written, sorted |
| EditLog.HeaderIsLog | src/FileJournalManager.cpp:58-68 | The file a new segment is created with is a scannable log of no transactions, for every layout version |
| EditLog.HeaderFields | src/JNClientOutputStream.cpp:52-58 | The header is eight bytes: the layout version, which reads back, and flags 0 |
| FileJournalManagers.FileJournalManager.FinalizeLogSegment | src/FileJournalManager.cpp:71-96 | Renames the in-progress file, never over a finalized one |
| FileNames.ParseName | src/FileJournalManager.cpp:176-209 | A built in-progress or finalized name reads back as the ids it was built from, up to 2^63-1 |
| FileNames.ForeignIds | src/FileJournalManager.cpp:176-209 | Any digits in the place of the ids are read for their value, up to 2^63-1 where they saturate |
| FileNames.ParseIff | src/FileJournalManager.cpp:176-209 | Of all names the node builds, exactly those of logs are matched as logs |
| FileNames.PaddedWidth | util/JNServiceMiscUtils.cpp:48-77 | Every txid takes exactly 19 digits in a name, and they are its value |
| FileNames.MatchFinalizedIff | src/FileJournalManager.h:29-29 | The matcher accepts exactly the strings of the regular expression, with its groups |
| FileNames.MatchInProgressIff | src/FileJournalManager.h:28-28 | The same for in-progress names |
| FileNames.SuffixedIsIgnored | src/EditLogFile.h:98-111 | Files moved aside as .empty, .trash or .corrupt are never listed as logs |
| FileNames.TempIsIgnored | src/JNStorage.h:80-84 | Temporary files of a recovery are never listed as logs |
| FileNames.NamesInjective | util/JNServiceMiscUtils.cpp:48-77 | Different files have different names, across all kinds |
| FileNames.MatchEditLogs | src/FileJournalManager.cpp:176-209 | The loop yields the parsed names, in the order of the listing |
| FileNames.ListingReadsBack | src/FileJournalManager.cpp:149-209 | A directory written by the node lists back as exactly its segment files, so keys are distinct |
| EditLog.ScanOpRoundTrip | src/JNClientInputStream.cpp:82-124 | scanOp on an encoded record followed by anything returns its txid and stops exactly behind it |
| EditLog.RecordFields | src/TestJNClientOutputStream.cpp:25-75 | Every byte of a record: opcode 30, the length of the whole less five bytes, txid, data and checksum, each reading back |
| EditLog.ScanPassesOver | src/JNClientInputStream.cpp:54-72 | From any record boundary the scan passes over whole records, keeping the highest txid, whatever follows them |
| EditLog.ForeignByteFails | src/JNClientInputStream.cpp:82-95 | A byte behind whole records that is no opcode makes the scan fail |
| EditLog.InvalidTxidEnds | src/JNClientInputStream.cpp:54-72 | A record with the invalid txid ends the log for the scanner, whatever follows |
| EditLog.ScanFromRoundTrip | src/JNClientInputStream.cpp:54-72 | From any record boundary the scan consumes exactly the rest and finds its highest txid |
| EditLog.ScanRoundTrip | src/JNClientInputStream.cpp:34-74 | Header plus any encoded records scans to the highest txid, for every layout version |
| EditLog.HeaderIff | src/JNClientInputStream.cpp:127-139 | Eight bytes and whole records are scanned exactly if the flags in the eight bytes are 0, whatever the layout version |
| EditLog.HighestIsMaximum | src/JNClientInputStream.cpp:65-67 | What the scan loop keeps is the maximum of the txids, in whatever order they come |
| EditLog.ScanLog | src/JNClientInputStream.cpp:54-72 | The scan of a segment of n consecutive records from S finds S+n-1 |
| EditLog.AppendBatch | src/Journal.cpp:440-465 | Appending the next batch keeps a log contiguous |
| EditLogStreams.JNClientInputStream.ReadAsType | src/JNClientInputStream.cpp:147-165 | Reads the big-endian two's complement value on hosts of either byte order |
| EditLogStreams.JNClientInputStream.SkipHeader | src/JNClientInputStream.cpp:127-139 | Consumes eight bytes and accepts exactly layout flags 0 |
| EditLogStreams.JNClientInputStream.ScanOp | src/JNClientInputStream.cpp:82-124 | Position and answer are those of the specification, 32-bit position arithmetic included |
| EditLogStreams.JNClientInputStream.ScanLog | src/JNClientInputStream.cpp:34-74 | The scan loop ends and answers as specified, on hosts of either byte order |
| EditLogStreams.JNClientOutputStream.StoreAsBigEndian | src/JNClientOutputStream.cpp:60-78 | Appends the big-endian bytes on hosts of either byte order |
| EditLogStreams.JNClientOutputStream.Create | src/JNClientOutputStream.cpp:52-58 | A new log is exactly the header: eight bytes, the layout version and flags 0 |
| EditLogStreams.RecordEncoder.constructor | src/TestJNClientOutputStream.cpp:25-40 | The buffer, of exactly the computed size, is filled with the encoded record, checksum of what is before it included |
| EditLogStreams.RecordEncoder.StoreAsBigEndian | src/TestJNClientOutputStream.cpp:47-65 | Fills the next bytes of the buffer, big-endian |
| EditLogStreams.RecordEncoder.WriteByte | src/TestJNClientOutputStream.h:57-57 | Fills the next byte of the buffer |
| EditLogStreams.RecordEncoder.WriteString | src/TestJNClientOutputStream.h:63-63 | Copies the data behind what is written |
| EditLogStreams.WriteAndScan | src/JNClientInputStream.cpp:34-74 | Of what encoder and header writer produce, the scanner finds the maximum txid, on any pair of hosts |
| Bytes.IntRoundTrip | src/JNClientInputStream.cpp:147-165 | A fixed-width signed integer written big-endian reads back as itself |
| Bytes.BigEndianAt | src/JNClientOutputStream.cpp:60-78 | Byte k of n is the k-th most significant |
| Digest.FoldAppend | util/mongoose.c:2746-2765 | Folding the block transform can stop anywhere and go on from the unfinished block |
| Digest.FoldOneBlock | util/mongoose.c:2746-2765 | One block is one application of the transform |
| Digest.Sha1Pads | util/mongoose.c:2767-2788 | SHA-1 is the fold, from the initial words of FIPS 180-4, over the one string that is the message, 0x80, as few zeros as complete a block with eight bytes, and the bit length in these, high byte first |
| Digest.Md5Pads | util/mongoose.c:3880-3908 | MD5 is the fold over the same with the bit length low byte first, as in section 3 of RFC 1321 |
| Digest.WordAt | util/mongoose.c:2782-2785 | Each word takes four bytes of the digest, high byte first in SHA-1, low byte first in MD5 |
| Digest.HexAt | util/mongoose.c:3915-3923 | Each byte takes two lower-case hexadecimal digits, the high one first |
| Digest.PositionInBlock | util/mongoose.c:2750-2755 | The position in the block can be read off the low word of the bit count, for messages of any length |
| Digest.CountBits | util/mongoose.c:2750-2753 | The two-word counter with its hand-made carry counts bits modulo 2^64 |
| Digest.Sha1Context.Update | util/mongoose.c:2746-2765 | After any updates the context is that of the concatenated message: state folded over its whole blocks, the rest buffered, bits counted, with the 32-bit index arithmetic of the code |
| Digest.BlockTestIff | util/mongoose.c:2754-2755 | The code's 32-bit test for a whole block is right if and only if what is pending and the piece together stay below 2^32 |
| Digest.Sha1Context.Blocks | util/mongoose.c:2757-2760 | Consumes exactly the whole blocks |
| Digest.Sha1Context.PadZeros | util/mongoose.c:2776-2780 | Zero bytes one by one until exactly eight bytes are missing to a block |
| Digest.Sha1Context.Final | util/mongoose.c:2767-2788 | The digest is the transform folded over the message padded as in section 5.1.1 of FIPS 180-4 |
| Digest.Sha1OfPieces | util/mongoose.c:2746-2788 | However a message is cut into updates that do not wrap that test, the digest is that of the whole |
| Digest.Md5Context.Update | util/mongoose.c:3844-3878 | After any updates the context is that of the concatenated message |
| Digest.Md5Context.Blocks | util/mongoose.c:3869-3877 | Whole blocks are transformed, the rest is buffered |
| Digest.Md5Context.PadInput | util/mongoose.c:3885-3898 | Padding in the buffer, with an extra block when the length does not fit, folds like the padding of the standard |
| Digest.Md5Context.Final | util/mongoose.c:3880-3908 | The digest is the transform folded over the message padded as in sections 3.1 and 3.2 of RFC 1321 |
| Digest.MgMd5 | util/mongoose.c:3926-3943 | The hexadecimal MD5 of several strings is that of their concatenation |
| WebSocket.MaskTwice | util/mongoose.c:2864-2869 | Masking as in section 5.3 of RFC 6455 is its own inverse |
| WebSocket.MaskedBit | util/mongoose.c:2867-2870 | Bit by bit, octet i of the payload meets octet i modulo 4 of the key |
| WebSocket.FrameFields | util/mongoose.c:2883-2931 | Every octet of a frame of section 5.2 of RFC 6455: first octet, mask bit, length in the shortest of three forms, key and payload |
| WebSocket.UpperLengthIsIgnored | util/mongoose.c:2851-2856 | Of an eight-byte length only the lower four bytes count, as an int |
| WebSocket.HeadOfFrame | util/mongoose.c:2842-2856 | The header of a frame of section 5.2 of RFC 6455 is read for what it says, whatever follows, for payloads below 2^31-14 |
| WebSocket.PartIsNotDelivered | util/mongoose.c:2842-2860 | No proper part of a frame is taken for a frame |
| WebSocket.FrameIsDelivered | util/mongoose.c:2836-2881 | A whole frame at the front is delivered with its bits and its unmasked payload, and nothing behind it is touched |
| WebSocket.SplitOf | util/mongoose.c:2859-2860 | Whatever has arrived of a stream of frames is some whole frames and a proper part of the next |
| WebSocket.ChunksDoNotMatter | util/mongoose.c:3225-3228 | For any frames and any cut of their stream into chunks, exactly the complete frames are handed out, in order, and only a part of the next is left |
| WebSocket.Iobuf.Append | util/mongoose.c:318-338 | Appends all of the data, or nothing exactly when the buffer had to grow and memory was refused |
| WebSocket.Iobuf.Remove | util/mongoose.c:340-345 | Drops the first n bytes, or nothing when there are fewer |
| WebSocket.Connection.ReadHead | util/mongoose.c:2842-2857 | Reads the sizes of the first frame as specified, 64-bit lengths truncated to int |
| WebSocket.Connection.Unmask | util/mongoose.c:2864-2869 | Takes the mask off in place and touches nothing else |
| WebSocket.Connection.Take | util/mongoose.c:2862-2869 | The handler is shown the first frame, and the bytes behind it stay |
| WebSocket.Connection.DeliverFrame | util/mongoose.c:2836-2881 | Delivers and removes the first frame if all of it is there, and otherwise changes nothing |
| WebSocket.Connection.ReceiveChunk | util/mongoose.c:3225-3228 | The loop hands out every frame complete by then; a chunk without memory for it is lost |
| WebSocket.Connection.ReceiveStream | util/mongoose.c:3225-3228 | Over a whole stream in chunks: delivered are exactly the complete frames, in order; buffered is a proper part of the next |
| WebSocket.MgWebsocketWrite | util/mongoose.c:2883-2931 | Appends exactly one unmasked frame of section 5.2 with the shortest length form, or nothing exactly when memory was refused for building or for sending it; a closing frame that was built closes |
| WebSocket.WriteAll | util/mongoose.c:2883-2931 | Writing messages one after another produces the stream of their frames |
| WebSocket.WholeStream | util/mongoose.c:2859-2860 | A stream of frames that has arrived whole leaves no part of a frame |
| WebSocket.WriteThenReceive | util/mongoose.c:2836-2931 | What one side writes the other side's handler is shown: exactly the payloads, in order, for every cut of the stream, and nothing is left in the buffer |
| Glob.MatchOne | util/mongoose.c:2449-2474 | Without alternatives: terminates, answers -1 exactly if no prefix matches, and otherwise the length of the one match in which every star, from the first on, takes the longest stretch that lets the rest match |
| Glob.MatchStar | util/mongoose.c:2454-2469 | The same for a pattern that starts with a star, longest stretch first |
| Glob.Span | util/mongoose.c:2460-2460 | The length of the stretch without a slash |
| Glob.MatchesWithin | util/mongoose.c:2449-2474 | A matching prefix is a prefix of the string |
| Glob.MgMatchPrefix | util/mongoose.c:2439-2474 | With alternatives: the first that has a non-empty match decides, and if none has, the last one: 0 exactly if it has the empty match, otherwise -1 |
| Glob.AnswerIsUnique | util/mongoose.c:2449-2474 | Pattern and string determine this answer |
| Glob.LastStarIsLongest | util/mongoose.c:2462-2464 | Of a pattern whose only star is at its end it is the longest match |
| Glob.EmptyPickIsLast | util/mongoose.c:2443-2447 | It is 0 only if there is no other match |
| Glob.AlternativesAnswerIsUnique | util/mongoose.c:2439-2447 | With alternatives, too, the answer is determined |
| Glob.LetterMatches | util/mongoose.c:2470-2472 | A character that has no meaning of its own matches itself, and a letter in either case |
| Glob.EmptyMatchIsLost | util/mongoose.c:2443-2447 | A concrete pattern and string where an alternative matches and the code answers -1 |
| Glob.AlternativesIff | util/mongoose.c:2443-2447 | A match is found exactly if some alternative has one, if and only if the last alternative has an empty match, or none has, or some alternative has a longer one |
| UrlCodec.UrlRoundTrip | util/mongoose.c:2324-2347 | Decoding the encoding of any bytes gives them back, in plain and in form mode (section 2.1 of RFC 3986) |
| UrlCodec.DecodeEscape | util/mongoose.c:2329-2342 | What the encoder writes for a byte, followed by anything, decodes to that byte and what follows |
| UrlCodec.EscapeIs | util/mongoose.c:3365-3384 | By character code: the unreserved characters of section 2.3 of RFC 3986, the dollar, parentheses, comma, semicolon and 0 are left as they are; any other becomes a percent sign and two lower-case digits, the high one first |
| UrlCodec.EncodedAlphabet | util/mongoose.c:3365-3384 | Nothing but these and percent signs is ever written |
| UrlCodec.DecodeFirst | util/mongoose.c:2329-2336 | A percent sign and two digits in either case are read as one byte, the high digit first |
| UrlCodec.DecodePlus | util/mongoose.c:2337-2342 | A plus is a space in form mode and itself otherwise |
| UrlCodec.HexRoundTrip | util/mongoose.c:2326-2336 | The hexadecimal digits written are read for the same value |
| UrlCodec.MgUrlEncode | util/mongoose.c:3365-3384 | Writes the encoding of a first part of the source and a terminator, stops early only when three bytes and the terminator would not fit, and never when the destination is longer than three times the source |
| UrlCodec.MgUrlDecode | util/mongoose.c:2324-2347 | Writes the decoding and its length if it fits, and otherwise what fits of it and -1 |
| UrlCodec.EncodeThenDecode | util/mongoose.c:2324-2347 | The two loops one after the other give the source back |

## Left out

- `format`, `checkFormatted` and the namespace: a node is formatted once, before the run starts; `newEpoch`
  takes whether the namespaces agree as a parameter.
- Journals.Journal.GetEditLogManifest: does not model manifests that include in-progress logs, because their
  end is `highestWrittenTxId`, a lag metric that is updated even when the sync fails afterwards.
- `highestWrittenTxId` itself, for the same reason.
- Read errors of the file system and of directory listings; only changes of files can fail.
- Torn writes: writing a whole file, a batch or a record is one operation that happens or not. The in-progress
  file is created together with its header, and a failed serialization of a record leaves no partial file.
- Logs with bytes that are not records: where the scanner would read past its buffer, go backwards or, from
  4 GiB on, wrap its position around the end, the model's scan fails.
- The value of the checksum: the encoder takes the checksum function as a parameter, the scanner never looks.
- `BestEffortLongFile` persistence: the committed txid is a volatile field.
- The quorum client: how it counts replies and chooses the value of a recovery is not in the repository;
  only the intersection of majorities is used.
- The HTTP transfer, RPC, protocol buffers, configuration, logging, the lock file and start-up: a transfer is
  a parameter with three outcomes, a record is a value.
- Integer widths of txids, epochs and serials, which are unbounded here. Where a width matters to the code
  it is explicit: record fields, the scanner's position, digest counters, frame lengths, ids in file names.
- Mutexes: one request is one step, split only by crashes.
- A node whose restart scan fails is left by its owner; it stays down until the next restart.
- JournalAtomicity.AtomicIff: for requests that no check of the node stops, of segments that are not finalized; a request
  that a check stops never gets to the part that could be torn.
- The rounds of the SHA-1 and MD5 block transforms: they are an arbitrary function, so the theorems hold for
  every one; the host's byte order in the MD5 buffer is taken as part of the transform. Wiping the contexts
  after use is not modelled.
- Digest.Sha1Context.Update: for pieces that do not wrap the 32-bit test of `Digest.BlockTestIff`; beyond, the
  test takes the wrong branch.
- Digest.Sha1OfPieces: for such pieces, too.
- The padding byte 0x80 and the zero bytes of the SHA-1 padding go through Update one at a time, as in the
  original; base64 and the handshake are left out.
- WebSocket.ChunksDoNotMatter: as long as the buffer never outgrows an int, the range in which the original's length is meaningful.
- WebSocket.Connection.ReceiveStream: memory for the receive buffer is granted; a chunk that is lost for want of
  it breaks the stream.
- WebSocket.WriteAll: memory to build and to send is granted; a frame that is lost for want of it is missing.
- WebSocket.WriteThenReceive: memory is granted on both sides.
- The handler of a message is a function of the message, and does not write to the connection it is called for.
- WebSocket.Connection.ReadHead: adds header and payload length without wrap-around, which is undefined in C; such a sum is not buffered either way.
- Glob.MgMatchPrefix: the byte behind the pattern is not a star. The original looks at it after a star at the end.
- The rest of the web server: sockets, CGI, DAV, SSI, authentication, dates, listings.
