/**
 * While no file operation fails, the protocol gets on: from which of the states a run can reach a new
 * writer's recovery goes through to the end, and from which it can write a new segment.
 */
module JournalProgress {
  import opened Bytes
  import opened EditLog
  import opened Disk
  import opened JournalSpec
  import opened JournalFrames
  import opened JournalInvariant
  import opened JournalMoves
  import opened JournalSafety
  import opened JournalEpochs
  import opened JournalRuns
  import opened JournalRecovery
  import opened StorageScan
  import opened JournalCalm
  import opened JournalReplies

  /** What every step of an admissible run hands on to the next. */
  ghost predicate Good(n: Node) {
    Inv(n) && VolShape(n.vol) && EpochsOk(n.w.disk) && OneFinal(n.w.disk.logs) && !n.w.dead
  }

  /** Every state of an admissible run is good while the process is up. */
  lemma RunIsGood(evs: seq<Event>)
    requires AdmissibleRun(evs) && !Run(FORMATTED, evs).w.dead
    ensures Good(Run(FORMATTED, evs))
  {
    hide Run, Inv, EpochsOk, OneFinal, AdmissibleRun;
    RunKeepsInv(evs);
    RunKeepsOneFinal(evs);
    FormattedEpochs();
    RunEpochs(FORMATTED, evs);
  }

  lemma GoodStep(n: Node, q: Request)
    requires Good(n) && Admissible(n, q)
    ensures
      var m := n.(w := n.w.(faults := []));
      && Good(m) && Calm(m) && Step(n, Call(q, [])).0 == Handle(m, q).0
      && (!Handle(m, q).0.w.dead ==> Good(Step(n, Call(q, [])).0) && Step(n, Call(q, [])).1 == Handle(m, q).1)
  {
    hide Handle, Inv, EpochsOk, OneFinal, Admissible, VolShape;
    StepKeepsInv(n, Call(q, []));
    StepKeepsOneFinal(n, Call(q, []));
    StepEpochs(n, Call(q, []));
    FaultsDoNotMatter(n, [], NewEpoch(true, 0));
    SameEpochs(n, []);
  }

  /** The node is not told of less than it knows to be committed. */
  ghost predicate Tellable(n: Node, told: int) {
    told == INVALID_TXID || n.vol.committed <= told
  }

  // ----- A new process -----

  /** A restart during which nothing fails only moves empty files aside, and starts anew. */
  lemma RestartTidies(n: Node)
    requires Inv(n) && VolShape(n.vol) && EpochsOk(n.w.disk) && OneFinal(n.w.disk.logs)
    ensures
      var n' := Step(n, Restart([])).0;
      Good(n') && n'.vol == FRESH && Tidied(n.w.disk, n'.w.disk)
  {
    hide Tidied, ScanDown, Scan, IsLog, RecordsOk, VolOk, ListedLogs;
    var w := World(n.w.disk, [], false);
    StepKeepsInv(n, Restart([]));
    StepKeepsOneFinal(n, Restart([]));
    StepEpochs(n, Restart([]));
    ScanStorageFrame(w);
    assert AllScannable(w.disk, Sorted(ListedLogs(w.disk))) by { ListedScannable(w.disk); }
    CalmScanSucceeds(w, Sorted(ListedLogs(w.disk)));
  }

  /** After it the promised epoch counts its requests anew from 0, and a newer one from 1. */
  lemma RestartServes(n: Node, r: RequestInfo)
    requires Inv(n) && VolShape(n.vol) && EpochsOk(n.w.disk) && OneFinal(n.w.disk.logs)
    requires r.committed == INVALID_TXID || 0 <= r.committed
    ensures InTurn(Step(n, Restart([])).0, r) <==>
              PromisedEpoch(n.w.disk) <= r.epoch && (if r.epoch == PromisedEpoch(n.w.disk) then 0 else 1) <= r.serial
  {
    hide Step, Inv, VolShape, EpochsOk, OneFinal, Tidied;
    RestartTidies(n);
    TidiedKinds(n.w.disk, Step(n, Restart([])).0.w.disk);
  }

  /** A formatted node promises every positive epoch, and names no segment. */
  lemma FormattedPromises(epoch: int)
    ensures Step(FORMATTED, Call(NewEpoch(true, epoch), [])).1 == if 0 < epoch then Promised(None) else Refused
  {
    hide DoNewEpoch, ScanStorage;
    FormattedInv();
    NewEpochIff(FORMATTED, true, epoch);
    if 0 < epoch {
      NewEpochNames(FORMATTED, true, epoch);
      assert forall s :: !HasSegment(FORMATTED.w.disk, s);
    }
  }

  // ----- A writer's recovery, from the promise to the finalized segment -----

  /** The writer knows that everything up to told is committed, if it knows of any. */
  function Recovery(epoch: int, told: int, seg: Segment, content: Bytes): seq<Event> {
    [Call(NewEpoch(true, epoch), []),
     Call(PrepareRecovery(RequestInfo(epoch, 1, told), seg.start), []),
     Call(AcceptRecovery(RequestInfo(epoch, 2, told), seg, Complete(content)), []),
     Call(FinalizeLogSegment(RequestInfo(epoch, 3, told), seg.start, seg.end), [])]
  }

  /** Where a node is after the first k events. */
  ghost function After(n: Node, evs: seq<Event>, k: nat): Node
    requires k <= |evs|
  {
    if k == 0 then n else Step(After(n, evs, k - 1), evs[k - 1]).0
  }

  ghost function ReplyTo(n: Node, evs: seq<Event>, k: nat): Reply
    requires k < |evs|
  {
    Step(After(n, evs, k), evs[k]).1
  }

  /** All four requests succeed. */
  ghost predicate GoesThrough(n: Node, evs: seq<Event>)
    requires |evs| == 4
  {
    ReplyTo(n, evs, 0).Promised? && ReplyTo(n, evs, 1).Prepared? && ReplyTo(n, evs, 2).Done? && ReplyTo(n, evs, 3).Done?
  }

  /**
   * What it takes: a finalized segment must have the wanted end and no unfinished one beside it; of any other
   * the recovery must not discard what is committed.
   */
  ghost predicate Recoverable(n: Node, told: int, seg: Segment) {
    var d := n.w.disk;
    if IsFinalized(d.logs, seg.start)
    then Finalized(seg.start, seg.end) in d.logs && !Blocked(d, seg.start)
    else Keeps(Effective(d, seg.start).log, Known(n.vol.committed, told), seg)
  }

  /**
   * Exactly from which good states a new writer's recovery goes through, whatever half-done recoveries, empty
   * files and open segments are lying about, while nothing fails: then the promise, the preparation, the
   * accepting and the finalizing all succeed, and the node ends up with the finalized segment, holding exactly
   * the agreed transactions.
   */
  lemma RecoveryIff(n: Node, epoch: int, told: int, seg: Segment, content: Bytes)
    requires Good(n) && PromisedEpoch(n.w.disk) < epoch && Tellable(n, told)
    requires Holds(content, seg.start, seg.end) && 1 <= seg.end && FirstTry(n.w.disk, seg.start, epoch)
    ensures GoesThrough(n, Recovery(epoch, told, seg, content)) <==> Recoverable(n, told, seg)
    ensures
      Recoverable(n, told, seg) ==>
        var d' := After(n, Recovery(epoch, told, seg, content), 4).w.disk;
        && Finalized(seg.start, seg.end) in d'.logs
        && Holds(d'.logs[Finalized(seg.start, seg.end)], seg.start, seg.end)
  {
    hide Step, Good, IsLog, FirstTry, Recoverable, Ready, Blocked, Recovered;
    var evs := Recovery(epoch, told, seg, content);
    var known := Known(n.vol.committed, told);
    var n1 := RecoveryPromised(n, epoch, told, seg);
    assert After(n, evs, 0) == n;
    assert After(n, evs, 1) == n1;
    var n2, prepared := RecoveryPrepared(n1, epoch, told, known, seg);
    assert After(n, evs, 2) == n2 && ReplyTo(n, evs, 1) == prepared;
    RecoverableNeeds(n1, told, seg);
    if prepared.Prepared? {
      var n3, accepted := RecoveryAccepted(n2, epoch, told, known, seg, content);
      assert After(n, evs, 3) == n3 && ReplyTo(n, evs, 2) == accepted;
      if accepted.Done? {
        RecoveryFinalized(n3, epoch, told, known, seg);
      }
    }
  }

  lemma RecoverableNeeds(n: Node, told: int, seg: Segment)
    ensures Recoverable(n, told, seg) ==> !Blocked(n.w.disk, seg.start)
  {
  }

  /** The first three requests, and the state they lead to. */
  lemma RecoveryReaches(n: Node, epoch: int, told: int, seg: Segment, content: Bytes) returns (n3: Node)
    requires Good(n) && PromisedEpoch(n.w.disk) < epoch && Tellable(n, told)
    requires Holds(content, seg.start, seg.end) && 1 <= seg.end && FirstTry(n.w.disk, seg.start, epoch)
    requires Recoverable(n, told, seg)
    ensures
      var evs := Recovery(epoch, told, seg, content);
      && n3 == After(n, evs, 3)
      && ReplyTo(n, evs, 0).Promised? && ReplyTo(n, evs, 1).Prepared? && ReplyTo(n, evs, 2).Done?
    ensures Recovered(n3, epoch, told, Known(n.vol.committed, told), seg)
    ensures !IsFinalized(n.w.disk.logs, seg.start) ==> !IsFinalized(n3.w.disk.logs, seg.start)
  {
    hide Step, Good, IsLog, FirstTry, Recoverable, Ready, Blocked, Recovered, IsFinalized;
    var evs := Recovery(epoch, told, seg, content);
    var known := Known(n.vol.committed, told);
    var n1 := RecoveryPromised(n, epoch, told, seg);
    RecoverableNeeds(n1, told, seg);
    var n2, prepared := RecoveryPrepared(n1, epoch, told, known, seg);
    var accepted;
    n3, accepted := RecoveryAccepted(n2, epoch, told, known, seg, content);
    assert After(n, evs, 0) == n;
    assert After(n, evs, 1) == n1;
    assert After(n, evs, 2) == n2;
  }

  /** The segment is still to be recovered by this epoch. */
  ghost predicate Ready(n: Node, epoch: int, told: int, known: int, seg: Segment, serial: int) {
    && Good(n) && PromisedEpoch(n.w.disk) == epoch && n.vol.serial == serial
    && Tellable(n, told) && Known(n.vol.committed, told) == known
    && FirstTry(n.w.disk, seg.start, epoch)
  }

  /** The recovery is accepted, and the segment can be finalized with its end. */
  ghost predicate Recovered(n: Node, epoch: int, told: int, known: int, seg: Segment) {
    && Good(n) && PromisedEpoch(n.w.disk) == epoch && n.vol.serial == 2 && n.vol.curSegmentTxId == INVALID_TXID
    && Tellable(n, told) && Known(n.vol.committed, told) == known
    && AcceptedHere(n.w.disk, Accepted(epoch, seg)) && Finalizable(n.w.disk, seg.start, seg.end)
  }

  lemma RecoveryPromised(n: Node, epoch: int, told: int, seg: Segment) returns (n': Node)
    requires Good(n) && PromisedEpoch(n.w.disk) < epoch && Tellable(n, told) && FirstTry(n.w.disk, seg.start, epoch)
    requires 0 <= seg.start
    ensures n' == Step(n, Call(NewEpoch(true, epoch), [])).0 && Step(n, Call(NewEpoch(true, epoch), [])).1.Promised?
    ensures Ready(n', epoch, told, Known(n.vol.committed, told), seg, 0)
    ensures Recoverable(n', told, seg) <==> Recoverable(n, told, seg)
    ensures IsFinalized(n'.w.disk.logs, seg.start) <==> IsFinalized(n.w.disk.logs, seg.start)
  {
    hide Inv, VolShape, EpochsOk, OneFinal, DoNewEpoch, Tidied, Recoverable;
    GoodStep(n, NewEpoch(true, epoch));
    var m := n.(w := n.w.(faults := []));
    CalmNewEpoch(m, epoch);
    n' := DoNewEpoch(m, true, epoch).0;
    TidiedKinds(m.w.disk.(longs := m.w.disk.longs[LastPromised := epoch]), n'.w.disk);
    PromiseKeepsRecoverable(m, epoch, told, seg);
    SameRecoverable(n, m, told, seg);
  }

  lemma SameRecoverable(n: Node, m: Node, told: int, seg: Segment)
    requires m.vol == n.vol && m.w.disk == n.w.disk
    ensures Recoverable(m, told, seg) <==> Recoverable(n, told, seg)
  {
  }

  /** Moving empty files aside does not touch what the recovery needs. */
  lemma PromiseKeepsRecoverable(n: Node, epoch: int, told: int, seg: Segment)
    requires Inv(n) && VolShape(n.vol) && Calm(n) && PromisedEpoch(n.w.disk) < epoch && 0 <= seg.start
    ensures
      var n' := DoNewEpoch(n, true, epoch).0;
      && (Recoverable(n', told, seg) <==> Recoverable(n, told, seg))
      && (IsFinalized(n'.w.disk.logs, seg.start) <==> IsFinalized(n.w.disk.logs, seg.start))
  {
    hide Scan, ScanStorage, Tidied, IsLog, RecordsOk, VolOk, Keeps, Effective;
    CalmNewEpoch(n, epoch);
    var d1, n' := n.w.disk.(longs := n.w.disk.longs[LastPromised := epoch]), DoNewEpoch(n, true, epoch).0;
    var s := seg.start;
    TidiedKinds(d1, n'.w.disk);
    FinalizedStays(d1, n'.w.disk, s);
    TidyKeepsEffective(d1, n'.w.disk, s);
    SameEffective(n.w.disk, d1, seg);
    TidyKeepsTemp(d1, n'.w.disk, s);
    if IsFinalized(n.w.disk.logs, s) {
      var e :| Finalized(s, e) in n.w.disk.logs;
      var w := AbortCurSegment(UpdatePromise(n, epoch).0).w;
      FinalizedKept(d1, n'.w.disk, s);
      if InProgress(s) in n.w.disk.logs {
        NotOnTop(w.disk, s, e);
        ScanMovesEmpty(w, s);
      }
    }
  }

  lemma TidyKeepsTemp(d: Files, d': Files, s: int)
    requires Tidied(d, d')
    ensures HalfDone(d', s) <==> HalfDone(d, s)
  {
    hide Scan;
  }

  lemma FinalizedKept(d: Files, d': Files, s: int)
    requires Tidied(d, d') && SegmentsOk(d.logs)
    ensures forall e :: Finalized(s, e) in d'.logs <==> Finalized(s, e) in d.logs
  {
    hide Scan, IsLog;
    forall e | Finalized(s, e) in d.logs
      ensures Finalized(s, e) in d'.logs
    {
      HoldsScans(d.logs[Finalized(s, e)], s, e);
    }
  }

  /** A finalized file is above an unfinished one of the same start, and not empty. */
  lemma NotOnTop(d: Files, s: int, e: int)
    requires SegmentsOk(d.logs) && Finalized(s, e) in d.logs && 0 <= s
    ensures !EmptyOnTop(d, s)
  {
    hide Scan, IsLog;
    HoldsScans(d.logs[Finalized(s, e)], s, e);
    assert Finalized(s, e) in ListedLogs(d) && Before(InProgress(s), Finalized(s, e));
    assert HasTransactions(d, Finalized(s, e));
  }

  lemma RecoveryPrepared(n: Node, epoch: int, told: int, known: int, seg: Segment) returns (n': Node, reply: Reply)
    requires Ready(n, epoch, told, known, seg, 0) && 0 <= seg.start
    ensures (n', reply) == Step(n, Call(PrepareRecovery(RequestInfo(epoch, 1, told), seg.start), []))
    ensures reply.Prepared? <==> !Blocked(n.w.disk, seg.start)
    ensures reply.Prepared? ==>
              && Ready(n', epoch, told, known, seg, 1)
              && (Recoverable(n', told, seg) <==> Recoverable(n, told, seg))
              && (IsFinalized(n'.w.disk.logs, seg.start) <==> IsFinalized(n.w.disk.logs, seg.start))
              && !HalfDone(n'.w.disk, seg.start)
              && (IsFinalized(n'.w.disk.logs, seg.start) ==> InProgress(seg.start) !in n'.w.disk.logs)
  {
    hide Inv, VolShape, EpochsOk, OneFinal, DoPrepare, Effective, Keeps, InTurn;
    var r := RequestInfo(epoch, 1, told);
    var ev := Call(PrepareRecovery(r, seg.start), []);
    assert Tellable(n, told);
    GoodStep(n, PrepareRecovery(r, seg.start));
    var m := n.(w := n.w.(faults := []));
    assert InTurn(m, r) by { InTurnAgain(m, r); }
    PrepareIff(m, r, seg.start);
    n' := DoPrepare(m, r, seg.start).0;
    reply := DoPrepare(m, r, seg.start).1;
    StepKeepsEffective(n, ev, seg.start);
    if IsFinalized(n.w.disk.logs, seg.start) {
      if !Blocked(n.w.disk, seg.start) {
        FinalizedPrepare(m, r, seg.start);
      }
    } else {
      CalmPrepare(m, r, seg.start);
    }
  }

  lemma InTurnAgain(n: Node, r: RequestInfo)
    requires PromisedEpoch(n.w.disk) == r.epoch && n.vol.serial < r.serial && Tellable(n, r.committed)
    ensures InTurn(n, r)
  {
  }

  lemma RecoveryAccepted(n: Node, epoch: int, told: int, known: int, seg: Segment, content: Bytes)
    returns (n': Node, reply: Reply)
    requires Ready(n, epoch, told, known, seg, 1) && Holds(content, seg.start, seg.end) && 1 <= seg.end
    requires !HalfDone(n.w.disk, seg.start)
    requires IsFinalized(n.w.disk.logs, seg.start) ==> InProgress(seg.start) !in n.w.disk.logs
    ensures (n', reply) == Step(n, Call(AcceptRecovery(RequestInfo(epoch, 2, told), seg, Complete(content)), []))
    ensures reply.Done? <==> Recoverable(n, told, seg)
    ensures reply.Done? ==> Recovered(n', epoch, told, known, seg)
    ensures reply.Done? && !IsFinalized(n.w.disk.logs, seg.start) ==> !IsFinalized(n'.w.disk.logs, seg.start)
  {
    hide Inv, VolShape, EpochsOk, OneFinal, DoAccept, IsLog, FirstTry, Keeps, InTurn, Scan;
    var r := RequestInfo(epoch, 2, told);
    var q := AcceptRecovery(r, seg, Complete(content));
    GoodStep(n, q);
    var m := n.(w := n.w.(faults := []));
    assert InTurn(m, r) by { InTurnAgain(m, r); }
    n' := Step(n, Call(q, [])).0;
    reply := Step(n, Call(q, [])).1;
    if IsFinalized(n.w.disk.logs, seg.start) {
      AcceptFinalizedIff(m, r, seg, content);
    } else {
      AcceptIff(m, r, seg, content);
      EffectiveInPlace(n, seg.start);
    }
    if reply.Done? {
      DoneIsAccepted(n, q, []);
      if !IsFinalized(n'.w.disk.logs, seg.start) {
        HoldsScans(n'.w.disk.logs[InProgress(seg.start)], seg.start, seg.end);
      }
    }
  }

  /** With nothing half done, the effective log is the one in place. */
  lemma EffectiveInPlace(n: Node, s: int)
    requires Inv(n) && !HalfDone(n.w.disk, s)
    ensures Effective(n.w.disk, s).log == InPlaceLog(n.w.disk.logs, s)
  {
    hide Scan, IsLog, SegmentsOk, VolOk;
    if Paxos(s) in n.w.disk.paxos {
      RecordIsBacked(n.w.disk, s);
    }
  }

  lemma RecoveryFinalized(n: Node, epoch: int, told: int, known: int, seg: Segment)
    requires Recovered(n, epoch, told, known, seg)
    ensures var (n', reply) := Step(n, Call(FinalizeLogSegment(RequestInfo(epoch, 3, told), seg.start, seg.end), []));
            reply.Done? && Finalized(seg.start, seg.end) in n'.w.disk.logs
            && Holds(n'.w.disk.logs[Finalized(seg.start, seg.end)], seg.start, seg.end)
  {
    hide VolShape, EpochsOk, OneFinal, DoFinalize, IsLog, Finalizable, VolOk, RecordsOk;
    var r := RequestInfo(epoch, 3, told);
    var q := FinalizeLogSegment(r, seg.start, seg.end);
    GoodStep(n, q);
    var m := n.(w := n.w.(faults := []));
    assert InTurn(m, r) by { InTurnAgain(m, r); }
    FinalizeIff(m, r, seg.start, seg.end);
    SameFinalizable(n.w.disk, m.w.disk, seg.start, seg.end);
  }

  lemma SameFinalizable(d: Files, d': Files, s: int, e: int)
    requires d'.logs == d.logs
    ensures Finalizable(d', s, e) <==> Finalizable(d, s, e)
  {
  }

  // ----- A writer's segment, from the promise to the finalized file -----

  /** One request's worth of transactions, and the committed txid the request carries. */
  datatype Batch = Batch(num: nat, records: Bytes, told: int)

  /** The batches hold consecutive transactions from first on, and never take back what is committed. */
  ghost predicate Follow(batches: seq<Batch>, first: int, committed: int)
    decreases |batches|
  {
    batches == [] ||
    var b := batches[0];
    && 0 <= first && IsBatch(b.records, first, b.num) && (b.told == INVALID_TXID || committed <= b.told)
    && Follow(batches[1..], first + b.num, Known(committed, b.told))
  }

  function Count(batches: seq<Batch>): nat {
    if batches == [] then 0 else batches[0].num + Count(batches[1..])
  }

  function Records(batches: seq<Batch>): Bytes {
    if batches == [] then [] else batches[0].records + Records(batches[1..])
  }

  function KnownAfter(committed: int, batches: seq<Batch>): int
    decreases |batches|
  {
    if batches == [] then committed else KnownAfter(Known(committed, batches[0].told), batches[1..])
  }

  /** Sends the batches one by one, with increasing serials; whether all of them were acknowledged. */
  ghost function Send(n: Node, epoch: int, serial: int, s: int, first: int, batches: seq<Batch>): (Node, bool)
    decreases |batches|
  {
    if batches == [] then (n, true)
    else
      var b := batches[0];
      var (n1, reply) := Step(n, Call(JournalTxns(RequestInfo(epoch, serial, b.told), s, first, b.num, b.records), []));
      var (n2, ok) := Send(n1, epoch, serial + 1, s, first + b.num, batches[1..]);
      (n2, ok && reply.Done?)
  }

  /** The writer of this epoch has segment s open, with content b, and next comes transaction next. */
  ghost predicate Writing(n: Node, epoch: int, serial: int, s: int, next: int, b: Bytes) {
    && Good(n) && PromisedEpoch(n.w.disk) == epoch && WriterEpoch(n.w.disk) == epoch && n.vol.serial == serial
    && n.vol.stream == Some(s) && n.vol.curSegmentTxId == s && n.vol.nextTxId == next
    && !IsFinalized(n.w.disk.logs, s)
    && InProgress(s) in n.w.disk.logs && n.w.disk.logs[InProgress(s)] == b
  }

  lemma {:induction false} SendSucceeds(n: Node, epoch: int, serial: int, s: int, next: int, b: Bytes,
                                        batches: seq<Batch>)
    requires Writing(n, epoch, serial, s, next, b) && 0 <= s <= next && 0 <= serial
    requires Follow(batches, next, n.vol.committed) && |b + Records(batches)| < POSITIONS
    ensures
      var (n', ok) := Send(n, epoch, serial + 1, s, next, batches);
      && ok && Writing(n', epoch, serial + |batches|, s, next + Count(batches), b + Records(batches))
      && n'.vol.committed == KnownAfter(n.vol.committed, batches)
    decreases |batches|
  {
    hide Step, Good, IsFinalized, IsBatch, Writing;
    if batches == [] {
      assert b + Records(batches) == b;
    } else {
      var batch, rest := batches[0], batches[1..];
      var n1 := OneBatch(n, epoch, serial, s, next, b, batch);
      assert (b + batch.records) + Records(rest) == b + Records(batches);
      SendSucceeds(n1, epoch, serial + 1, s, next + batch.num, b + batch.records, rest);
    }
  }

  lemma OneBatch(n: Node, epoch: int, serial: int, s: int, next: int, b: Bytes, batch: Batch) returns (n': Node)
    requires Writing(n, epoch, serial, s, next, b) && 0 <= s <= next && 0 <= serial && Tellable(n, batch.told)
    requires IsBatch(batch.records, next, batch.num) && |b + batch.records| < POSITIONS
    ensures
      var ev := Call(JournalTxns(RequestInfo(epoch, serial + 1, batch.told), s, next, batch.num, batch.records), []);
      n' == Step(n, ev).0 && Step(n, ev).1.Done?
    ensures Writing(n', epoch, serial + 1, s, next + batch.num, b + batch.records)
    ensures n'.vol.committed == Known(n.vol.committed, batch.told)
  {
    hide Inv, VolShape, EpochsOk, DoJournal, IsBatch;
    var r := RequestInfo(epoch, serial + 1, batch.told);
    GoodStep(n, JournalTxns(r, s, next, batch.num, batch.records));
    var m := n.(w := n.w.(faults := []));
    JournalIff(m, r, s, next, batch.num, batch.records);
    n' := DoJournal(m, r, s, next, batch.num, batch.records).0;
  }

  /**
   * Exactly when a new writer that has been promised its epoch can start a segment that is not finalized: it
   * is startable, or its file is empty and above everything with transactions, so that newEpoch moves it
   * aside.  Otherwise the process stops.
   */
  lemma StartAfterPromiseIff(n: Node, epoch: int, told: int, s: int, layout: int)
    returns (n1: Node, n2: Node, reply: Reply)
    requires Good(n) && PromisedEpoch(n.w.disk) < epoch && Tellable(n, told)
    requires 0 <= s && Fits(layout, 4) && !IsFinalized(n.w.disk.logs, s)
    ensures n1 == Step(n, Call(NewEpoch(true, epoch), [])).0 && Step(n, Call(NewEpoch(true, epoch), [])).1.Promised?
    ensures (n2, reply) == Step(n1, Call(StartLogSegment(RequestInfo(epoch, 1, told), s, layout), []))
    ensures reply.Done? <==> Startable(n.w.disk, s) || EmptyOnTop(n.w.disk, s)
    ensures !reply.Done? ==> reply == Aborted(SegmentHasTransactions)
    ensures reply.Done? ==>
              Writing(n2, epoch, 1, s, s, Header(layout)) && n2.vol.committed == Known(n.vol.committed, told)
  {
    hide Inv, VolShape, EpochsOk, DoNewEpoch, DoStart, Tidied, Header, Scan, EmptyOnTop;
    GoodStep(n, NewEpoch(true, epoch));
    var m := n.(w := n.w.(faults := []));
    CalmNewEpoch(m, epoch);
    n1 := DoNewEpoch(m, true, epoch).0;
    TidiedKinds(m.w.disk.(longs := m.w.disk.longs[LastPromised := epoch]), n1.w.disk);
    StartableAfter(m, epoch, s);
    var r := RequestInfo(epoch, 1, told);
    GoodStep(n1, StartLogSegment(r, s, layout));
    var m1 := n1.(w := n1.w.(faults := []));
    StartIff(m1, r, s, layout);
    n2 := Step(n1, Call(StartLogSegment(r, s, layout), [])).0;
    reply := Step(n1, Call(StartLogSegment(r, s, layout), [])).1;
  }

  lemma StartableAfter(n: Node, epoch: int, s: int)
    requires Inv(n) && Calm(n) && PromisedEpoch(n.w.disk) < epoch && 0 <= s
    ensures Startable(DoNewEpoch(n, true, epoch).0.w.disk, s) <==> Startable(n.w.disk, s) || EmptyOnTop(n.w.disk, s)
  {
    hide Scan, ScanStorage, Tidied, IsLog, EmptyOnTop;
    CalmNewEpoch(n, epoch);
    var w := AbortCurSegment(UpdatePromise(n, epoch).0).w;
    var d' := DoNewEpoch(n, true, epoch).0.w.disk;
    TidiedKinds(n.w.disk.(longs := n.w.disk.longs[LastPromised := epoch]), d');
    SameTop(n.w.disk, w.disk, s);
    if InProgress(s) in n.w.disk.logs {
      ScanMovesEmpty(w, s);
    }
  }

  lemma SameTop(d: Files, d': Files, s: int)
    requires d'.logs == d.logs
    ensures EmptyOnTop(d', s) <==> EmptyOnTop(d, s)
    ensures EmptyOnTop(d, s) ==> !Startable(d, s) || s == INVALID_TXID
  {
    hide Scan;
    assert ListedLogs(d') == ListedLogs(d);
    assert forall f :: HasTransactions(d', f) <==> HasTransactions(d, f);
  }

  lemma SegmentCloses(n: Node, epoch: int, serial: int, told: int, s: int, next: int, b: Bytes)
    requires Writing(n, epoch, serial, s, next, b) && 0 <= s < next && 0 <= serial && Tellable(n, told)
    ensures
      var (n', reply) := Step(n, Call(FinalizeLogSegment(RequestInfo(epoch, serial + 1, told), s, next - 1), []));
      && reply.Done? && Finalized(s, next - 1) in n'.w.disk.logs && n'.w.disk.logs[Finalized(s, next - 1)] == b
  {
    hide EpochsOk, OneFinal, DoFinalize, IsLog, Scan, IsFinalized, DiskOk;
    var r := RequestInfo(epoch, serial + 1, told);
    GoodStep(n, FinalizeLogSegment(r, s, next - 1));
    var m := n.(w := n.w.(faults := []));
    ScanLog(b, s, next - s);
    FinalizeIff(m, r, s, next - 1);
  }

  /**
   * A finalize with a wrong end is refused, and closes the segment; the next one, with the right end, finds it
   * by the scan.
   */
  lemma RetryFinalizes(n: Node, epoch: int, serial: int, told: int, s: int, next: int, b: Bytes, wrong: int)
    returns (n': Node)
    requires Writing(n, epoch, serial, s, next, b) && 0 <= s < next && 0 <= serial && Tellable(n, told)
    requires s <= wrong != next - 1
    ensures
      var ev := Call(FinalizeLogSegment(RequestInfo(epoch, serial + 1, told), s, wrong), []);
      n' == Step(n, ev).0 && Step(n, ev).1 == Refused && n'.vol.curSegmentTxId != s
    ensures
      var (n2, reply) := Step(n', Call(FinalizeLogSegment(RequestInfo(epoch, serial + 2, told), s, next - 1), []));
      reply.Done? && Finalized(s, next - 1) in n2.w.disk.logs && n2.w.disk.logs[Finalized(s, next - 1)] == b
  {
    hide EpochsOk, OneFinal, DoFinalize, IsLog, Scan, IsFinalized, DiskOk;
    var (r1, r2) := (RequestInfo(epoch, serial + 1, told), RequestInfo(epoch, serial + 2, told));
    ScanLog(b, s, next - s);
    GoodStep(n, FinalizeLogSegment(r1, s, wrong));
    FinalizeIff(n.(w := n.w.(faults := [])), r1, s, wrong);
    n' := Step(n, Call(FinalizeLogSegment(r1, s, wrong), [])).0;
    GoodStep(n', FinalizeLogSegment(r2, s, next - 1));
    var m' := n'.(w := n'.w.(faults := []));
    assert IsFinalized(m'.w.disk.logs, s) <==> IsFinalized(n.w.disk.logs, s);
    FinalizeIff(m', r2, s, next - 1);
  }

  lemma LayoutStays(layout: int, records: Bytes)
    requires Fits(layout, 4)
    ensures StartsWithLayout(Header(layout) + records, layout)
  {
    HeaderFields(layout);
    var b := Header(layout) + records;
    assert b[..4] == Header(layout)[..4] && b[4..8] == Header(layout)[4..8];
  }

  /**
   * From every good state a new writer can write a segment that is not finalized and that it can start: if
   * nothing fails, every request succeeds, and the node ends up with a finalized file of exactly the header
   * and the batches.
   */
  lemma WriterSucceeds(n: Node, epoch: int, told: int, s: int, layout: int, batches: seq<Batch>, toldLast: int)
    returns (n1: Node, n2: Node, n3: Node, n4: Node)
    requires Good(n) && PromisedEpoch(n.w.disk) < epoch && Tellable(n, told)
    requires 0 <= s && Fits(layout, 4) && !IsFinalized(n.w.disk.logs, s)
    requires Startable(n.w.disk, s) || EmptyOnTop(n.w.disk, s)
    requires Follow(batches, s, Known(n.vol.committed, told)) && 0 < Count(batches)
        && 8 + |Records(batches)| < POSITIONS
    requires toldLast == INVALID_TXID || KnownAfter(Known(n.vol.committed, told), batches) <= toldLast
    ensures n1 == Step(n, Call(NewEpoch(true, epoch), [])).0
    ensures Step(n, Call(NewEpoch(true, epoch), [])).1.Promised?
    ensures n2 == Step(n1, Call(StartLogSegment(RequestInfo(epoch, 1, told), s, layout), [])).0
    ensures Step(n1, Call(StartLogSegment(RequestInfo(epoch, 1, told), s, layout), [])).1.Done?
    ensures Send(n2, epoch, 2, s, s, batches) == (n3, true)
    ensures
      var ev := Call(FinalizeLogSegment(RequestInfo(epoch, 2 + |batches|, toldLast), s, s + Count(batches) - 1), []);
      n4 == Step(n3, ev).0 && Step(n3, ev).1.Done?
    ensures
      var f := Finalized(s, s + Count(batches) - 1);
      && f in n4.w.disk.logs && n4.w.disk.logs[f] == Header(layout) + Records(batches)
      && StartsWithLayout(n4.w.disk.logs[f], layout)
  {
    hide Step, Good, LogsAt, Writing, Follow, Records, Count, Header, KnownAfter, Startable, EmptyOnTop;
    var reply;
    n1, n2, reply := StartAfterPromiseIff(n, epoch, told, s, layout);
    SendSucceeds(n2, epoch, 1, s, s, Header(layout), batches);
    n3 := Send(n2, epoch, 2, s, s, batches).0;
    SegmentCloses(n3, epoch, 1 + |batches|, toldLast, s, s + Count(batches), Header(layout) + Records(batches));
    LayoutStays(layout, Records(batches));
    var last := RequestInfo(epoch, 2 + |batches|, toldLast);
    n4 := Step(n3, Call(FinalizeLogSegment(last, s, s + Count(batches) - 1), [])).0;
  }

  /**
   * Starting the open segment again before anything was written to it stops the process, although nothing
   * would be lost: an input on which the code is stricter than its comment.
   */
  lemma SecondStartStops(n: Node, epoch: int, serial: int, s: int, layout: int, told: int, again: int)
    requires Writing(n, epoch, serial, s, s, Header(layout)) && 0 <= s && 0 <= serial && Tellable(n, told)
    requires Fits(layout, 4) && Fits(again, 4)
    ensures
      var ev := Call(StartLogSegment(RequestInfo(epoch, serial + 1, told), s, again), []);
      Step(n, ev).1 == Aborted(SegmentHasTransactions)
  {
    hide EpochsOk, DoStart, IsLog, Scan, IsFinalized, DiskOk, Header;
    var r := RequestInfo(epoch, serial + 1, told);
    GoodStep(n, StartLogSegment(r, s, again));
    var m := n.(w := n.w.(faults := []));
    HeaderIsLog(layout, s);
    ScanLog(Header(layout), s, 0);
    StartIff(m, r, s, again);
  }
}
