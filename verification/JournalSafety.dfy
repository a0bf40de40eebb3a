/** The invariant of a node, kept by every event. */
module JournalSafety {
  import opened Bytes
  import opened EditLog
  import opened Disk
  import opened JournalSpec
  import opened JournalFrames
  import opened JournalInvariant
  import opened JournalMoves
  import opened JournalTrails

  // ----- Moves keep the disk in order -----

  lemma FinalizedStays(d: Files, d': Files, s: int)
    requires SegmentsOk(d.logs) && Tidied(d, d')
    ensures IsFinalized(d.logs, s) ==> IsFinalized(d'.logs, s)
  {
    hide IsLog, Scan;
    if IsFinalized(d.logs, s) {
      var e :| Finalized(s, e) in d.logs;
      HoldsScans(d.logs[Finalized(s, e)], s, e);
      assert Finalized(s, e) in d'.logs;
    }
  }

  lemma TidyKeeps(d: Files, d': Files)
    requires DiskOk(d.logs, d.paxos) && Tidied(d, d')
    ensures DiskOk(d'.logs, d'.paxos)
  {
    hide IsLog, Scan;
    forall s | Paxos(s) in d'.paxos
      ensures Backed(d'.logs, s, d'.paxos[Paxos(s)])
    {
      var a := d.paxos[Paxos(s)];
      assert Backed(d.logs, s, a);
      if SyncTemp(s, a.epoch) !in d.logs && !IsFinalized(d'.logs, s) {
        FinalizedStays(d, d', s);
        HoldsScans(d.logs[InProgress(s)], s, a.segment.end);
      }
    }
  }

  /** An accepted recovery stays backed when no file of its segment changes. */
  lemma BackedElsewhere(logs: map<LogName, Bytes>, logs': map<LogName, Bytes>, s: int, a: Accepted)
    requires Backed(logs, s, a)
    requires IsFinalized(logs, s) ==> IsFinalized(logs', s)
    requires SyncTemp(s, a.epoch) in logs <==> SyncTemp(s, a.epoch) in logs'
    requires SyncTemp(s, a.epoch) in logs ==> logs'[SyncTemp(s, a.epoch)] == logs[SyncTemp(s, a.epoch)]
    requires InProgress(s) in logs ==> InProgress(s) in logs' && logs'[InProgress(s)] == logs[InProgress(s)]
    ensures Backed(logs', s, a)
  {
  }

  lemma WriteKeeps(logs: map<LogName, Bytes>, paxos: map<PaxosName, Accepted>, s: int, b: Bytes)
    requires DiskOk(logs, paxos) && Paxos(s) !in paxos && HoldsFrom(b, s)
    ensures DiskOk(logs[InProgress(s) := b], paxos)
  {
    var logs' := logs[InProgress(s) := b];
    forall t | Paxos(t) in paxos
      ensures Backed(logs', t, paxos[Paxos(t)])
    {
      assert IsFinalized(logs, t) ==> IsFinalized(logs', t);
      BackedElsewhere(logs, logs', t, paxos[Paxos(t)]);
    }
  }

  lemma FinalizeKeeps(logs: map<LogName, Bytes>, paxos: map<PaxosName, Accepted>, s: int, e: int)
    requires DiskOk(logs, paxos) && InProgress(s) in logs && Holds(logs[InProgress(s)], s, e)
    ensures DiskOk((logs - {InProgress(s)})[Finalized(s, e) := logs[InProgress(s)]], paxos)
  {
    hide IsLog;
    var logs' := (logs - {InProgress(s)})[Finalized(s, e) := logs[InProgress(s)]];
    forall t | Paxos(t) in paxos
      ensures Backed(logs', t, paxos[Paxos(t)])
    {
      assert Backed(logs, t, paxos[Paxos(t)]);
      if t == s {
        assert Finalized(s, e) in logs' && IsFinalized(logs', s);
      } else {
        assert IsFinalized(logs, t) ==> IsFinalized(logs', t);
        BackedElsewhere(logs, logs', t, paxos[Paxos(t)]);
      }
    }
  }

  /** Deleting the target of a half-done synchronisation loses nothing: the file to come holds it all. */
  lemma DropTargetKeeps(d: Files, s: int)
    requires DiskOk(d.logs, d.paxos) && HalfDone(d, s)
    ensures DiskOk(d.logs - {InProgress(s)}, d.paxos)
  {
    var logs' := d.logs - {InProgress(s)};
    forall t | Paxos(t) in d.paxos
      ensures Backed(logs', t, d.paxos[Paxos(t)])
    {
      assert Backed(d.logs, t, d.paxos[Paxos(t)]);
      assert IsFinalized(d.logs, t) ==> IsFinalized(logs', t);
      if t != s {
        BackedElsewhere(d.logs, logs', t, d.paxos[Paxos(t)]);
      }
    }
  }

  lemma RollForwardKeeps(d: Files, s: int)
    requires DiskOk(d.logs, d.paxos) && HalfDone(d, s)
    ensures
      var tmp := SyncTemp(s, d.paxos[Paxos(s)].epoch);
      DiskOk((d.logs - {tmp})[InProgress(s) := d.logs[tmp]], d.paxos)
  {
    hide IsLog, Scan;
    var tmp := SyncTemp(s, d.paxos[Paxos(s)].epoch);
    var logs' := (d.logs - {tmp})[InProgress(s) := d.logs[tmp]];
    assert Backed(d.logs, s, d.paxos[Paxos(s)]);
    HoldsScans(d.logs[tmp], s, d.paxos[Paxos(s)].segment.end);
    forall t | Paxos(t) in d.paxos
      ensures Backed(logs', t, d.paxos[Paxos(t)])
    {
      assert IsFinalized(d.logs, t) ==> IsFinalized(logs', t);
      if t != s {
        BackedElsewhere(d.logs, logs', t, d.paxos[Paxos(t)]);
      }
    }
  }

  /** Files that no record names may come and go. */
  lemma StrayKeeps(d: Files, s: int, epoch: int, logs': map<LogName, Bytes>)
    requires DiskOk(d.logs, d.paxos)
    requires Paxos(s) in d.paxos ==> d.paxos[Paxos(s)].epoch != epoch
    requires forall f :: f != SyncTemp(s, epoch) ==> (f in logs' <==> f in d.logs)
    requires forall f :: f != SyncTemp(s, epoch) && f in d.logs ==> logs'[f] == d.logs[f]
    ensures DiskOk(logs', d.paxos)
  {
    forall t | Paxos(t) in d.paxos
      ensures Backed(logs', t, d.paxos[Paxos(t)])
    {
      assert IsFinalized(d.logs, t) ==> IsFinalized(logs', t);
      BackedElsewhere(d.logs, logs', t, d.paxos[Paxos(t)]);
    }
  }

  lemma MoveKeepsDisk(d: Files, m: Move, d': Files, c: Context)
    requires c.sound && DiskOk(d.logs, d.paxos) && Legal(d, m, d', c)
    ensures DiskOk(d'.logs, d'.paxos)
  {
    hide IsLog, IsBatch, Scan, Allowed, Backed, IsFinalized, SegmentsOk, Tidied;
    match m
    case Tidy => TidyKeeps(d, d');
    case Open(s, layout) =>
      HeaderIsLog(layout, s);
      WriteKeeps(d.logs, d.paxos, s, Header(layout));
    case Append(s, first, num, records) =>
      AppendBatch(d.logs[InProgress(s)], s, first - s, records, num);
      WriteKeeps(d.logs, d.paxos, s, d.logs[InProgress(s)] + records);
    case FinalizeAs(s, e) => FinalizeKeeps(d.logs, d.paxos, s, e);
    case DropTarget(s) => DropTargetKeeps(d, s);
    case RollForward(s) => RollForwardKeeps(d, s);
    case Fetch(s, e, b) => StrayKeeps(d, s, e, d'.logs);
    case Discard(s, e) => StrayKeeps(d, s, e, d'.logs);
    case _ =>
  }

  lemma {:induction false} TrailKeepsDisk(t: Trail, c: Context)
    requires c.sound && Valid(t, c) && DiskOk(t.d.logs, t.d.paxos)
    ensures DiskOk(Last(t).logs, Last(t).paxos)
  {
    hide DiskOk, Legal;
    if t.Via? {
      MoveKeepsDisk(t.d, t.m, t.rest.d, c);
      TrailKeepsDisk(t.rest, c);
    }
  }

  // ----- One finalized file per start -----

  lemma MoveKeepsOneFinal(d: Files, m: Move, d': Files, c: Context)
    requires SegmentsOk(d.logs) && OneFinal(d.logs) && Legal(d, m, d', c)
    ensures OneFinal(d'.logs)
  {
    hide Scan, IsLog, Allowed, Sound, Header;
    if m.FinalizeAs? {
      NoneFinal(d, m.s);
    }
  }

  lemma NoneFinal(d: Files, s: int)
    requires SegmentsOk(d.logs) && LogsAt(d, s) == {InProgress(s)}
    ensures forall e :: Finalized(s, e) !in d.logs
  {
    hide IsLog;
    assert forall e :: Finalized(s, e) in LogsAt(d, s) ==> Finalized(s, e) == InProgress(s);
  }

  lemma {:induction false} TrailKeepsOneFinal(t: Trail, c: Context)
    requires c.sound && Valid(t, c) && DiskOk(t.d.logs, t.d.paxos) && OneFinal(t.d.logs)
    ensures OneFinal(Last(t).logs)
  {
    hide OneFinal, SegmentsOk, RecordsOk, Legal;
    if t.Via? {
      MoveKeepsOneFinal(t.d, t.m, t.rest.d, c);
      MoveKeepsDisk(t.d, t.m, t.rest.d, c);
      TrailKeepsOneFinal(t.rest, c);
    }
  }

  lemma StepKeepsOneFinal(n: Node, ev: Event)
    requires Inv(n) && VolShape(n.vol) && OneFinal(n.w.disk.logs)
    requires ev.Call? ==> Admissible(n, ev.request)
    ensures OneFinal(Step(n, ev).0.w.disk.logs)
  {
    hide Step, Valid, OneFinal, SegmentsOk, RecordsOk, VolOk;
    StepTrail(n, ev, true);
    var c := Context(RequestOf(ev), true);
    var t :| Joins(t, n.w.disk, c, Step(n, ev).0.w.disk);
    TrailKeepsOneFinal(t, c);
  }

  // ----- Events keep the volatile state in order -----

  lemma CheckRequestVol(n: Node, r: RequestInfo)
    ensures
      var (n', check) := CheckRequest(n, r);
      && n'.w.disk.logs == n.w.disk.logs && n'.w.disk.paxos == n.w.disk.paxos
      && n'.vol == n.vol.(serial := n'.vol.serial, committed := n'.vol.committed)
      && (n.w.dead ==> n'.w.dead)
      && (check.Passed? && !n.w.dead ==> !n'.w.dead)
  {
  }

  lemma HandleShape(n: Node, q: Request)
    requires VolShape(n.vol)
    ensures VolShape(Handle(n, q).0.vol)
  {
    hide Scan, ScanStorage, GetSegmentInfo, GetLogFile, Perform, ReplaceFile, PersistPaxosData, CheckRequest, SyncLog,
      CompleteHalfDone, PurgePaxosDecision;
    match q
    case NewEpoch(_, _) =>
    case StartLogSegment(r, _, _) => CheckRequestVol(n, r);
    case JournalTxns(r, _, _, _, _) => CheckRequestVol(n, r);
    case FinalizeLogSegment(r, _, _) => CheckRequestVol(n, r);
    case PrepareRecovery(r, _) => CheckRequestVol(n, r);
    case AcceptRecovery(r, _, _) => CheckRequestVol(n, r);
  }

  lemma StepShape(n: Node, ev: Event)
    requires VolShape(n.vol)
    ensures VolShape(Step(n, ev).0.vol)
  {
    hide Handle, ScanStorage;
    if ev.Call? {
      HandleShape(n.(w := n.w.(faults := ev.faults)), ev.request);
    }
  }

  lemma StartVol(n: Node, q: Request)
    requires Inv(n) && !n.w.dead && q.StartLogSegment? && Honest(n, q)
    ensures var n' := Handle(n, q).0; !n'.w.dead ==> VolOk(n'.vol, n'.w.disk.logs, n'.w.disk.paxos)
  {
    hide DiskOk, Scan, GetLogFile, OpenSegment, OpenOk, CheckRequest;
    CheckRequestVol(n, q.info);
    var n1 := AbortCurSegment(CheckRequest(n, q.info).0);
    OpenSegmentVol(n1, q.info.epoch, q.txid, q.layoutVersion);
  }

  lemma OpenSegmentVol(n: Node, epoch: int, s: int, layout: int)
    requires n.vol.stream.None? && n.vol.curSegmentTxId == INVALID_TXID && 0 <= s && Fits(layout, 4)
    ensures
      var n' := OpenSegment(n, epoch, s, layout).0;
      !n'.w.dead ==> VolOk(n'.vol, n'.w.disk.logs, n'.w.disk.paxos)
  {
    hide IsLog, Header;
    HeaderIsLog(layout, s);
  }

  lemma JournalVol(n: Node, q: Request)
    requires Inv(n) && !n.w.dead && q.JournalTxns? && Honest(n, q)
    ensures var n' := Handle(n, q).0; !n'.w.dead ==> VolOk(n'.vol, n'.w.disk.logs, n'.w.disk.paxos)
  {
    hide DiskOk, IsLog, CheckRequest, IsBatch;
    CheckRequestVol(n, q.info);
    var (n1, check) := CheckWriteRequest(n, q.info);
    var s, first := q.segmentTxId, q.firstTxnId;
    if check.Passed? && n1.vol.curSegmentTxId == s && n1.vol.nextTxId == first {
      AppendBatch(n.w.disk.logs[InProgress(s)], s, first - s, q.records, q.numTxns);
    }
  }

  lemma FinalizeVol(n: Node, q: Request)
    requires Inv(n) && !n.w.dead && q.FinalizeLogSegment?
    ensures var n' := Handle(n, q).0; !n'.w.dead ==> VolOk(n'.vol, n'.w.disk.logs, n'.w.disk.paxos)
  {
    hide DiskOk, IsLog, Scan, CheckRequest, GetLogFile;
    CheckRequestVol(n, q.info);
  }

  lemma RecoveryVol(n: Node, q: Request)
    requires VolShape(n.vol) && !n.w.dead && VolOk(n.vol, n.w.disk.logs, n.w.disk.paxos)
    requires q.NewEpoch? || q.PrepareRecovery? || q.AcceptRecovery?
    ensures var n' := Handle(n, q).0; !n'.w.dead ==> VolOk(n'.vol, n'.w.disk.logs, n'.w.disk.paxos)
  {
    hide OpenOk, Scan, ScanStorage, GetSegmentInfo, ReplaceFile, PersistPaxosData, CheckRequest, SyncLog,
      CompleteHalfDone;
    if !q.NewEpoch? {
      CheckRequestVol(n, q.info);
    }
  }

  /** Every event keeps the invariant, wherever its faults and crashes fall. */
  lemma StepKeepsInv(n: Node, ev: Event)
    requires Inv(n) && VolShape(n.vol)
    requires ev.Call? ==> Admissible(n, ev.request)
    ensures Inv(Step(n, ev).0) && VolShape(Step(n, ev).0.vol)
  {
    hide DiskOk, Handle, ScanStorage, OpenOk, Honest, FirstTry;
    StepShape(n, ev);
    StepTrail(n, ev, true);
    var c := Context(RequestOf(ev), true);
    var t :| Joins(t, n.w.disk, c, Step(n, ev).0.w.disk);
    TrailKeepsDisk(t, c);
    if ev.Call? && !n.w.dead {
      var m := n.(w := n.w.(faults := ev.faults));
      assert Honest(m, ev.request) by { SameHonest(n, ev.faults, ev.request); }
      match ev.request
      case StartLogSegment(_, _, _) => StartVol(m, ev.request);
      case JournalTxns(_, _, _, _, _) => JournalVol(m, ev.request);
      case FinalizeLogSegment(_, _, _) => FinalizeVol(m, ev.request);
      case _ => RecoveryVol(m, ev.request);
    }
  }

  lemma SameHonest(n: Node, faults: seq<Fault>, q: Request)
    requires Honest(n, q)
    ensures Honest(n.(w := n.w.(faults := faults)), q)
  {
  }
}
