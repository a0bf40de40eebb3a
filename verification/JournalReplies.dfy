/** What the answers to a new writer say about the node, whatever fails on the way. */
module JournalReplies {
  import opened Bytes
  import opened EditLog
  import opened Disk
  import opened JournalSpec
  import opened JournalFrames
  import opened JournalInvariant
  import opened JournalMoves
  import opened JournalSafety
  import opened JournalEpochs
  import opened JournalRecovery
  import opened JournalCalm
  import opened StorageScan

  // ----- newEpoch -----

  /** The node has a segment file of this start with a transaction in it. */
  ghost predicate HasSegment(d: Files, s: int) {
    exists f :: f in d.logs && (f.InProgress? || f.Finalized?) && f.first == s && HasTransactions(d, f)
  }

  /** The last of the starts of which there are transactions. */
  ghost predicate IsLatestStart(d: Files, x: Option<int>) {
    if x.None? then forall s :: !HasSegment(d, s)
    else HasSegment(d, x.value) && forall s :: HasSegment(d, s) ==> s <= x.value
  }

  lemma SegmentIsListed(d: Files, s: int) returns (f: LogName)
    requires SegmentsOk(d.logs) && HasSegment(d, s)
    ensures f in ListedLogs(d) && f.first == s && HasTransactions(d, f)
  {
    hide Scan, IsLog;
    f :| f in d.logs && (f.InProgress? || f.Finalized?) && f.first == s && HasTransactions(d, f);
  }

  /** What a scan without error finds is the latest start. */
  lemma ScanNamesLatest(w: World)
    requires SegmentsOk(w.disk.logs) && !ScanStorage(w).1.ScanError?
    ensures
      var found := ScanStorage(w).1;
      IsLatestStart(w.disk, if found.Latest? then Some(found.first) else None)
  {
    hide Scan, ScanStorage, ListedLogs, SegmentsOk, HasTransactions;
    var files, k := ScanFindsLatest(w);
    forall s | HasSegment(w.disk, s)
      ensures 0 <= k && s <= files[k].first
    {
      var f := SegmentIsListed(w.disk, s);
      TopIsAtOrPast(w.disk, files, k, f);
    }
    if 0 <= k {
      assert files[k] in files;
      TopIsSegment(w.disk, files, k);
    }
  }

  lemma TopIsAtOrPast(d: Files, files: seq<LogName>, k: int, f: LogName)
    requires SortedNames(files) && IsTop(d, files, k) && f in files && HasTransactions(d, f)
    ensures 0 <= k && f.first <= files[k].first
  {
    hide Scan;
    var i :| 0 <= i < |files| && files[i] == f;
    assert i <= k;
    assert i < k ==> Before(files[i], files[k]);
  }

  lemma TopIsSegment(d: Files, files: seq<LogName>, k: int)
    requires SortedNames(files) && IsTop(d, files, k) && 0 <= k
    ensures HasSegment(d, files[k].first)
  {
    hide Scan;
    assert IsSegmentFile(files[k]);
  }

  lemma SameSegments(d: Files, d': Files, x: Option<int>)
    requires d'.logs == d.logs
    ensures IsLatestStart(d', x) <==> IsLatestStart(d, x)
  {
    hide Scan;
    assert forall f :: HasTransactions(d', f) <==> HasTransactions(d, f);
    assert forall s :: HasSegment(d', s) <==> HasSegment(d, s);
  }

  /**
   * A successful newEpoch names the start of the node's latest segment with a transaction in it, and nothing
   * only if there is none.  From then on the node writes to no segment.
   */
  lemma NewEpochNames(n: Node, same: bool, epoch: int)
    requires Inv(n) && !n.w.dead && DoNewEpoch(n, same, epoch).1.Promised?
    ensures
      var (n', reply) := DoNewEpoch(n, same, epoch);
      && same && PromisedEpoch(n.w.disk) < epoch == PromisedEpoch(n'.w.disk)
      && IsLatestStart(n.w.disk, reply.lastSegment)
      && n'.vol == Vol(None, INVALID_TXID, n.vol.nextTxId, 0, n.vol.committed)
  {
    hide Scan, ScanStorage, SegmentsOk, RecordsOk, IsLatestStart, Tidied;
    var w := AbortCurSegment(UpdatePromise(n, epoch).0).w;
    ScanNamesLatest(w);
    ScanStorageFrame(w);
    TidiedKinds(w.disk, ScanStorage(w).0.disk);
    var found := ScanStorage(w).1;
    SameSegments(n.w.disk, w.disk, if found.Latest? then Some(found.first) else None);
  }

  /** While nothing fails, exactly a newer epoch of the same namespace is promised; others change nothing. */
  lemma NewEpochIff(n: Node, same: bool, epoch: int)
    requires Inv(n) && Calm(n)
    ensures
      var (n', reply) := DoNewEpoch(n, same, epoch);
      && (reply.Promised? <==> same && PromisedEpoch(n.w.disk) < epoch)
      && (!reply.Promised? ==> reply == Refused && n' == n)
      && !n'.w.dead
  {
    hide ScanStorage;
    if same && PromisedEpoch(n.w.disk) < epoch {
      CalmNewEpoch(n, epoch);
    }
  }

  // ----- prepareRecovery -----

  /** The half-done synchronisation of the record in place, if there is one, has been completed. */
  ghost function Rolled(d: Files, s: int): Files {
    if HalfDone(d, s) then
      var tmp := SyncTemp(s, d.paxos[Paxos(s)].epoch);
      d.(logs := (d.logs - {tmp})[InProgress(s) := d.logs[tmp]])
    else d
  }

  lemma RollsForward(w: World, s: int)
    requires RecordsOk(w.disk.logs, w.disk.paxos) && Paxos(s) in w.disk.paxos
    ensures
      var (w', ok) := CompleteHalfDone(w, w.disk.paxos[Paxos(s)]);
      && w.disk.paxos[Paxos(s)].segment.start == s
      && (ok ==> w'.disk == Rolled(w.disk, s))
  {
    hide IsLog, ReplaceFile;
    var a := w.disk.paxos[Paxos(s)];
    RecordIsBacked(w.disk, s);
    ReplaceFileFrame(w, SyncTemp(s, a.epoch), InProgress(s));
  }

  lemma SameRolled(d: Files, d': Files, s: int)
    requires d'.logs == d.logs && d'.paxos == d.paxos
    ensures Rolled(d', s).logs == Rolled(d, s).logs
    ensures Rolled(d', s).paxos == d.paxos && Rolled(d', s).longs == d'.longs
    ensures Paxos(s) !in d.paxos ==> Rolled(d', s) == d'
  {
  }

  /** The steps of a preparation that was answered. */
  lemma PreparedSteps(n: Node, r: RequestInfo, s: int) returns (w2: World)
    requires Inv(n) && !n.w.dead && DoPrepare(n, r, s).1.Prepared?
    ensures
      var (n', reply) := DoPrepare(n, r, s);
      var (w3, info) := GetSegmentInfo(w2, s);
      && w2.disk.logs == Rolled(n.w.disk, s).logs && w2.disk.paxos == n.w.disk.paxos
      && WriterEpoch(w2.disk) == WriterEpoch(n.w.disk)
      && n'.w == w3 && !info.InfoError?
      && n'.vol.stream == None && n'.vol.curSegmentTxId == INVALID_TXID
      && reply.lastWriterEpoch == WriterEpoch(w3.disk)
      && reply.lastCommitted == (if n'.vol.committed == INVALID_TXID then None else Some(n'.vol.committed))
      && (if Paxos(s) in n.w.disk.paxos && !(info.Info? && !info.segment.inProgress)
          then
            && reply.acceptedInEpoch == Some(n.w.disk.paxos[Paxos(s)].epoch)
            && reply.segment == Some(n.w.disk.paxos[Paxos(s)].segment)
          else reply.acceptedInEpoch == None && reply.segment == if info.Info? then Some(info.segment) else None)
  {
    hide Scan, CompleteHalfDone, CheckRequest, GetSegmentInfo, SegmentsOk, RecordsOk, OpenOk, Rolled, HalfDone;
    CheckRequestVol(n, r);
    CheckedEpoch(n, r);
    CheckAborts(n, r);
    var n1 := AbortCurSegment(CheckRequest(n, r).0);
    w2 := n1.w;
    SameRolled(n.w.disk, n1.w.disk, s);
    if Paxos(s) in n1.w.disk.paxos {
      RollsForward(n1.w, s);
      w2 := CompleteHalfDone(n1.w, n1.w.disk.paxos[Paxos(s)]).0;
    }
  }

  /** Once it is rolled forward, the log in place is the effective one. */
  lemma RolledView(d: Files, s: int)
    requires DiskOk(d.logs, d.paxos) && !IsFinalized(d.logs, s) && 0 <= s
    ensures
      var (d2, view) := (Rolled(d, s), Effective(d, s));
      && SegmentsOk(d2.logs) && !IsFinalized(d2.logs, s) && !HalfDone(d2, s)
      && Effective(d2, s) == view && InPlaceLog(d2.logs, s) == view.log
      && (view.record.Some? ==> view.log.Some? && Holds(view.log.value, s, view.record.value.segment.end))
  {
    hide Scan, IsLog;
    if Paxos(s) in d.paxos {
      RecordIsBacked(d, s);
      var a := d.paxos[Paxos(s)];
      if HalfDone(d, s) {
        HoldsScans(d.logs[SyncTemp(s, a.epoch)], s, a.segment.end);
      } else {
        HoldsScans(d.logs[InProgress(s)], s, a.segment.end);
      }
    }
  }

  /** An answered lookup of a segment that is not finalized describes the log in place, and leaves it there. */
  lemma InfoSays(w: World, s: int)
    requires SegmentsOk(w.disk.logs) && !IsFinalized(w.disk.logs, s) && !GetSegmentInfo(w, s).1.InfoError?
    ensures
      var (w', info) := GetSegmentInfo(w, s);
      var log := InPlaceLog(w.disk.logs, s);
      && (info.Info? <==> log.Some?)
      && (info.Info? ==>
            && info.segment.start == s && info.segment.inProgress && Holds(log.value, s, info.segment.end)
            && InProgress(s) in w'.disk.logs && w'.disk.logs[InProgress(s)] == log.value)
  {
    hide Scan, IsLog, ReplaceFile, GetSegmentInfo;
    GetSegmentInfoFrame(w, s);
    InfoAt(w, s);
    OnlyInProgress(w.disk, s);
    if InProgress(s) in w.disk.logs {
      ScansHold(w.disk.logs[InProgress(s)], s);
    }
    if GetSegmentInfo(w, s).1.Info? {
      assert InProgress(s) in LogsAt(w.disk, s);
    }
  }

  /**
   * An answered preparation of a segment that is not finalized reports exactly what the segment stands for: its
   * log as recovery completes it, with exactly the transactions of the segment in the answer, nothing only if
   * there is none, and the accepted record.  And it leaves exactly this in place, with nothing half done.
   */
  lemma PreparedSays(n: Node, r: RequestInfo, s: int)
    requires Inv(n) && !n.w.dead && 0 <= s && !IsFinalized(n.w.disk.logs, s) && DoPrepare(n, r, s).1.Prepared?
    ensures
      var (n', reply) := DoPrepare(n, r, s);
      var view := Effective(n.w.disk, s);
      && reply.acceptedInEpoch == (if view.record.Some? then Some(view.record.value.epoch) else None)
      && (reply.segment.Some? <==> view.log.Some?)
      && (reply.segment.Some? ==>
            && reply.segment.value.start == s && Holds(view.log.value, s, reply.segment.value.end)
            && InProgress(s) in n'.w.disk.logs && n'.w.disk.logs[InProgress(s)] == view.log.value)
      && (view.record.Some? ==> reply.segment == Some(view.record.value.segment))
      && (view.record.None? && reply.segment.Some? ==> reply.segment.value.inProgress)
      && Effective(n'.w.disk, s) == view && !HalfDone(n'.w.disk, s)
      && n'.vol.stream == None && n'.vol.curSegmentTxId == INVALID_TXID
  {
    hide Scan, IsLog, DoPrepare, GetSegmentInfo, Rolled, SegmentsOk, RecordsOk, VolOk, Tidied, InPlaceLog, LogUnder,
      IsFinalized;
    var w2 := PreparedSteps(n, r, s);
    RolledView(n.w.disk, s);
    SameRolled(n.w.disk, n.w.disk, s);
    SameView(Rolled(n.w.disk, s), w2.disk, s);
    InfoSays(w2, s);
    GetSegmentInfoFrame(w2, s);
    TidyEffective(w2.disk, GetSegmentInfo(w2, s).0.disk, s);
    StaysDone(w2.disk, GetSegmentInfo(w2, s).0.disk, s);
    if Paxos(s) in n.w.disk.paxos {
      RecordIsBacked(n.w.disk, s);
    }
  }

  lemma SameView(d: Files, d': Files, s: int)
    requires d'.logs == d.logs && d'.paxos == d.paxos
    ensures Effective(d', s) == Effective(d, s) && (HalfDone(d', s) <==> HalfDone(d, s))
  {
  }

  lemma StaysDone(d: Files, d': Files, s: int)
    requires Tidied(d, d') && !HalfDone(d, s)
    ensures !HalfDone(d', s)
  {
    hide Scan;
  }

  /** Of a finalized segment it reports the end it is finalized with, and no accepted record. */
  lemma PreparedSaysFinalized(n: Node, r: RequestInfo, s: int)
    requires Inv(n) && !n.w.dead && 0 <= s && IsFinalized(n.w.disk.logs, s) && DoPrepare(n, r, s).1.Prepared?
    ensures
      var (n', reply) := DoPrepare(n, r, s);
      && reply.acceptedInEpoch == None && reply.segment.Some?
      && reply.segment.value.start == s && !reply.segment.value.inProgress
      && Finalized(s, reply.segment.value.end) in n.w.disk.logs
      && Holds(n.w.disk.logs[Finalized(s, reply.segment.value.end)], s, reply.segment.value.end)
      && InProgress(s) !in n.w.disk.logs
      && (forall e :: Finalized(s, e) in n.w.disk.logs ==> e == reply.segment.value.end)
      && n'.vol.stream == None && n'.vol.curSegmentTxId == INVALID_TXID
  {
    hide Scan, IsLog, DoPrepare, GetSegmentInfo, RecordsOk, VolOk, Tidied;
    var w2 := PreparedSteps(n, r, s);
    assert forall e :: Finalized(s, e) in n.w.disk.logs ==> Finalized(s, e) in w2.disk.logs;
    assert InProgress(s) in n.w.disk.logs ==> InProgress(s) in w2.disk.logs;
    InfoAt(w2, s);
    GetSegmentInfoFrame(w2, s);
    var e :| Finalized(s, e) in n.w.disk.logs;
    assert GetSegmentInfo(w2, s).1 == Info(Segment(s, e, false));
    assert InProgress(s) in w2.disk.logs ==> InProgress(s) in LogsAt(w2.disk, s);
  }

  /** Whoever prepares is told who wrote last, and what the node knows to be committed. */
  lemma PreparedTells(n: Node, r: RequestInfo, s: int)
    requires Inv(n) && !n.w.dead && DoPrepare(n, r, s).1.Prepared?
    ensures
      var (n', reply) := DoPrepare(n, r, s);
      && reply.lastWriterEpoch == WriterEpoch(n.w.disk)
      && reply.lastCommitted == (if n'.vol.committed == INVALID_TXID then None else Some(n'.vol.committed))
  {
    hide DoPrepare, GetSegmentInfo, Tidied, Inv;
    var w2 := PreparedSteps(n, r, s);
    GetSegmentInfoFrame(w2, s);
    TidiedKinds(w2.disk, GetSegmentInfo(w2, s).0.disk);
  }

  // ----- startLogSegment and finalizeLogSegment -----

  /** A segment has been opened for this epoch, with a file of just the header and no accepted record. */
  ghost predicate Opened(n: Node, epoch: int, s: int, layout: int) {
    && InProgress(s) in n.w.disk.logs && |n.w.disk.logs[InProgress(s)]| == 8
    && StartsWithLayout(n.w.disk.logs[InProgress(s)], layout)
    && Paxos(s) !in n.w.disk.paxos && WriterEpoch(n.w.disk) == epoch == PromisedEpoch(n.w.disk)
    && n.vol.stream == Some(s) && n.vol.curSegmentTxId == s && n.vol.nextTxId == s
  }

  lemma OpenedMeans(n: Node, epoch: int, s: int, layout: int)
    requires Fits(layout, 4) && PromisedEpoch(n.w.disk) == epoch && OpenSegment(n, epoch, s, layout).1.Done?
    ensures Opened(OpenSegment(n, epoch, s, layout).0, epoch, s, layout)
  {
    hide Header, StartsWithLayout;
    HeaderFields(layout);
  }

  /** A start that succeeded has done this, whatever failed before. */
  lemma StartedMeans(n: Node, r: RequestInfo, s: int, layout: int)
    requires !n.w.dead && Fits(layout, 4) && DoStart(n, r, s, layout).1.Done?
    ensures Opened(DoStart(n, r, s, layout).0, r.epoch, s, layout)
  {
    hide Scan, CheckRequest, OpenSegment, Opened;
    CheckedEpoch(n, r);
    CheckAborts(n, r);
    OpenedMeans(AbortCurSegment(CheckRequest(n, r).0), r.epoch, s, layout);
  }

  lemma PurgedMeans(n: Node, s: int)
    ensures
      var (n', reply) := PurgeFinalized(n, s);
      n'.vol == n.vol && n'.w.disk.logs == n.w.disk.logs && (reply.Done? ==> Paxos(s) !in n'.w.disk.paxos)
  {
  }

  /** A finalize that succeeded left the finalized file with exactly its transactions, and no accepted record. */
  lemma FinalizedMeans(n: Node, r: RequestInfo, s: int, e: int, faults: seq<Fault>)
    requires Inv(n) && VolShape(n.vol) && 0 <= s <= e
    requires Step(n, Call(FinalizeLogSegment(r, s, e), faults)).1.Done?
    ensures
      var n' := Step(n, Call(FinalizeLogSegment(r, s, e), faults)).0;
      && Finalized(s, e) in n'.w.disk.logs && Holds(n'.w.disk.logs[Finalized(s, e)], s, e)
      && Paxos(s) !in n'.w.disk.paxos && n'.vol.curSegmentTxId != s
  {
    hide DoFinalize, IsLog, SegmentsOk, RecordsOk, VolOk;
    FinalizeDone(n.(w := n.w.(faults := faults)), r, s, e);
    StepKeepsInv(n, Call(FinalizeLogSegment(r, s, e), faults));
    FileHolds(Step(n, Call(FinalizeLogSegment(r, s, e), faults)).0.w.disk.logs, s, e);
  }

  lemma FileHolds(logs: map<LogName, Bytes>, s: int, e: int)
    requires SegmentsOk(logs) && Finalized(s, e) in logs
    ensures Holds(logs[Finalized(s, e)], s, e)
  {
  }

  lemma FinalizeDone(n: Node, r: RequestInfo, s: int, e: int)
    requires VolShape(n.vol) && 0 <= s && DoFinalize(n, r, s, e).1.Done?
    ensures
      var n' := DoFinalize(n, r, s, e).0;
      && Finalized(s, e) in n'.w.disk.logs && Paxos(s) !in n'.w.disk.paxos && n'.vol.curSegmentTxId != s
  {
    hide Scan, CheckRequest, PurgeFinalized, Perform;
    CheckAborts(n, r);
    CheckRequestVol(n, r);
    var n0 := CheckRequest(n, r).0;
    var n1 := if s == n0.vol.curSegmentTxId then AbortCurSegment(n0) else n0;
    var (w2, renamed) := Perform(n1.w, RenameLog(InProgress(s), Finalized(s, e)));
    PerformedRename(n1.w, InProgress(s), Finalized(s, e));
    PurgedMeans(n1, s);
    PurgedMeans(n1.(w := w2), s);
    var found := GetLogFile(n1.w.disk, s);
    assert found.OneLog? ==> found.name in LogsAt(n1.w.disk, s);
  }

  lemma PerformedRename(w: World, f: LogName, target: LogName)
    ensures
      var (w', ok) := Perform(w, RenameLog(f, target));
      ok ==> target in w'.disk.logs
  {
  }
}
