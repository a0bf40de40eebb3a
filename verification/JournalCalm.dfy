/** What each request does while no file operation fails. */
module JournalCalm {
  import opened Bytes
  import opened EditLog
  import opened Disk
  import opened JournalSpec
  import opened JournalFrames
  import opened JournalInvariant
  import opened JournalMoves
  import opened JournalEpochs
  import opened JournalRecovery
  import opened StorageScan

  /** The process is there, and no operation of the coming request will fail. */
  ghost predicate Calm(n: Node) { !n.w.dead && n.w.faults == [] }

  /** The request is not from before the promise, is new within its epoch, and does not take back what is committed. */
  ghost predicate InTurn(n: Node, r: RequestInfo) {
    && PromisedEpoch(n.w.disk) <= r.epoch
    && (if r.epoch > PromisedEpoch(n.w.disk) then 0 else n.vol.serial) < r.serial
    && (r.committed == INVALID_TXID || n.vol.committed <= r.committed)
  }

  /** The committed txid a node knows of after being told. */
  function Known(committed: int, told: int): int {
    if told == INVALID_TXID then committed else told
  }

  /**
   * The check lets exactly the requests pass that are in turn.  One that takes back what is committed stops the
   * process; the others that it stops are refused, and one from before the promise changes nothing at all.
   */
  lemma CalmCheckIff(n: Node, r: RequestInfo)
    requires Calm(n)
    ensures
      var (n', check) := CheckRequest(n, r);
      && (check.Passed? <==> InTurn(n, r))
      && (check == Stop(Aborted(CommittedMovesBack)) <==>
            !InTurn(n, r) && InTurn(n, r.(committed := INVALID_TXID)))
      && (!check.Passed? && check != Stop(Aborted(CommittedMovesBack)) ==> check == Stop(Refused) && !n'.w.dead)
      && (r.epoch < PromisedEpoch(n.w.disk) ==> n' == n)
      && n'.w.disk.logs == n.w.disk.logs && n'.w.disk.paxos == n.w.disk.paxos
  {
  }

  lemma CalmCheck(n: Node, r: RequestInfo)
    requires Calm(n) && InTurn(n, r)
    ensures
      var (n', check) := CheckRequest(n, r);
      && check.Passed? && Calm(n')
      && n'.vol == n.vol.(serial := r.serial, committed := Known(n.vol.committed, r.committed))
      && n'.w.disk.logs == n.w.disk.logs && n'.w.disk.paxos == n.w.disk.paxos
      && PromisedEpoch(n'.w.disk) == r.epoch && WriterEpoch(n'.w.disk) == WriterEpoch(n.w.disk)
  {
  }

  /** What a request leaves behind in the fields that every request touches. */
  ghost predicate Moved(n: Node, n': Node, r: RequestInfo) {
    && !n'.w.dead && n'.vol.serial == r.serial && n'.vol.committed == Known(n.vol.committed, r.committed)
    && PromisedEpoch(n'.w.disk) == r.epoch
  }

  lemma CalmNewEpoch(n: Node, epoch: int)
    requires Inv(n) && Calm(n) && PromisedEpoch(n.w.disk) < epoch
    ensures
      var (n', reply) := DoNewEpoch(n, true, epoch);
      && reply.Promised? && !n'.w.dead && n'.vol.serial == 0 && n'.vol.committed == n.vol.committed
      && Tidied(n.w.disk.(longs := n.w.disk.longs[LastPromised := epoch]), n'.w.disk)
  {
    hide Tidied, ScanDown, Scan, IsLog, RecordsOk, VolOk, ListedLogs;
    var n2 := AbortCurSegment(UpdatePromise(n, epoch).0);
    ScanStorageFrame(n2.w);
    assert AllScannable(n2.w.disk, Sorted(ListedLogs(n2.w.disk))) by { ListedScannable(n2.w.disk); }
    CalmScanSucceeds(n2.w, Sorted(ListedLogs(n2.w.disk)));
  }

  lemma ListedScannable(d: Files)
    requires SegmentsOk(d.logs)
    ensures AllScannable(d, Sorted(ListedLogs(d)))
  {
    hide Scan, IsLog;
    var files := Sorted(ListedLogs(d));
    forall f | f in files
      ensures f in d.logs && IsSegmentFile(f) && Scan(d.logs[f]).LastTxId?
    {
      assert f in ListedLogs(d);
      if f.InProgress? {
        ScansHold(d.logs[f], f.first);
      } else {
        HoldsScans(d.logs[f], f.first, f.last);
      }
    }
  }

  /** An unfinalized segment is looked up without error. */
  lemma CalmInfo(w: World, s: int)
    requires !w.dead && w.faults == [] && SegmentsOk(w.disk.logs) && !IsFinalized(w.disk.logs, s)
    ensures
      var (w', info) := GetSegmentInfo(w, s);
      && !info.InfoError? && !w'.dead && w'.faults == []
      && (info.Info? ==> info.segment.inProgress)
  {
    hide Scan, IsLog, ReplaceFile;
    assert forall f :: f in LogsAt(w.disk, s) ==> f == InProgress(s);
    var found := GetLogFile(w.disk, s);
    if InProgress(s) in w.disk.logs {
      assert InProgress(s) in LogsAt(w.disk, s);
      assert LogsAt(w.disk, s) == {InProgress(s)};
      assert found == OneLog(InProgress(s));
      ScansHold(w.disk.logs[InProgress(s)], s);
      CalmReplace(w, InProgress(s), Empty(InProgress(s)));
    } else {
      assert LogsAt(w.disk, s) == {};
    }
  }

  /** Looking at a file without transactions moves it aside, with what it holds, and there is no segment. */
  lemma EmptyIsMovedAside(w: World, s: int)
    requires !w.dead && w.faults == [] && !IsFinalized(w.disk.logs, s)
    requires InProgress(s) in w.disk.logs && HasNoTransactions(w.disk.logs[InProgress(s)])
    ensures
      var (w', info) := GetSegmentInfo(w, s);
      var f := InProgress(s);
      && info.NoSegment? && !w'.dead
      && w'.disk.logs == (w.disk.logs - {f})[Empty(f) := w.disk.logs[f]]
  {
    hide Scan, ReplaceFile;
    OnlyInProgress(w.disk, s);
    CalmReplace(w, InProgress(s), Empty(InProgress(s)));
  }

  /** So a preparation of a segment that was started and never written leaves nothing in its place. */
  lemma PrepareMovesEmpty(n: Node, r: RequestInfo, s: int)
    requires Inv(n) && Calm(n) && InTurn(n, r) && !IsFinalized(n.w.disk.logs, s) && Paxos(s) !in n.w.disk.paxos
    requires InProgress(s) in n.w.disk.logs && HasNoTransactions(n.w.disk.logs[InProgress(s)])
    ensures
      var (n', reply) := DoPrepare(n, r, s);
      var f := InProgress(s);
      && reply.Prepared? && reply.segment == None && reply.acceptedInEpoch == None
      && n'.w.disk.logs == (n.w.disk.logs - {f})[Empty(f) := n.w.disk.logs[f]]
  {
    hide Scan, CheckRequest, GetSegmentInfo, InTurn, DiskOk;
    CalmCheck(n, r);
    EmptyIsMovedAside(AbortCurSegment(CheckRequest(n, r).0).w, s);
  }

  lemma CalmPrepare(n: Node, r: RequestInfo, s: int)
    requires Inv(n) && VolShape(n.vol) && Calm(n) && InTurn(n, r) && 0 <= s && !IsFinalized(n.w.disk.logs, s)
    ensures
      var (n', reply) := DoPrepare(n, r, s);
      && reply.Prepared? && Moved(n, n', r)
      && reply.lastWriterEpoch == WriterEpoch(n.w.disk)
      && reply.lastCommitted == (if n'.vol.committed == INVALID_TXID then None else Some(n'.vol.committed))
      && n'.w.disk.paxos == n.w.disk.paxos && !HalfDone(n'.w.disk, s)
      && (forall f :: f in n'.w.disk.logs && !f.InProgress? && !f.Empty? ==> f in n.w.disk.logs)
  {
    hide Scan, IsLog, ReplaceFile, CheckRequest, GetSegmentInfo, RecordsOk, VolOk, Tidied, InTurn;
    CalmCheck(n, r);
    PrepareAgrees(n, r, s);
    var n1 := AbortCurSegment(CheckRequest(n, r).0);
    var previous := PersistedPaxosData(n1.w.disk, s);
    var w2 := n1.w;
    if previous.Some? {
      var a := previous.value;
      RecordIsBacked(n1.w.disk, s);
      var tmp := SyncTemp(s, a.epoch);
      if tmp in n1.w.disk.logs {
        CalmReplace(n1.w, tmp, InProgress(s));
        ReplaceFileFrame(n1.w, tmp, InProgress(s));
        assert HoldsFrom(n1.w.disk.logs[tmp], s);
      }
      w2 := CompleteHalfDone(n1.w, a).0;
    }
    CalmInfo(w2, s);
    GetSegmentInfoFrame(w2, s);
    TidiedKinds(w2.disk, GetSegmentInfo(w2, s).0.disk);
  }

  /** A finalized segment beside which an unfinished one lies, or is about to. */
  ghost predicate Blocked(d: Files, s: int) {
    IsFinalized(d.logs, s) && (InProgress(s) in d.logs || HalfDone(d, s))
  }

  lemma TwoLogs(d: Files, s: int)
    requires IsFinalized(d.logs, s) && SegmentsOk(d.logs) && InProgress(s) in d.logs
    ensures GetLogFile(d, s) == ManyLogs
  {
    hide IsLog;
    var e :| Finalized(s, e) in d.logs;
    assert InProgress(s) in LogsAt(d, s) && Finalized(s, e) in LogsAt(d, s);
  }

  lemma OnlyFinalized(d: Files, s: int) returns (e: int)
    requires IsFinalized(d.logs, s) && SegmentsOk(d.logs) && OneFinal(d.logs) && InProgress(s) !in d.logs
    ensures Finalized(s, e) in d.logs && 0 <= s <= e && GetLogFile(d, s) == OneLog(Finalized(s, e))
    ensures LogsAt(d, s) == {Finalized(s, e)}
  {
    hide IsLog;
    e :| Finalized(s, e) in d.logs;
    assert forall f :: f in LogsAt(d, s) ==> f == Finalized(s, e);
    assert Finalized(s, e) in LogsAt(d, s);
    assert LogsAt(d, s) == {Finalized(s, e)};
  }

  lemma BlockedPrepare(n: Node, r: RequestInfo, s: int)
    requires Inv(n) && VolShape(n.vol) && Calm(n) && InTurn(n, r) && 0 <= s && Blocked(n.w.disk, s)
    ensures
      var (n', reply) := DoPrepare(n, r, s);
      && reply == Refused && Moved(n, n', r) && n'.w.disk.paxos == n.w.disk.paxos
      && IsFinalized(n'.w.disk.logs, s) && InProgress(s) in n'.w.disk.logs && !HalfDone(n'.w.disk, s)
      && n'.w.disk.logs[InProgress(s)] ==
         if HalfDone(n.w.disk, s) then n.w.disk.logs[SyncTemp(s, n.w.disk.paxos[Paxos(s)].epoch)]
         else n.w.disk.logs[InProgress(s)]
  {
    hide Scan, IsLog, ReplaceFile, CheckRequest, RecordsOk, VolOk, InTurn;
    CalmCheck(n, r);
    var n1 := AbortCurSegment(CheckRequest(n, r).0);
    var e :| Finalized(s, e) in n.w.disk.logs;
    var w2 := n1.w;
    if Paxos(s) in n.w.disk.paxos {
      RecordIsBacked(n.w.disk, s);
      var a := n.w.disk.paxos[Paxos(s)];
      var tmp := SyncTemp(s, a.epoch);
      if tmp in n1.w.disk.logs {
        CalmReplace(n1.w, tmp, InProgress(s));
        ReplaceFileFrame(n1.w, tmp, InProgress(s));
        assert HoldsFrom(n1.w.disk.logs[tmp], s);
      }
      w2 := CompleteHalfDone(n1.w, a).0;
    }
    assert Finalized(s, e) in w2.disk.logs;
    TwoLogs(w2.disk, s);
  }

  lemma FinalizedPrepare(n: Node, r: RequestInfo, s: int)
    requires Inv(n) && VolShape(n.vol) && OneFinal(n.w.disk.logs) && Calm(n) && InTurn(n, r) && 0 <= s
    requires IsFinalized(n.w.disk.logs, s) && !Blocked(n.w.disk, s)
    ensures
      var (n', reply) := DoPrepare(n, r, s);
      && reply.Prepared? && Moved(n, n', r) && reply.acceptedInEpoch == None
      && reply.segment.Some? && !reply.segment.value.inProgress && reply.segment.value.start == s
      && Finalized(s, reply.segment.value.end) in n.w.disk.logs
      && reply.lastWriterEpoch == WriterEpoch(n.w.disk)
      && reply.lastCommitted == (if n'.vol.committed == INVALID_TXID then None else Some(n'.vol.committed))
      && n'.w.disk.paxos == n.w.disk.paxos && n'.w.disk.logs == n.w.disk.logs
  {
    hide Scan, IsLog, ReplaceFile, CheckRequest, RecordsOk, VolOk, InTurn;
    CalmCheck(n, r);
    var n1 := AbortCurSegment(CheckRequest(n, r).0);
    if Paxos(s) in n.w.disk.paxos {
      RecordIsBacked(n.w.disk, s);
    }
    var e := OnlyFinalized(n1.w.disk, s);
  }

  /**
   * Exactly when a preparation in turn succeeds: unless the segment is finalized and an unfinished one lies
   * beside it, or is rolled forward beside it by this very request.  Then there are two logs of one segment,
   * and the lookup is an error.
   */
  lemma PrepareIff(n: Node, r: RequestInfo, s: int)
    requires Inv(n) && VolShape(n.vol) && OneFinal(n.w.disk.logs) && Calm(n) && InTurn(n, r) && 0 <= s
    ensures
      var (n', reply) := DoPrepare(n, r, s);
      && (reply.Prepared? <==> !Blocked(n.w.disk, s))
      && (!reply.Prepared? ==> reply == Refused)
      && Moved(n, n', r) && n'.w.disk.paxos == n.w.disk.paxos && !HalfDone(n'.w.disk, s)
  {
    hide Inv, VolShape, OneFinal, DoPrepare, InTurn, Moved, HalfDone;
    if Blocked(n.w.disk, s) {
      BlockedPrepare(n, r, s);
    } else if IsFinalized(n.w.disk.logs, s) {
      FinalizedPrepare(n, r, s);
      SameHalfDone(n.w.disk, DoPrepare(n, r, s).0.w.disk, s);
    } else {
      CalmPrepare(n, r, s);
    }
  }

  lemma SameHalfDone(d: Files, d': Files, s: int)
    requires d'.logs == d.logs && d'.paxos == d.paxos
    ensures HalfDone(d', s) <==> HalfDone(d, s)
  {
  }

  lemma RecordIsBacked(d: Files, s: int)
    requires Paxos(s) in d.paxos && RecordsOk(d.logs, d.paxos)
    ensures Backed(d.logs, s, d.paxos[Paxos(s)])
  {
  }

  lemma TidiedKinds(d: Files, d': Files)
    requires Tidied(d, d')
    ensures d'.longs == d.longs && d'.paxos == d.paxos
    ensures forall f :: f in d'.logs && !f.Empty? ==> f in d.logs && d'.logs[f] == d.logs[f]
  {
  }

  lemma CalmPersist(w: World, s: int, a: Accepted)
    requires !w.dead && w.faults == []
    ensures
      var (w', ok) := PersistPaxosData(w, s, a);
      ok && !w'.dead && w'.faults == [] && w'.disk.logs == w.disk.logs && w'.disk.longs == w.disk.longs
  {
  }

  /** The log does not hold the committed txid, or the wanted segment goes at least that far. */
  ghost predicate Keeps(log: Option<Bytes>, committed: int, seg: Segment) {
    log.Some? && Scan(log.value).LastTxId? && seg.start <= committed <= Scan(log.value).txid ==>
      committed <= seg.end
  }

  /** The code's guard, between segments of one start, in txids. */
  lemma DiscardsIff(committed: int, current: Segment, seg: Segment)
    requires current.start == seg.start
    ensures DiscardsCommittedTxn(committed, current, seg) <==>
            seg.start <= committed <= current.end && seg.end < committed
  {
  }

  lemma InfoIsLog(w: World, s: int)
    requires !w.dead && w.faults == [] && SegmentsOk(w.disk.logs) && !IsFinalized(w.disk.logs, s)
    ensures
      var (info, log) := (GetSegmentInfo(w, s).1, InPlaceLog(w.disk.logs, s));
      && (info.Info? <==> log.Some?)
      && (info.Info? ==>
            && info.segment.start == s && info.segment.inProgress
            && Scan(log.value) == LastTxId(info.segment.end))
  {
    hide Scan, IsLog, ReplaceFile, GetSegmentInfo;
    CalmInfo(w, s);
    GetSegmentInfoFrame(w, s);
    InfoAt(w, s);
    if GetSegmentInfo(w, s).1.Info? {
      assert InProgress(s) in LogsAt(w.disk, s);
    }
  }

  /**
   * Exactly when a recovery with a complete download, of a segment that is not finalized, is accepted: unless
   * it would discard what is committed.
   */
  lemma AcceptIff(n: Node, r: RequestInfo, seg: Segment, content: Bytes)
    requires Inv(n) && VolShape(n.vol) && EpochsOk(n.w.disk) && Calm(n) && InTurn(n, r)
    requires 0 <= seg.start <= seg.end && 1 <= seg.end && !IsFinalized(n.w.disk.logs, seg.start)
    ensures
      var (n', reply) := DoAccept(n, r, seg, Complete(content));
      var keeps := Keeps(InPlaceLog(n.w.disk.logs, seg.start), Known(n.vol.committed, r.committed), seg);
      && (reply.Done? <==> keeps)
      && (!reply.Done? ==> reply == Aborted(DiscardsCommitted))
      && (reply.Done? ==>
            Moved(n, n', r) && n'.vol.curSegmentTxId == INVALID_TXID && !IsFinalized(n'.w.disk.logs, seg.start))
  {
    hide Scan, IsLog, ReplaceFile, CheckRequest, GetSegmentInfo, SegmentsOk, RecordsOk, VolOk, PersistPaxosData, Tidied,
      InTurn, CommitAccept, DiscardsCommittedTxn, InPlaceLog, IsFinalized, SyncLog;
    CalmCheck(n, r);
    AcceptInOrder(n, r, seg, Complete(content));
    var s := seg.start;
    var a := Accepted(r.epoch, seg);
    var n1 := AbortCurSegment(CheckRequest(n, r).0);
    CalmInfo(n1.w, s);
    InfoIsLog(n1.w, s);
    GetSegmentInfoFrame(n1.w, s);
    var (w1, current) := GetSegmentInfo(n1.w, s);
    if current.Info? {
      DiscardsIff(n1.vol.committed, current.segment, seg);
    }
    TidyFinalizes(n1.w.disk, w1.disk, s);
    CalmCommit(n1.(w := w1), a, content);
  }

  lemma TidyFinalizes(d: Files, d': Files, s: int)
    requires Tidied(d, d') && !IsFinalized(d.logs, s)
    ensures !IsFinalized(d'.logs, s) && d'.longs == d.longs && d'.paxos == d.paxos
  {
    hide Scan;
    TidiedKinds(d, d');
  }

  /** With and without a download, the record and the file get into place. */
  lemma CalmCommit(n: Node, a: Accepted, content: Bytes)
    requires Calm(n)
    ensures
      var (n', reply) := CommitAccept(n, a, false);
      reply.Done? && !n'.w.dead && n'.vol == n.vol && n'.w.disk.longs == n.w.disk.longs
      && (IsFinalized(n'.w.disk.logs, a.segment.start) ==> IsFinalized(n.w.disk.logs, a.segment.start))
    ensures
      var (w2, synced) := SyncLog(n.w, a.segment.start, a.epoch, Complete(content));
      var (n', reply) := CommitAccept(n.(w := w2), a, true);
      synced && reply.Done? && !n'.w.dead && n'.vol == n.vol && n'.w.disk.longs == n.w.disk.longs
      && (IsFinalized(n'.w.disk.logs, a.segment.start) ==> IsFinalized(n.w.disk.logs, a.segment.start))
  {
    hide ReplaceFile, PersistPaxosData;
    var s := a.segment.start;
    CalmPersist(n.w, s, a);
    var w2 := SyncLog(n.w, s, a.epoch, Complete(content)).0;
    CalmPersist(w2, s, a);
    var w3 := PersistPaxosData(w2, s, a).0;
    CalmReplace(w3, SyncTemp(s, a.epoch), InProgress(s));
    ReplaceFileFrame(w3, SyncTemp(s, a.epoch), InProgress(s));
  }

  /** A download that breaks off is refused, and what had arrived of it is removed. */
  lemma BrokenDownload(n: Node, r: RequestInfo, seg: Segment, partial: Bytes)
    requires Inv(n) && VolShape(n.vol) && EpochsOk(n.w.disk) && Calm(n) && InTurn(n, r) && 0 <= seg.start
    requires !IsFinalized(n.w.disk.logs, seg.start) && InPlaceLog(n.w.disk.logs, seg.start) == None
    requires seg.start <= seg.end && 1 <= seg.end
    ensures
      var (n', reply) := DoAccept(n, r, seg, Broken(partial));
      && reply == Refused && Moved(n, n', r) && n'.w.disk.paxos == n.w.disk.paxos
      && SyncTemp(seg.start, r.epoch) !in n'.w.disk.logs
      && forall f :: f in n'.w.disk.logs && !f.Empty? ==> f in n.w.disk.logs && n'.w.disk.logs[f] == n.w.disk.logs[f]
  {
    hide Scan, IsLog, CheckRequest, GetSegmentInfo, SegmentsOk, RecordsOk, VolOk, Tidied, InTurn, InPlaceLog,
      IsFinalized;
    CalmCheck(n, r);
    AcceptInOrder(n, r, seg, Broken(partial));
    var n1 := AbortCurSegment(CheckRequest(n, r).0);
    CalmInfo(n1.w, seg.start);
    InfoIsLog(n1.w, seg.start);
    GetSegmentInfoFrame(n1.w, seg.start);
    var w1 := GetSegmentInfo(n1.w, seg.start).0;
    TidiedKinds(n1.w.disk, w1.disk);
    BrokenSync(w1, seg.start, r.epoch, partial);
  }

  lemma BrokenSync(w: World, s: int, epoch: int, partial: Bytes)
    requires !w.dead && w.faults == []
    ensures
      var (w', ok) := SyncLog(w, s, epoch, Broken(partial));
      !ok && !w'.dead && w'.disk == w.disk.(logs := w.disk.logs - {SyncTemp(s, epoch)})
  {
    var tmp := SyncTemp(s, epoch);
    assert w.disk.logs[tmp := partial] - {tmp} == w.disk.logs - {tmp};
  }

  /** A finalized segment is accepted exactly with the end it has. */
  lemma AcceptFinalizedIff(n: Node, r: RequestInfo, seg: Segment, content: Bytes)
    requires Inv(n) && VolShape(n.vol) && EpochsOk(n.w.disk) && OneFinal(n.w.disk.logs) && Calm(n) && InTurn(n, r)
    requires 0 <= seg.start <= seg.end && 1 <= seg.end
    requires IsFinalized(n.w.disk.logs, seg.start) && InProgress(seg.start) !in n.w.disk.logs
    ensures
      var (n', reply) := DoAccept(n, r, seg, Complete(content));
      && (reply.Done? <==> Finalized(seg.start, seg.end) in n.w.disk.logs)
      && (!reply.Done? ==> reply in {Aborted(DiscardsCommitted), Aborted(SyncOverFinalized)})
      && (forall e :: Finalized(seg.start, e) in n.w.disk.logs ==>
            (reply == Aborted(DiscardsCommitted) <==>
              seg.end < Known(n.vol.committed, r.committed) <= e && seg.start <= Known(n.vol.committed, r.committed)))
      && (reply.Done? ==>
            Moved(n, n', r) && n'.vol.curSegmentTxId == INVALID_TXID && n'.w.disk.logs == n.w.disk.logs)
  {
    hide Scan, IsLog, ReplaceFile, CheckRequest, RecordsOk, VolOk, PersistPaxosData, InTurn, DiscardsCommittedTxn,
      SyncLog;
    CalmCheck(n, r);
    AcceptInOrder(n, r, seg, Complete(content));
    var n1 := AbortCurSegment(CheckRequest(n, r).0);
    var e := OnlyFinalized(n1.w.disk, seg.start);
    DiscardsIff(n1.vol.committed, Segment(seg.start, e, false), seg);
    CalmPersist(n1.w, seg.start, Accepted(r.epoch, seg));
  }

  /** With two logs of one segment the lookup is an error, which is ignored: every end is accepted. */
  lemma AcceptBesideFinalized(n: Node, r: RequestInfo, seg: Segment, content: Bytes)
    requires Inv(n) && VolShape(n.vol) && EpochsOk(n.w.disk) && Calm(n) && InTurn(n, r)
    requires 0 <= seg.start <= seg.end && 1 <= seg.end
    requires IsFinalized(n.w.disk.logs, seg.start) && InProgress(seg.start) in n.w.disk.logs
    ensures DoAccept(n, r, seg, Complete(content)).1.Done?
  {
    hide Scan, IsLog, CheckRequest, RecordsOk, VolOk, InTurn, DiscardsCommittedTxn, SyncLog, CommitAccept, IsFinalized;
    CalmCheck(n, r);
    AcceptInOrder(n, r, seg, Complete(content));
    var n1 := AbortCurSegment(CheckRequest(n, r).0);
    TwoLogs(n1.w.disk, seg.start);
    CalmCommit(n1, Accepted(r.epoch, seg), content);
  }

  /** The log that is to be finalized holds exactly up to e, or is finalized with that end already. */
  ghost predicate Finalizable(d: Files, s: int, e: int) {
    || (InProgress(s) in d.logs && Scan(d.logs[InProgress(s)]) == LastTxId(e) && !IsFinalized(d.logs, s))
    || (Finalized(s, e) in d.logs && InProgress(s) !in d.logs)
  }

  /**
   * Exactly when a finalize in turn succeeds, whether by counter or by scan, and for a repeated one, too.
   * Otherwise it is refused, except that another end of a finalized segment stops the process.
   */
  lemma FinalizeIff(n: Node, r: RequestInfo, s: int, e: int)
    requires Inv(n) && OneFinal(n.w.disk.logs) && Calm(n) && InTurn(n, r) && 0 <= s <= e
    ensures
      var (n', reply) := DoFinalize(n, r, s, e);
      && (reply.Done? <==> Finalizable(n.w.disk, s, e))
      && (!reply.Done? ==> reply in {Refused, Aborted(RefinalizedDifferently)} && n'.w.disk.logs == n.w.disk.logs)
      && (reply == Aborted(RefinalizedDifferently) <==>
            IsFinalized(n.w.disk.logs, s) && InProgress(s) !in n.w.disk.logs && Finalized(s, e) !in n.w.disk.logs)
      && (reply.Done? ==>
            && Moved(n, n', r) && Finalized(s, e) in n'.w.disk.logs && Paxos(s) !in n'.w.disk.paxos
            && n'.w.disk.logs[Finalized(s, e)] ==
               n.w.disk.logs[if InProgress(s) in n.w.disk.logs then InProgress(s) else Finalized(s, e)])
      && (reply == Refused ==> Moved(n, n', r))
      && n'.vol.curSegmentTxId == (if n.vol.curSegmentTxId == s then INVALID_TXID else n.vol.curSegmentTxId)
      && n'.vol.stream == (if n.vol.curSegmentTxId == s then None else n.vol.stream)
      && n'.vol.nextTxId == n.vol.nextTxId
  {
    hide Scan, IsLog, CheckRequest, RecordsOk, InTurn;
    CalmCheck(n, r);
    var n0 := CheckRequest(n, r).0;
    var d := n0.w.disk;
    if n.vol.curSegmentTxId == s {
      ScanLog(n.w.disk.logs[InProgress(s)], s, n.vol.nextTxId - s);
    }
    if !IsFinalized(d.logs, s) {
      OnlyInProgress(d, s);
    } else if InProgress(s) in d.logs {
      TwoLogs(d, s);
    } else {
      var f := OnlyFinalized(d, s);
    }
  }

  // ----- Starting a segment -----

  lemma CalmOpen(n: Node, epoch: int, s: int, layout: int)
    requires Calm(n) && PromisedEpoch(n.w.disk) == epoch
    ensures
      var (n', reply) := OpenSegment(n, epoch, s, layout);
      && reply.Done? && !n'.w.dead && n'.vol == n.vol.(stream := Some(s), curSegmentTxId := s, nextTxId := s)
      && PromisedEpoch(n'.w.disk) == epoch && WriterEpoch(n'.w.disk) == epoch
      && n'.w.disk.logs == n.w.disk.logs[InProgress(s) := Header(layout)]
  {
    hide Header;
  }

  /** No file of the segment, or one with its first transaction and no other. */
  ghost predicate Startable(d: Files, s: int) {
    InProgress(s) in d.logs ==> Scan(d.logs[InProgress(s)]) == LastTxId(s)
  }

  /**
   * Exactly when a segment that is not finalized can be started.  A file with the first transaction in it is
   * truncated; one with more transactions stops the process, and so does one with none at all.
   */
  lemma StartIff(n: Node, r: RequestInfo, s: int, layout: int)
    requires Inv(n) && Calm(n) && InTurn(n, r) && 0 <= s && !IsFinalized(n.w.disk.logs, s)
    ensures
      var (n', reply) := DoStart(n, r, s, layout);
      && (reply.Done? <==> Startable(n.w.disk, s))
      && (!reply.Done? ==> reply == Aborted(SegmentHasTransactions) && n'.w.disk.logs == n.w.disk.logs)
      && (reply.Done? ==>
            && Moved(n, n', r) && WriterEpoch(n'.w.disk) == r.epoch
            && n'.vol.stream == Some(s) && n'.vol.curSegmentTxId == s && n'.vol.nextTxId == s
            && n'.w.disk.logs == n.w.disk.logs[InProgress(s) := Header(layout)])
      && (reply.Done? && Fits(layout, 4) ==>
            |n'.w.disk.logs[InProgress(s)]| == 8 && StartsWithLayout(n'.w.disk.logs[InProgress(s)], layout))
  {
    hide Scan, CheckRequest, Header, OpenSegment, IsLog, RecordsOk, VolOk, InTurn;
    CalmCheck(n, r);
    var n1 := AbortCurSegment(CheckRequest(n, r).0);
    CalmOpen(n1, r.epoch, s, layout);
    OnlyInProgress(n1.w.disk, s);
    if Fits(layout, 4) {
      HeaderFields(layout);
    }
    if InProgress(s) in n.w.disk.logs {
      ScansHold(n.w.disk.logs[InProgress(s)], s);
    }
  }

  /** A finalized segment is never started again. */
  lemma StartFinalized(n: Node, r: RequestInfo, s: int, layout: int)
    requires Inv(n) && Calm(n) && InTurn(n, r) && IsFinalized(n.w.disk.logs, s) && OneFinal(n.w.disk.logs)
    ensures
      var (n', reply) := DoStart(n, r, s, layout);
      && reply == (if InProgress(s) in n.w.disk.logs then Refused else Aborted(FinalizedExists))
      && n'.w.disk.logs == n.w.disk.logs && n'.w.disk.paxos == n.w.disk.paxos
  {
    hide Scan, IsLog, CheckRequest, RecordsOk, VolOk, InTurn, IsFinalized;
    CalmCheck(n, r);
    var n1 := AbortCurSegment(CheckRequest(n, r).0);
    if InProgress(s) in n.w.disk.logs {
      TwoLogs(n1.w.disk, s);
    } else {
      var e := OnlyFinalized(n1.w.disk, s);
    }
  }

  lemma OnlyInProgress(d: Files, s: int)
    requires !IsFinalized(d.logs, s)
    ensures GetLogFile(d, s) == if InProgress(s) in d.logs then OneLog(InProgress(s)) else NoLog
  {
    assert forall f :: f in LogsAt(d, s) ==> f == InProgress(s);
    if InProgress(s) in d.logs {
      assert InProgress(s) in LogsAt(d, s);
      assert LogsAt(d, s) == {InProgress(s)};
    } else {
      assert LogsAt(d, s) == {};
    }
  }

  /**
   * Exactly when a batch in turn is acknowledged: it comes from the writer of the segments, is for the open one
   * and follows what was written.  A batch for another segment closes the open one, any other that is refused
   * changes nothing that is written; and nothing but the file of the segment ever changes.
   */
  lemma JournalIff(n: Node, r: RequestInfo, s: int, first: int, num: int, records: Bytes)
    requires Inv(n) && Calm(n) && InTurn(n, r) && 0 <= s
    ensures
      var (n', reply) := DoJournal(n, r, s, first, num, records);
      var writes := WriterEpoch(n.w.disk) == r.epoch;
      && (reply.Done? <==> writes && n.vol.curSegmentTxId == s && n.vol.nextTxId == first)
      && (!reply.Done? ==> reply == Refused && n'.w.disk.logs == n.w.disk.logs)
      && Moved(n, n', r) && n'.w.disk.paxos == n.w.disk.paxos && WriterEpoch(n'.w.disk) == WriterEpoch(n.w.disk)
      && n'.vol.nextTxId == (if reply.Done? then first + num else n.vol.nextTxId)
      && (if writes && n.vol.curSegmentTxId != s
          then n'.vol.curSegmentTxId == INVALID_TXID && n'.vol.stream == None
          else n'.vol.curSegmentTxId == n.vol.curSegmentTxId && n'.vol.stream == n.vol.stream)
      && (reply.Done? ==>
            InProgress(s) in n.w.disk.logs
            && n'.w.disk.logs == n.w.disk.logs[InProgress(s) := n.w.disk.logs[InProgress(s)] + records])
  {
    hide CheckRequest, InTurn, IsLog, DiskOk;
    CalmCheck(n, r);
  }

  // ----- What newEpoch does to a file that was started and never written -----

  /** An empty file of s, above which nothing has a transaction in it. */
  ghost predicate EmptyOnTop(d: Files, s: int) {
    && InProgress(s) in d.logs && HasNoTransactions(d.logs[InProgress(s)])
    && forall f :: f in ListedLogs(d) && Before(InProgress(s), f) ==> !HasTransactions(d, f)
  }

  /** The scan moves the file of s aside exactly if it is such a file. */
  lemma ScanMovesEmpty(w: World, s: int)
    requires !ScanStorage(w).1.ScanError? && InProgress(s) in w.disk.logs && 0 <= s
    ensures InProgress(s) in ScanStorage(w).0.disk.logs <==> !EmptyOnTop(w.disk, s)
  {
    hide Scan, ScanStorage, ScanDown;
    var files, k := ScanFindsLatest(w);
    var f := InProgress(s);
    assert f in ListedLogs(w.disk);
    assert f in files;
    var i :| 0 <= i < |files| && files[i] == f;
    if k >= 0 {
      assert files[k] in files;
      assert i <= k ==> i == k || Before(f, files[k]);
    }
    if i > k {
      assert f in Above(files, k);
      forall g | g in ListedLogs(w.disk) && Before(f, g)
        ensures !HasTransactions(w.disk, g)
      {
        assert g in files;
        var j :| 0 <= j < |files| && files[j] == g;
      }
    } else {
      assert f !in Above(files, k);
    }
  }
}
