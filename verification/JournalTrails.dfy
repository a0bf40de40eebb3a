/** Every request makes only the moves it is allowed, and in admissible runs only sound ones. */
module JournalTrails {
  import opened Bytes
  import opened EditLog
  import opened Disk
  import opened JournalSpec
  import opened JournalFrames
  import opened JournalInvariant
  import opened JournalMoves

  lemma CheckRequestFrame(n: Node, r: RequestInfo, c: Context)
    requires !n.w.dead && c.request.Some? && Allowed(c.request.value, RaisePromise(r.epoch))
    ensures
      var (n', check) := CheckRequest(n, r);
      && Reaches(n.w.disk, c, n'.w.disk)
      && n'.w.disk.logs == n.w.disk.logs && n'.w.disk.paxos == n.w.disk.paxos
      && n'.vol == n.vol.(serial := n'.vol.serial, committed := n'.vol.committed)
      && (check.Passed? ==> !n'.w.dead && PromisedEpoch(n'.w.disk) == r.epoch)
  {
    hide Allowed, Reaches;
    Stay(n.w.disk, c);
    if r.epoch > PromisedEpoch(n.w.disk) {
      PerformReaches(n.w, WriteLong(LastPromised, r.epoch), RaisePromise(r.epoch), c);
    }
  }

  /** What follows the check of a request is a trail too. */
  ghost predicate FromChecked(n: Node, r: RequestInfo, c: Context, d': Files) {
    Reaches(CheckRequest(n, r).0.w.disk, c, d')
  }

  lemma TidyReaches(d: Files, d': Files, c: Context)
    requires Tidied(d, d') && (c.request.Some? ==> Allowed(c.request.value, Tidy))
    ensures Reaches(d, c, d')
  {
    OneMove(d, Tidy, d', c);
  }

  lemma NewEpochTrail(n: Node, same: bool, epoch: int, c: Context)
    requires !n.w.dead && c.request == Some(NewEpoch(same, epoch))
    ensures Reaches(n.w.disk, c, DoNewEpoch(n, same, epoch).0.w.disk)
  {
    hide Reaches, Tidied;
    Stay(n.w.disk, c);
    if same && epoch > PromisedEpoch(n.w.disk) {
      PerformReaches(n.w, WriteLong(LastPromised, epoch), RaisePromise(epoch), c);
      var (n1, ok) := UpdatePromise(n, epoch);
      if ok {
        var w2 := AbortCurSegment(n1).w;
        ScanStorageFrame(w2);
        TidyReaches(w2.disk, ScanStorage(w2).0.disk, c);
        Then(n.w.disk, c, w2.disk, ScanStorage(w2).0.disk);
      }
    }
  }

  lemma OpenSegmentTrail(n: Node, epoch: int, s: int, layout: int, c: Context)
    requires c.request.Some? && c.request.value.StartLogSegment?
    requires c.request.value.info.epoch == epoch && c.request.value.txid == s && c.request.value.layoutVersion == layout
    requires epoch == PromisedEpoch(n.w.disk) && LogsAt(n.w.disk, s) <= {InProgress(s)}
    requires InProgress(s) in n.w.disk.logs ==> Scan(n.w.disk.logs[InProgress(s)]) == LastTxId(s)
    requires c.sound ==> 0 <= s && Fits(layout, 4)
    ensures Reaches(n.w.disk, c, OpenSegment(n, epoch, s, layout).0.w.disk)
  {
    hide Reaches, Scan, Header, PurgePaxosDecision;
    Stay(n.w.disk, c);
    PerformReaches(n.w, WriteLong(LastWriter, epoch), TakeOver(epoch), c);
    var (w1, wrote) := if WriterEpoch(n.w.disk) == epoch then (n.w, true)
                       else Perform(n.w, WriteLong(LastWriter, epoch));
    if wrote {
      PurgeTrail(w1, s, c);
      var (w2, purged) := PurgePaxosDecision(w1, s);
      Then(n.w.disk, c, w1.disk, w2.disk);
      if purged {
        var op := WriteLog(InProgress(s), Header(layout));
        PerformReaches(w2, op, Open(s, layout), c);
        Then(n.w.disk, c, w2.disk, Perform(w2, op).0.disk);
      }
    }
  }

  lemma PurgeTrail(w: World, s: int, c: Context)
    requires c.request.Some? && Allowed(c.request.value, Purge(s))
    ensures Reaches(w.disk, c, PurgePaxosDecision(w, s).0.disk)
    ensures PurgePaxosDecision(w, s).0.disk.logs == w.disk.logs
    ensures PurgePaxosDecision(w, s).0.disk.longs == w.disk.longs
    ensures PurgePaxosDecision(w, s).0.disk.paxos in {w.disk.paxos, w.disk.paxos - {Paxos(s)}}
    ensures PurgePaxosDecision(w, s).1 ==> Paxos(s) !in PurgePaxosDecision(w, s).0.disk.paxos
  {
    hide Allowed, Reaches;
    Stay(w.disk, c);
    PerformReaches(w, DeletePaxos(Paxos(s)), Purge(s), c);
  }

  lemma StartTrail(n: Node, r: RequestInfo, s: int, layout: int, c: Context)
    requires !n.w.dead && c.request == Some(StartLogSegment(r, s, layout))
    requires c.sound ==> Honest(n, c.request.value)
    ensures FromChecked(n, r, c, DoStart(n, r, s, layout).0.w.disk)
  {
    hide Reaches, Scan;
    CheckRequestFrame(n, r, c);
    var (n0, check) := CheckRequest(n, r);
    Stay(n0.w.disk, c);
    if check.Passed? {
      var n1 := AbortCurSegment(n0);
      var d := n1.w.disk;
      var found := GetLogFile(d, s);
      if || found.NoLog?
         || (found == OneLog(InProgress(s)) && InProgress(s) in d.logs && Scan(d.logs[InProgress(s)]) == LastTxId(s))
      {
        assert InProgress(s) in d.logs ==> InProgress(s) in LogsAt(d, s);
        OpenSegmentTrail(n1, r.epoch, s, layout, c);
      } else if found.OneLog? {
        assert found.name in LogsAt(d, s);
      }
    }
  }

  lemma JournalTrail(n: Node, r: RequestInfo, s: int, first: int, num: int, records: Bytes, c: Context)
    requires !n.w.dead && VolShape(n.vol) && c.request == Some(JournalTxns(r, s, first, num, records))
    requires c.sound ==> Inv(n) && Honest(n, c.request.value)
    ensures FromChecked(n, r, c, DoJournal(n, r, s, first, num, records).0.w.disk)
  {
    hide Reaches, SegmentsOk, RecordsOk, IsBatch, DecodeInt;
    CheckRequestFrame(n, r, c);
    var (n1, check) := CheckWriteRequest(n, r);
    Stay(n1.w.disk, c);
    if check.Passed? && n1.vol.curSegmentTxId == s && n1.vol.nextTxId == first && n1.vol.stream.Some? {
      var t := n1.vol.stream.value;
      var op := AppendLog(InProgress(t), records);
      if InProgress(t) in n1.w.disk.logs {
        PerformReaches(n1.w, op, Append(t, first, num, records), c);
      }
    }
  }

  lemma FinalizeTrail(n: Node, r: RequestInfo, s: int, e: int, c: Context)
    requires !n.w.dead && VolShape(n.vol) && c.request == Some(FinalizeLogSegment(r, s, e))
    requires c.sound ==> Inv(n) && Honest(n, c.request.value)
    ensures FromChecked(n, r, c, DoFinalize(n, r, s, e).0.w.disk)
  {
    hide Reaches, IsLog, Scan, RecordsOk, CheckRequest, PurgePaxosDecision, Legal;
    CheckRequestFrame(n, r, c);
    var (n0, check) := CheckRequest(n, r);
    Stay(n0.w.disk, c);
    if check.Passed? {
      var counted := s == n0.vol.curSegmentTxId;
      var n1 := if counted then AbortCurSegment(n0) else n0;
      var d := n1.w.disk;
      var found := GetLogFile(d, s);
      if found.OneLog? && !(counted && n1.vol.nextTxId != e + 1) {
        assert found.name in LogsAt(d, s);
        if found.name.Finalized? {
          PurgeTrail(n1.w, s, c);
        } else if (counted || Scan(d.logs[InProgress(s)]) == LastTxId(e)) && Finalized(s, e) !in d.logs {
          var op := RenameLog(InProgress(s), Finalized(s, e));
          if c.sound {
            FinalizedContent(n, d.logs[InProgress(s)], s, e);
          }
          assert Legal(d, FinalizeAs(s, e), Apply(d, op), c) by { FinalizeLegal(d, s, e, c); }
          PerformReaches(n1.w, op, FinalizeAs(s, e), c);
          var (w2, renamed) := Perform(n1.w, op);
          PurgeTrail(w2, s, c);
          Then(d, c, w2.disk, PurgePaxosDecision(w2, s).0.disk);
        }
      }
    }
  }

  lemma FinalizeLegal(d: Files, s: int, e: int, c: Context)
    requires c.request.Some? && c.request.value.FinalizeLogSegment?
    requires c.request.value.startTxId == s && c.request.value.endTxId == e
    requires GetLogFile(d, s) == OneLog(InProgress(s)) && InProgress(s) in d.logs && Finalized(s, e) !in d.logs
    requires c.sound ==> Holds(d.logs[InProgress(s)], s, e)
    ensures Legal(d, FinalizeAs(s, e), Apply(d, RenameLog(InProgress(s), Finalized(s, e))), c)
  {
    hide Scan, IsLog;
  }

  /** The counter and the byte scan accept the same end: either way the file holds exactly s..e. */
  lemma FinalizedContent(n: Node, b: Bytes, s: int, e: int)
    requires Inv(n) && !n.w.dead && 0 <= s <= e
    requires InProgress(s) in n.w.disk.logs && n.w.disk.logs[InProgress(s)] == b
    requires if s == n.vol.curSegmentTxId then n.vol.nextTxId == e + 1 else Scan(b) == LastTxId(e)
    ensures Holds(b, s, e)
  {
    ScansHold(b, s);
  }

  lemma RollForwardTrail(w: World, s: int, c: Context)
    requires HalfDone(w.disk, s) && c.request.Some?
    requires Allowed(c.request.value, DropTarget(s)) && Allowed(c.request.value, RollForward(s))
    ensures Reaches(w.disk, c, ReplaceFile(w, SyncTemp(s, w.disk.paxos[Paxos(s)].epoch), InProgress(s)).0.disk)
  {
    hide Allowed, Reaches, ReplaceFile;
    var tmp, target := SyncTemp(s, w.disk.paxos[Paxos(s)].epoch), InProgress(s);
    ReplaceFileFrame(w, tmp, target);
    var d, d' := w.disk, ReplaceFile(w, tmp, target).0.disk;
    if d'.logs == d.logs {
      assert d' == d;
      Stay(d, c);
    } else if d'.logs == d.logs - {target} {
      assert Takes(d, DropTarget(s), d');
      OneMove(d, DropTarget(s), d', c);
    } else {
      assert Takes(d, RollForward(s), d');
      OneMove(d, RollForward(s), d', c);
    }
  }

  lemma PrepareTrail(n: Node, r: RequestInfo, s: int, c: Context)
    requires !n.w.dead && c.request == Some(PrepareRecovery(r, s))
    ensures FromChecked(n, r, c, DoPrepare(n, r, s).0.w.disk)
  {
    hide Reaches, Scan, Tidied, GetSegmentInfo, CheckRequest, ReplaceFile;
    CheckRequestFrame(n, r, c);
    var (n0, check) := CheckRequest(n, r);
    Stay(n0.w.disk, c);
    if check.Passed? {
      var n1 := AbortCurSegment(n0);
      var d := n1.w.disk;
      var previous := PersistedPaxosData(d, s);
      if previous.None? || previous.value.segment.start == s {
        var w2 := if previous.Some? then CompleteHalfDone(n1.w, previous.value).0 else n1.w;
        if HalfDone(d, s) {
          RollForwardTrail(n1.w, s, c);
        }
        GetSegmentInfoFrame(w2, s);
        TidyReaches(w2.disk, GetSegmentInfo(w2, s).0.disk, c);
        Then(d, c, w2.disk, GetSegmentInfo(w2, s).0.disk);
      }
    }
  }

  lemma CommitTrail(n: Node, a: Accepted, synced: bool, c: Context)
    requires c.request.Some? && c.request.value.AcceptRecovery?
    requires a == Accepted(c.request.value.info.epoch, c.request.value.state)
    requires a.epoch == PromisedEpoch(n.w.disk) && 1 <= a.segment.end && a.segment.start <= a.segment.end
    requires synced ==> SyncTemp(a.segment.start, a.epoch) in n.w.disk.logs
    requires c.sound ==> Backed(n.w.disk.logs, a.segment.start, a)
    ensures Reaches(n.w.disk, c, CommitAccept(n, a, synced).0.w.disk)
  {
    hide Reaches, Backed, ReplaceFile, PersistPaxosData;
    var s := a.segment.start;
    PersistTrail(n.w, a, c);
    var (w1, persisted) := PersistPaxosData(n.w, s, a);
    if persisted && synced {
      RollForwardTrail(w1, s, c);
      Then(n.w.disk, c, w1.disk, ReplaceFile(w1, SyncTemp(s, a.epoch), InProgress(s)).0.disk);
    }
  }

  lemma PersistTrail(w: World, a: Accepted, c: Context)
    requires c.request.Some? && c.request.value.AcceptRecovery?
    requires a == Accepted(c.request.value.info.epoch, c.request.value.state)
    requires a.epoch == PromisedEpoch(w.disk) && 1 <= a.segment.end && a.segment.start <= a.segment.end
    requires c.sound ==> Backed(w.disk.logs, a.segment.start, a)
    ensures
      var (w', ok) := PersistPaxosData(w, a.segment.start, a);
      && Reaches(w.disk, c, w'.disk) && w'.disk.logs == w.disk.logs
      && (ok ==> PersistedPaxosData(w'.disk, a.segment.start) == Some(a))
  {
    hide Reaches, Backed, Legal;
    var s := a.segment.start;
    var stage, rename := WritePaxos(PaxosTemp(s), a), RenamePaxos(PaxosTemp(s), Paxos(s));
    StageLegal(w.disk, a, c);
    PerformReaches(w, stage, Stage(s, a), c);
    var (w1, staged) := Perform(w, stage);
    if staged {
      RecordLegal(w1.disk, a, c);
      PerformReaches(w1, rename, Record(s, a), c);
      Then(w.disk, c, w1.disk, Perform(w1, rename).0.disk);
    }
  }

  lemma StageLegal(d: Files, a: Accepted, c: Context)
    requires c.request.Some? && c.request.value.AcceptRecovery?
    requires a == Accepted(c.request.value.info.epoch, c.request.value.state)
    ensures Legal(d, Stage(a.segment.start, a), Apply(d, WritePaxos(PaxosTemp(a.segment.start), a)), c)
  {
  }

  lemma RecordLegal(d: Files, a: Accepted, c: Context)
    requires c.request.Some? && c.request.value.AcceptRecovery?
    requires a == Accepted(c.request.value.info.epoch, c.request.value.state)
    requires a.epoch == PromisedEpoch(d) && 1 <= a.segment.end && a.segment.start <= a.segment.end
    requires c.sound ==> Backed(d.logs, a.segment.start, a)
    requires PaxosTemp(a.segment.start) in d.paxos && d.paxos[PaxosTemp(a.segment.start)] == a
    ensures
      var s := a.segment.start;
      Legal(d, Record(s, a), Apply(d, RenamePaxos(PaxosTemp(s), Paxos(s))), c)
  {
    hide Backed;
  }

  lemma SyncTrail(w: World, s: int, epoch: int, download: Download, c: Context)
    requires c.request.Some? && c.request.value.AcceptRecovery?
    requires c.request.value.info.epoch == epoch && c.request.value.state.start == s
    requires c.request.value.download == download
    requires epoch == PromisedEpoch(w.disk)
    requires c.sound && Paxos(s) in w.disk.paxos ==> w.disk.paxos[Paxos(s)].epoch != epoch
    ensures Reaches(w.disk, c, SyncLog(w, s, epoch, download).0.disk)
  {
    hide Reaches;
    Stay(w.disk, c);
    if !w.dead {
      var b := if download.Complete? then download.content else download.partial;
      var op := WriteLog(SyncTemp(s, epoch), b);
      var d1 := Apply(w.disk, op);
      OneMove(w.disk, Fetch(s, epoch, b), d1, c);
      if download.Broken? {
        PerformReaches(w.(disk := d1), DeleteLog(SyncTemp(s, epoch)), Discard(s, epoch), c);
        Then(w.disk, c, d1, SyncLog(w, s, epoch, download).0.disk);
      }
    }
  }

  lemma AcceptTrail(n: Node, r: RequestInfo, seg: Segment, download: Download, c: Context)
    requires !n.w.dead && c.request == Some(AcceptRecovery(r, seg, download))
    requires c.sound ==> Inv(n) && Honest(n, c.request.value) && FirstTry(n.w.disk, seg.start, r.epoch)
    ensures FromChecked(n, r, c, DoAccept(n, r, seg, download).0.w.disk)
  {
    hide Reaches, AcceptSegment, VolOk;
    CheckRequestFrame(n, r, c);
    var (n0, check) := CheckRequest(n, r);
    Stay(n0.w.disk, c);
    if check.Passed? {
      AcceptSegmentTrail(AbortCurSegment(n0), r.epoch, seg, download, c);
    }
  }

  lemma AcceptSegmentTrail(n: Node, epoch: int, seg: Segment, download: Download, c: Context)
    requires c.request.Some? && c.request.value.AcceptRecovery? && c.request.value.info.epoch == epoch
    requires c.request.value.state == seg && c.request.value.download == download && epoch == PromisedEpoch(n.w.disk)
    requires c.sound ==> SegmentsOk(n.w.disk.logs) && FirstTry(n.w.disk, seg.start, epoch) && 0 <= seg.start
    requires c.sound && download.Complete? && seg.start <= seg.end ==> Holds(download.content, seg.start, seg.end)
    ensures Reaches(n.w.disk, c, AcceptSegment(n, epoch, seg, download).0.w.disk)
  {
    hide Reaches, Scan, Tidied, IsLog, ReplaceFile, CommitAccept, SegmentsOk;
    var (s, d, a) := (seg.start, n.w.disk, Accepted(epoch, seg));
    Stay(d, c);
    if 1 <= seg.end && s <= seg.end {
      GetSegmentInfoFrame(n.w, s);
      var (w1, current) := GetSegmentInfo(n.w, s);
      var n1 := n.(w := w1);
      TidyReaches(d, w1.disk, c);
      TidiedNames(d, w1.disk, s, epoch);
      if current.Info? && current.segment.end == seg.end {
        if c.sound {
          InPlaceIsBacked(d, a, current.segment.inProgress);
        }
        CommitTrail(n1, a, false, c);
        Then(d, c, w1.disk, CommitAccept(n1, a, false).0.w.disk);
      } else {
        SyncTrail(w1, s, epoch, download, c);
        var (w2, synced) := SyncLog(w1, s, epoch, download);
        Then(d, c, w1.disk, w2.disk);
        if synced {
          CommitTrail(n1.(w := w2), a, true, c);
          Then(d, c, w2.disk, CommitAccept(n1.(w := w2), a, true).0.w.disk);
        }
      }
    }
  }

  lemma TidiedNames(d: Files, d': Files, s: int, epoch: int)
    requires Tidied(d, d')
    ensures d'.paxos == d.paxos && d'.longs == d.longs
    ensures SyncTemp(s, epoch) in d'.logs <==> SyncTemp(s, epoch) in d.logs
  {
  }

  /** A segment found in place with the right end backs the record that is about to be written. */
  lemma InPlaceIsBacked(d: Files, a: Accepted, inProgress: bool)
    requires SegmentsOk(d.logs) && 0 <= a.segment.start <= a.segment.end && 1 <= a.segment.end
    requires SyncTemp(a.segment.start, a.epoch) !in d.logs
    requires
      var s, e := a.segment.start, a.segment.end;
      if inProgress then LogsAt(d, s) == {InProgress(s)} && Scan(d.logs[InProgress(s)]) == LastTxId(e)
      else LogsAt(d, s) == {Finalized(s, e)}
    ensures Backed(d.logs, a.segment.start, a)
  {
    var s, e := a.segment.start, a.segment.end;
    assert InProgress(s) in LogsAt(d, s) || Finalized(s, e) in LogsAt(d, s);
    if inProgress {
      ScansHold(d.logs[InProgress(s)], s);
    }
  }

  // ----- All events -----

  lemma HandleTrail(n: Node, q: Request, c: Context)
    requires !n.w.dead && VolShape(n.vol) && c.request == Some(q)
    requires c.sound ==> Inv(n) && Admissible(n, q)
    ensures Reaches(n.w.disk, c, Handle(n, q).0.w.disk)
  {
    hide Reaches, Inv, Honest, FirstTry, DoNewEpoch, DoStart, DoJournal, DoFinalize, DoPrepare, DoAccept,
      CheckRequest, VolShape;
    match q
    case NewEpoch(same, epoch) => NewEpochTrail(n, same, epoch, c);
    case _ =>
      BodyTrail(n, q, c);
      CheckRequestFrame(n, q.info, c);
      Then(n.w.disk, c, CheckRequest(n, q.info).0.w.disk, Handle(n, q).0.w.disk);
  }

  lemma BodyTrail(n: Node, q: Request, c: Context)
    requires !n.w.dead && VolShape(n.vol) && c.request == Some(q) && !q.NewEpoch?
    requires c.sound ==> Inv(n) && Admissible(n, q)
    ensures FromChecked(n, q.info, c, Handle(n, q).0.w.disk)
  {
    hide FromChecked, Inv, Honest, FirstTry, DoStart, DoJournal, DoFinalize, DoPrepare, DoAccept, VolShape;
    match q
    case StartLogSegment(r, txid, layout) => StartTrail(n, r, txid, layout, c);
    case JournalTxns(r, s, first, num, records) => JournalTrail(n, r, s, first, num, records, c);
    case FinalizeLogSegment(r, s, e) => FinalizeTrail(n, r, s, e, c);
    case PrepareRecovery(r, s) => PrepareTrail(n, r, s, c);
    case AcceptRecovery(r, seg, download) => AcceptTrail(n, r, seg, download, c);
  }

  ghost function RequestOf(ev: Event): Option<Request> {
    if ev.Call? then Some(ev.request) else None
  }

  /** One event changes the disk by allowed moves only, wherever its faults and crashes fall. */
  lemma StepTrail(n: Node, ev: Event, sound: bool)
    requires VolShape(n.vol)
    requires sound && ev.Call? ==> Inv(n) && Admissible(n, ev.request)
    ensures Reaches(n.w.disk, Context(RequestOf(ev), sound), Step(n, ev).0.w.disk)
  {
    hide Reaches, Handle, ScanStorage, Tidied, VolOk;
    var c := Context(RequestOf(ev), sound);
    match ev
    case Restart(faults) =>
      ScanStorageFrame(World(n.w.disk, faults, false));
      TidyReaches(n.w.disk, ScanStorage(World(n.w.disk, faults, false)).0.disk, c);
    case Call(q, faults) =>
      if n.w.dead {
        Stay(n.w.disk, c);
      } else {
        var m := n.(w := n.w.(faults := faults));
        HandleTrail(m, q, c);
      }
  }
}
