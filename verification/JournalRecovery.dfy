/** Recovery: acceptRecovery is one atomic switch, and what it accepted stays accepted. */
module JournalRecovery {
  import opened Bytes
  import opened EditLog
  import opened Disk
  import opened JournalSpec
  import opened JournalFrames
  import opened JournalInvariant
  import opened JournalMoves
  import opened JournalTrails
  import opened JournalSafety
  import opened JournalEpochs
  import opened JournalRuns

  // ----- The effective state of a segment -----

  /** What an unfinalized segment stands for: its log as recovery would complete it, and the accepted record. */
  datatype View = View(log: Option<Bytes>, record: Option<Accepted>)

  /** The in-progress file, where a file without transactions counts as absent. */
  ghost function InPlaceLog(logs: map<LogName, Bytes>, s: int): Option<Bytes> {
    if InProgress(s) in logs && !HasNoTransactions(logs[InProgress(s)]) then Some(logs[InProgress(s)]) else None
  }

  ghost function LogUnder(logs: map<LogName, Bytes>, s: int, record: Option<Accepted>): Option<Bytes> {
    if record.Some? && record.value.segment.start == s && SyncTemp(s, record.value.epoch) in logs
    then Some(logs[SyncTemp(s, record.value.epoch)])
    else InPlaceLog(logs, s)
  }

  ghost function Effective(d: Files, s: int): View {
    View(LogUnder(d.logs, s, PersistedPaxosData(d, s)), PersistedPaxosData(d, s))
  }

  // ----- Which moves change it -----

  /** Moves that make a segment grow, end or be decided; every other move leaves its effective state alone. */
  ghost predicate Decides(m: Move, s: int) {
    (m.Open? || m.Append? || m.FinalizeAs? || m.Purge? || m.Record?) && m.s == s
  }

  lemma MoveKeepsEffective(d: Files, m: Move, d': Files, c: Context, s: int)
    requires c.sound && DiskOk(d.logs, d.paxos) && Legal(d, m, d', c) && !Decides(m, s)
    ensures Effective(d', s) == Effective(d, s)
  {
    hide IsLog, Scan, Header, Allowed, DiskOk, Tidied, HasNoTransactions, LogsAt;
    if m.Tidy? {
      TidyEffective(d, d', s);
    } else if m.RollForward? && m.s == s {
      RolledLogHasTransactions(d, s);
    } else if m.DropTarget? && m.s == s {
      assert SyncTemp(s, d.paxos[Paxos(s)].epoch) in d'.logs;
    } else {
      SameUnder(d, d', s);
    }
  }

  lemma TidyEffective(d: Files, d': Files, s: int)
    requires Tidied(d, d')
    ensures Effective(d', s) == Effective(d, s)
  {
    hide Scan;
  }

  /** The view depends on three files. */
  lemma SameUnder(d: Files, d': Files, s: int)
    requires PersistedPaxosData(d', s) == PersistedPaxosData(d, s)
    requires
      PersistedPaxosData(d, s).Some? ==>
        var tmp := SyncTemp(s, d.paxos[Paxos(s)].epoch);
        (tmp in d'.logs <==> tmp in d.logs) && (tmp in d.logs ==> d'.logs[tmp] == d.logs[tmp])
    requires InProgress(s) in d'.logs <==> InProgress(s) in d.logs
    requires InProgress(s) in d.logs ==> d'.logs[InProgress(s)] == d.logs[InProgress(s)]
    ensures Effective(d', s) == Effective(d, s)
  {
    hide Scan;
  }

  lemma RolledLogHasTransactions(d: Files, s: int)
    requires DiskOk(d.logs, d.paxos) && HalfDone(d, s)
    ensures !HasNoTransactions(d.logs[SyncTemp(s, d.paxos[Paxos(s)].epoch)])
  {
    hide IsLog, Scan;
    var a := d.paxos[Paxos(s)];
    assert Backed(d.logs, s, a);
    HoldsScans(d.logs[SyncTemp(s, a.epoch)], s, a.segment.end);
  }

  lemma {:induction false} TrailKeepsEffective(t: Trail, c: Context, s: int)
    requires c.sound && Valid(t, c) && DiskOk(t.d.logs, t.d.paxos)
    requires c.request.Some? ==> Bystander(c.request.value, s)
    ensures Effective(Last(t), s) == Effective(t.d, s)
  {
    hide Legal, DiskOk, Effective, Decides;
    if t.Via? {
      BystanderMoves(t.d, t.m, t.rest.d, c, s);
      MoveKeepsEffective(t.d, t.m, t.rest.d, c, s);
      MoveKeepsDisk(t.d, t.m, t.rest.d, c);
      TrailKeepsEffective(t.rest, c, s);
    }
  }

  /** The request neither starts, writes, finalizes nor accepts a recovery of segment s. */
  ghost predicate Bystander(q: Request, s: int) {
    match q
    case StartLogSegment(_, t, _) => t != s
    case JournalTxns(_, t, _, _, _) => t != s && t != INVALID_TXID
    case FinalizeLogSegment(_, t, _) => t != s
    case AcceptRecovery(_, seg, _) => seg.start != s
    case _ => true
  }

  lemma BystanderMoves(d: Files, m: Move, d': Files, c: Context, s: int)
    requires Legal(d, m, d', c) && (c.request.Some? ==> Bystander(c.request.value, s))
    ensures !Decides(m, s)
  {
    hide Takes, Sound;
  }

  /**
   * Preparing a recovery, moving files into place, restarting and everything that is about other segments
   * leave the effective state of a segment as it was, at every crash point.
   */
  lemma StepKeepsEffective(n: Node, ev: Event, s: int)
    requires Inv(n) && VolShape(n.vol)
    requires ev.Call? ==> Admissible(n, ev.request) && Bystander(ev.request, s)
    ensures Effective(Step(n, ev).0.w.disk, s) == Effective(n.w.disk, s)
  {
    hide Step, Valid, DiskOk, Effective, Bystander;
    StepTrail(n, ev, true);
    var c := Context(RequestOf(ev), true);
    var t :| Joins(t, n.w.disk, c, Step(n, ev).0.w.disk);
    TrailKeepsEffective(t, c, s);
  }

  // ----- acceptRecovery is atomic -----

  /** The segment is in place with the end that is asked for, so nothing needs to be downloaded. */
  ghost predicate InPlace(d: Files, seg: Segment) {
    || LogsAt(d, seg.start) == {Finalized(seg.start, seg.end)}
    || (LogsAt(d, seg.start) == {InProgress(seg.start)} && Scan(d.logs[InProgress(seg.start)]) == LastTxId(seg.end))
  }

  /** The state the request is to bring about. */
  ghost function Target(d: Files, epoch: int, seg: Segment, download: Download): View {
    View(if InPlace(d, seg) then InPlaceLog(d.logs, seg.start) else Some(Received(download)),
         Some(Accepted(epoch, seg)))
  }

  /** From the staging of the record on: the view switches with the record's rename, and only then. */
  lemma CommitIsAtomic(n: Node, a: Accepted, synced: bool)
    requires var s := a.segment.start;
             synced ==>
               && SyncTemp(s, a.epoch) in n.w.disk.logs && !HasNoTransactions(n.w.disk.logs[SyncTemp(s, a.epoch)])
               && (Paxos(s) in n.w.disk.paxos ==> n.w.disk.paxos[Paxos(s)].epoch != a.epoch)
    ensures
      var (n', reply) := CommitAccept(n, a, synced);
      var s := a.segment.start;
      var d, d' := n.w.disk, n'.w.disk;
      && (if PersistedPaxosData(d', s) == Some(a)
          then Effective(d', s) == View(LogUnder(d.logs, s, Some(a)), Some(a))
          else Effective(d', s) == Effective(d, s))
      && (reply.Done? ==> PersistedPaxosData(d', s) == Some(a))
      && (reply.Done? && synced ==> SyncTemp(s, a.epoch) !in d'.logs)
      && (!synced ==> d'.logs == d.logs)
  {
    hide Scan, ReplaceFile, HasNoTransactions, PersistPaxosData;
    var s := a.segment.start;
    PersistFrame(n.w, s, a);
    var (w1, persisted) := PersistPaxosData(n.w, s, a);
    if persisted && synced {
      ReplaceFileFrame(w1, SyncTemp(s, a.epoch), InProgress(s));
    }
  }

  /** Persisting a record replaces it or leaves the old one, and touches nothing else that is in place. */
  lemma PersistFrame(w: World, s: int, a: Accepted)
    ensures
      var (w', ok) := PersistPaxosData(w, s, a);
      && w'.disk.logs == w.disk.logs && w'.disk.longs == w.disk.longs
      && PersistedPaxosData(w'.disk, s) in {PersistedPaxosData(w.disk, s), Some(a)}
      && (ok ==> PersistedPaxosData(w'.disk, s) == Some(a))
      && (forall t :: t != s ==> PersistedPaxosData(w'.disk, t) == PersistedPaxosData(w.disk, t))
  {
    hide Perform;
    var stage, rename := WritePaxos(PaxosTemp(s), a), RenamePaxos(PaxosTemp(s), Paxos(s));
    PerformOutcome(w, stage);
    PerformOutcome(Perform(w, stage).0, rename);
  }

  lemma PerformOutcome(w: World, op: FileOp)
    ensures
      var (w', ok) := Perform(w, op);
      w'.disk in {w.disk, Apply(w.disk, op)} && (ok ==> w'.disk == Apply(w.disk, op))
  {
    hide Apply;
  }

  lemma InfoIffInPlace(w: World, seg: Segment)
    requires 1 <= seg.end
    ensures
      var info := GetSegmentInfo(w, seg.start).1;
      InPlace(w.disk, seg) <==> info.Info? && info.segment.end == seg.end
  {
    hide Scan, ReplaceFile;
    GetSegmentInfoFrame(w, seg.start);
    var r := GetLogFile(w.disk, seg.start);
    assert r.OneLog? ==> r.name in LogsAt(w.disk, seg.start);
    assert InPlace(w.disk, seg) ==>
        || InProgress(seg.start) in LogsAt(w.disk, seg.start)
        || r == OneLog(Finalized(seg.start, seg.end));
  }

  lemma TidyKeepsEffective(d: Files, d': Files, s: int)
    requires DiskOk(d.logs, d.paxos) && Tidied(d, d')
    ensures Effective(d', s) == Effective(d, s)
  {
    hide Effective, DiskOk, Tidied;
    assert Legal(d, Tidy, d', Context(None, true));
    MoveKeepsEffective(d, Tidy, d', Context(None, true), s);
  }

  /** The transfer itself changes nothing that counts, however it ends. */
  lemma SyncKeepsEffective(w: World, s: int, epoch: int, download: Download)
    requires Paxos(s) in w.disk.paxos ==> w.disk.paxos[Paxos(s)].epoch != epoch
    ensures
      var (w', ok) := SyncLog(w, s, epoch, download);
      && Effective(w'.disk, s) == Effective(w.disk, s) && w'.disk.paxos == w.disk.paxos
      && (ok ==> download.Complete? && SyncTemp(s, epoch) in w'.disk.logs
                 && w'.disk.logs[SyncTemp(s, epoch)] == download.content)
  {
    hide Scan;
  }

  /** The record in place is of this epoch. */
  ghost predicate RecordedIn(d: Files, s: int, epoch: int) {
    Paxos(s) in d.paxos && d.paxos[Paxos(s)].epoch == epoch
  }

  /**
   * Nothing an earlier try of the same epoch left behind gets in the way.  If the wanted end is in place, a
   * temporary file of this epoch would be taken for the new content, so it must be missing, or equal, or be
   * what the very same record already stands for.  Otherwise the download overwrites the temporary file, so
   * the record in place must not be of this epoch.
   */
  ghost predicate Undisturbed(d: Files, a: Accepted) {
    var s := a.segment.start;
    if InPlace(d, a.segment)
    then
      || SyncTemp(s, a.epoch) !in d.logs
      || InPlaceLog(d.logs, s) == Some(d.logs[SyncTemp(s, a.epoch)])
      || PersistedPaxosData(d, s) == Some(a)
    else !RecordedIn(d, s, a.epoch)
  }

  /** Whether a request went from one disk to another in one step, and when it must have. */
  ghost predicate Switches(d: Files, d': Files, a: Accepted, download: Download, reply: Reply) {
    var s := a.segment.start;
    var target := Target(d, a.epoch, a.segment, download);
    && (if PersistedPaxosData(d', s) == Some(a) && PersistedPaxosData(d, s) != Some(a)
        then Effective(d', s) == target && (InPlace(d, a.segment) || download.Complete?)
        else Effective(d', s) == Effective(d, s))
    && (reply.Done? ==>
          && PersistedPaxosData(d', s) == Some(a) && 1 <= a.segment.end && s <= a.segment.end
          && (InPlace(d, a.segment) || download.Complete?)
          && (!InPlace(d, a.segment) || SyncTemp(s, a.epoch) !in d.logs ==>
                Effective(d', s) == target && SyncTemp(s, a.epoch) !in d'.logs))
  }

  lemma AcceptSegmentSwitches(n: Node, epoch: int, seg: Segment, download: Download)
    requires DiskOk(n.w.disk.logs, n.w.disk.paxos) && 0 <= seg.start
    requires download.Complete? && seg.start <= seg.end ==> Holds(download.content, seg.start, seg.end)
    requires Undisturbed(n.w.disk, Accepted(epoch, seg))
    ensures
      var (n', reply) := AcceptSegment(n, epoch, seg, download);
      Switches(n.w.disk, n'.w.disk, Accepted(epoch, seg), download, reply)
  {
    hide Scan, GetSegmentInfo, CommitAccept, SyncLog, Effective, DiskOk, InPlace, InPlaceLog, LogUnder, Holds,
      Tidied, LogsAt;
    var (s, a) := (seg.start, Accepted(epoch, seg));
    if 1 <= seg.end && s <= seg.end {
      var (w1, current) := GetSegmentInfo(n.w, s);
      InfoIffInPlace(n.w, seg);
      GetSegmentInfoFrame(n.w, s);
      TidyKeepsEffective(n.w.disk, w1.disk, s);
      TidiedNames(n.w.disk, w1.disk, s, epoch);
      var n1 := n.(w := w1);
      if InPlace(n.w.disk, seg) {
        InPlaceSwitches(n1, a, download);
      } else {
        DownloadSwitches(n1, n.w.disk, a, download);
      }
    }
  }

  /** With another end in place, or none, the record makes the downloaded file count. */
  lemma DownloadSwitches(n: Node, d: Files, a: Accepted, download: Download)
    requires var s, d1 := a.segment.start, n.w.disk;
             && !InPlace(d, a.segment) && !RecordedIn(d, s, a.epoch)
             && Effective(d1, s) == Effective(d, s) && d1.paxos == d.paxos
    requires 1 <= a.segment.end && a.segment.start <= a.segment.end
    requires download.Complete? ==> Holds(download.content, a.segment.start, a.segment.end)
    ensures
      var (w2, synced) := SyncLog(n.w, a.segment.start, a.epoch, download);
      if !synced then Switches(d, w2.disk, a, download, Refused)
      else
        var (n', reply) := CommitAccept(n.(w := w2), a, true);
        Switches(d, n'.w.disk, a, download, reply)
  {
    hide Scan, CommitAccept, SyncLog, Effective, InPlace, InPlaceLog, LogUnder, Holds;
    var s := a.segment.start;
    SyncKeepsEffective(n.w, s, a.epoch, download);
    var (w2, synced) := SyncLog(n.w, s, a.epoch, download);
    if synced {
      HoldsScans(download.content, s, a.segment.end);
      CommitIsAtomic(n.(w := w2), a, true);
      RecordWithTemp(w2.disk, s, a);
    }
  }

  /** With the wanted end in place only the record changes. */
  lemma InPlaceSwitches(n: Node, a: Accepted, download: Download)
    requires InPlace(n.w.disk, a.segment) && Undisturbed(n.w.disk, a) && 1 <= a.segment.end
        && a.segment.start <= a.segment.end
    ensures
      var (n', reply) := CommitAccept(n, a, false);
      Switches(n.w.disk, n'.w.disk, a, download, reply)
  {
    hide Scan, CommitAccept, InPlace, InPlaceLog;
    CommitIsAtomic(n, a, false);
  }

  /**
   * A crash or error anywhere inside acceptRecovery leaves the effective state of the segment either
   * entirely old or entirely new; it is new exactly when the record has been renamed into place, and the
   * record is there whenever the request succeeded.
   */
  lemma AcceptIsAtomic(n: Node, r: RequestInfo, seg: Segment, download: Download)
    requires Inv(n) && !n.w.dead && Honest(n, AcceptRecovery(r, seg, download))
    requires Undisturbed(n.w.disk, Accepted(r.epoch, seg))
    ensures
      var (n', reply) := DoAccept(n, r, seg, download);
      Switches(n.w.disk, n'.w.disk, Accepted(r.epoch, seg), download, reply)
  {
    hide AcceptSegment, Effective, DiskOk, InPlace, CheckRequest, InPlaceLog, Holds, VolOk;
    CheckAborts(n, r);
    CheckRequestVol(n, r);
    var n1 := AbortCurSegment(CheckRequest(n, r).0);
    SameEffective(n.w.disk, n1.w.disk, seg);
    if CheckRequest(n, r).1.Passed? {
      AcceptSegmentSwitches(n1, r.epoch, seg, download);
    }
  }

  lemma RecordWithTemp(d: Files, s: int, a: Accepted)
    requires SyncTemp(s, a.epoch) in d.logs && a.segment.start == s
    ensures LogUnder(d.logs, s, Some(a)) == Some(d.logs[SyncTemp(s, a.epoch)])
  {
  }

  lemma SameEffective(d: Files, d': Files, seg: Segment)
    requires d'.logs == d.logs && d'.paxos == d.paxos
    ensures Effective(d', seg.start) == Effective(d, seg.start)
    ensures InPlace(d', seg) == InPlace(d, seg)
  {
  }

  lemma FaultsDoNotMatter(n: Node, faults: seq<Fault>, q: Request)
    requires Inv(n) && Honest(n, q)
    ensures Inv(n.(w := n.w.(faults := faults))) && Honest(n.(w := n.w.(faults := faults)), q)
  {
  }

  // ----- What was accepted stays accepted -----

  /** The record is in place and the log it promises is where the next look will find it. */
  ghost predicate AcceptedHere(d: Files, a: Accepted) {
    var s := a.segment.start;
    && PersistedPaxosData(d, s) == Some(a) && SyncTemp(s, a.epoch) !in d.logs
    && 0 <= s <= a.segment.end && 1 <= a.segment.end
    && (|| Finalized(s, a.segment.end) in d.logs
        || (InProgress(s) in d.logs && Holds(d.logs[InProgress(s)], s, a.segment.end)))
  }

  /** Or the segment has been finalized with that end since. */
  ghost predicate Settled(d: Files, a: Accepted) {
    || Finalized(a.segment.start, a.segment.end) in d.logs
    || AcceptedHere(d, a)
  }

  /** Moves that may undo an accepted recovery of s. */
  ghost predicate Reopens(m: Move, s: int) {
    (m.Open? || m.FinalizeAs? || m.Purge? || m.Record? || m.Fetch?) && m.s == s
  }

  /** A sound append is to a segment without a record, so it is not in the way. */
  lemma MoveKeepsAccepted(d: Files, m: Move, d': Files, c: Context, a: Accepted)
    requires c.sound && DiskOk(d.logs, d.paxos) && Legal(d, m, d', c) && AcceptedHere(d, a)
    requires !Reopens(m, a.segment.start)
    ensures AcceptedHere(d', a)
  {
    hide Scan, IsLog, IsBatch, RecordsOk, Allowed, Header;
    var s, e := a.segment.start, a.segment.end;
    if m.Tidy? {
      if Finalized(s, e) in d.logs {
        HoldsScans(d.logs[Finalized(s, e)], s, e);
      } else {
        HoldsScans(d.logs[InProgress(s)], s, e);
      }
    }
  }

  /** The request is not one that starts, finalizes or accepts a recovery of s; it may well write to it. */
  ghost predicate Spares(q: Request, s: int) {
    match q
    case StartLogSegment(_, t, _) => t != s
    case FinalizeLogSegment(_, t, _) => t != s
    case AcceptRecovery(_, seg, _) => seg.start != s
    case _ => true
  }

  lemma SparingMoves(d: Files, m: Move, d': Files, c: Context, s: int)
    requires Legal(d, m, d', c) && (c.request.Some? ==> Spares(c.request.value, s))
    ensures !Reopens(m, s)
  {
    hide Takes, Sound;
  }

  lemma {:induction false} TrailKeepsAccepted(t: Trail, c: Context, a: Accepted)
    requires c.sound && Valid(t, c) && DiskOk(t.d.logs, t.d.paxos) && AcceptedHere(t.d, a)
    requires c.request.Some? ==> Spares(c.request.value, a.segment.start)
    ensures AcceptedHere(Last(t), a)
  {
    hide Legal, DiskOk, AcceptedHere, Reopens, Spares;
    if t.Via? {
      SparingMoves(t.d, t.m, t.rest.d, c, a.segment.start);
      MoveKeepsAccepted(t.d, t.m, t.rest.d, c, a);
      MoveKeepsDisk(t.d, t.m, t.rest.d, c);
      TrailKeepsAccepted(t.rest, c, a);
    }
  }

  /** The event decides s anew: it starts s or has a recovery of s accepted, and passes its check. */
  ghost predicate Redecides(n: Node, ev: Event, s: int) {
    && Passes(n, ev)
    && (|| (ev.request.StartLogSegment? && ev.request.txid == s)
        || (ev.request.AcceptRecovery? && ev.request.state.start == s))
  }

  /** A request that its check stops changes no segment and no record. */
  lemma StoppedKeeps(n: Node, q: Request)
    requires !q.NewEpoch? && !CheckRequest(n, q.info).1.Passed?
    ensures Handle(n, q).0.w.disk.logs == n.w.disk.logs && Handle(n, q).0.w.disk.paxos == n.w.disk.paxos
  {
    hide CheckRequest;
    BodyVol(n, q);
    CheckRequestVol(n, q.info);
  }

  /** An accepted segment can only be finalized with the end that was accepted. */
  lemma FinalizeSettles(n: Node, r: RequestInfo, s: int, e: int, a: Accepted)
    requires Inv(n) && !n.w.dead && AcceptedHere(n.w.disk, a) && a.segment.start == s
    ensures Settled(DoFinalize(n, r, s, e).0.w.disk, a)
  {
    hide Scan, IsLog, CheckRequest, SegmentsOk, RecordsOk, PurgeFinalized;
    CheckRequestVol(n, r);
    var n0 := CheckRequest(n, r).0;
    PurgeKeepsLogs(n0, s);
    var (w2, renamed) := Perform(n0.w, RenameLog(InProgress(s), Finalized(s, e)));
    PurgeKeepsLogs(n0.(w := w2), s);
    if Finalized(s, a.segment.end) !in n.w.disk.logs {
      HoldsScans(n.w.disk.logs[InProgress(s)], s, a.segment.end);
      assert InProgress(s) in LogsAt(n0.w.disk, s);
    }
  }

  lemma PurgeKeepsLogs(n: Node, s: int)
    ensures PurgeFinalized(n, s).0.w.disk.logs == n.w.disk.logs
  {
  }

  lemma StepKeepsSettled(n: Node, ev: Event, a: Accepted)
    requires Inv(n) && VolShape(n.vol) && Settled(n.w.disk, a) && 0 <= a.segment.start <= a.segment.end
    requires (ev.Call? ==> Admissible(n, ev.request)) && !Redecides(n, ev, a.segment.start)
    ensures Settled(Step(n, ev).0.w.disk, a)
  {
    hide DoNewEpoch, DoStart, DoJournal, DoFinalize, DoPrepare, DoAccept, ScanStorage, Valid, DiskOk, AcceptedHere,
      CheckRequest, Honest, FirstTry, IsLog, VolShape;
    var s, e := a.segment.start, a.segment.end;
    if Finalized(s, e) in n.w.disk.logs {
      FinalizedHolds(n, s, e);
      FinalizedSurvives(n, ev, Finalized(s, e));
    } else if ev.Restart? || Spares(ev.request, s) {
      StepTrail(n, ev, true);
      var c := Context(RequestOf(ev), true);
      var t :| Joins(t, n.w.disk, c, Step(n, ev).0.w.disk);
      TrailKeepsAccepted(t, c, a);
    } else if !n.w.dead {
      var m := n.(w := n.w.(faults := ev.faults));
      if ev.request.FinalizeLogSegment? {
        FinalizeSettles(m, ev.request.info, s, ev.request.endTxId, a);
      } else {
        StoppedKeeps(m, ev.request);
        SameFiles(n.w.disk, Handle(m, ev.request).0.w.disk, a);
      }
    }
  }

  lemma FinalizedHolds(n: Node, s: int, e: int)
    requires Inv(n) && Finalized(s, e) in n.w.disk.logs
    ensures !HasNoTransactions(n.w.disk.logs[Finalized(s, e)])
  {
    hide Scan, IsLog;
    HoldsScans(n.w.disk.logs[Finalized(s, e)], s, e);
  }

  lemma SameFiles(d: Files, d': Files, a: Accepted)
    requires d'.logs == d.logs && d'.paxos == d.paxos
    ensures AcceptedHere(d', a) <==> AcceptedHere(d, a)
  {
  }

  /** Success means that it is accepted here. */
  lemma DoneIsAccepted(n: Node, q: Request, faults: seq<Fault>)
    requires Inv(n) && VolShape(n.vol) && q.AcceptRecovery? && Admissible(n, q)
    requires Step(n, Call(q, faults)).1.Done?
    ensures AcceptedHere(Step(n, Call(q, faults)).0.w.disk, Accepted(q.info.epoch, q.state))
  {
    hide DoAccept, Scan, IsLog, RecordsOk, VolOk;
    var m := n.(w := n.w.(faults := faults));
    AcceptIsAtomic(m, q.info, q.state, q.download);
    var (d, d', s, e) := (n.w.disk, Step(n, Call(q, faults)).0.w.disk, q.state.start, q.state.end);
    if LogsAt(d, s) == {Finalized(s, e)} {
      assert Finalized(s, e) in LogsAt(d, s);
      HoldsScans(d.logs[Finalized(s, e)], s, e);
      FinalizedSurvives(n, Call(q, faults), Finalized(s, e));
    } else if InPlace(d, q.state) {
      assert InProgress(s) in LogsAt(d, s);
      ScansHold(d.logs[InProgress(s)], s);
    }
  }

  lemma FinalizedSurvives(n: Node, ev: Event, f: LogName)
    requires VolShape(n.vol) && f.Finalized? && f in n.w.disk.logs && !HasNoTransactions(n.w.disk.logs[f])
    ensures f in Step(n, ev).0.w.disk.logs
  {
    hide Step, HasNoTransactions;
    FinalizedIsForever(n, [ev], f);
    assert [ev][..0] == [] && Run(n, [ev]) == Step(Run(n, []), ev).0;
  }

  /** What a node with an accepted recovery answers when it prepares the next one. */
  ghost predicate Reports(reply: Reply, a: Accepted, d: Files) {
    && reply.Prepared? && reply.segment.Some?
    && reply.segment.value.start == a.segment.start && reply.segment.value.end == a.segment.end
    && (|| reply.acceptedInEpoch == Some(a.epoch)
        || (reply.acceptedInEpoch == None && Finalized(a.segment.start, a.segment.end) in d.logs))
  }

  lemma PrepareReports(n: Node, r: RequestInfo, a: Accepted)
    requires Inv(n) && !n.w.dead && Settled(n.w.disk, a) && 0 <= a.segment.end
    requires DoPrepare(n, r, a.segment.start).1.Prepared?
    ensures Reports(DoPrepare(n, r, a.segment.start).1, a, n.w.disk)
  {
    hide Scan, IsLog, ReplaceFile, CheckRequest, GetSegmentInfo, SegmentsOk, RecordsOk, VolOk;
    CheckRequestVol(n, r);
    CheckedEpoch(n, r);
    var n1 := AbortCurSegment(CheckRequest(n, r).0);
    var s, e := a.segment.start, a.segment.end;
    var previous := PersistedPaxosData(n1.w.disk, s);
    var w2 := if previous.Some? then CompleteHalfDone(n1.w, previous.value).0 else n1.w;
    if previous.Some? {
      RolledKeepsFinalized(n1.w, previous.value, Finalized(s, e));
    }
    GetSegmentInfoFrame(w2, s);
    InfoAt(w2, s);
    if Finalized(s, e) !in n.w.disk.logs {
      HoldsScans(n.w.disk.logs[InProgress(s)], s, e);
    }
  }

  lemma RolledKeepsFinalized(w: World, a: Accepted, f: LogName)
    requires f.Finalized?
    ensures f in w.disk.logs ==> f in CompleteHalfDone(w, a).0.disk.logs
    ensures SyncTemp(a.segment.start, a.epoch) !in w.disk.logs ==> CompleteHalfDone(w, a) == (w, true)
  {
    hide ReplaceFile;
    ReplaceFileFrame(w, SyncTemp(a.segment.start, a.epoch), InProgress(a.segment.start));
  }

  /** Files that are there are found, or the lookup is an error. */
  lemma InfoAt(w: World, s: int)
    ensures
      var info := GetSegmentInfo(w, s).1;
      forall f :: f in w.disk.logs && IsSegmentFile(f) && f.first == s ==>
        || info.InfoError?
        || (f.Finalized? && info == Info(Segment(s, f.last, false)))
        || (f.InProgress? && info.Info? && info.segment.inProgress
            && Scan(w.disk.logs[f]) == LastTxId(info.segment.end))
        || (f.InProgress? && info.NoSegment? && HasNoTransactions(w.disk.logs[f]))
  {
    hide Scan, ReplaceFile;
    forall f | f in w.disk.logs && IsSegmentFile(f) && f.first == s
      ensures f in LogsAt(w.disk, s)
    {
    }
  }

  /** Nothing in later, continuing the run evs, decides s anew. */
  ghost predicate NotRedecided(evs: seq<Event>, later: seq<Event>, s: int) {
    forall i :: 0 <= i < |later| ==> !Redecides(Run(FORMATTED, evs + later[..i]), later[i], s)
  }

  lemma NotRedecidedPrefix(evs: seq<Event>, later: seq<Event>, k: nat, s: int)
    requires NotRedecided(evs, later, s) && k <= |later|
    ensures NotRedecided(evs, later[..k], s)
  {
    hide Redecides, Run;
    forall i | 0 <= i < k
      ensures later[..k][..i] == later[..i] && later[..k][i] == later[i]
    {
    }
  }

  /** One more event of an admissible run. */
  lemma NextKeepsSettled(before: seq<Event>, ev: Event, a: Accepted)
    requires AdmissibleRun(before + [ev]) && Settled(Run(FORMATTED, before).w.disk, a)
    requires 0 <= a.segment.start <= a.segment.end && !Redecides(Run(FORMATTED, before), ev, a.segment.start)
    ensures Settled(Run(FORMATTED, before + [ev]).w.disk, a)
  {
    hide Settled, Redecides, Step, Honest, OneTryPerEpoch, FirstTry, Inv;
    var all := before + [ev];
    assert all[..|before|] == before && all[|before|] == ev;
    PrefixAdmissible(all, |before|);
    RunKeepsInv(before);
    if ev.Call? && ev.request.AcceptRecovery? {
      TriesAreFirst(before, ev);
    }
    StepKeepsSettled(Run(FORMATTED, before), ev, a);
  }

  lemma {:induction false} RunKeepsSettled(evs: seq<Event>, later: seq<Event>, a: Accepted)
    requires AdmissibleRun(evs + later) && Settled(Run(FORMATTED, evs).w.disk, a)
    requires 0 <= a.segment.start <= a.segment.end && NotRedecided(evs, later, a.segment.start)
    ensures Settled(Run(FORMATTED, evs + later).w.disk, a)
    decreases |later|
  {
    hide Settled, Redecides, Run, AdmissibleRun;
    if later == [] {
      assert evs + later == evs;
    } else {
      var most, ev := later[..|later| - 1], later[|later| - 1];
      var before := evs + most;
      assert (evs + later)[..|before|] == before && evs + later == before + [ev];
      PrefixAdmissible(evs + later, |before|);
      NotRedecidedPrefix(evs, later, |most|, a.segment.start);
      RunKeepsSettled(evs, most, a);
      NextKeepsSettled(before, ev, a);
    }
  }

  /**
   * Durability of an accepted recovery.  After acceptRecovery succeeded, every later successful
   * prepareRecovery of that segment reports its end, in whatever order requests, faults, crashes and
   * restarts come, as long as no start and no new recovery of that segment passes its check.  Batches of a
   * fenced writer, requests that are refused and the finalizing of the segment do no harm.
   */
  lemma AcceptedIsDurable(evs: seq<Event>, accept: Event, later: seq<Event>, r: RequestInfo, faults: seq<Fault>)
    requires accept.Call? && accept.request.AcceptRecovery?
    requires AdmissibleRun(evs + [accept] + later)
    requires Step(Run(FORMATTED, evs), accept).1.Done?
    requires NotRedecided(evs + [accept], later, accept.request.state.start)
    ensures
      var n := Run(FORMATTED, evs + [accept] + later);
      var a := Accepted(accept.request.info.epoch, accept.request.state);
      var reply := Step(n, Call(PrepareRecovery(r, a.segment.start), faults)).1;
      reply.Prepared? ==> Reports(reply, a, n.w.disk)
  {
    hide Inv, Settled, AdmissibleRun, NotRedecided, Step, Run;
    var all := evs + [accept] + later;
    var a := Accepted(accept.request.info.epoch, accept.request.state);
    assert all[..|evs + [accept]|] == evs + [accept];
    PrefixAdmissible(all, |evs + [accept]|);
    DoneSettles(evs, accept);
    RunKeepsSettled(evs + [accept], later, a);
    RunKeepsInv(all);
    SettledReports(Run(FORMATTED, all), r, faults, a);
  }

  lemma DoneSettles(evs: seq<Event>, accept: Event)
    requires accept.Call? && accept.request.AcceptRecovery?
    requires AdmissibleRun(evs + [accept]) && Step(Run(FORMATTED, evs), accept).1.Done?
    ensures
      var a := Accepted(accept.request.info.epoch, accept.request.state);
      Settled(Run(FORMATTED, evs + [accept]).w.disk, a) && 0 <= a.segment.start <= a.segment.end
  {
    hide Inv, Honest, OneTryPerEpoch, FirstTry, DoAccept, Step;
    var upTo := evs + [accept];
    assert upTo[..|evs|] == evs && upTo[|evs|] == accept;
    PrefixAdmissible(upTo, |evs|);
    RunKeepsInv(evs);
    TriesAreFirst(evs, accept);
    DoneIsAccepted(Run(FORMATTED, evs), accept.request, accept.faults);
    assert upTo[|upTo| - 1] == accept && upTo[..|upTo| - 1] == evs;
  }

  lemma SettledReports(n: Node, r: RequestInfo, faults: seq<Fault>, a: Accepted)
    requires Inv(n) && Settled(n.w.disk, a) && 0 <= a.segment.end
    ensures
      var reply := Step(n, Call(PrepareRecovery(r, a.segment.start), faults)).1;
      reply.Prepared? ==> Reports(reply, a, n.w.disk)
  {
    hide Inv, Settled, DoPrepare;
    if !n.w.dead {
      var m := n.(w := n.w.(faults := faults));
      FaultsDoNotMatter(n, faults, NewEpoch(true, 0));
      if DoPrepare(m, r, a.segment.start).1.Prepared? {
        PrepareReports(m, r, a);
      }
    }
  }

  // ----- The checks that are there just in case -----

  lemma PrepareAgrees(n: Node, r: RequestInfo, s: int)
    requires Inv(n) && !n.w.dead
    ensures DoPrepare(n, r, s).1 != Aborted(AcceptedDiffersFromDisk)
    ensures DoPrepare(n, r, s).1 != Aborted(BadPaxosFile)
  {
    hide Scan, IsLog, ReplaceFile, CheckRequest, GetSegmentInfo, VolOk;
    CheckRequestVol(n, r);
    CheckAborts(n, r);
    var n1 := AbortCurSegment(CheckRequest(n, r).0);
    var previous := PersistedPaxosData(n1.w.disk, s);
    if previous.Some? {
      var a := previous.value;
      var e := a.segment.end;
      var tmp := SyncTemp(s, a.epoch);
      assert Backed(n1.w.disk.logs, s, a);
      var (w2, rolled) := CompleteHalfDone(n1.w, a);
      if tmp in n1.w.disk.logs {
        HoldsScans(n1.w.disk.logs[tmp], s, e);
        ReplaceFileFrame(n1.w, tmp, InProgress(s));
      } else if !IsFinalized(n1.w.disk.logs, s) {
        HoldsScans(n1.w.disk.logs[InProgress(s)], s, e);
      } else {
        var x :| Finalized(s, x) in n1.w.disk.logs;
        assert 0 <= x;
      }
      InfoAt(w2, s);
    }
  }

  lemma CheckAborts(n: Node, r: RequestInfo)
    ensures CheckRequest(n, r).1 in {Passed, Stop(Refused), Stop(Lost), Stop(Aborted(CommittedMovesBack))}
  {
  }

  lemma AcceptInOrder(n: Node, r: RequestInfo, seg: Segment, download: Download)
    requires Inv(n) && EpochsOk(n.w.disk) && !n.w.dead
    ensures DoAccept(n, r, seg, download).1 != Aborted(EpochsOutOfOrder)
    ensures DoAccept(n, r, seg, download).1 != Aborted(BadPaxosFile)
  {
    hide Scan, IsLog, CheckRequest, GetSegmentInfo, SegmentsOk, VolOk, PersistPaxosData, ReplaceFile, SyncLog;
    CheckRequestVol(n, r);
    CheckedEpoch(n, r);
    CheckAborts(n, r);
    assert Paxos(seg.start) in n.w.disk.paxos ==> Backed(n.w.disk.logs, seg.start, n.w.disk.paxos[Paxos(seg.start)]);
  }

  lemma StreamIsThere(n: Node, q: Request)
    requires VolShape(n.vol) && q.JournalTxns? && 0 <= q.segmentTxId
    ensures Handle(n, q).1 != Aborted(NoStream)
  {
    hide CheckRequest;
    CheckRequestVol(n, q.info);
    CheckAborts(n, q.info);
  }

  ghost predicate JustInCase(why: AbortReason) {
    why in {AcceptedDiffersFromDisk, EpochsOutOfOrder, BadPaxosFile, NoStream}
  }

  lemma OtherAborts(n: Node, q: Request)
    requires !q.PrepareRecovery? && !q.AcceptRecovery? && !q.JournalTxns?
    ensures Handle(n, q).1.Aborted? ==> !JustInCase(Handle(n, q).1.why)
  {
    hide CheckRequest, GetLogFile, Scan, ScanStorage, Perform, PurgePaxosDecision;
    if !q.NewEpoch? {
      CheckAborts(n, q.info);
    }
  }

  /**
   * The process never aborts because an accepted recovery does not match the disk, because a recovery
   * comes out of order, because a record is filed under the wrong segment, or for want of a stream.
   */
  lemma ChecksNeverFire(evs: seq<Event>, ev: Event)
    requires AdmissibleRun(evs + [ev])
    ensures
      var reply := Step(Run(FORMATTED, evs), ev).1;
      reply.Aborted? ==> !JustInCase(reply.why)
  {
    hide Inv, Honest, OneTryPerEpoch, DoPrepare, DoAccept, EpochsOk, ScanStorage, JustInCase;
    var all := evs + [ev];
    assert all[..|evs|] == evs && all[|evs|] == ev;
    PrefixAdmissible(all, |evs|);
    RunKeepsInv(evs);
    FormattedEpochs();
    RunEpochs(FORMATTED, evs);
    var n := Run(FORMATTED, evs);
    if ev.Call? && !n.w.dead {
      var m := n.(w := n.w.(faults := ev.faults));
      FaultsDoNotMatter(n, ev.faults, ev.request);
      SameEpochs(n, ev.faults);
      AbortsOf(m, ev.request);
    }
  }

  lemma AbortsOf(n: Node, q: Request)
    requires Inv(n) && EpochsOk(n.w.disk) && !n.w.dead && Honest(n, q)
    ensures Handle(n, q).1.Aborted? ==> !JustInCase(Handle(n, q).1.why)
  {
    hide EpochsOk, CheckRequest, ReplaceFile, Scan, GetLogFile, GetSegmentInfo, SyncLog, CompleteHalfDone,
      PersistPaxosData;
    match q
    case PrepareRecovery(r, s) =>
      PrepareAgrees(n, r, s);
      CheckAborts(n, r);
    case AcceptRecovery(r, seg, download) =>
      AcceptInOrder(n, r, seg, download);
      CheckAborts(n, r);
    case JournalTxns(r, _, _, _, _) =>
      StreamIsThere(n, q);
      CheckAborts(n, r);
    case _ => OtherAborts(n, q);
  }

  lemma FormattedEpochs()
    ensures EpochsOk(FORMATTED.w.disk)
  {
  }

  lemma SameEpochs(n: Node, faults: seq<Fault>)
    requires EpochsOk(n.w.disk)
    ensures EpochsOk(n.(w := n.w.(faults := faults)).w.disk)
  {
  }
}
