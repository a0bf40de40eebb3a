/** Promises, fencing and ordering over whole runs; nothing is assumed of the requests here. */
module JournalEpochs {
  import opened EditLog
  import opened Disk
  import opened JournalSpec
  import opened JournalFrames
  import opened JournalInvariant
  import opened JournalMoves
  import opened JournalTrails
  import opened JournalSafety

  // ----- Epochs on disk -----

  ghost predicate EpochsOk(d: Files) {
    && WriterEpoch(d) <= PromisedEpoch(d)
    && (forall s :: Paxos(s) in d.paxos ==> d.paxos[Paxos(s)].epoch <= PromisedEpoch(d))
  }

  ghost predicate KeepsPromises(d: Files, d': Files) {
    && PromisedEpoch(d) <= PromisedEpoch(d') && WriterEpoch(d) <= WriterEpoch(d')
    && EpochsOk(d')
  }

  lemma MoveEpochs(d: Files, m: Move, d': Files, c: Context)
    requires EpochsOk(d) && Legal(d, m, d', c)
    ensures KeepsPromises(d, d')
    ensures WriterEpoch(d') == WriterEpoch(d) || (c.request.Some? && c.request.value.StartLogSegment?)
  {
    hide Tidied, HalfDone, Scan, Sound;
    if m.Tidy? {
      TidyKeepsLongs(d, d');
    }
  }

  lemma TidyKeepsLongs(d: Files, d': Files)
    requires Tidied(d, d')
    ensures SameButLogs(d, d')
  {
  }

  lemma {:induction false} TrailEpochs(t: Trail, c: Context)
    requires EpochsOk(t.d) && Valid(t, c)
    ensures KeepsPromises(t.d, Last(t))
    ensures WriterEpoch(Last(t)) == WriterEpoch(t.d) || (c.request.Some? && c.request.value.StartLogSegment?)
  {
    hide EpochsOk, Legal;
    if t.Via? {
      MoveEpochs(t.d, t.m, t.rest.d, c);
      TrailEpochs(t.rest, c);
    }
  }

  /** One event: epochs never decrease, and stay ordered. */
  lemma StepEpochs(n: Node, ev: Event)
    requires VolShape(n.vol) && EpochsOk(n.w.disk)
    ensures
      var d, d' := n.w.disk, Step(n, ev).0.w.disk;
      && KeepsPromises(d, d') && VolShape(Step(n, ev).0.vol)
      && (WriterEpoch(d') == WriterEpoch(d) || (ev.Call? && ev.request.StartLogSegment?))
  {
    hide Step, EpochsOk, Valid;
    StepShape(n, ev);
    StepTrail(n, ev, false);
    var c := Context(RequestOf(ev), false);
    var t :| Joins(t, n.w.disk, c, Step(n, ev).0.w.disk);
    TrailEpochs(t, c);
  }

  /**
   * In every state a run reaches, no writer and no accepted recovery is ahead of the promise, and both epochs
   * only grew.
   */
  lemma {:induction false} RunEpochs(n: Node, evs: seq<Event>)
    requires VolShape(n.vol) && EpochsOk(n.w.disk)
    ensures KeepsPromises(n.w.disk, Run(n, evs).w.disk) && VolShape(Run(n, evs).vol)
  {
    hide EpochsOk, Step;
    if evs == [] {
      assert Run(n, evs) == n;
    } else {
      var before := evs[..|evs| - 1];
      RunEpochs(n, before);
      StepEpochs(Run(n, before), evs[|evs| - 1]);
    }
  }

  // ----- Fencing -----

  /** The epoch a request speaks for. */
  ghost function EpochOf(q: Request): int {
    match q
    case NewEpoch(_, e) => e
    case StartLogSegment(r, _, _) => r.epoch
    case JournalTxns(r, _, _, _, _) => r.epoch
    case FinalizeLogSegment(r, _, _) => r.epoch
    case PrepareRecovery(r, _) => r.epoch
    case AcceptRecovery(r, _, _) => r.epoch
  }

  lemma CheckedEpoch(n: Node, r: RequestInfo)
    ensures
      var (n', check) := CheckRequest(n, r);
      && (check.Passed? ==> PromisedEpoch(n.w.disk) <= r.epoch && PromisedEpoch(n'.w.disk) == r.epoch)
      && (check.Stop? ==> !Success(check.reply))
      && n'.vol == n.vol.(serial := n'.vol.serial, committed := n'.vol.committed)
      && WriterEpoch(n'.w.disk) == WriterEpoch(n.w.disk)
  {
  }

  /** A request that succeeds speaks for an epoch at or past the promise, and leaves it promised. */
  lemma SuccessPromises(n: Node, q: Request, faults: seq<Fault>)
    requires VolShape(n.vol) && EpochsOk(n.w.disk) && Success(Step(n, Call(q, faults)).1)
    ensures PromisedEpoch(n.w.disk) <= EpochOf(q) <= PromisedEpoch(Step(n, Call(q, faults)).0.w.disk)
  {
    hide EpochsOk, Handle, CheckRequest, Valid;
    var m := n.(w := n.w.(faults := faults));
    assert !m.w.dead && Success(Handle(m, q).1);
    if q.NewEpoch? {
      PromiseKept(m, q);
    } else {
      CheckedEpoch(m, q.info);
      PassedCheck(m, q);
      var c := Context(Some(q), false);
      BodyTrail(m, q, c);
      var checked := CheckRequest(m, q.info).0.w.disk;
      CheckedEpochsOk(m, q.info);
      var t :| Joins(t, checked, c, Handle(m, q).0.w.disk);
      TrailEpochs(t, c);
    }
  }

  lemma CheckedEpochsOk(n: Node, r: RequestInfo)
    requires EpochsOk(n.w.disk)
    ensures EpochsOk(CheckRequest(n, r).0.w.disk)
  {
  }

  lemma PassedCheck(n: Node, q: Request)
    requires !q.NewEpoch? && Success(Handle(n, q).1)
    ensures CheckRequest(n, q.info).1.Passed?
  {
    hide CheckRequest, Scan, GetLogFile, GetSegmentInfo, ReplaceFile, PersistPaxosData, OpenSegment, SyncLog,
      CompleteHalfDone;
    CheckedEpoch(n, q.info);
  }

  lemma PromiseKept(n: Node, q: Request)
    requires q.NewEpoch? && Success(Handle(n, q).1)
    ensures PromisedEpoch(n.w.disk) < q.proposed == PromisedEpoch(Handle(n, q).0.w.disk)
  {
    hide Tidied, ScanDown;
    var n2 := AbortCurSegment(UpdatePromise(n, q.proposed).0);
    ScanStorageFrame(n2.w);
    TidyKeepsLongs(n2.w.disk, ScanStorage(n2.w).0.disk);
  }

  /**
   * Fencing.  From the moment the promise of an epoch is on disk, whichever request wrote it and whatever
   * became of that request, no request for a smaller epoch succeeds: not in any order of requests, faults,
   * crashes and restarts in between.
   */
  lemma Fencing(n: Node, between: seq<Event>, late: Request, faults: seq<Fault>)
    requires VolShape(n.vol) && EpochsOk(n.w.disk)
    requires EpochOf(late) < PromisedEpoch(n.w.disk)
    ensures !Success(Step(Run(n, between), Call(late, faults)).1)
  {
    hide Step, EpochsOk;
    RunEpochs(n, between);
    var n' := Run(n, between);
    if Success(Step(n', Call(late, faults)).1) {
      SuccessPromises(n', late, faults);
    }
  }

  /** In particular, once a request for epoch e succeeded. */
  lemma SuccessFences(n: Node, q: Request, faults: seq<Fault>, between: seq<Event>, late: Request,
                      lateFaults: seq<Fault>)
    requires VolShape(n.vol) && EpochsOk(n.w.disk)
    requires Success(Step(n, Call(q, faults)).1)
    requires EpochOf(late) < EpochOf(q)
    ensures !Success(Step(Run(Step(n, Call(q, faults)).0, between), Call(late, lateFaults)).1)
  {
    hide Step, EpochsOk;
    SuccessPromises(n, q, faults);
    StepEpochs(n, Call(q, faults));
    Fencing(Step(n, Call(q, faults)).0, between, late, lateFaults);
  }

  // ----- One writer per open segment -----

  /** The epoch and segment of the last startLogSegment that succeeded since the process started. */
  ghost function Opener(n: Node, evs: seq<Event>): Option<(int, int)> {
    if evs == [] then None
    else
      var ev := evs[|evs| - 1];
      var before := evs[..|evs| - 1];
      if ev.Restart? then None
      else if ev.request.StartLogSegment? && Step(Run(n, before), ev).1.Done? then
        Some((ev.request.info.epoch, ev.request.txid))
      else Opener(n, before)
  }

  /** The current segment, if there is one, was opened by the writer epoch on disk. */
  ghost predicate OpenedBy(n: Node, opener: Option<(int, int)>) {
    !n.w.dead && n.vol.curSegmentTxId != INVALID_TXID ==>
      opener == Some((WriterEpoch(n.w.disk), n.vol.curSegmentTxId))
  }

  /** A request keeps the segment, closes it, or is a successful start. */
  lemma HandleSegment(n: Node, q: Request)
    requires VolShape(n.vol)
    ensures
      var (n', reply) := Handle(n, q);
      if q.StartLogSegment? && reply.Done?
      then n'.vol.curSegmentTxId == q.txid && n'.vol.stream == Some(q.txid)
      else n'.vol.curSegmentTxId in {n.vol.curSegmentTxId, INVALID_TXID}
    ensures
      var (n', reply) := Handle(n, q);
      q.StartLogSegment? && !reply.Done? && n'.vol.curSegmentTxId != INVALID_TXID ==>
        WriterEpoch(n'.w.disk) == WriterEpoch(n.w.disk) || n'.w.dead
  {
    hide CheckRequest, Scan, GetLogFile, GetSegmentInfo, ReplaceFile, PersistPaxosData, SyncLog, CompleteHalfDone,
      Perform, PurgePaxosDecision, ScanStorage, WriterEpoch;
    if !q.NewEpoch? {
      CheckedEpoch(n, q.info);
    }
  }

  lemma StartWriter(n: Node, q: Request)
    requires q.StartLogSegment? && Handle(n, q).1.Done?
    ensures WriterEpoch(Handle(n, q).0.w.disk) == q.info.epoch
  {
    hide CheckRequest, Scan, GetLogFile, OpenSegment;
    CheckedEpoch(n, q.info);
    OpenSegmentWriter(AbortCurSegment(CheckRequest(n, q.info).0), q.info.epoch, q.txid, q.layoutVersion);
  }

  lemma OpenSegmentWriter(n: Node, epoch: int, s: int, layout: int)
    requires OpenSegment(n, epoch, s, layout).1.Done?
    ensures WriterEpoch(OpenSegment(n, epoch, s, layout).0.w.disk) == epoch
  {
    hide Header;
  }

  lemma {:induction false} RunOpenedBy(n: Node, evs: seq<Event>)
    requires VolShape(n.vol) && EpochsOk(n.w.disk) && n.vol.curSegmentTxId == INVALID_TXID
    ensures OpenedBy(Run(n, evs), Opener(n, evs))
  {
    hide EpochsOk, Handle, ScanStorage, WriterEpoch;
    if evs == [] {
      assert Run(n, evs) == n;
    } else {
      var before, ev := evs[..|evs| - 1], evs[|evs| - 1];
      RunOpenedBy(n, before);
      RunEpochs(n, before);
      var m := Run(n, before);
      StepEpochs(m, ev);
      if ev.Call? && !m.w.dead {
        var m1 := m.(w := m.w.(faults := ev.faults));
        HandleSegment(m1, ev.request);
        if ev.request.StartLogSegment? && Handle(m1, ev.request).1.Done? {
          StartWriter(m1, ev.request);
        }
      }
    }
  }

  lemma JournalEpoch(n: Node, q: Request)
    requires VolShape(n.vol) && q.JournalTxns? && q.segmentTxId != INVALID_TXID && Handle(n, q).1.Done?
    ensures
      && q.info.epoch == WriterEpoch(n.w.disk)
      && n.vol.curSegmentTxId == q.segmentTxId && n.vol.stream == Some(q.segmentTxId) && n.vol.nextTxId == q.firstTxnId
      && !Handle(n, q).0.w.dead
      && PromisedEpoch(Handle(n, q).0.w.disk) == WriterEpoch(Handle(n, q).0.w.disk) == q.info.epoch
  {
    hide CheckRequest;
    CheckedEpoch(n, q.info);
  }

  /**
   * One writer per segment.  Every batch a run acknowledges carries the epoch that is promised, that is
   * the writer epoch, and that opened the segment since the process started.
   */
  lemma SingleWriter(n: Node, evs: seq<Event>, q: Request, faults: seq<Fault>)
    requires VolShape(n.vol) && EpochsOk(n.w.disk) && n.vol.curSegmentTxId == INVALID_TXID
    requires q.JournalTxns? && q.segmentTxId != INVALID_TXID
    requires Step(Run(n, evs), Call(q, faults)).1.Done?
    ensures Opener(n, evs) == Some((q.info.epoch, q.segmentTxId))
    ensures
      var d' := Step(Run(n, evs), Call(q, faults)).0.w.disk;
      q.info.epoch == WriterEpoch(d') == PromisedEpoch(d')
  {
    hide Handle, EpochsOk, Opener, WriterEpoch;
    RunOpenedBy(n, evs);
    RunEpochs(n, evs);
    var m := Run(n, evs);
    JournalEpoch(m.(w := m.w.(faults := faults)), q);
  }

  // ----- Requests in order -----

  ghost predicate Precedes(e: int, s: int, e': int, s': int) {
    e < e' || (e == e' && s < s')
  }

  /** How far a node is in the order of requests: it never goes back while the process lives. */
  ghost predicate NotBehind(n: Node, n': Node) {
    && !Precedes(PromisedEpoch(n'.w.disk), n'.vol.serial, PromisedEpoch(n.w.disk), n.vol.serial)
    && n.vol.committed <= n'.vol.committed
  }

  /** The request gets past its check. */
  ghost predicate Passes(n: Node, ev: Event) {
    && !n.w.dead && ev.Call? && !ev.request.NewEpoch?
    && CheckRequest(n.(w := n.w.(faults := ev.faults)), ev.request.info).1.Passed?
  }

  lemma CheckOrder(n: Node, r: RequestInfo)
    ensures
      var (n', check) := CheckRequest(n, r);
      && NotBehind(n, n')
      && (check.Passed? ==>
            && Precedes(PromisedEpoch(n.w.disk), n.vol.serial, r.epoch, r.serial)
            && PromisedEpoch(n'.w.disk) == r.epoch && n'.vol.serial == r.serial)
  {
  }

  lemma BodyVol(n: Node, q: Request)
    requires !q.NewEpoch?
    ensures
      var n0 := CheckRequest(n, q.info).0;
      var n' := Handle(n, q).0;
      && n'.vol.serial == n0.vol.serial && n'.vol.committed == n0.vol.committed
      && (CheckRequest(n, q.info).1.Stop? ==> n' == n0)
  {
    hide CheckRequest, Scan, GetLogFile, GetSegmentInfo, ReplaceFile, PersistPaxosData, SyncLog, CompleteHalfDone,
      Perform, PurgePaxosDecision;
  }

  lemma NewEpochOrder(n: Node, q: Request)
    requires q.NewEpoch?
    ensures NotBehind(n, Handle(n, q).0)
  {
    hide Tidied, ScanDown;
    var n2 := AbortCurSegment(UpdatePromise(n, q.proposed).0);
    ScanStorageFrame(n2.w);
    TidyKeepsLongs(n2.w.disk, ScanStorage(n2.w).0.disk);
  }

  lemma StepOrder(n: Node, ev: Event)
    requires VolShape(n.vol) && EpochsOk(n.w.disk) && ev.Call?
    ensures NotBehind(n, Step(n, ev).0)
    ensures Passes(n, ev) ==>
              var (n', r) := (Step(n, ev).0, ev.request.info);
              && Precedes(PromisedEpoch(n.w.disk), n.vol.serial, r.epoch, r.serial)
              && !Precedes(PromisedEpoch(n'.w.disk), n'.vol.serial, r.epoch, r.serial)
  {
    hide EpochsOk, Handle, CheckRequest, Valid;
    var q := ev.request;
    var m := n.(w := n.w.(faults := ev.faults));
    if !n.w.dead {
      if q.NewEpoch? {
        NewEpochOrder(m, q);
      } else {
        CheckOrder(m, q.info);
        BodyVol(m, q);
        var c := Context(Some(q), false);
        BodyTrail(m, q, c);
        CheckedEpochsOk(m, q.info);
        var t :| Joins(t, CheckRequest(m, q.info).0.w.disk, c, Handle(m, q).0.w.disk);
        TrailEpochs(t, c);
      }
    }
  }

  lemma {:induction false} RunOrder(n: Node, evs: seq<Event>)
    requires VolShape(n.vol) && EpochsOk(n.w.disk)
    requires forall ev <- evs :: ev.Call?
    ensures NotBehind(n, Run(n, evs))
  {
    hide EpochsOk, Step;
    if evs == [] {
      assert Run(n, evs) == n;
    } else {
      var before, ev := evs[..|evs| - 1], evs[|evs| - 1];
      RunOrder(n, before);
      RunEpochs(n, before);
      assert ev in evs;
      StepOrder(Run(n, before), ev);
    }
  }

  /**
   * Between two restarts the requests that pass their check come in strictly increasing order of
   * (epoch, serial), and the committed txid never moves back.
   */
  lemma InOrder(n: Node, first: Event, between: seq<Event>, second: Event)
    requires VolShape(n.vol) && EpochsOk(n.w.disk)
    requires forall ev <- between :: ev.Call?
    requires Passes(n, first) && Passes(Run(Step(n, first).0, between), second)
    ensures Precedes(first.request.info.epoch, first.request.info.serial,
                     second.request.info.epoch, second.request.info.serial)
    ensures n.vol.committed <= Step(Run(Step(n, first).0, between), second).0.vol.committed
  {
    hide EpochsOk, Step, Passes;
    PassesCalls(n, first);
    PassesCalls(Run(Step(n, first).0, between), second);
    StepOrder(n, first);
    StepEpochs(n, first);
    RunOrder(Step(n, first).0, between);
    RunEpochs(Step(n, first).0, between);
    StepOrder(Run(Step(n, first).0, between), second);
  }

  lemma PassesCalls(n: Node, ev: Event)
    requires Passes(n, ev)
    ensures ev.Call? && !ev.request.NewEpoch?
  {
  }
}
