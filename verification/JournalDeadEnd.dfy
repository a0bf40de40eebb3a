/**
 * A segment that is finalized while a recovery of another end is half done: the recovery is rolled forward
 * beside the finalized file, and from then on no preparation of the segment succeeds.
 */
module JournalDeadEnd {
  import opened Bytes
  import opened EditLog
  import opened Disk
  import opened JournalSpec
  import opened JournalFrames
  import opened JournalInvariant
  import opened JournalMoves
  import opened JournalTrails
  import opened JournalSafety
  import opened JournalEpochs
  import opened JournalRuns
  import opened JournalRecovery
  import opened JournalCalm
  import opened JournalProgress
  import opened JournalAtomicity

  /** Two logs of one segment, and nothing that would replace the unfinished one. */
  ghost predicate Stuck(d: Files, s: int) {
    && IsFinalized(d.logs, s) && InProgress(s) in d.logs && !HasNoTransactions(d.logs[InProgress(s)])
    && !HalfDone(d, s)
  }

  /** The event has a recovery of s accepted, and passes its check. */
  ghost predicate Accepts(n: Node, ev: Event, s: int) {
    Passes(n, ev) && ev.request.AcceptRecovery? && ev.request.state.start == s
  }

  // ----- No way out but another accept -----

  lemma MoveKeepsStuck(d: Files, m: Move, d': Files, c: Context, s: int)
    requires c.sound && DiskOk(d.logs, d.paxos) && Legal(d, m, d', c) && Stuck(d, s)
    requires !((m.Fetch? || m.Record?) && m.s == s)
    ensures Stuck(d', s)
  {
    hide Scan, IsLog, IsBatch, RecordsOk, Allowed, Header, IsFinalized, SegmentsOk, HasNoTransactions;
    FinalizedMoves(d, m, d', c, s);
    if m.Append? && m.s == s {
      AppendedHasTransactions(d.logs[InProgress(s)], s, m.first, m.records, m.num);
    }
  }

  /** A segment stays finalized, and cannot be started or finalized again. */
  lemma FinalizedMoves(d: Files, m: Move, d': Files, c: Context, s: int)
    requires DiskOk(d.logs, d.paxos) && Legal(d, m, d', c) && IsFinalized(d.logs, s)
    ensures IsFinalized(d'.logs, s) && !((m.Open? || m.FinalizeAs?) && m.s == s)
  {
    hide Scan, IsLog, RecordsOk, Allowed, Sound, Header;
    var e :| Finalized(s, e) in d.logs;
    HoldsScans(d.logs[Finalized(s, e)], s, e);
    assert Finalized(s, e) in LogsAt(d, s);
    assert Finalized(s, e) in d'.logs;
  }

  lemma AppendedHasTransactions(b: Bytes, s: int, first: int, records: Bytes, num: int)
    requires 0 <= s <= first && 0 <= num && IsLog(b, s, first - s) && !HasNoTransactions(b)
    requires IsBatch(records, first, num) && |b + records| < POSITIONS
    ensures !HasNoTransactions(b + records)
  {
    hide Scan, IsLog, IsBatch;
    ScanLog(b, s, first - s);
    AppendBatch(b, s, first - s, records, num);
    ScanLog(b + records, s, first - s + num);
  }

  lemma {:induction false} TrailKeepsStuck(t: Trail, c: Context, s: int)
    requires c.sound && Valid(t, c) && DiskOk(t.d.logs, t.d.paxos) && Stuck(t.d, s)
    requires c.request.Some? && c.request.value.AcceptRecovery? ==> c.request.value.state.start != s
    ensures Stuck(Last(t), s)
  {
    hide Legal, DiskOk, Stuck;
    if t.Via? {
      assert !((t.m.Fetch? || t.m.Record?) && t.m.s == s) by { AcceptMoves(t.d, t.m, t.rest.d, c, s); }
      MoveKeepsStuck(t.d, t.m, t.rest.d, c, s);
      MoveKeepsDisk(t.d, t.m, t.rest.d, c);
      TrailKeepsStuck(t.rest, c, s);
    }
  }

  lemma AcceptMoves(d: Files, m: Move, d': Files, c: Context, s: int)
    requires Legal(d, m, d', c)
    requires c.request.Some? && c.request.value.AcceptRecovery? ==> c.request.value.state.start != s
    ensures !((m.Fetch? || m.Record?) && m.s == s)
  {
    hide Takes, Sound;
  }

  lemma StepKeepsStuck(n: Node, ev: Event, s: int)
    requires Inv(n) && VolShape(n.vol) && Stuck(n.w.disk, s) && !Accepts(n, ev, s)
    requires ev.Call? ==> Admissible(n, ev.request)
    ensures Stuck(Step(n, ev).0.w.disk, s)
  {
    hide Handle, ScanStorage, Valid, DiskOk, CheckRequest, VolShape, Honest, FirstTry, IsFinalized, HasNoTransactions;
    if ev.Call? && ev.request.AcceptRecovery? && ev.request.state.start == s {
      if !n.w.dead {
        StoppedKeeps(n.(w := n.w.(faults := ev.faults)), ev.request);
      }
    } else {
      StepTrail(n, ev, true);
      var c := Context(RequestOf(ev), true);
      var t :| Joins(t, n.w.disk, c, Step(n, ev).0.w.disk);
      TrailKeepsStuck(t, c, s);
    }
  }

  lemma StuckRefuses(n: Node, r: RequestInfo, faults: seq<Fault>, s: int)
    requires Inv(n) && Stuck(n.w.disk, s)
    ensures !Step(n, Call(PrepareRecovery(r, s), faults)).1.Prepared?
  {
    hide Scan, IsLog, CheckRequest, RecordsOk, VolOk, ReplaceFile;
    if !n.w.dead {
      var m := n.(w := n.w.(faults := faults));
      CheckRequestVol(m, r);
      CheckedEpoch(m, r);
      TwoLogs(AbortCurSegment(CheckRequest(m, r).0).w.disk, s);
    }
  }

  lemma NextKeepsStuck(before: seq<Event>, ev: Event, s: int)
    requires AdmissibleRun(before + [ev]) && Stuck(Run(FORMATTED, before).w.disk, s)
    requires !Accepts(Run(FORMATTED, before), ev, s)
    ensures Stuck(Run(FORMATTED, before + [ev]).w.disk, s)
  {
    hide Stuck, Accepts, Step, Honest, OneTryPerEpoch, FirstTry, Inv;
    var all := before + [ev];
    assert all[..|before|] == before && all[|before|] == ev;
    PrefixAdmissible(all, |before|);
    RunKeepsInv(before);
    if ev.Call? && ev.request.AcceptRecovery? {
      TriesAreFirst(before, ev);
    }
    StepKeepsStuck(Run(FORMATTED, before), ev, s);
  }

  /** Nothing in later, continuing the run evs, has a recovery of s accepted. */
  ghost predicate NotAccepted(evs: seq<Event>, later: seq<Event>, s: int) {
    forall i :: 0 <= i < |later| ==> !Accepts(Run(FORMATTED, evs + later[..i]), later[i], s)
  }

  lemma NotAcceptedPrefix(evs: seq<Event>, later: seq<Event>, k: nat, s: int)
    requires NotAccepted(evs, later, s) && k <= |later|
    ensures NotAccepted(evs, later[..k], s)
  {
    hide Accepts, Run;
    forall i | 0 <= i < k
      ensures later[..k][..i] == later[..i] && later[..k][i] == later[i]
    {
    }
  }

  lemma {:induction false} RunStaysStuck(evs: seq<Event>, later: seq<Event>, s: int)
    requires AdmissibleRun(evs + later) && Stuck(Run(FORMATTED, evs).w.disk, s) && NotAccepted(evs, later, s)
    ensures Stuck(Run(FORMATTED, evs + later).w.disk, s)
    decreases |later|
  {
    hide Stuck, Accepts, Run, AdmissibleRun;
    if later == [] {
      assert evs + later == evs;
    } else {
      var most, ev := later[..|later| - 1], later[|later| - 1];
      var before := evs + most;
      assert (evs + later)[..|before|] == before && evs + later == before + [ev];
      PrefixAdmissible(evs + later, |before|);
      NotAcceptedPrefix(evs, later, |most|, s);
      RunStaysStuck(evs, most, s);
      NextKeepsStuck(before, ev, s);
    }
  }

  /**
   * Once there, every later preparation of the segment fails, through any requests, faults, crashes and
   * restarts, until another recovery of the segment passes its check.
   */
  lemma NeverPreparedAgain(evs: seq<Event>, later: seq<Event>, s: int, r: RequestInfo, faults: seq<Fault>)
    requires AdmissibleRun(evs + later) && Stuck(Run(FORMATTED, evs).w.disk, s) && NotAccepted(evs, later, s)
    ensures !Step(Run(FORMATTED, evs + later), Call(PrepareRecovery(r, s), faults)).1.Prepared?
  {
    hide Stuck, NotAccepted, AdmissibleRun, Step, Inv, Run;
    RunStaysStuck(evs, later, s);
    RunKeepsInv(evs + later);
    StuckRefuses(Run(FORMATTED, evs + later), r, faults, s);
  }

  // ----- A run that gets there -----

  /**
   * A recovery of more than the node has crashes between record and rename; after the restart the end in
   * place is finalized, but the record cannot be removed; the next preparation rolls the recovery forward.
   */
  function DeadEnd(epoch: int, serial: int, s: int, next: int, content: Bytes): seq<Event> {
    [Call(AcceptRecovery(RequestInfo(epoch, serial + 1, INVALID_TXID), Segment(s, next, true), Complete(content)),
          [Works, CrashAfter]),
     Restart([]),
     Call(FinalizeLogSegment(RequestInfo(epoch, 0, INVALID_TXID), s, next - 1), [Works, Fails]),
     Call(PrepareRecovery(RequestInfo(epoch, 1, INVALID_TXID), s), [])]
  }

  /** The recovery is recorded, its file waits, and the process is gone. */
  lemma HalfAccepted(n: Node, epoch: int, serial: int, s: int, next: int, b: Bytes, content: Bytes) returns (n': Node)
    requires Writing(n, epoch, serial, s, next, b) && 0 <= s < next && 0 <= serial
    requires SyncTemp(s, epoch) !in n.w.disk.logs && Holds(content, s, next)
    ensures n' == Step(n, DeadEnd(epoch, serial, s, next, content)[0]).0
    ensures Inv(n') && VolShape(n'.vol) && EpochsOk(n'.w.disk) && OneFinal(n'.w.disk.logs)
    ensures
      var d, a := n.w.disk, Accepted(epoch, Segment(s, next, true));
      && n'.w.disk.logs == d.logs[SyncTemp(s, epoch) := content] && n'.w.disk.longs == d.longs
      && PersistedPaxosData(n'.w.disk, s) == Some(a)
  {
    hide Scan, IsLog, DiskOk, EpochsOk, OneFinal, CheckRequest;
    var ev := DeadEnd(epoch, serial, s, next, content)[0];
    WritingHolds(n, epoch, serial, s, next, b);
    assert FirstTry(n.w.disk, s, epoch);
    StepKeepsInv(n, ev);
    StepKeepsOneFinal(n, ev);
    StepEpochs(n, ev);
    n' := Step(n, ev).0;
    assert InTurn(n, RequestInfo(epoch, serial + 1, INVALID_TXID));
    CrashingAccept(n.(w := n.w.(faults := ev.faults)), RequestInfo(epoch, serial + 1, INVALID_TXID), s, next, content);
  }

  lemma CrashingAccept(n: Node, r: RequestInfo, s: int, next: int, content: Bytes)
    requires !n.w.dead && n.w.faults == [Works, CrashAfter] && r.epoch == PromisedEpoch(n.w.disk)
    requires n.vol.serial < r.serial && r.committed == INVALID_TXID && 0 <= s < next
    requires InProgress(s) in n.w.disk.logs && Scan(n.w.disk.logs[InProgress(s)]) == LastTxId(next - 1)
    requires !IsFinalized(n.w.disk.logs, s) && Paxos(s) !in n.w.disk.paxos
    ensures
      var d, d' := n.w.disk, DoAccept(n, r, Segment(s, next, true), Complete(content)).0.w.disk;
      && d'.logs == d.logs[SyncTemp(s, r.epoch) := content] && d'.longs == d.longs
      && PersistedPaxosData(d', s) == Some(Accepted(r.epoch, Segment(s, next, true)))
  {
    hide Scan, CommitAccept, CheckRequest;
    assert CheckRequest(n, r) == (n.(vol := n.vol.(serial := r.serial)), Passed) by { PlainCheck(n, r); }
    OnlyInProgress(n.w.disk, s);
    var n1 := AbortCurSegment(n.(vol := n.vol.(serial := r.serial)));
    var w2 := SyncLog(n1.w, s, r.epoch, Complete(content)).0;
    CrashingCommit(n1.(w := w2), Accepted(r.epoch, Segment(s, next, true)));
  }

  lemma PlainCheck(n: Node, r: RequestInfo)
    requires r.epoch == PromisedEpoch(n.w.disk) && n.vol.serial < r.serial && r.committed == INVALID_TXID
    ensures CheckRequest(n, r) == (n.(vol := n.vol.(serial := r.serial)), Passed)
  {
  }

  lemma CrashingCommit(n: Node, a: Accepted)
    requires !n.w.dead && n.w.faults == [Works, CrashAfter]
    ensures
      var d, d' := n.w.disk, CommitAccept(n, a, true).0.w.disk;
      d'.logs == d.logs && d'.longs == d.longs && PersistedPaxosData(d', a.segment.start) == Some(a)
  {
    hide ReplaceFile;
  }

  /** The end in place is finalized; the record stays because it cannot be removed. */
  lemma FinalizedHalfway(n: Node, epoch: int, s: int, e: int)
    requires Good(n) && n.vol == FRESH && PromisedEpoch(n.w.disk) == epoch && 0 <= s <= e
    requires InProgress(s) in n.w.disk.logs && Scan(n.w.disk.logs[InProgress(s)]) == LastTxId(e)
    requires !IsFinalized(n.w.disk.logs, s) && HalfDone(n.w.disk, s)
    ensures
      var n' := Step(n, Call(FinalizeLogSegment(RequestInfo(epoch, 0, INVALID_TXID), s, e), [Works, Fails])).0;
      && Good(n') && PromisedEpoch(n'.w.disk) == epoch && n'.vol.serial == 0 && n'.vol.committed == INVALID_TXID
      && IsFinalized(n'.w.disk.logs, s) && HalfDone(n'.w.disk, s) && n'.w.disk.paxos == n.w.disk.paxos
      && (forall t, x :: SyncTemp(t, x) in n.w.disk.logs ==>
            SyncTemp(t, x) in n'.w.disk.logs && n'.w.disk.logs[SyncTemp(t, x)] == n.w.disk.logs[SyncTemp(t, x)])
  {
    hide Scan, IsLog, DiskOk, EpochsOk, OneFinal, VolOk;
    var ev := Call(FinalizeLogSegment(RequestInfo(epoch, 0, INVALID_TXID), s, e), [Works, Fails]);
    StepKeepsInv(n, ev);
    StepKeepsOneFinal(n, ev);
    StepEpochs(n, ev);
    OnlyInProgress(n.w.disk, s);
    assert Finalized(s, e) in Step(n, ev).0.w.disk.logs;
  }

  /** From every state in which a writer has some of a segment open. */
  lemma DeadEndHappens(n: Node, epoch: int, serial: int, s: int, next: int, b: Bytes, content: Bytes)
    requires Writing(n, epoch, serial, s, next, b) && 0 <= s < next && 0 <= serial
    requires SyncTemp(s, epoch) !in n.w.disk.logs && Holds(content, s, next)
    ensures
      var evs := DeadEnd(epoch, serial, s, next, content);
      ReplyTo(n, evs, 3) == Refused && Stuck(After(n, evs, 4).w.disk, s)
  {
    hide Step, IsLog, Scan, DiskOk, EpochsOk, OneFinal, VolOk, Tidied, IsFinalized;
    var evs := DeadEnd(epoch, serial, s, next, content);
    WritingHolds(n, epoch, serial, s, next, b);
    var n1 := HalfAccepted(n, epoch, serial, s, next, b, content);
    assert After(n, evs, 0) == n;
    assert After(n, evs, 1) == n1;
    RestartTidies(n1);
    var n2 := Step(n1, evs[1]).0;
    assert After(n, evs, 2) == n2;
    StillHalfDone(n.w.disk, n1.w.disk, n2.w.disk, epoch, s, next, content);
    FinalizedHalfway(n2, epoch, s, next - 1);
    var n3 := Step(n2, evs[2]).0;
    assert After(n, evs, 3) == n3;
    HoldsScans(content, s, next);
    RolledBeside(n3, epoch, s, content);
  }

  lemma StillHalfDone(d: Files, d1: Files, d2: Files, epoch: int, s: int, next: int, content: Bytes)
    requires InProgress(s) in d.logs && Scan(d.logs[InProgress(s)]) == LastTxId(next - 1) && 0 <= s < next
    requires d1.logs == d.logs[SyncTemp(s, epoch) := content] && d1.longs == d.longs && !IsFinalized(d.logs, s)
    requires PersistedPaxosData(d1, s) == Some(Accepted(epoch, Segment(s, next, true))) && Tidied(d1, d2)
    ensures HalfDone(d2, s) && d2.longs == d.longs && !IsFinalized(d2.logs, s)
    ensures d2.paxos[Paxos(s)].epoch == epoch && d2.logs[SyncTemp(s, epoch)] == content
    ensures InProgress(s) in d2.logs && Scan(d2.logs[InProgress(s)]) == LastTxId(next - 1)
  {
    hide Scan;
  }

  lemma RolledBeside(n: Node, epoch: int, s: int, content: Bytes)
    requires Good(n) && PromisedEpoch(n.w.disk) == epoch && n.vol.serial == 0 && n.vol.committed == INVALID_TXID
    requires 0 <= s && IsFinalized(n.w.disk.logs, s) && HalfDone(n.w.disk, s) && n.w.disk.paxos[Paxos(s)].epoch == epoch
    requires n.w.disk.logs[SyncTemp(s, epoch)] == content && !HasNoTransactions(content)
    ensures
      var (n', reply) := Step(n, Call(PrepareRecovery(RequestInfo(epoch, 1, INVALID_TXID), s), []));
      reply == Refused && Stuck(n'.w.disk, s)
  {
    hide VolShape, EpochsOk, OneFinal, DoPrepare, HasNoTransactions, IsFinalized, DiskOk, VolOk;
    var r := RequestInfo(epoch, 1, INVALID_TXID);
    GoodStep(n, PrepareRecovery(r, s));
    var m := n.(w := n.w.(faults := []));
    assert Blocked(m.w.disk, s);
    BlockedPrepare(m, r, s);
  }
}
