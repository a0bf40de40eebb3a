/**
 * No accepted recovery discards what is committed: what the check of acceptRecovery is for, exactly when it does
 * its work, and a run in which it does not.
 */
module JournalCommitted {
  import opened Bytes
  import opened EditLog
  import opened Disk
  import opened JournalSpec
  import opened JournalFrames
  import opened JournalInvariant
  import opened JournalMoves
  import opened JournalTrails
  import opened JournalSafety
  import opened JournalEpochs
  import opened JournalRuns
  import opened JournalRecovery
  import opened JournalCalm
  import opened JournalProgress
  import opened JournalAtomicity
  import opened JournalDeadEnd
  import opened StorageScan

  /** The committed txid the node knows after a request has been checked is no smaller than before. */
  lemma CommittedGrows(n: Node, r: RequestInfo)
    requires CheckRequest(n, r).1.Passed?
    ensures n.vol.committed <= CheckRequest(n, r).0.vol.committed
  {
  }

  lemma AcceptedCommit(n: Node, a: Accepted, synced: bool)
    ensures CommitAccept(n, a, synced).0.vol == n.vol
  {
    hide PersistPaxosData, ReplaceFile;
  }

  /**
   * Whatever fails on the way: a recovery that is accepted does not end below a committed txid that the log in
   * place holds.
   */
  lemma AcceptKeepsCommitted(n: Node, r: RequestInfo, seg: Segment, download: Download, e: int)
    requires Inv(n) && !n.w.dead && DoAccept(n, r, seg, download).1.Done? && !IsFinalized(n.w.disk.logs, seg.start)
    requires InProgress(seg.start) in n.w.disk.logs && Holds(n.w.disk.logs[InProgress(seg.start)], seg.start, e)
    ensures
      var c := DoAccept(n, r, seg, download).0.vol.committed;
      seg.start <= c <= e ==> c <= seg.end
  {
    hide Scan, IsLog, CheckRequest, GetSegmentInfo, SegmentsOk, RecordsOk, VolOk, SyncLog, CommitAccept,
      DiscardsCommittedTxn, IsFinalized, Tidied;
    var s := seg.start;
    CheckRequestVol(n, r);
    CheckAborts(n, r);
    var n1 := AbortCurSegment(CheckRequest(n, r).0);
    HoldsScans(n.w.disk.logs[InProgress(s)], s, e);
    GetSegmentInfoFrame(n1.w, s);
    OnlyInProgress(n1.w.disk, s);
    InfoOfLog(n1.w, s, e);
    var (w1, current) := GetSegmentInfo(n1.w, s);
    DiscardsIff(n1.vol.committed, current.segment, seg);
    AcceptedCommit(n1.(w := w1), Accepted(r.epoch, seg), false);
    AcceptedCommit(n1.(w := SyncLog(w1, s, r.epoch, download).0), Accepted(r.epoch, seg), true);
  }

  lemma InfoOfLog(w: World, s: int, e: int)
    requires GetLogFile(w.disk, s) == OneLog(InProgress(s)) && InProgress(s) in w.disk.logs
    requires Scan(w.disk.logs[InProgress(s)]) == LastTxId(e) && 0 <= e
    ensures GetSegmentInfo(w, s) == (w, Info(Segment(s, e, true)))
  {
    hide Scan;
  }

  // ----- What the segment stands for -----

  /** The log holds transaction c of segment s. */
  ghost predicate Reaches(log: Option<Bytes>, s: int, c: int) {
    log.Some? && exists e :: Holds(log.value, s, e) && s <= c <= e
  }

  /** A recovery is accepted that ends below a committed txid that the segment's effective log holds. */
  ghost predicate LosesCommitted(n: Node, q: Request, faults: seq<Fault>) {
    && q.AcceptRecovery? && Step(n, Call(q, faults)).1.Done?
    && var c := Step(n, Call(q, faults)).0.vol.committed;
    Reaches(Effective(n.w.disk, q.state.start).log, q.state.start, c) && q.state.end < c
  }

  /** How far the log in place goes. */
  ghost function InPlaceEnd(d: Files, s: int): int {
    var log := InPlaceLog(d.logs, s);
    if log.Some? && Scan(log.value).LastTxId? then Scan(log.value).txid else s - 1
  }

  /**
   * A half-done recovery waits that goes past the log in place, which is all the check compares with; and a
   * writer may know of a committed txid in between.
   */
  ghost predicate Exposed(n: Node, s: int) {
    && HalfDone(n.w.disk, s)
    && var waiting := Scan(n.w.disk.logs[SyncTemp(s, n.w.disk.paxos[Paxos(s)].epoch)]);
    && waiting.LastTxId? && InPlaceEnd(n.w.disk, s) < waiting.txid
    && n.vol.committed <= waiting.txid && s < waiting.txid && 1 < waiting.txid
  }

  lemma SameLength(b: Bytes, s: int, e: int, e': int)
    requires Holds(b, s, e) && Holds(b, s, e')
    ensures e == e'
  {
    HoldsScans(b, s, e);
    HoldsScans(b, s, e');
  }

  lemma WaitingHolds(n: Node, s: int) returns (x: int)
    requires Inv(n) && HalfDone(n.w.disk, s)
    ensures
      var log := Effective(n.w.disk, s).log;
      log.Some? && Holds(log.value, s, x) && Scan(log.value) == LastTxId(x)
    ensures Exposed(n, s) <==>
              InPlaceEnd(n.w.disk, s) < x && n.vol.committed <= x && s < x && 1 < x
  {
    hide Scan, IsLog, InPlaceEnd;
    var a := n.w.disk.paxos[Paxos(s)];
    RecordIsBacked(n.w.disk, s);
    x := a.segment.end;
    HoldsScans(n.w.disk.logs[SyncTemp(s, a.epoch)], s, x);
  }

  lemma InPlaceHolds(n: Node, s: int)
    requires Inv(n) && InPlaceLog(n.w.disk.logs, s).Some?
    ensures InProgress(s) in n.w.disk.logs && Holds(n.w.disk.logs[InProgress(s)], s, InPlaceEnd(n.w.disk, s))
  {
    hide Scan, IsLog;
    ScansHold(n.w.disk.logs[InProgress(s)], s);
  }

  /** Unless a longer recovery is waiting, nothing committed is lost, whatever fails on the way. */
  lemma NothingLost(n: Node, q: Request, faults: seq<Fault>)
    requires Good(n) && q.AcceptRecovery? && !IsFinalized(n.w.disk.logs, q.state.start) && !Exposed(n, q.state.start)
    ensures !LosesCommitted(n, q, faults)
  {
    hide DoAccept, Scan, IsLog, RecordsOk, SegmentsOk, VolOk, EpochsOk, OneFinal, Effective, InPlaceLog, HalfDone,
      Exposed;
    if LosesCommitted(n, q, faults) {
      var (d, s, m) := (n.w.disk, q.state.start, n.(w := n.w.(faults := faults)));
      var c := Step(n, Call(q, faults)).0.vol.committed;
      var e :| Holds(Effective(d, s).log.value, s, e) && s <= c <= e;
      DoneIsChecked(m, q.info, q.state, q.download);
      if HalfDone(d, s) {
        var x := WaitingHolds(n, s);
        SameLength(Effective(d, s).log.value, s, e, x);
        assert e <= InPlaceEnd(d, s);
        InPlaceHolds(n, s);
        AcceptKeepsCommitted(m, q.info, q.state, q.download, InPlaceEnd(d, s));
      } else {
        assert !HalfDone(d, s);
        EffectiveInPlace(n, s);
        LogInPlace(d, s);
        AcceptKeepsCommitted(m, q.info, q.state, q.download, e);
      }
    }
  }

  lemma LogInPlace(d: Files, s: int)
    requires InPlaceLog(d.logs, s).Some?
    ensures InProgress(s) in d.logs && InPlaceLog(d.logs, s) == Some(d.logs[InProgress(s)])
  {
    hide Scan;
  }

  lemma DoneIsChecked(n: Node, r: RequestInfo, seg: Segment, download: Download)
    requires DoAccept(n, r, seg, download).1.Done?
    ensures seg.start <= seg.end && 1 <= seg.end && n.vol.committed <= DoAccept(n, r, seg, download).0.vol.committed
  {
    hide CheckRequest, CommitAccept, GetSegmentInfo, SyncLog, DiscardsCommittedTxn;
    CheckAborts(n, r);
    CheckRequestVol(n, r);
    CommittedGrows(n, r);
    var n1 := AbortCurSegment(CheckRequest(n, r).0);
    var w1 := GetSegmentInfo(n1.w, seg.start).0;
    AcceptedCommit(n1.(w := w1), Accepted(r.epoch, seg), false);
    AcceptedCommit(n1.(w := SyncLog(w1, seg.start, r.epoch, download).0), Accepted(r.epoch, seg), true);
  }

  // ----- When it does lose something -----

  /** A first part of a batch is a batch. */
  lemma FirstOfBatch(b: Bytes, first: nat, n: nat, k: nat) returns (b': Bytes)
    requires IsBatch(b, first, n) && k <= n
    ensures IsBatch(b', first, k) && |b'| <= |b|
  {
    hide EncodeAll, ValidEntry;
    var es :| Consecutive(es, first) && |es| == n && EncodeAll(es) == b;
    b' := EncodeAll(es[..k]);
    assert es[..k] + es[k..] == es;
    EncodeAllAppend(es[..k], es[k..]);
    assert Consecutive(es[..k], first);
  }

  /** A first part of a log is a log. */
  lemma PrefixHolds(b: Bytes, s: int, x: int, e: int) returns (b': Bytes)
    requires Holds(b, s, x) && s <= e <= x
    ensures Holds(b', s, e)
  {
    hide IsBatch, DecodeInt;
    var records := FirstOfBatch(b[8..], s, x - s + 1, e - s + 1);
    b' := b[..8] + records;
    assert b'[8..] == records && b'[4..8] == b[4..8];
  }

  /** The recovery to the shortest end there is, told of everything that waits. */
  lemma ExposedLoses(n: Node, s: int) returns (q: Request)
    requires Good(n) && 0 <= s && !IsFinalized(n.w.disk.logs, s) && Exposed(n, s)
    ensures q.AcceptRecovery? && q.state.start == s && Honest(n, q) && LosesCommitted(n, q, [])
  {
    hide DoAccept, Scan, IsLog, RecordsOk, SegmentsOk, VolOk, EpochsOk, OneFinal, Effective, InPlaceLog, HalfDone,
      InPlaceEnd;
    var x := WaitingHolds(n, s);
    var end := if s < 1 then 1 else s;
    var content := PrefixHolds(Effective(n.w.disk, s).log.value, s, x, end);
    var r, seg := RequestInfo(PromisedEpoch(n.w.disk) + 1, 1, x), Segment(s, end, true);
    q := AcceptRecovery(r, seg, Complete(content));
    var m := n.(w := n.w.(faults := []));
    LongerIsKept(n.w.disk, s, x, seg);
    AcceptIff(m, r, seg, content);
  }

  /** A committed txid past the log in place is not looked at. */
  lemma LongerIsKept(d: Files, s: int, c: int, seg: Segment)
    requires InPlaceEnd(d, s) < c && seg.start == s
    ensures Keeps(InPlaceLog(d.logs, s), c, seg)
  {
    hide Scan;
  }

  /**
   * Exactly when some recovery of the segment loses what is committed: while a half-done one waits that goes past
   * the log in place and past what the node knows to be committed.  A preparation would have rolled it forward.
   */
  lemma LosesIff(n: Node, s: int)
    requires Good(n) && 0 <= s && !IsFinalized(n.w.disk.logs, s)
    ensures Exposed(n, s) <==>
              exists q: Request, faults ::
                q.AcceptRecovery? && q.state.start == s && Honest(n, q) && LosesCommitted(n, q, faults)
  {
    hide Good, LosesCommitted, Exposed, IsFinalized;
    if Exposed(n, s) {
      var q := ExposedLoses(n, s);
    } else {
      forall q: Request, faults | q.AcceptRecovery? && q.state.start == s
        ensures !LosesCommitted(n, q, faults)
      {
        NothingLost(n, q, faults);
      }
    }
  }

  /** Such a state: a recovery of more than the node has crashes between record and rename, and it restarts. */
  lemma ExposedHappens(n: Node, epoch: int, serial: int, s: int, next: int, b: Bytes, content: Bytes) returns (n2: Node)
    requires Writing(n, epoch, serial, s, next, b) && 0 <= s < next && 2 <= next && 0 <= serial
    requires SyncTemp(s, epoch) !in n.w.disk.logs && Holds(content, s, next)
    ensures n2 == After(n, DeadEnd(epoch, serial, s, next, content), 2)
    ensures Good(n2) && !IsFinalized(n2.w.disk.logs, s) && Exposed(n2, s)
  {
    hide Step, IsLog, Scan, DiskOk, EpochsOk, OneFinal, VolOk, Tidied, IsFinalized;
    var evs := DeadEnd(epoch, serial, s, next, content);
    WritingHolds(n, epoch, serial, s, next, b);
    var n1 := HalfAccepted(n, epoch, serial, s, next, b, content);
    assert After(n, evs, 0) == n;
    assert After(n, evs, 1) == n1;
    RestartTidies(n1);
    n2 := Step(n1, evs[1]).0;
    StillHalfDone(n.w.disk, n1.w.disk, n2.w.disk, epoch, s, next, content);
    HoldsScans(content, s, next);
  }

  // ----- Runs -----

  /** The move is not the finalizing of s. */
  lemma MoveKeepsUnfinalized(d: Files, m: Move, d': Files, c: Context, s: int)
    requires Legal(d, m, d', c) && !IsFinalized(d.logs, s) && c.request.Some? && c.request.value.AcceptRecovery?
    ensures !IsFinalized(d'.logs, s)
  {
    hide Sound, Scan, Header;
  }

  lemma {:induction false} TrailKeepsUnfinalized(t: Trail, c: Context, s: int)
    requires Valid(t, c) && !IsFinalized(t.d.logs, s) && c.request.Some? && c.request.value.AcceptRecovery?
    ensures !IsFinalized(Last(t).logs, s)
  {
    hide Legal, IsFinalized;
    if t.Via? {
      MoveKeepsUnfinalized(t.d, t.m, t.rest.d, c, s);
      TrailKeepsUnfinalized(t.rest, c, s);
    }
  }

  lemma AcceptKeepsUnfinalized(n: Node, q: Request, faults: seq<Fault>, s: int)
    requires VolShape(n.vol) && q.AcceptRecovery? && !IsFinalized(n.w.disk.logs, s)
    ensures !IsFinalized(Step(n, Call(q, faults)).0.w.disk.logs, s)
  {
    hide Step, Valid, IsFinalized;
    StepTrail(n, Call(q, faults), false);
    var c := Context(Some(q), false);
    var t :| Joins(t, n.w.disk, c, Step(n, Call(q, faults)).0.w.disk);
    TrailKeepsUnfinalized(t, c, s);
  }

  lemma AcceptedReaches(d: Files, a: Accepted, c: int)
    requires AcceptedHere(d, a) && !IsFinalized(d.logs, a.segment.start) && a.segment.start <= c <= a.segment.end
    ensures Reaches(Effective(d, a.segment.start).log, a.segment.start, c)
  {
    hide Scan, IsLog;
    HoldsScans(d.logs[InProgress(a.segment.start)], a.segment.start, a.segment.end);
  }

  /**
   * In every run: what the segment's effective log holds of the committed transactions when a recovery is
   * accepted, it holds afterwards, whatever fails, unless a longer recovery was left half done.
   */
  lemma CommittedStays(evs: seq<Event>, q: Request, faults: seq<Fault>)
    requires AdmissibleRun(evs + [Call(q, faults)]) && q.AcceptRecovery?
    requires Step(Run(FORMATTED, evs), Call(q, faults)).1.Done?
    requires var n := Run(FORMATTED, evs); !IsFinalized(n.w.disk.logs, q.state.start) && !Exposed(n, q.state.start)
    ensures
      var (n, n', s) := (Run(FORMATTED, evs), Run(FORMATTED, evs + [Call(q, faults)]), q.state.start);
      Reaches(Effective(n.w.disk, s).log, s, n'.vol.committed) ==>
        Reaches(Effective(n'.w.disk, s).log, s, n'.vol.committed)
  {
    hide Run, Handle, Inv, Good, Reaches, Exposed, IsFinalized, AdmissibleRun, AcceptedHere, Admissible, Effective;
    var all := evs + [Call(q, faults)];
    var n, n' := Run(FORMATTED, evs), Run(FORMATTED, all);
    LastEvent(evs, Call(q, faults));
    RunIsGood(evs);
    NothingLost(n, q, faults);
    DoneIsAccepted(n, q, faults);
    AcceptKeepsUnfinalized(n, q, faults, q.state.start);
    if Reaches(Effective(n.w.disk, q.state.start).log, q.state.start, n'.vol.committed) {
      ReachesFrom(Effective(n.w.disk, q.state.start).log, q.state.start, n'.vol.committed);
      AcceptedReaches(n'.w.disk, Accepted(q.info.epoch, q.state), n'.vol.committed);
    }
  }

  lemma ReachesFrom(log: Option<Bytes>, s: int, c: int)
    requires Reaches(log, s, c)
    ensures s <= c
  {
    hide IsLog;
  }

  lemma LastEvent(evs: seq<Event>, ev: Event)
    requires AdmissibleRun(evs + [ev])
    ensures AdmissibleRun(evs) && Run(FORMATTED, evs + [ev]) == Step(Run(FORMATTED, evs), ev).0
    ensures Inv(Run(FORMATTED, evs)) && VolShape(Run(FORMATTED, evs).vol)
    ensures ev.Call? ==> Admissible(Run(FORMATTED, evs), ev.request)
  {
    hide Inv, Honest, FirstTry, OneTryPerEpoch, Step;
    var all := evs + [ev];
    assert all[..|evs|] == evs && all[|evs|] == ev && all[..|all| - 1] == evs;
    PrefixAdmissible(all, |evs|);
    RunKeepsInv(evs);
    if ev.Call? && ev.request.AcceptRecovery? {
      TriesAreFirst(evs, ev);
    }
  }
}
