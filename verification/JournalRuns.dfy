/** Whole runs from a freshly formatted node: what every reachable state's files hold, and what never changes. */
module JournalRuns {
  import opened Bytes
  import opened EditLog
  import opened Disk
  import opened JournalSpec
  import opened JournalFrames
  import opened JournalInvariant
  import opened JournalMoves
  import opened JournalTrails
  import opened JournalSafety

  // ----- The assumptions on a run -----

  /** Every request is honest in the state it meets. */
  ghost predicate HonestRun(evs: seq<Event>) {
    forall i :: 0 <= i < |evs| && evs[i].Call? ==> Honest(Run(FORMATTED, evs[..i]), evs[i].request)
  }

  /** The event tries, in this epoch, to have a recovery of this segment accepted. */
  ghost predicate Tries(ev: Event, s: int, epoch: int) {
    ev.Call? && ev.request.AcceptRecovery? && ev.request.state.start == s && ev.request.info.epoch == epoch
  }

  ghost predicate Tried(evs: seq<Event>, s: int, epoch: int) {
    exists i :: 0 <= i < |evs| && Tries(evs[i], s, epoch)
  }

  /** No epoch tries to recover the same segment twice. */
  ghost predicate OneTryPerEpoch(evs: seq<Event>) {
    forall i, s, epoch :: 0 <= i < |evs| && Tries(evs[i], s, epoch) ==> !Tried(evs[..i], s, epoch)
  }

  ghost predicate AdmissibleRun(evs: seq<Event>) { HonestRun(evs) && OneTryPerEpoch(evs) }

  // ----- Temporary files and records come only from tries -----

  ghost predicate Traced(d: Files, evs: seq<Event>) {
    && (forall s, e :: SyncTemp(s, e) in d.logs ==> Tried(evs, s, e))
    && (forall s :: Paxos(s) in d.paxos ==> Tried(evs, s, d.paxos[Paxos(s)].epoch))
  }

  lemma MoveTraced(d: Files, m: Move, d': Files, c: Context, evs: seq<Event>)
    requires Traced(d, evs) && Legal(d, m, d', c)
    requires c.request.Some? && c.request.value.AcceptRecovery? ==>
               Tried(evs, c.request.value.state.start, c.request.value.info.epoch)
    ensures Traced(d', evs)
  {
    hide Tried, Sound, Scan, Header;
  }

  lemma {:induction false} TrailTraced(t: Trail, c: Context, evs: seq<Event>)
    requires Traced(t.d, evs) && Valid(t, c)
    requires c.request.Some? && c.request.value.AcceptRecovery? ==>
               Tried(evs, c.request.value.state.start, c.request.value.info.epoch)
    ensures Traced(Last(t), evs)
  {
    hide Traced, Legal, Tried;
    if t.Via? {
      MoveTraced(t.d, t.m, t.rest.d, c, evs);
      TrailTraced(t.rest, c, evs);
    }
  }

  lemma TriedMore(before: seq<Event>, ev: Event, d: Files)
    requires Traced(d, before)
    ensures Traced(d, before + [ev])
    ensures ev.Call? && ev.request.AcceptRecovery? ==>
        Tried(before + [ev], ev.request.state.start, ev.request.info.epoch)
  {
    var evs := before + [ev];
    assert evs[|before|] == ev;
    forall s, e | Tried(before, s, e)
      ensures Tried(evs, s, e)
    {
      var i :| 0 <= i < |before| && Tries(before[i], s, e);
      assert Tries(evs[i], s, e);
    }
  }

  lemma {:induction false} RunTraced(evs: seq<Event>)
    ensures Traced(Run(FORMATTED, evs).w.disk, evs) && VolShape(Run(FORMATTED, evs).vol)
  {
    hide Step, Traced, Tried;
    if evs == [] {
      NothingTraced();
      assert Run(FORMATTED, evs) == FORMATTED;
    } else {
      var before, ev := evs[..|evs| - 1], evs[|evs| - 1];
      RunTraced(before);
      var n := Run(FORMATTED, before);
      StepShape(n, ev);
      StepTrail(n, ev, false);
      var c := Context(RequestOf(ev), false);
      var t :| Joins(t, n.w.disk, c, Step(n, ev).0.w.disk);
      assert evs == before + [ev];
      TriedMore(before, ev, n.w.disk);
      TrailTraced(t, c, evs);
    }
  }

  lemma NothingTraced()
    ensures Traced(FORMATTED.w.disk, [])
  {
  }

  /** One try per epoch means that every try meets a disk without traces of its epoch. */
  lemma TriesAreFirst(evs: seq<Event>, ev: Event)
    requires OneTryPerEpoch(evs + [ev]) && ev.Call? && ev.request.AcceptRecovery?
    ensures FirstTry(Run(FORMATTED, evs).w.disk, ev.request.state.start, ev.request.info.epoch)
  {
    RunTraced(evs);
    var all := evs + [ev];
    assert all[|evs|] == ev && all[..|evs|] == evs;
    assert Tries(all[|evs|], ev.request.state.start, ev.request.info.epoch);
  }

  lemma PrefixAdmissible(evs: seq<Event>, k: nat)
    requires AdmissibleRun(evs) && k <= |evs|
    ensures AdmissibleRun(evs[..k])
  {
    hide Honest, Tries, Tried, Run;
    forall i | 0 <= i < k
      ensures evs[..k][..i] == evs[..i]
    {
    }
  }

  /** Every state an admissible run reaches satisfies the invariant. */
  lemma {:induction false} RunKeepsInv(evs: seq<Event>)
    requires AdmissibleRun(evs)
    ensures Inv(Run(FORMATTED, evs)) && VolShape(Run(FORMATTED, evs).vol)
  {
    hide Inv, Step, Honest, OneTryPerEpoch, FirstTry;
    if evs == [] {
      FormattedInv();
      assert Run(FORMATTED, evs) == FORMATTED;
    } else {
      var before, ev := evs[..|evs| - 1], evs[|evs| - 1];
      PrefixAdmissible(evs, |evs| - 1);
      RunKeepsInv(before);
      assert evs == before + [ev];
      if ev.Call? && ev.request.AcceptRecovery? {
        TriesAreFirst(before, ev);
      }
      StepKeepsInv(Run(FORMATTED, before), ev);
    }
  }

  /** No start is ever finalized with two different ends. */
  lemma {:induction false} RunKeepsOneFinal(evs: seq<Event>)
    requires AdmissibleRun(evs)
    ensures OneFinal(Run(FORMATTED, evs).w.disk.logs)
  {
    hide Inv, Step, Honest, OneTryPerEpoch, FirstTry, OneFinal;
    if evs == [] {
      assert Run(FORMATTED, evs) == FORMATTED && OneFinal(map[]) by { NothingFinal(); }
    } else {
      var before, ev := evs[..|evs| - 1], evs[|evs| - 1];
      PrefixAdmissible(evs, |evs| - 1);
      RunKeepsOneFinal(before);
      RunKeepsInv(before);
      assert evs == before + [ev];
      if ev.Call? && ev.request.AcceptRecovery? {
        TriesAreFirst(before, ev);
      }
      StepKeepsOneFinal(Run(FORMATTED, before), ev);
    }
  }

  lemma NothingFinal()
    ensures OneFinal(map[])
  {
  }

  lemma FormattedInv()
    ensures Inv(FORMATTED)
  {
  }

  // ----- What the files hold -----

  /** In every reachable state each segment file holds exactly the consecutive transactions its name promises. */
  lemma SegmentsAreContiguous(evs: seq<Event>, f: LogName)
    requires AdmissibleRun(evs) && f in Run(FORMATTED, evs).w.disk.logs
    ensures f.InProgress? ==> exists k: nat :: 0 <= f.first && IsLog(Run(FORMATTED, evs).w.disk.logs[f], f.first, k)
    ensures f.Finalized? ==>
              0 <= f.first <= f.last && IsLog(Run(FORMATTED, evs).w.disk.logs[f], f.first, f.last - f.first + 1)
  {
    hide IsLog, Run;
    RunKeepsInv(evs);
  }

  /**
   * The two ways finalizeLogSegment can check an end agree: while a segment is open, the counter passes
   * the check for e exactly when the scan of the file's bytes would.
   */
  lemma CounterAgreesWithScan(evs: seq<Event>, e: int)
    requires AdmissibleRun(evs)
    requires
      var n := Run(FORMATTED, evs);
      !n.w.dead && n.vol.curSegmentTxId != INVALID_TXID && n.vol.curSegmentTxId <= e
    ensures
      var n := Run(FORMATTED, evs);
      var f := InProgress(n.vol.curSegmentTxId);
      f in n.w.disk.logs && (n.vol.nextTxId == e + 1 <==> Scan(n.w.disk.logs[f]) == LastTxId(e))
  {
    hide IsLog, Run, Scan;
    RunKeepsInv(evs);
    var n := Run(FORMATTED, evs);
    var s := n.vol.curSegmentTxId;
    ScanLog(n.w.disk.logs[InProgress(s)], s, n.vol.nextTxId - s);
  }

  // ----- Finalized segments never change -----

  ghost predicate Sealed(d: Files, f: LogName, b: Bytes) {
    f.Finalized? && f in d.logs && d.logs[f] == b
  }

  lemma MoveKeepsSealed(d: Files, m: Move, d': Files, c: Context, f: LogName, b: Bytes)
    requires Legal(d, m, d', c) && Sealed(d, f, b) && !HasNoTransactions(b)
    ensures Sealed(d', f, b)
  {
    hide Sound, Scan, Header;
  }

  lemma {:induction false} TrailKeepsSealed(t: Trail, c: Context, f: LogName, b: Bytes)
    requires Valid(t, c) && Sealed(t.d, f, b) && !HasNoTransactions(b)
    ensures Sealed(Last(t), f, b)
  {
    hide Legal, Sealed, HasNoTransactions;
    if t.Via? {
      MoveKeepsSealed(t.d, t.m, t.rest.d, c, f, b);
      TrailKeepsSealed(t.rest, c, f, b);
    }
  }

  /**
   * A finalized segment with a transaction in it keeps its name and every byte, through any requests
   * (honest or not), faults, crashes and restarts.
   */
  lemma {:induction false} FinalizedIsForever(n: Node, evs: seq<Event>, f: LogName)
    requires VolShape(n.vol) && f.Finalized? && f in n.w.disk.logs && !HasNoTransactions(n.w.disk.logs[f])
    ensures f in Run(n, evs).w.disk.logs && Run(n, evs).w.disk.logs[f] == n.w.disk.logs[f]
    ensures VolShape(Run(n, evs).vol)
  {
    hide Step, HasNoTransactions, Valid;
    if evs == [] {
      assert Run(n, evs) == n;
    } else {
      var before, ev := evs[..|evs| - 1], evs[|evs| - 1];
      FinalizedIsForever(n, before, f);
      var m := Run(n, before);
      StepShape(m, ev);
      StepTrail(m, ev, false);
      var c := Context(RequestOf(ev), false);
      var t :| Joins(t, m.w.disk, c, Step(m, ev).0.w.disk);
      TrailKeepsSealed(t, c, f, n.w.disk.logs[f]);
    }
  }

  /** In admissible runs every finalized segment has transactions, so what one run finalized every longer run has. */
  lemma FinalizedStaysInRuns(evs: seq<Event>, more: seq<Event>, f: LogName)
    requires AdmissibleRun(evs) && f.Finalized? && f in Run(FORMATTED, evs).w.disk.logs
    ensures
      var d, d' := Run(FORMATTED, evs).w.disk, Run(Run(FORMATTED, evs), more).w.disk;
      f in d'.logs && d'.logs[f] == d.logs[f]
  {
    hide Run, Scan, IsLog;
    RunKeepsInv(evs);
    var n := Run(FORMATTED, evs);
    HoldsScans(n.w.disk.logs[f], f.first, f.last);
    FinalizedIsForever(n, more, f);
  }
}
