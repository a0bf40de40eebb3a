/** Several nodes: what a majority acknowledged, a majority that promised a newer epoch can see. */
module QuorumVisibility {
  import opened Bytes
  import opened EditLog
  import opened Disk
  import opened JournalSpec
  import opened JournalInvariant
  import opened JournalMoves
  import opened JournalTrails
  import opened JournalSafety
  import opened JournalEpochs
  import opened JournalRuns
  import opened JournalRecovery
  import opened JournalReplies
  import opened StorageScan

  // ----- One node -----

  ghost predicate ReachesTo(b: Bytes, s: int, last: int) {
    exists e :: last <= e && Holds(b, s, e)
  }

  /** The node has the segment at least up to last, and has not accepted a recovery of it. */
  ghost predicate Covers(d: Files, s: int, last: int) {
    && Paxos(s) !in d.paxos
    && (|| (InProgress(s) in d.logs && ReachesTo(d.logs[InProgress(s)], s, last))
        || (exists e :: last <= e && Finalized(s, e) in d.logs))
  }

  lemma SameEnd(b: Bytes, s: int, e: int, e': int)
    requires Holds(b, s, e) && Holds(b, s, e')
    ensures e == e'
  {
    HoldsScans(b, s, e);
    HoldsScans(b, s, e');
  }

  lemma AppendReaches(b: Bytes, s: int, last: int, first: int, records: Bytes, num: int)
    requires ReachesTo(b, s, last) && 0 <= s <= first && 0 <= num && IsLog(b, s, first - s)
    requires IsBatch(records, first, num) && |b + records| < POSITIONS
    ensures ReachesTo(b + records, s, last)
  {
    hide Scan, IsLog, IsBatch;
    var e :| last <= e && Holds(b, s, e);
    ScanLog(b, s, first - s);
    HoldsScans(b, s, e);
    assert e == first - 1;
    AppendBatch(b, s, first - s, records, num);
    assert Holds(b + records, s, e + num);
  }

  lemma MoveKeepsCovers(d: Files, m: Move, d': Files, c: Context, s: int, last: int)
    requires c.sound && DiskOk(d.logs, d.paxos) && Legal(d, m, d', c) && Covers(d, s, last)
    requires !((m.Open? || m.Record?) && m.s == s)
    ensures Covers(d', s, last)
  {
    hide DiskOk, Legal, ReachesTo;
    assert Paxos(s) !in d'.paxos by { NoNewRecord(d, m, d', c, s); }
    if exists e :: last <= e && Finalized(s, e) in d.logs {
      var e :| last <= e && Finalized(s, e) in d.logs;
      FinalizedKept(d, m, d', c, s, e);
    } else {
      OpenKept(d, m, d', c, s, last);
    }
  }

  lemma NoNewRecord(d: Files, m: Move, d': Files, c: Context, s: int)
    requires Legal(d, m, d', c) && Paxos(s) !in d.paxos && !(m.Record? && m.s == s)
    ensures Paxos(s) !in d'.paxos
  {
    hide Allowed, Sound, Scan, Header;
  }

  lemma FinalizedKept(d: Files, m: Move, d': Files, c: Context, s: int, e: int)
    requires DiskOk(d.logs, d.paxos) && Legal(d, m, d', c) && Finalized(s, e) in d.logs
    ensures Finalized(s, e) in d'.logs
  {
    hide Scan, IsLog, RecordsOk, Allowed, Sound, Header;
    HoldsScans(d.logs[Finalized(s, e)], s, e);
  }

  lemma OpenKept(d: Files, m: Move, d': Files, c: Context, s: int, last: int)
    requires c.sound && DiskOk(d.logs, d.paxos) && Legal(d, m, d', c) && Paxos(s) !in d.paxos
    requires InProgress(s) in d.logs && ReachesTo(d.logs[InProgress(s)], s, last) && !(m.Open? && m.s == s)
    ensures
      || (InProgress(s) in d'.logs && ReachesTo(d'.logs[InProgress(s)], s, last))
      || (exists e :: last <= e && Finalized(s, e) in d'.logs)
  {
    hide Scan, IsLog, IsBatch, DiskOk, Allowed, Header;
    var b := d.logs[InProgress(s)];
    var e :| last <= e && Holds(b, s, e);
    HoldsScans(b, s, e);
    if m.Append? && m.s == s {
      AppendReaches(b, s, last, m.first, m.records, m.num);
    } else if m.FinalizeAs? && m.s == s {
      SameEnd(b, s, e, m.e);
      assert Finalized(s, m.e) in d'.logs;
    }
  }

  /** The request neither restarts segment s nor accepts a recovery of it. */
  ghost predicate LeavesSegment(ev: Event, s: int) {
    ev.Call? ==>
      && (ev.request.StartLogSegment? ==> ev.request.txid != s)
      && (ev.request.AcceptRecovery? ==> ev.request.state.start != s)
  }

  lemma LeavingMoves(d: Files, m: Move, d': Files, ev: Event, sound: bool, s: int)
    requires Legal(d, m, d', Context(RequestOf(ev), sound)) && LeavesSegment(ev, s)
    ensures !((m.Open? || m.Record?) && m.s == s)
  {
    hide Takes, Sound;
  }

  lemma {:induction false} TrailKeepsCovers(t: Trail, ev: Event, s: int, last: int)
    requires Valid(t, Context(RequestOf(ev), true)) && DiskOk(t.d.logs, t.d.paxos) && Covers(t.d, s, last)
    requires LeavesSegment(ev, s)
    ensures Covers(Last(t), s, last)
  {
    hide Legal, DiskOk, Covers, LeavesSegment, RequestOf;
    if t.Via? {
      var c := Context(RequestOf(ev), true);
      LeavingMoves(t.d, t.m, t.rest.d, ev, true, s);
      MoveKeepsCovers(t.d, t.m, t.rest.d, c, s, last);
      MoveKeepsDisk(t.d, t.m, t.rest.d, c);
      TrailKeepsCovers(t.rest, ev, s, last);
    }
  }

  /** Every event keeps what is covered, unless it starts or recovers the segment and passes its check. */
  lemma StepKeepsCovers(n: Node, ev: Event, s: int, last: int)
    requires Inv(n) && VolShape(n.vol) && Covers(n.w.disk, s, last) && !Redecides(n, ev, s)
    requires ev.Call? ==> Admissible(n, ev.request)
    ensures Covers(Step(n, ev).0.w.disk, s, last)
  {
    hide Handle, ScanStorage, Valid, DiskOk, ReachesTo, CheckRequest, VolShape, Honest, FirstTry;
    if LeavesSegment(ev, s) {
      StepTrail(n, ev, true);
      var t :| Joins(t, n.w.disk, Context(RequestOf(ev), true), Step(n, ev).0.w.disk);
      TrailKeepsCovers(t, ev, s, last);
    } else if !n.w.dead {
      StoppedKeeps(n.(w := n.w.(faults := ev.faults)), ev.request);
    }
  }

  /** The event is a batch of segment s up to last, written in this epoch. */
  ghost predicate IsBatchTo(ev: Event, s: int, epoch: int, last: int) {
    && ev.Call? && ev.request.JournalTxns? && ev.request.segmentTxId == s && ev.request.info.epoch == epoch
    && 1 <= ev.request.numTxns && ev.request.firstTxnId + ev.request.numTxns - 1 == last
  }

  lemma AckedIsCovered(n: Node, ev: Event, s: int, epoch: int, last: int)
    requires Inv(n) && VolShape(n.vol) && IsBatchTo(ev, s, epoch, last) && Admissible(n, ev.request)
    requires Step(n, ev).1.Done?
    ensures Covers(Step(n, ev).0.w.disk, s, last)
  {
    hide IsLog, IsBatch, DiskOk, CheckRequest;
    var q := ev.request;
    var m := n.(w := n.w.(faults := ev.faults));
    StepKeepsInv(n, ev);
    CheckRequestVol(m, q.info);
    CheckAborts(m, q.info);
    var n' := Step(n, ev).0;
    assert n'.vol.curSegmentTxId == s && n'.vol.nextTxId == last + 1;
    assert Holds(n'.w.disk.logs[InProgress(s)], s, last);
  }

  /** The answer describes the log the node has: its start, its end and whether it is in progress. */
  ghost predicate Describes(d: Files, reply: Reply, s: int, last: int) {
    && reply.Prepared? && reply.acceptedInEpoch == None && reply.segment.Some?
    && reply.segment.value.start == s && last <= reply.segment.value.end
    && (if reply.segment.value.inProgress
        then InProgress(s) in d.logs && Holds(d.logs[InProgress(s)], s, reply.segment.value.end)
        else Finalized(s, reply.segment.value.end) in d.logs)
  }

  lemma CoveredIsReported(n: Node, r: RequestInfo, s: int, faults: seq<Fault>, last: int)
    requires Inv(n) && Covers(n.w.disk, s, last)
    requires Step(n, Call(PrepareRecovery(r, s), faults)).1.Prepared?
    ensures Describes(n.w.disk, Step(n, Call(PrepareRecovery(r, s), faults)).1, s, last)
  {
    hide Scan, IsLog, DoPrepare, RecordsOk, VolOk;
    var m := n.(w := n.w.(faults := faults));
    if IsFinalized(n.w.disk.logs, s) {
      PreparedSaysFinalized(m, r, s);
    } else {
      var e :| last <= e && Holds(n.w.disk.logs[InProgress(s)], s, e);
      HoldsScans(n.w.disk.logs[InProgress(s)], s, e);
      PreparedSays(m, r, s);
      SameEnd(n.w.disk.logs[InProgress(s)], s, e, DoPrepare(m, r, s).1.segment.value.end);
    }
  }

  /** What is covered has a transaction in a file of its start. */
  lemma CoveredHasSegment(d: Files, s: int, last: int)
    requires SegmentsOk(d.logs) && Covers(d, s, last)
    ensures HasSegment(d, s)
  {
    hide Scan, IsLog;
    if InProgress(s) in d.logs && ReachesTo(d.logs[InProgress(s)], s, last) {
      var e :| last <= e && Holds(d.logs[InProgress(s)], s, e);
      HoldsScans(d.logs[InProgress(s)], s, e);
      assert HasTransactions(d, InProgress(s));
    } else {
      var e :| last <= e && Finalized(s, e) in d.logs;
      HoldsScans(d.logs[Finalized(s, e)], s, e);
      assert HasTransactions(d, Finalized(s, e));
    }
  }

  /** The answer names the start of the node's latest segment, which is s or a later one. */
  ghost predicate NamesAtOrPast(d: Files, reply: Reply, s: int) {
    reply.Promised? && IsLatestStart(d, reply.lastSegment) && reply.lastSegment.Some? && s <= reply.lastSegment.value
  }

  /** A successful newEpoch names the latest segment, so it is not below what is covered. */
  lemma CoveredIsNamed(n: Node, epoch: int, faults: seq<Fault>, s: int, last: int)
    requires Inv(n) && Covers(n.w.disk, s, last)
    requires Step(n, Call(NewEpoch(true, epoch), faults)).1.Promised?
    ensures NamesAtOrPast(n.w.disk, Step(n, Call(NewEpoch(true, epoch), faults)).1, s)
  {
    hide DoNewEpoch, SegmentsOk, RecordsOk, VolOk, HasSegment, Covers;
    CoveredHasSegment(n.w.disk, s, last);
    NewEpochNames(n.(w := n.w.(faults := faults)), true, epoch);
  }

  lemma RunStep(evs: seq<Event>, k: nat)
    requires k < |evs|
    ensures Run(FORMATTED, evs[..k + 1]) == Step(Run(FORMATTED, evs[..k]), evs[k]).0
  {
    assert evs[..k + 1][..k] == evs[..k];
  }

  lemma AdmissibleAt(evs: seq<Event>, k: nat)
    requires AdmissibleRun(evs) && k < |evs|
    ensures Inv(Run(FORMATTED, evs[..k])) && VolShape(Run(FORMATTED, evs[..k]).vol)
    ensures evs[k].Call? ==> Admissible(Run(FORMATTED, evs[..k]), evs[k].request)
  {
    hide Inv, Honest, FirstTry, OneTryPerEpoch, Run;
    PrefixAdmissible(evs, k);
    RunKeepsInv(evs[..k]);
    PrefixAdmissible(evs, k + 1);
    assert evs[..k + 1] == evs[..k] + [evs[k]];
    if evs[k].Call? && evs[k].request.AcceptRecovery? {
      TriesAreFirst(evs[..k], evs[k]);
    }
  }

  /** The reply of the k-th event of a run. */
  ghost function ReplyAt(evs: seq<Event>, k: nat): Reply
    requires k < |evs|
  {
    Step(Run(FORMATTED, evs[..k]), evs[k]).1
  }

  lemma {:induction false} StaysCovered(evs: seq<Event>, k: nat, j: nat, s: int, epoch: int, last: int)
    requires AdmissibleRun(evs) && k < j <= |evs| && IsBatchTo(evs[k], s, epoch, last) && ReplyAt(evs, k).Done?
    requires forall i :: k < i < j ==> !Redecides(Run(FORMATTED, evs[..i]), evs[i], s)
    ensures Covers(Run(FORMATTED, evs[..j]).w.disk, s, last)
    decreases j
  {
    hide Step, Inv, Covers, Admissible, Redecides, Run;
    AdmissibleAt(evs, j - 1);
    RunStep(evs, j - 1);
    if j == k + 1 {
      AckedIsCovered(Run(FORMATTED, evs[..k]), evs[k], s, epoch, last);
    } else {
      StaysCovered(evs, k, j - 1, s, epoch, last);
      StepKeepsCovers(Run(FORMATTED, evs[..j - 1]), evs[j - 1], s, last);
    }
  }

  ghost predicate Prepares(ev: Event, s: int) {
    ev.Call? && ev.request.PrepareRecovery? && ev.request.segment == s
  }

  /**
   * On one node: an acknowledged batch shows in every later preparation, until a start or a recovery of the
   * segment passes its check.
   */
  lemma AckedIsReported(evs: seq<Event>, k: nat, j: nat, s: int, epoch: int, last: int)
    requires AdmissibleRun(evs) && k < j < |evs| && IsBatchTo(evs[k], s, epoch, last) && ReplyAt(evs, k).Done?
    requires forall i :: k < i < j ==> !Redecides(Run(FORMATTED, evs[..i]), evs[i], s)
    requires Prepares(evs[j], s) && ReplyAt(evs, j).Prepared?
    ensures Describes(Run(FORMATTED, evs[..j]).w.disk, ReplyAt(evs, j), s, last)
  {
    hide Step, Inv, Covers, Admissible, IsBatchTo, Redecides, Run;
    StaysCovered(evs, k, j, s, epoch, last);
    AdmissibleAt(evs, j);
    CoveredIsReported(Run(FORMATTED, evs[..j]), evs[j].request.info, s, evs[j].faults, last);
  }

  // ----- Order of acknowledgement and promise -----

  /** After p events the node has promised this epoch or a newer one, by whatever request and whatever came of it. */
  ghost predicate PromisedAt(evs: seq<Event>, p: nat, epoch: int) {
    p <= |evs| && epoch <= PromisedEpoch(Run(FORMATTED, evs[..p]).w.disk)
  }

  /** In particular by a newEpoch that succeeded. */
  lemma NewEpochPromises(evs: seq<Event>, p: nat)
    requires p < |evs| && evs[p].Call? && evs[p].request.NewEpoch? && ReplyAt(evs, p).Promised?
    ensures PromisedAt(evs, p + 1, evs[p].request.proposed)
  {
    hide Step, EpochsOk, Run;
    FormattedEpochs();
    RunEpochs(FORMATTED, evs[..p]);
    RunStep(evs, p);
    SuccessPromises(Run(FORMATTED, evs[..p]), evs[p].request, evs[p].faults);
  }

  lemma {:induction false} RunConcat(n: Node, xs: seq<Event>, ys: seq<Event>)
    ensures Run(n, xs + ys) == Run(Run(n, xs), ys)
  {
    hide Step;
    if ys == [] {
      assert xs + ys == xs;
    } else {
      assert (xs + ys)[..|xs + ys| - 1] == xs + ys[..|ys| - 1];
      RunConcat(n, xs, ys[..|ys| - 1]);
    }
  }

  /** What succeeded for an old epoch succeeded before the newer one was promised. */
  lemma OldBeforePromise(evs: seq<Event>, k: nat, p: nat, newer: int)
    requires k < |evs| && evs[k].Call? && Success(ReplyAt(evs, k)) && EpochOf(evs[k].request) < newer
    requires PromisedAt(evs, p, newer)
    ensures k < p
  {
    hide Step, EpochsOk, Run;
    if p <= k {
      FormattedEpochs();
      RunEpochs(FORMATTED, evs[..p]);
      var between := evs[p..k];
      assert evs[..k] == evs[..p] + between;
      RunConcat(FORMATTED, evs[..p], between);
      Fencing(Run(FORMATTED, evs[..p]), between, evs[k].request, evs[k].faults);
    }
  }

  // ----- Many nodes -----

  type NodeId = nat

  /** A cluster run: which node each event happens at. */
  type ClusterRun = seq<(NodeId, Event)>

  ghost function LocalRun(run: ClusterRun, i: NodeId): seq<Event> {
    if run == [] then []
    else
      var (at, ev) := run[|run| - 1];
      LocalRun(run[..|run| - 1], i) + if at == i then [ev] else []
  }

  ghost predicate Majority(part: set<NodeId>, whole: set<NodeId>) {
    part <= whole && 2 * |part| > |whole|
  }

  lemma MajoritiesMeet(a: set<NodeId>, b: set<NodeId>, whole: set<NodeId>)
    requires Majority(a, whole) && Majority(b, whole)
    ensures exists i :: i in a && i in b
  {
    if a * b == {} {
      assert |a + b| == |a| + |b|;
      SubsetSize(a + b, whole);
    } else {
      var i :| i in a * b;
    }
  }

  lemma {:induction false} SubsetSize(a: set<NodeId>, b: set<NodeId>)
    requires a <= b
    ensures |a| <= |b|
    decreases |b|
  {
    if a != {} {
      var x :| x in a;
      SubsetSize(a - {x}, b - {x});
    }
  }

  ghost predicate Acknowledged(evs: seq<Event>, k: nat, s: int, epoch: int, last: int) {
    k < |evs| && IsBatchTo(evs[k], s, epoch, last) && ReplyAt(evs, k).Done?
  }

  /**
   * From the acknowledgement on, every preparation shows the batch, until a start or a recovery of the segment
   * passes its check.
   */
  ghost predicate Shows(evs: seq<Event>, k: nat, s: int, last: int) {
    forall j: nat
      | k < j < |evs| && Prepares(evs[j], s) && ReplyAt(evs, j).Prepared?
        && (forall i :: k < i < j ==> !Redecides(Run(FORMATTED, evs[..i]), evs[i], s)) ::
      Describes(Run(FORMATTED, evs[..j]).w.disk, ReplyAt(evs, j), s, last)
  }

  lemma AckedShows(evs: seq<Event>, k: nat, s: int, epoch: int, last: int)
    requires AdmissibleRun(evs) && Acknowledged(evs, k, s, epoch, last)
    ensures Shows(evs, k, s, last)
  {
    hide AdmissibleRun, ReplyAt, Redecides, Run, Describes, IsBatchTo;
    forall j: nat | k < j < |evs| && Prepares(evs[j], s) && ReplyAt(evs, j).Prepared?
               && (forall i :: k < i < j ==> !Redecides(Run(FORMATTED, evs[..i]), evs[i], s))
      ensures Describes(Run(FORMATTED, evs[..j]).w.disk, ReplyAt(evs, j), s, last)
    {
      AckedIsReported(evs, k, j, s, epoch, last);
    }
  }

  /**
   * Quorum visibility.  A majority acknowledged a batch in one epoch and a majority promised a newer one:
   * then some node did both, in this order, and shows the batch to whoever prepares a recovery there, as
   * long as no start and no recovery of the segment passes its check on that node in between.
   */
  lemma BatchIsVisible(run: ClusterRun, nodes: set<NodeId>, acked: set<NodeId>, promised: set<NodeId>,
                       s: int, epoch: int, last: int, newer: int)
    requires Majority(acked, nodes) && Majority(promised, nodes) && epoch < newer
    requires forall i <- nodes :: AdmissibleRun(LocalRun(run, i))
    requires forall i <- acked :: exists k: nat :: Acknowledged(LocalRun(run, i), k, s, epoch, last)
    requires forall i <- promised :: exists p: nat :: PromisedAt(LocalRun(run, i), p, newer)
    ensures exists i, k: nat, p: nat :: i in acked && i in promised && k < p
              && Acknowledged(LocalRun(run, i), k, s, epoch, last) && PromisedAt(LocalRun(run, i), p, newer)
              && Shows(LocalRun(run, i), k, s, last)
  {
    hide AdmissibleRun, LocalRun, ReplyAt, Shows, Run;
    MajoritiesMeet(acked, promised, nodes);
    var i :| i in acked && i in promised;
    var evs := LocalRun(run, i);
    var k: nat :| Acknowledged(evs, k, s, epoch, last);
    var p: nat :| PromisedAt(evs, p, newer);
    OldBeforePromise(evs, k, p, newer);
    AckedShows(evs, k, s, epoch, last);
  }

  // ----- What a new writer is told first -----

  /** Between the two events no start and no recovery of the segment passes its check. */
  ghost predicate Undecided(evs: seq<Event>, k: nat, p: nat, s: int)
    requires p <= |evs|
  {
    forall i :: k < i < p ==> !Redecides(Run(FORMATTED, evs[..i]), evs[i], s)
  }

  ghost predicate NewEpochAt(evs: seq<Event>, p: nat, epoch: int) {
    p < |evs| && evs[p].Call? && evs[p].request == NewEpoch(true, epoch) && ReplyAt(evs, p).Promised?
  }

  /** On one node: after an acknowledged batch a successful newEpoch names its segment or a later one. */
  lemma AckedIsNamed(evs: seq<Event>, k: nat, p: nat, s: int, epoch: int, last: int, newer: int)
    requires AdmissibleRun(evs) && k < p && Acknowledged(evs, k, s, epoch, last) && NewEpochAt(evs, p, newer)
    requires Undecided(evs, k, p, s)
    ensures NamesAtOrPast(Run(FORMATTED, evs[..p]).w.disk, ReplyAt(evs, p), s)
  {
    hide Step, Inv, Covers, Admissible, IsBatchTo, Redecides, Run;
    StaysCovered(evs, k, p, s, epoch, last);
    AdmissibleAt(evs, p);
    CoveredIsNamed(Run(FORMATTED, evs[..p]), newer, evs[p].faults, s, last);
  }

  /**
   * A majority acknowledged a batch and a majority answers the newEpoch of a newer writer: then some node did
   * both, in this order, and names the batch's segment or a later one, unless a start or a recovery of the
   * segment has passed its check there in between.
   */
  lemma SegmentIsNamed(run: ClusterRun, nodes: set<NodeId>, acked: set<NodeId>, promised: set<NodeId>,
                       s: int, epoch: int, last: int, newer: int)
    requires Majority(acked, nodes) && Majority(promised, nodes) && epoch < newer
    requires forall i <- nodes :: AdmissibleRun(LocalRun(run, i))
    requires forall i <- acked :: exists k: nat :: Acknowledged(LocalRun(run, i), k, s, epoch, last)
    requires forall i <- promised :: exists p: nat :: NewEpochAt(LocalRun(run, i), p, newer)
    ensures exists i, k: nat, p: nat :: i in acked && i in promised && k < p
              && Acknowledged(LocalRun(run, i), k, s, epoch, last) && NewEpochAt(LocalRun(run, i), p, newer)
              && (Undecided(LocalRun(run, i), k, p, s) ==>
                    NamesAtOrPast(Run(FORMATTED, LocalRun(run, i)[..p]).w.disk, ReplyAt(LocalRun(run, i), p), s))
  {
    hide AdmissibleRun, LocalRun, ReplyAt, Redecides, Run;
    MajoritiesMeet(acked, promised, nodes);
    var i :| i in acked && i in promised;
    var evs := LocalRun(run, i);
    var k: nat :| Acknowledged(evs, k, s, epoch, last);
    var p: nat :| NewEpochAt(evs, p, newer);
    NewEpochPromises(evs, p);
    OldBeforePromise(evs, k, p + 1, newer);
    assert k != p;
    if Undecided(evs, k, p, s) {
      AckedIsNamed(evs, k, p, s, epoch, last, newer);
    }
  }

  // ----- Accepted recoveries -----

  ghost predicate AcceptedAt(evs: seq<Event>, k: nat, a: Accepted) {
    && k < |evs| && evs[k].Call? && evs[k].request.AcceptRecovery? && ReplyAt(evs, k).Done?
    && evs[k].request.info.epoch == a.epoch && evs[k].request.state == a.segment
  }

  /**
   * From the accepting on, every preparation reports it, until a start or another recovery of the segment
   * passes its check.
   */
  ghost predicate Remembers(evs: seq<Event>, k: nat, a: Accepted) {
    forall j: nat
      | k < j < |evs| && Prepares(evs[j], a.segment.start) && ReplyAt(evs, j).Prepared?
        && (forall i :: k < i < j ==> !Redecides(Run(FORMATTED, evs[..i]), evs[i], a.segment.start)) ::
      Reports(ReplyAt(evs, j), a, Run(FORMATTED, evs[..j]).w.disk)
  }

  lemma AcceptedIsRemembered(evs: seq<Event>, k: nat, a: Accepted)
    requires AdmissibleRun(evs) && AcceptedAt(evs, k, a)
    ensures Remembers(evs, k, a)
  {
    hide AdmissibleRun, Run, Step, Redecides, Reports;
    forall j: nat | k < j < |evs| && Prepares(evs[j], a.segment.start) && ReplyAt(evs, j).Prepared?
               && (forall i :: k < i < j ==> !Redecides(Run(FORMATTED, evs[..i]), evs[i], a.segment.start))
      ensures Reports(ReplyAt(evs, j), a, Run(FORMATTED, evs[..j]).w.disk)
    {
      var later := evs[k + 1..j];
      assert evs[..k] + [evs[k]] == evs[..k + 1] && evs[..k + 1] + later == evs[..j];
      forall i | 0 <= i < |later|
        ensures !Redecides(Run(FORMATTED, evs[..k + 1] + later[..i]), later[i], a.segment.start)
      {
        assert evs[..k + 1] + later[..i] == evs[..k + 1 + i] && later[i] == evs[k + 1 + i];
      }
      PrefixAdmissible(evs, j);
      AcceptedIsDurable(evs[..k], evs[k], later, evs[j].request.info, evs[j].faults);
    }
  }

  /**
   * Recoveries are visible, too.  A majority accepted a recovery in one epoch and a majority promised a newer
   * one: then some node did both, in this order, and reports the accepted recovery to whoever prepares there,
   * as long as no start and no other recovery of the segment passes its check on that node in between.
   */
  lemma RecoveryIsVisible(run: ClusterRun, nodes: set<NodeId>, accepted: set<NodeId>, promised: set<NodeId>,
                          a: Accepted, newer: int)
    requires Majority(accepted, nodes) && Majority(promised, nodes) && a.epoch < newer
    requires forall i <- nodes :: AdmissibleRun(LocalRun(run, i))
    requires forall i <- accepted :: exists k: nat :: AcceptedAt(LocalRun(run, i), k, a)
    requires forall i <- promised :: exists p: nat :: PromisedAt(LocalRun(run, i), p, newer)
    ensures exists i, k: nat, p: nat :: i in accepted && i in promised && k < p
              && AcceptedAt(LocalRun(run, i), k, a) && PromisedAt(LocalRun(run, i), p, newer)
              && Remembers(LocalRun(run, i), k, a)
  {
    hide AdmissibleRun, LocalRun, ReplyAt, Remembers, Run;
    MajoritiesMeet(accepted, promised, nodes);
    var i :| i in accepted && i in promised;
    var evs := LocalRun(run, i);
    var k: nat :| AcceptedAt(evs, k, a);
    var p: nat :| PromisedAt(evs, p, newer);
    OldBeforePromise(evs, k, p, newer);
    AcceptedIsRemembered(evs, k, a);
  }
}
