/**
 * Every request, restart, fault and crash changes the disk by a sequence of a few kinds of atomic moves.
 * Properties of whole runs are proved move by move.
 */
module JournalMoves {
  import opened Bytes
  import opened EditLog
  import opened Disk
  import opened JournalSpec
  import opened JournalFrames
  import opened JournalInvariant

  datatype Move =
    | RaisePromise(epoch: int)
    | TakeOver(epoch: int)
    | Tidy
    | Purge(s: int)
    | Open(s: int, layout: int)
    | Append(s: int, first: int, num: int, records: Bytes)
    | FinalizeAs(s: int, e: int)
    | DropTarget(s: int)
    | RollForward(s: int)
    | Fetch(s: int, epoch: int, content: Bytes)
    | Discard(s: int, epoch: int)
    | Stage(s: int, a: Accepted)
    | Record(s: int, a: Accepted)

  /** The synchronised file that the accepted record of s names is still waiting. */
  ghost predicate HalfDone(d: Files, s: int) {
    && Paxos(s) in d.paxos && d.paxos[Paxos(s)].segment.start == s
    && SyncTemp(s, d.paxos[Paxos(s)].epoch) in d.logs
  }

  ghost predicate Takes(d: Files, m: Move, d': Files) {
    match m
    case RaisePromise(e) => PromisedEpoch(d) < e && d' == d.(longs := d.longs[LastPromised := e])
    case TakeOver(e) => e == PromisedEpoch(d) && d' == d.(longs := d.longs[LastWriter := e])
    case Tidy => Tidied(d, d')
    case Purge(s) => d' == d.(paxos := d.paxos - {Paxos(s)})
    case Open(s, layout) =>
      && Paxos(s) !in d.paxos && LogsAt(d, s) <= {InProgress(s)}
      && (InProgress(s) in d.logs ==> Scan(d.logs[InProgress(s)]) == LastTxId(s))
      && d' == d.(logs := d.logs[InProgress(s) := Header(layout)])
    case Append(s, first, num, records) =>
      InProgress(s) in d.logs && d' == d.(logs := d.logs[InProgress(s) := d.logs[InProgress(s)] + records])
    case FinalizeAs(s, e) =>
      && LogsAt(d, s) == {InProgress(s)} && InProgress(s) in d.logs && Finalized(s, e) !in d.logs
      && d' == d.(logs := (d.logs - {InProgress(s)})[Finalized(s, e) := d.logs[InProgress(s)]])
    case DropTarget(s) => HalfDone(d, s) && d' == d.(logs := d.logs - {InProgress(s)})
    case RollForward(s) =>
      && HalfDone(d, s)
      && var tmp := SyncTemp(s, d.paxos[Paxos(s)].epoch);
      d' == d.(logs := (d.logs - {tmp})[InProgress(s) := d.logs[tmp]])
    case Fetch(s, e, b) => e == PromisedEpoch(d) && d' == d.(logs := d.logs[SyncTemp(s, e) := b])
    case Discard(s, e) => e == PromisedEpoch(d) && d' == d.(logs := d.logs - {SyncTemp(s, e)})
    case Stage(s, a) => d' == d.(paxos := d.paxos[PaxosTemp(s) := a])
    case Record(s, a) =>
      && a.segment.start == s && a.epoch == PromisedEpoch(d) && 1 <= a.segment.end && s <= a.segment.end
      && d' == d.(paxos := (d.paxos - {PaxosTemp(s)})[Paxos(s) := a])
  }

  ghost function Received(download: Download): Bytes {
    if download.Complete? then download.content else download.partial
  }

  /** The moves a request may make. */
  ghost predicate Allowed(q: Request, m: Move) {
    match q
    case NewEpoch(_, e) => m == RaisePromise(e) || m.Tidy?
    case StartLogSegment(r, s, layout) =>
      m == RaisePromise(r.epoch) || m == TakeOver(r.epoch) || m == Purge(s) || m == Open(s, layout)
    case JournalTxns(r, s, first, num, records) =>
      || m == RaisePromise(r.epoch)
      || (m.Append? && (m.s == s || s == INVALID_TXID) && m == Append(m.s, first, num, records))
    case FinalizeLogSegment(r, s, e) => m == RaisePromise(r.epoch) || m == FinalizeAs(s, e) || m == Purge(s)
    case PrepareRecovery(r, s) => m == RaisePromise(r.epoch) || m.Tidy? || m == DropTarget(s) || m == RollForward(s)
    case AcceptRecovery(r, seg, download) =>
      || m == RaisePromise(r.epoch) || m.Tidy?
      || m == Fetch(seg.start, r.epoch, Received(download)) || m == Discard(seg.start, r.epoch)
      || m == Stage(seg.start, Accepted(r.epoch, seg)) || m == Record(seg.start, Accepted(r.epoch, seg))
      || m == DropTarget(seg.start) || m == RollForward(seg.start)
  }

  /** What makes a move keep the disk in order; it holds in runs of admissible requests. */
  ghost predicate Sound(d: Files, m: Move) {
    match m
    case Open(s, layout) => 0 <= s && Fits(layout, 4)
    case Append(s, first, num, records) =>
      && Paxos(s) !in d.paxos && InProgress(s) in d.logs && 0 <= s <= first && 0 <= num
      && IsLog(d.logs[InProgress(s)], s, first - s) && IsBatch(records, first, num)
      && |d.logs[InProgress(s)] + records| < POSITIONS
    case FinalizeAs(s, e) => InProgress(s) in d.logs && Holds(d.logs[InProgress(s)], s, e)
    case Fetch(s, e, _) => Paxos(s) in d.paxos ==> d.paxos[Paxos(s)].epoch != e
    case Discard(s, e) => Paxos(s) in d.paxos ==> d.paxos[Paxos(s)].epoch != e
    case Record(s, a) => Backed(d.logs, s, a)
    case _ => true
  }

  /** Whose moves are counted, and whether only sound ones are. */
  datatype Context = Context(request: Option<Request>, sound: bool)

  ghost predicate Legal(d: Files, m: Move, d': Files, c: Context) {
    && Takes(d, m, d')
    && (if c.request.Some? then Allowed(c.request.value, m) else m.Tidy?)
    && (c.sound ==> Sound(d, m))
  }

  /** A sequence of moves with the disks in between. */
  datatype Trail = End(d: Files) | Via(d: Files, m: Move, rest: Trail)

  ghost function Last(t: Trail): Files {
    if t.End? then t.d else Last(t.rest)
  }

  ghost predicate Valid(t: Trail, c: Context) {
    t.Via? ==> Legal(t.d, t.m, t.rest.d, c) && Valid(t.rest, c)
  }

  ghost predicate Joins(t: Trail, d: Files, c: Context, d': Files) {
    t.d == d && Valid(t, c) && Last(t) == d'
  }

  ghost predicate Reaches(d: Files, c: Context, d': Files) {
    exists t :: Joins(t, d, c, d')
  }

  ghost function Concat(t: Trail, u: Trail): Trail {
    if t.End? then u else Via(t.d, t.m, Concat(t.rest, u))
  }

  lemma {:induction false} ConcatJoins(t: Trail, u: Trail, d: Files, c: Context, d1: Files, d2: Files)
    requires Joins(t, d, c, d1) && Joins(u, d1, c, d2)
    ensures Joins(Concat(t, u), d, c, d2)
  {
    hide Legal;
    if t.Via? {
      ConcatJoins(t.rest, u, t.rest.d, c, d1, d2);
    }
  }

  lemma Stay(d: Files, c: Context)
    ensures Reaches(d, c, d)
  {
    assert Joins(End(d), d, c, d);
  }

  lemma OneMove(d: Files, m: Move, d': Files, c: Context)
    requires Legal(d, m, d', c)
    ensures Reaches(d, c, d')
  {
    hide Legal;
    var t := Via(d, m, End(d'));
    assert Valid(End(d'), c) && Last(End(d')) == d';
    assert Valid(t, c) && Last(t) == d';
    assert Joins(t, d, c, d');
  }

  lemma Then(d: Files, c: Context, d1: Files, d2: Files)
    requires Reaches(d, c, d1) && Reaches(d1, c, d2)
    ensures Reaches(d, c, d2)
  {
    var t :| Joins(t, d, c, d1);
    var u :| Joins(u, d1, c, d2);
    hide Joins;
    ConcatJoins(t, u, d, c, d1, d2);
  }

  /** One file operation, whatever the fault: nothing, or the move it makes. */
  lemma PerformReaches(w: World, op: FileOp, m: Move, c: Context)
    requires Possible(w.disk, op) ==> Legal(w.disk, m, Apply(w.disk, op), c)
    ensures Reaches(w.disk, c, Perform(w, op).0.disk)
  {
    hide Legal, Reaches, Apply;
    Stay(w.disk, c);
    if Possible(w.disk, op) {
      OneMove(w.disk, m, Apply(w.disk, op), c);
    }
  }
}
