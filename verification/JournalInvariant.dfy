/** What every reachable state of a node keeps, across requests, faults, crashes and restarts. */
module JournalInvariant {
  import opened Bytes
  import opened EditLog
  import opened Disk
  import opened JournalSpec

  /** b holds exactly the consecutive transactions from s up to some point. */
  ghost predicate HoldsFrom(b: Bytes, s: int) {
    0 <= s && exists n: nat :: IsLog(b, s, n)
  }

  /** b holds exactly the transactions s..e. */
  ghost predicate Holds(b: Bytes, s: int, e: int) {
    0 <= s <= e && IsLog(b, s, e - s + 1)
  }

  lemma HoldsScans(b: Bytes, s: int, e: int)
    requires Holds(b, s, e)
    ensures HoldsFrom(b, s) && Scan(b) == LastTxId(e)
  {
    ScanLog(b, s, e - s + 1);
  }

  lemma ScansHold(b: Bytes, s: int)
    requires HoldsFrom(b, s)
    ensures Scan(b).LastTxId?
    ensures Scan(b).txid != INVALID_TXID ==> Holds(b, s, Scan(b).txid)
  {
    var n: nat :| IsLog(b, s, n);
    ScanLog(b, s, n);
  }

  // ----- The disk -----

  ghost predicate SegmentsOk(logs: map<LogName, Bytes>) {
    forall f :: f in logs ==>
      && (f.InProgress? ==> HoldsFrom(logs[f], f.first))
      && (f.Finalized? ==> Holds(logs[f], f.first, f.last))
  }

  ghost predicate IsFinalized(logs: map<LogName, Bytes>, s: int) {
    exists e :: Finalized(s, e) in logs
  }

  /** A start has at most one finalized file. */
  ghost predicate OneFinal(logs: map<LogName, Bytes>) {
    forall s, e, e' :: Finalized(s, e) in logs && Finalized(s, e') in logs ==> e == e'
  }

  /** An accepted recovery of s is backed by the file it promises. */
  ghost predicate Backed(logs: map<LogName, Bytes>, s: int, a: Accepted) {
    && a.segment.start == s && 0 <= s && 1 <= a.segment.end && s <= a.segment.end
    && var tmp := SyncTemp(s, a.epoch);
    if tmp in logs then Holds(logs[tmp], s, a.segment.end)
    else !IsFinalized(logs, s) ==> InProgress(s) in logs && Holds(logs[InProgress(s)], s, a.segment.end)
  }

  ghost predicate RecordsOk(logs: map<LogName, Bytes>, paxos: map<PaxosName, Accepted>) {
    forall s :: Paxos(s) in paxos ==> Backed(logs, s, paxos[Paxos(s)])
  }

  ghost predicate DiskOk(logs: map<LogName, Bytes>, paxos: map<PaxosName, Accepted>) {
    SegmentsOk(logs) && RecordsOk(logs, paxos)
  }

  // ----- The volatile state -----

  /** Without a stream no segment is current, and a current segment is the one the stream writes to. */
  ghost predicate VolShape(v: Vol) {
    && (v.stream.None? ==> v.curSegmentTxId == INVALID_TXID)
    && (v.curSegmentTxId != INVALID_TXID ==> v.stream == Some(v.curSegmentTxId))
  }

  /** While a segment is open its file holds exactly what the counter says, and nobody accepted a recovery of it. */
  ghost predicate VolOk(v: Vol, logs: map<LogName, Bytes>, paxos: map<PaxosName, Accepted>) {
    && VolShape(v)
    && (v.curSegmentTxId != INVALID_TXID ==> OpenOk(v.curSegmentTxId, v.nextTxId, logs, paxos))
  }

  ghost predicate OpenOk(s: int, next: int, logs: map<LogName, Bytes>, paxos: map<PaxosName, Accepted>) {
    && 0 <= s <= next
    && InProgress(s) in logs && IsLog(logs[InProgress(s)], s, next - s)
    && Paxos(s) !in paxos
  }

  ghost predicate Inv(n: Node) {
    && DiskOk(n.w.disk.logs, n.w.disk.paxos)
    && (!n.w.dead ==> VolOk(n.vol, n.w.disk.logs, n.w.disk.paxos))
  }

  // ----- What is assumed of the requests -----

  /**
   * Transaction ids are not negative, a batch encodes exactly the transactions it announces, a complete
   * download is the whole segment asked for, files stay below 4 GiB, and a segment is not finalized empty.
   */
  ghost predicate Honest(n: Node, q: Request) {
    match q
    case NewEpoch(_, _) => true
    case StartLogSegment(_, txid, layout) => 0 <= txid && Fits(layout, 4)
    case JournalTxns(_, s, first, num, records) =>
      && 0 <= s && 0 <= first && 0 <= num && IsBatch(records, first, num)
      && (InProgress(s) in n.w.disk.logs ==> |n.w.disk.logs[InProgress(s)] + records| < POSITIONS)
    case FinalizeLogSegment(_, s, e) => 0 <= s <= e
    case PrepareRecovery(_, s) => 0 <= s
    case AcceptRecovery(_, seg, download) =>
      0 <= seg.start && (download.Complete? && seg.start <= seg.end ==> Holds(download.content, seg.start, seg.end))
  }

  /** This epoch has not tried to recover this segment here before. */
  ghost predicate FirstTry(d: Files, s: int, epoch: int) {
    SyncTemp(s, epoch) !in d.logs && (Paxos(s) in d.paxos ==> d.paxos[Paxos(s)].epoch != epoch)
  }

  ghost predicate Admissible(n: Node, q: Request) {
    && Honest(n, q)
    && (q.AcceptRecovery? ==> FirstTry(n.w.disk, q.state.start, q.info.epoch))
  }
}
