/** Exactly when acceptRecovery is one atomic switch, and runs in which it is not. */
module JournalAtomicity {
  import opened Bytes
  import opened EditLog
  import opened Disk
  import opened JournalSpec
  import opened JournalFrames
  import opened JournalInvariant
  import opened JournalEpochs
  import opened JournalRuns
  import opened JournalRecovery
  import opened JournalCalm
  import opened JournalProgress
  import opened JournalSafety
  import opened StorageScan

  /**
   * The outcomes a caller may see: as if the request never came, or as if it had been done.  It can only have
   * been done with the wanted end in place or with all of it downloaded.
   */
  ghost predicate OldOrNew(n: Node, r: RequestInfo, seg: Segment, download: Download, d': Files) {
    var d := n.w.disk;
    || Effective(d', seg.start) == Effective(d, seg.start)
    || ((InPlace(d, seg) || download.Complete?) && Effective(d', seg.start) == Target(d, r.epoch, seg, download))
  }

  /** Whatever fails or crashes, and whatever becomes of the download. */
  ghost predicate Atomic(n: Node, r: RequestInfo, seg: Segment) {
    forall faults, download | Honest(n, AcceptRecovery(r, seg, download)) ::
      OldOrNew(n, r, seg, download, DoAccept(n.(w := n.w.(faults := faults)), r, seg, download).0.w.disk)
  }

  /** A well-formed request that no check of the node stops, for a segment that is not finalized. */
  ghost predicate Acceptable(n: Node, r: RequestInfo, seg: Segment) {
    && Good(n) && InTurn(n, r) && Keeps(InPlaceLog(n.w.disk.logs, seg.start), Known(n.vol.committed, r.committed), seg)
    && 0 <= seg.start <= seg.end && 1 <= seg.end && !IsFinalized(n.w.disk.logs, seg.start)
  }

  /** A download that dies with something that is not in the effective log now. */
  ghost function Junk(d: Files, s: int): Bytes {
    if Effective(d, s).log == Some([]) then [0] else []
  }

  /** A process that dies in a download leaves what it has got so far in the temporary file. */
  lemma DyingDownload(n: Node, r: RequestInfo, seg: Segment, junk: Bytes)
    requires Acceptable(n, r, seg) && !InPlace(n.w.disk, seg)
    ensures
      var d, d' := n.w.disk, DoAccept(n.(w := n.w.(faults := [])), r, seg, Died(junk)).0.w.disk;
      var tmp := SyncTemp(seg.start, r.epoch);
      && d'.paxos == d.paxos && PromisedEpoch(d') == r.epoch && tmp in d'.logs && d'.logs[tmp] == junk
      && (forall f :: f in d'.logs && !f.Empty? && f != tmp ==> f in d.logs && d'.logs[f] == d.logs[f])
      && (forall f :: f in d.logs && !f.Empty? && !HasNoTransactions(d.logs[f]) ==> f in d'.logs)
  {
    hide Scan, CommitAccept, SegmentsOk, RecordsOk, IsLog, ReplaceFile, GetSegmentInfo, VolOk, CheckRequest,
      IsFinalized, InPlace;
    var m := n.(w := n.w.(faults := []));
    var s := seg.start;
    AcceptInOrder(m, r, seg, Died(junk));
    CalmCheck(m, r);
    var n1 := AbortCurSegment(CheckRequest(m, r).0);
    SameEffective(n.w.disk, n1.w.disk, seg);
    CalmInfo(n1.w, s);
    GetSegmentInfoFrame(n1.w, s);
    InfoIffInPlace(n1.w, seg);
    var w1 := GetSegmentInfo(n1.w, s).0;
    TidiedKinds(n1.w.disk, w1.disk);
    assert DoAccept(m, r, seg, Died(junk)).0.w.disk == Apply(w1.disk, WriteLog(SyncTemp(s, r.epoch), junk));
  }

  /**
   * A second try of an epoch whose record is in place, when another end has to be downloaded: the process
   * dies during the transfer, and the partial file is already the one the old record names.
   */
  lemma SecondTryIsNotAtomic(n: Node, r: RequestInfo, seg: Segment)
    requires Acceptable(n, r, seg) && RecordedIn(n.w.disk, seg.start, r.epoch) && !InPlace(n.w.disk, seg)
    ensures
      var junk := Junk(n.w.disk, seg.start);
      var d' := DoAccept(n.(w := n.w.(faults := [])), r, seg, Died(junk)).0.w.disk;
      Effective(d', seg.start).log == Some(junk) && !OldOrNew(n, r, seg, Died(junk), d')
  {
    hide DoAccept, VolOk, SegmentsOk, InTurn, IsFinalized, InPlace, InPlaceLog;
    RecordIsBacked(n.w.disk, seg.start);
    DyingDownload(n, r, seg, Junk(n.w.disk, seg.start));
  }

  /**
   * A try with the wanted end in place, when an earlier try of the epoch left another temporary file: the
   * request succeeds, but the record it writes names the file that was left over.
   */
  lemma LeftoverIsNotAtomic(n: Node, r: RequestInfo, seg: Segment, download: Download)
    requires Acceptable(n, r, seg) && InPlace(n.w.disk, seg) && !Undisturbed(n.w.disk, Accepted(r.epoch, seg))
    ensures
      var (n', reply) := DoAccept(n.(w := n.w.(faults := [])), r, seg, download);
      && reply.Done? && Effective(n'.w.disk, seg.start).log == Some(n.w.disk.logs[SyncTemp(seg.start, r.epoch)])
      && !OldOrNew(n, r, seg, download, n'.w.disk)
  {
    hide Scan, SegmentsOk, IsLog, ReplaceFile, GetSegmentInfo, VolOk, CheckRequest, IsFinalized, InPlace,
      Tidied, InPlaceLog, PersistPaxosData;
    var m := n.(w := n.w.(faults := []));
    var s := seg.start;
    var a := Accepted(r.epoch, seg);
    AcceptInOrder(m, r, seg, download);
    CalmCheck(m, r);
    var n1 := AbortCurSegment(CheckRequest(m, r).0);
    SameEffective(n.w.disk, n1.w.disk, seg);
    GetSegmentInfoFrame(n1.w, s);
    InfoIffInPlace(n1.w, seg);
    CalmPersist(n1.w, s, a);
    CommitIsAtomic(n1, a, false);
  }

  /**
   * acceptRecovery is atomic, for all faults and all honest downloads, if and only if nothing that an earlier
   * try of the same epoch left behind gets in the way.
   */
  lemma AtomicIff(n: Node, r: RequestInfo, seg: Segment)
    requires Acceptable(n, r, seg)
    ensures Atomic(n, r, seg) <==> Undisturbed(n.w.disk, Accepted(r.epoch, seg))
  {
    hide DoAccept, Effective, Inv, InPlace, EpochsOk, Target, InTurn, IsFinalized, InPlaceLog;
    if Undisturbed(n.w.disk, Accepted(r.epoch, seg)) {
      forall faults, download | Honest(n, AcceptRecovery(r, seg, download))
        ensures OldOrNew(n, r, seg, download, DoAccept(n.(w := n.w.(faults := faults)), r, seg, download).0.w.disk)
      {
        FaultsDoNotMatter(n, faults, AcceptRecovery(r, seg, download));
        AcceptIsAtomic(n.(w := n.w.(faults := faults)), r, seg, download);
      }
    } else if InPlace(n.w.disk, seg) {
      LeftoverIsNotAtomic(n, r, seg, Died([]));
      assert Honest(n, AcceptRecovery(r, seg, Died([])));
    } else {
      SecondTryIsNotAtomic(n, r, seg);
      assert Honest(n, AcceptRecovery(r, seg, Died(Junk(n.w.disk, seg.start))));
    }
  }

  // ----- Runs that get there -----

  /**
   * Every recovery that goes well leads to a state in which a second try of its epoch, for another end, is not
   * atomic.
   */
  lemma SecondTryHappens(n: Node, epoch: int, told: int, seg: Segment, content: Bytes, seg2: Segment) returns (n3: Node)
    requires Good(n) && PromisedEpoch(n.w.disk) < epoch && Tellable(n, told)
    requires Holds(content, seg.start, seg.end) && 1 <= seg.end && FirstTry(n.w.disk, seg.start, epoch)
    requires Recoverable(n, told, seg) && !IsFinalized(n.w.disk.logs, seg.start)
    requires seg2.start == seg.start <= seg2.end != seg.end && 1 <= seg2.end
    requires var known := Known(n.vol.committed, told); seg.start <= known <= seg.end ==> known <= seg2.end
    ensures n3 == After(n, Recovery(epoch, told, seg, content), 3)
    ensures
      var r := RequestInfo(epoch, 3, told);
      && Acceptable(n3, r, seg2) && RecordedIn(n3.w.disk, seg2.start, epoch) && !InPlace(n3.w.disk, seg2)
      && !Atomic(n3, r, seg2)
  {
    hide Step, Good, IsLog, FirstTry, After, ReplyTo, Recovery, Scan, Atomic, Recoverable;
    n3 := RecoveryReaches(n, epoch, told, seg, content);
    HoldsScans(n3.w.disk.logs[InProgress(seg.start)], seg.start, seg.end);
    AtomicIff(n3, RequestInfo(epoch, 3, told), seg2);
  }

  /** A log of one transaction. */
  function OneTransaction(txid: int): Bytes {
    Header(0) + Encode(Entry(txid, [], 0))
  }

  lemma OneTransactionHolds(txid: nat)
    requires txid < 0x1_0000
    ensures Holds(OneTransaction(txid), txid, txid)
  {
    hide IsLog, IsBatch, Header, Encode;
    var e := Entry(txid, [], 0);
    assert Fits(0, 4) && ValidEntry(e) by { Radixes(); }
    OneEntry(e);
    BatchOf([e], txid);
    HeaderIsLog(0, txid);
    AppendBatch(Header(0), txid, 0, Encode(e), 1);
  }

  lemma OneEntry(e: Entry)
    ensures EncodeAll([e]) == Encode(e)
  {
    hide Encode;
    assert EncodeAll([e]) == EncodeAll([]) + Encode(e);
  }

  lemma FreshIsRecoverable(epoch: int, seg: Segment)
    ensures Good(FORMATTED) <==> Inv(FORMATTED)
    ensures Recoverable(FORMATTED, INVALID_TXID, seg) && FirstTry(FORMATTED.w.disk, seg.start, epoch)
    ensures !IsFinalized(FORMATTED.w.disk.logs, seg.start)
  {
  }

  /** So the first recovery on a fresh node may be followed by one that is not atomic. */
  lemma SecondTryOnFreshNode() returns (n3: Node)
    ensures n3 == After(FORMATTED, Recovery(1, INVALID_TXID, Segment(1, 1, true), OneTransaction(1)), 3)
    ensures !Atomic(n3, RequestInfo(1, 3, INVALID_TXID), Segment(1, 2, true))
  {
    hide Step, After, Recovery, OneTransaction, Holds, Atomic;
    OneTransactionHolds(1);
    FormattedInv();
    FreshIsRecoverable(1, Segment(1, 1, true));
    n3 := SecondTryHappens(FORMATTED, 1, INVALID_TXID, Segment(1, 1, true), OneTransaction(1), Segment(1, 2, true));
  }

  /**
   * A writer that has some of a segment, tries to recover more of it from elsewhere, dies in the download and
   * comes back, cannot have what it has accepted atomically in the same epoch.
   */
  lemma LeftoverHappens(n: Node, epoch: int, serial: int, s: int, next: int, b: Bytes, junk: Bytes) returns (n': Node)
    requires Writing(n, epoch, serial, s, next, b) && 0 <= s < next && 2 <= next && 0 <= serial
    requires SyncTemp(s, epoch) !in n.w.disk.logs && junk != b
    ensures
      var r := RequestInfo(epoch, serial + 1, INVALID_TXID);
      var dying := Call(AcceptRecovery(r, Segment(s, next, true), Died(junk)), []);
      n' == Step(Step(n, dying).0, Restart([])).0
    ensures
      var (r, seg) := (RequestInfo(epoch, 0, INVALID_TXID), Segment(s, next - 1, true));
      Acceptable(n', r, seg) && InPlace(n'.w.disk, seg) && !Atomic(n', r, seg)
  {
    hide Step, Inv, EpochsOk, Atomic, VolShape, Tidied, InPlace, Undisturbed, IsFinalized;
    var r, more := RequestInfo(epoch, serial + 1, INVALID_TXID), Segment(s, next, true);
    var dying := Call(AcceptRecovery(r, more, Died(junk)), []);
    var n1 := Step(n, dying).0;
    WritingHolds(n, epoch, serial, s, next, b);
    DyingStep(n, r, more, junk);
    StepEpochs(n, dying);
    RestartTidies(n1);
    n' := Step(n1, Restart([])).0;
    LeftOver(n, n1.w.disk, n'.w.disk, epoch, s, next, b, junk);
    AtomicIff(n', RequestInfo(epoch, 0, INVALID_TXID), Segment(s, next - 1, true));
  }

  lemma WritingHolds(n: Node, epoch: int, serial: int, s: int, next: int, b: Bytes)
    requires Writing(n, epoch, serial, s, next, b) && 0 <= s < next
    ensures Scan(b) == LastTxId(next - 1) && Paxos(s) !in n.w.disk.paxos && !InPlace(n.w.disk, Segment(s, next, true))
  {
    hide DiskOk, IsLog, Scan;
    ScanLog(b, s, next - s);
  }

  lemma DyingStep(n: Node, r: RequestInfo, seg: Segment, junk: Bytes)
    requires Acceptable(n, r, seg) && !InPlace(n.w.disk, seg) && FirstTry(n.w.disk, seg.start, r.epoch)
    ensures
      var d, n' := n.w.disk, Step(n, Call(AcceptRecovery(r, seg, Died(junk)), [])).0;
      var d', tmp := n'.w.disk, SyncTemp(seg.start, r.epoch);
      && Inv(n') && VolShape(n'.vol) && OneFinal(d'.logs)
      && d'.paxos == d.paxos && PromisedEpoch(d') == r.epoch && tmp in d'.logs && d'.logs[tmp] == junk
      && (forall f :: f in d'.logs && !f.Empty? && f != tmp ==> f in d.logs && d'.logs[f] == d.logs[f])
      && (forall f :: f in d.logs && !f.Empty? && !HasNoTransactions(d.logs[f]) ==> f in d'.logs)
  {
    hide DoAccept, Inv, EpochsOk, InPlace, HasNoTransactions, InTurn, IsFinalized;
    var ev := Call(AcceptRecovery(r, seg, Died(junk)), []);
    DyingDownload(n, r, seg, junk);
    StepKeepsInv(n, ev);
    StepKeepsOneFinal(n, ev);
  }

  lemma LeftOver(n: Node, d1: Files, d2: Files, epoch: int, s: int, next: int, b: Bytes, junk: Bytes)
    requires var d, tmp := n.w.disk, SyncTemp(s, epoch);
             && Paxos(s) !in d.paxos && d1.paxos == d.paxos && tmp in d1.logs && d1.logs[tmp] == junk
             && (forall f :: f in d1.logs && !f.Empty? && f != tmp ==> f in d.logs && d1.logs[f] == d.logs[f])
             && (forall f :: f in d.logs && !f.Empty? && !HasNoTransactions(d.logs[f]) ==> f in d1.logs)
             && InProgress(s) in d.logs && d.logs[InProgress(s)] == b && !IsFinalized(d.logs, s)
    requires Tidied(d1, d2) && 0 <= s < next && Scan(b) == LastTxId(next - 1) && junk != b
    ensures
      var a := Accepted(epoch, Segment(s, next - 1, true));
      InPlace(d2, a.segment) && !Undisturbed(d2, a) && !IsFinalized(d2.logs, s) && d2.longs == d1.longs
  {
    hide Scan;
    OnlyInProgress(d2, s);
  }
}
