/** The journal of one node: the class, statement by statement, proved to do what JournalSpec says. */
module Journals {
  import opened Bytes
  import opened EditLog
  import opened EditLogStreams
  import opened Disk
  import opened PersistentLongFiles
  import opened FileJournalManagers
  import opened JournalSpec

  const HOST_IS_LITTLE_ENDIAN := true

  class Journal {
    const storage: Storage
    const fjm: FileJournalManager
    const lastPromisedEpoch: PersistentLongFile
    const lastWriterEpoch: PersistentLongFile
    var curSegment: Option<int>  // the first txid of the file the stream writes to
    var curSegmentTxId: int
    var nextTxId: int
    var currentEpochIpcSerial: int
    var committedTxnId: int
    var initialized: bool

    ghost predicate Valid()
      reads this, storage, lastPromisedEpoch, lastWriterEpoch, fjm
    {
      && fjm.storage == storage
      && lastPromisedEpoch != lastWriterEpoch
      && lastPromisedEpoch.storage == storage && lastWriterEpoch.storage == storage
      && lastPromisedEpoch.file == LastPromised && lastWriterEpoch.file == LastWriter
      && lastPromisedEpoch.defaultVal == 0 && lastWriterEpoch.defaultVal == 0
      && lastPromisedEpoch.Valid() && lastWriterEpoch.Valid()
    }

    /** The node this object is, in the terms of the specification. */
    ghost function State(): Node
      reads this, storage
    {
      Node(Vol(curSegment, curSegmentTxId, nextTxId, currentEpochIpcSerial, committedTxnId), storage.w)
    }

    /** Starting, or restarting, on a formatted storage directory. */
    constructor (storage: Storage)
      requires !storage.w.dead
      modifies storage
      ensures Valid() && this.storage == storage
      ensures State() == Node(FRESH, ScanStorage(old(storage.w)).0)
      ensures !storage.w.dead ==> (initialized <==> !ScanStorage(old(storage.w)).1.ScanError?)
    {
      this.storage := storage;
      fjm := new FileJournalManager(storage);
      lastPromisedEpoch := new PersistentLongFile(storage, LastPromised, 0);
      lastWriterEpoch := new PersistentLongFile(storage, LastWriter, 0);
      curSegment := None;
      curSegmentTxId := INVALID_TXID;
      nextTxId := INVALID_TXID;
      currentEpochIpcSerial := -1;
      committedTxnId := INVALID_TXID;
      initialized := false;
      new;
      var found := ScanStorageForLatestEdits();
      if !found.ScanError? {
        initialized := true;
      }
    }

    // ----- Storage -----

    /** The highest segment with a transaction in it; empty ones above it are moved aside. */
    method ScanStorageForLatestEdits() returns (found: Found)
      requires Valid()
      modifies storage
      ensures Valid() && unchanged(this)
      ensures (storage.w, found) == ScanStorage(old(storage.w))
    {
      hide Scan, Sorted, ListedLogs, InOrder, Distinct, JournalSpec.ReplaceFile;
      var files := fjm.GetLogFiles(0);
      ghost var w0 := storage.w;
      ghost var names := Names(files);
      ListingIsSorted(files, w0.disk);
      var i := |files|;
      assert names[..i] == names;
      while i > 0
        invariant 0 <= i <= |files|
        invariant Valid() && unchanged(this)
        invariant ScanDown(storage.w, names[..i]) == ScanDown(w0, names)
      {
        i := i - 1;
        var latest := files[i];
        assert names[..i + 1][..i] == names[..i];
        var scanned := ScanFile(latest.name);
        if scanned.ScanFailed? {
          return ScanError;
        }
        latest := latest.(lastTxId := scanned.txid);
        if latest.lastTxId == INVALID_TXID {
          var moved := MoveAsideEmptyFile(latest.name);
          if !moved {
            return ScanError;
          }
        } else {
          return Latest(latest.firstTxId, latest.lastTxId);
        }
      }
      return NoTransactions;
    }

    method ScanFile(f: LogName) returns (r: Scanned)
      ensures r == if f in storage.w.disk.logs then Scan(storage.w.disk.logs[f]) else ScanFailed
    {
      if f !in storage.w.disk.logs {
        return ScanFailed;
      }
      r := JNClientInputStream.ScanLog(storage.w.disk.logs[f], HOST_IS_LITTLE_ENDIAN);
    }

    /** Delete the target, trying five times, and rename over it. */
    method ReplaceFile(src: LogName, target: LogName) returns (ok: bool)
      requires Valid()
      modifies storage
      ensures Valid() && (storage.w, ok) == JournalSpec.ReplaceFile(old(storage.w), src, target)
    {
      var numRetries := 5;
      ghost var w0 := storage.w;
      while numRetries > 0
        invariant 0 <= numRetries <= 5
        invariant Valid()
        invariant DeleteTries(storage.w, target, numRetries) == DeleteTries(w0, target, 5)
      {
        numRetries := numRetries - 1;
        if target !in storage.w.disk.logs {
          break;
        }
        var deleted := storage.Run(DeleteLog(target));
        if deleted {
          numRetries := 0;
        }
      }
      ok := storage.Run(RenameLog(src, target));
    }

    method MoveAsideEmptyFile(f: LogName) returns (ok: bool)
      requires Valid()
      modifies storage
      ensures Valid() && (storage.w, ok) == JournalSpec.ReplaceFile(old(storage.w), f, Empty(f))
    {
      ok := ReplaceFile(f, Empty(f));
    }

    method GetSegmentInfo(s: int) returns (r: SegmentInfo)
      requires Valid()
      modifies storage
      ensures Valid() && (storage.w, r) == JournalSpec.GetSegmentInfo(old(storage.w), s)
    {
      var elf := fjm.GetLogFile(s);
      if elf.ManyLogs? {
        return InfoError;
      }
      if elf.NoLog? {
        return NoSegment;
      }
      assert elf.name in LogsAt(storage.w.disk, s);
      if elf.name.Finalized? {
        return Info(Segment(s, elf.name.last, false));
      }
      var scanned := ScanFile(elf.name);
      if scanned.ScanFailed? {
        return InfoError;
      }
      if scanned.txid == INVALID_TXID {
        var ignored := MoveAsideEmptyFile(elf.name);
        return NoSegment;
      }
      return Info(Segment(s, scanned.txid, true));
    }

    method PurgePaxosDecision(s: int) returns (ok: bool)
      requires Valid()
      modifies storage
      ensures Valid() && (storage.w, ok) == JournalSpec.PurgePaxosDecision(old(storage.w), s)
    {
      ok := true;
      if Paxos(s) in storage.w.disk.paxos {
        ok := storage.Run(DeletePaxos(Paxos(s)));
      }
    }

    method GetPersistedPaxosData(s: int) returns (r: Option<Accepted>)
      ensures r == PersistedPaxosData(storage.w.disk, s)
    {
      r := if Paxos(s) in storage.w.disk.paxos then Some(storage.w.disk.paxos[Paxos(s)]) else None;
    }

    method PersistPaxosData(s: int, newData: Accepted) returns (ok: bool)
      requires Valid()
      modifies storage
      ensures Valid() && (storage.w, ok) == JournalSpec.PersistPaxosData(old(storage.w), s, newData)
    {
      ok := storage.Run(WritePaxos(PaxosTemp(s), newData));
      if ok {
        ok := storage.Run(RenamePaxos(PaxosTemp(s), Paxos(s)));
      }
    }

    method CompleteHalfDoneAcceptRecovery(paxosData: Option<Accepted>) returns (ok: bool)
      requires Valid()
      modifies storage
      ensures Valid()
      ensures (storage.w, ok) ==
              if paxosData.Some? then CompleteHalfDone(old(storage.w), paxosData.value) else (old(storage.w), true)
    {
      if paxosData.None? {
        return true;
      }
      var segmentId, epoch := paxosData.value.segment.start, paxosData.value.epoch;
      var tmp := SyncTemp(segmentId, epoch);
      if tmp in storage.w.disk.logs {
        ok := ReplaceFile(tmp, InProgress(segmentId));
        return ok;
      }
      return true;
    }

    /** The download is the environment's: it hands over what arrived. */
    method SyncLog(s: int, epoch: int, download: Download) returns (ok: bool)
      requires Valid()
      modifies storage
      ensures Valid() && (storage.w, ok) == JournalSpec.SyncLog(old(storage.w), s, epoch, download)
    {
      var tmpFile := SyncTemp(s, epoch);
      if storage.w.dead {
        return false;
      }
      match download
      case Complete(content) =>
        storage.w := storage.w.(disk := Apply(storage.w.disk, WriteLog(tmpFile, content)));
        return true;
      case Died(partial) =>
        storage.w := storage.w.(disk := Apply(storage.w.disk, WriteLog(tmpFile, partial)), dead := true);
        return false;
      case Broken(partial) =>
        storage.w := storage.w.(disk := Apply(storage.w.disk, WriteLog(tmpFile, partial)));
        var ignored := storage.Run(DeleteLog(tmpFile));
        return false;
    }

    // ----- Checks -----

    /** The process stops; if it was gone already, nobody hears why. */
    method Halt(why: AbortReason) returns (reply: Reply)
      requires Valid()
      modifies storage
      ensures Valid() && unchanged(this) && (State(), reply) == Abort(old(State()), why)
    {
      reply := if storage.w.dead then Lost else Aborted(why);
      storage.Halt();
    }

    method UpdateLastPromisedEpoch(oldEpoch: int, newEpoch: int) returns (ok: bool)
      requires Valid() && !storage.w.dead
      requires PromisedEpoch(storage.w.disk) == oldEpoch < newEpoch
      modifies this, storage, lastPromisedEpoch
      ensures Valid() && (State(), ok) == UpdatePromise(old(State()), newEpoch)
    {
      ok := lastPromisedEpoch.Set(newEpoch);
      if ok {
        currentEpochIpcSerial := 0;
      }
    }

    method AbortCurSegment()
      requires Valid()
      modifies this
      ensures Valid() && State() == JournalSpec.AbortCurSegment(old(State()))
    {
      if curSegment.None? {
        return;
      }
      curSegment := None;
      curSegmentTxId := INVALID_TXID;
    }

    method CheckRequest(reqInfo: RequestInfo) returns (c: Check)
      requires Valid() && !storage.w.dead
      modifies this, storage, lastPromisedEpoch
      ensures Valid() && (State(), c) == JournalSpec.CheckRequest(old(State()), reqInfo)
    {
      var lpe := lastPromisedEpoch.Get();
      if reqInfo.epoch < lpe {
        return Stop(Refused);
      } else if reqInfo.epoch > lpe {
        var ok := UpdateLastPromisedEpoch(lpe, reqInfo.epoch);
        if !ok {
          return Stop(Refused);
        }
      }
      if reqInfo.serial <= currentEpochIpcSerial {
        return Stop(Refused);
      }
      currentEpochIpcSerial := reqInfo.serial;
      if reqInfo.committed != INVALID_TXID {
        if reqInfo.committed < committedTxnId {
          var reply := Halt(CommittedMovesBack);
          return Stop(reply);
        }
        committedTxnId := reqInfo.committed;
      }
      return Passed;
    }

    method CheckWriteRequest(reqInfo: RequestInfo) returns (c: Check)
      requires Valid() && !storage.w.dead
      modifies this, storage, lastPromisedEpoch, lastWriterEpoch
      ensures Valid() && (State(), c) == JournalSpec.CheckWriteRequest(old(State()), reqInfo)
    {
      c := CheckRequest(reqInfo);
      if c.Stop? {
        return c;
      }
      CheckRequestAlive(old(State()), reqInfo);
      var lwe := lastWriterEpoch.Get();
      if reqInfo.epoch != lwe {
        return Stop(Refused);
      }
      return Passed;
    }

    static lemma CheckRequestAlive(n: Node, r: RequestInfo)
      requires !n.w.dead && JournalSpec.CheckRequest(n, r).1.Passed?
      ensures !JournalSpec.CheckRequest(n, r).0.w.dead
    {
    }

    // ----- Requests -----

    method NewEpoch(sameNamespace: bool, epoch: int) returns (reply: Reply)
      requires Valid() && !storage.w.dead
      modifies this, storage, lastPromisedEpoch
      ensures Valid() && (State(), reply) == DoNewEpoch(old(State()), sameNamespace, epoch)
    {
      if !sameNamespace {
        return Refused;
      }
      var lpe := lastPromisedEpoch.Get();
      if epoch <= lpe {
        return Refused;
      }
      var ok := UpdateLastPromisedEpoch(lpe, epoch);
      if !ok {
        return Refused;
      }
      AbortCurSegment();
      var latestFile := ScanStorageForLatestEdits();
      match latestFile
      case ScanError => return Refused;
      case NoTransactions => return Promised(None);
      case Latest(first, _) => return Promised(Some(first));
    }

    method StartLogSegment(reqInfo: RequestInfo, txid: int, layoutVersion: int) returns (reply: Reply)
      requires Valid() && !storage.w.dead
      modifies this, storage, lastPromisedEpoch, lastWriterEpoch, fjm
      ensures Valid() && (State(), reply) == DoStart(old(State()), reqInfo, txid, layoutVersion)
    {
      var c := CheckRequest(reqInfo);
      if c.Stop? {
        return c.reply;
      }
      CheckRequestAlive(old(State()), reqInfo);
      if curSegment.Some? {
        AbortCurSegment();
      }
      var existing := fjm.GetLogFile(txid);
      if existing.ManyLogs? {
        return Refused;
      }
      if existing.OneLog? {
        assert existing.name in LogsAt(storage.w.disk, txid);
        if existing.name.Finalized? {
          reply := Halt(FinalizedExists);
          return reply;
        }
        var scanned := ScanFile(existing.name);
        if scanned.ScanFailed? {
          return Refused;
        }
        if scanned.txid != txid {
          reply := Halt(SegmentHasTransactions);
          return reply;
        }
      }
      reply := OpenSegment(reqInfo.epoch, txid, layoutVersion);
    }

    method OpenSegment(epoch: int, txid: int, layoutVersion: int) returns (reply: Reply)
      requires Valid() && !storage.w.dead
      modifies this, storage, lastWriterEpoch, fjm
      ensures Valid() && (State(), reply) == JournalSpec.OpenSegment(old(State()), epoch, txid, layoutVersion)
    {
      hide Header, JournalSpec.PurgePaxosDecision;
      var curLastWriterEpoch := lastWriterEpoch.Get();
      if curLastWriterEpoch != epoch {
        var wrote := lastWriterEpoch.Set(epoch);
        if !wrote {
          return Refused;
        }
      }
      var purged := PurgePaxosDecision(txid);
      if !purged {
        return Refused;
      }
      var created := fjm.StartLogSegment(txid, layoutVersion);
      curSegment := Some(txid);
      if !created {
        return Refused;
      }
      curSegmentTxId := txid;
      nextTxId := txid;
      return Done;
    }

    method JournalTxns(reqInfo: RequestInfo, segmentTxId: int, firstTxnId: int, numTxns: int, records: Bytes)
      returns (reply: Reply)
      requires Valid() && !storage.w.dead
      modifies this, storage, lastPromisedEpoch, lastWriterEpoch
      ensures Valid()
      ensures (State(), reply) == DoJournal(old(State()), reqInfo, segmentTxId, firstTxnId, numTxns, records)
    {
      var c := CheckWriteRequest(reqInfo);
      if c.Stop? {
        return c.reply;
      }
      if curSegmentTxId != segmentTxId {
        AbortCurSegment();
        return Refused;
      }
      if nextTxId != firstTxnId {
        return Refused;
      }
      if curSegment.None? {
        // the original only logs this, and then uses the missing stream
        reply := Halt(NoStream);
        return reply;
      }
      var lastTxnId := firstTxnId + numTxns - 1;
      var flushed := storage.Run(AppendLog(InProgress(curSegment.value), records));
      if !flushed {
        reply := Halt(WriteFailed);
        return reply;
      }
      nextTxId := lastTxnId + 1;
      return Done;
    }

    method FinalizeLogSegment(reqInfo: RequestInfo, startTxId: int, endTxId: int) returns (reply: Reply)
      requires Valid() && !storage.w.dead
      modifies this, storage, lastPromisedEpoch, fjm
      ensures Valid() && (State(), reply) == DoFinalize(old(State()), reqInfo, startTxId, endTxId)
    {
      hide Scan, JournalSpec.GetLogFile, JournalSpec.CheckRequest, JournalSpec.PurgePaxosDecision, Perform;
      var c := CheckRequest(reqInfo);
      if c.Stop? {
        return c.reply;
      }
      var needsValidation := true;
      if startTxId == curSegmentTxId {
        AbortCurSegment();
        if nextTxId != endTxId + 1 {
          return Refused;
        }
        needsValidation := false;
      }
      var elf := fjm.GetLogFile(startTxId);
      if !elf.OneLog? {
        return Refused;
      }
      assert elf.name in LogsAt(storage.w.disk, startTxId);
      if elf.name.InProgress? {
        if needsValidation {
          var scanned := ScanFile(elf.name);
          if scanned.ScanFailed? || scanned.txid != endTxId {
            return Refused;
          }
        }
        var renamed := fjm.FinalizeLogSegment(startTxId, endTxId);
        if !renamed {
          return Refused;
        }
      } else if endTxId != elf.name.last {
        reply := Halt(RefinalizedDifferently);
        return reply;
      }
      var purged := PurgePaxosDecision(startTxId);
      return if purged then Done else Refused;
    }

    method PrepareRecovery(reqInfo: RequestInfo, segmentTxId: int) returns (reply: Reply)
      requires Valid() && !storage.w.dead
      modifies this, storage, lastPromisedEpoch, lastWriterEpoch
      ensures Valid() && State() == DoPrepare(old(State()), reqInfo, segmentTxId).0
      ensures
        var specified := DoPrepare(old(State()), reqInfo, segmentTxId).1;
        if storage.w.dead && !reply.Aborted? then !specified.Aborted? else reply == specified
    {
      var c := CheckRequest(reqInfo);
      if c.Stop? {
        return c.reply;
      }
      AbortCurSegment();
      var previouslyAccepted := GetPersistedPaxosData(segmentTxId);
      if previouslyAccepted.Some? && previouslyAccepted.value.segment.start != segmentTxId {
        reply := Halt(BadPaxosFile);
        return reply;
      }
      var rolled := CompleteHalfDoneAcceptRecovery(previouslyAccepted);
      if !rolled {
        return Refused;
      }
      var segInfo := GetSegmentInfo(segmentTxId);
      if segInfo.InfoError? {
        return Refused;
      }
      var lwe := lastWriterEpoch.Get();
      var hasFinalizedSegment := segInfo.Info? && !segInfo.segment.inProgress;
      var lastCommitted := if committedTxnId == INVALID_TXID then None else Some(committedTxnId);
      if previouslyAccepted.Some? && !hasFinalizedSegment {
        var end := if segInfo.Info? then segInfo.segment.end else 0;
        var acceptedState := previouslyAccepted.value.segment;
        if acceptedState.end != end {
          reply := Halt(AcceptedDiffersFromDisk);
          return reply;
        }
        return Prepared(Some(previouslyAccepted.value.epoch), Some(acceptedState), lwe, lastCommitted);
      }
      return Prepared(None, if segInfo.Info? then Some(segInfo.segment) else None, lwe, lastCommitted);
    }

    method AcceptRecovery(reqInfo: RequestInfo, segment: Segment, download: Download) returns (reply: Reply)
      requires Valid() && !storage.w.dead
      modifies this, storage, lastPromisedEpoch
      ensures Valid() && (State(), reply) == DoAccept(old(State()), reqInfo, segment, download)
    {
      var c := CheckRequest(reqInfo);
      if c.Stop? {
        return c.reply;
      }
      AbortCurSegment();
      reply := AcceptSegment(reqInfo.epoch, segment, download);
    }

    method AcceptSegment(epoch: int, segment: Segment, download: Download) returns (reply: Reply)
      requires Valid()
      modifies storage
      ensures Valid() && (State(), reply) == JournalSpec.AcceptSegment(old(State()), epoch, segment, download)
    {
      var segmentTxId := segment.start;
      if segment.end <= 0 || segment.end < segmentTxId {
        reply := Halt(BadRecoveryState);
        return reply;
      }
      var oldData := GetPersistedPaxosData(segmentTxId);
      if oldData.Some? {
        if oldData.value.segment.start != segmentTxId {
          reply := Halt(BadPaxosFile);
          return reply;
        }
        if oldData.value.epoch > epoch {
          reply := Halt(EpochsOutOfOrder);
          return reply;
        }
      }
      var newData := Accepted(epoch, segment);
      var currentSegment := GetSegmentInfo(segmentTxId);
      var syncedFile: Option<LogName> := None;
      if !currentSegment.Info? || currentSegment.segment.end != segment.end {
        if currentSegment.Info? {
          if DiscardsCommittedTxn(committedTxnId, currentSegment.segment, segment) {
            reply := Halt(DiscardsCommitted);
            return reply;
          }
          if !currentSegment.segment.inProgress {
            reply := Halt(SyncOverFinalized);
            return reply;
          }
        }
        var synced := SyncLog(segmentTxId, epoch, download);
        if !synced {
          return Refused;
        }
        syncedFile := Some(SyncTemp(segmentTxId, epoch));
      }
      var persisted := PersistPaxosData(segmentTxId, newData);
      if !persisted {
        return Refused;
      }
      if syncedFile.Some? {
        var replaced := ReplaceFile(syncedFile.value, InProgress(segmentTxId));
        if !replaced {
          return Refused;
        }
      }
      return Done;
    }

    /** The finalized segments from a transaction on, or an error if two of them overlap. */
    method GetEditLogManifest(sinceTxId: int) returns (r: Option<seq<EditLogFile>>)
      requires Valid()
      ensures r.Some? ==> IsManifest(storage.w.disk, sinceTxId, r.value)
      ensures r.None? ==> exists a, b :: Listed(storage.w.disk, sinceTxId, a) && Listed(storage.w.disk, sinceTxId, b)
                                         && Overlap(a, b)
    {
      var temp := fjm.GetRemoteEditLogs(sinceTxId, false);
      var apart := CheckIfLogsInSequence(temp);
      if !apart {
        ghost var i :| 0 < i < |temp| && temp[i - 1].lastTxId >= temp[i].firstTxId;
        ghost var a, b := temp[i - 1], temp[i];
        assert a in temp && b in temp && a.Less(b);
        assert Listed(storage.w.disk, sinceTxId, a) && Listed(storage.w.disk, sinceTxId, b) && Overlap(a, b);
        return None;
      }
      return Some(temp);
    }

    // ----- Events -----

    /** One request under a fault schedule: a step of the specification, reply included. */
    method Serve(q: Request, faults: seq<Fault>) returns (reply: Reply)
      requires Valid()
      modifies this, storage, lastPromisedEpoch, lastWriterEpoch, fjm
      ensures Valid() && (State(), reply) == Step(old(State()), Call(q, faults))
    {
      hide DoNewEpoch, DoStart, DoJournal, DoFinalize, DoPrepare, DoAccept;
      if storage.w.dead {
        return Lost;
      }
      storage.w := storage.w.(faults := faults);
      match q {
        case NewEpoch(same, epoch) => reply := NewEpoch(same, epoch);
        case StartLogSegment(r, txid, layout) => reply := StartLogSegment(r, txid, layout);
        case JournalTxns(r, s, first, num, records) => reply := JournalTxns(r, s, first, num, records);
        case FinalizeLogSegment(r, s, e) => reply := FinalizeLogSegment(r, s, e);
        case PrepareRecovery(r, s) => reply := PrepareRecovery(r, s);
        case AcceptRecovery(r, segment, download) => reply := AcceptRecovery(r, segment, download);
      }
      if storage.w.dead && !reply.Aborted? {
        reply := Lost;
      }
    }

    /** A new process on the storage an old one left; a journal that is not initialized is not served. */
    static method Boot(storage: Storage, faults: seq<Fault>, ghost before: Vol) returns (journal: Journal)
      modifies storage
      ensures fresh(journal) && journal.Valid() && journal.storage == storage
      ensures journal.State() == Step(Node(before, old(storage.w)), Restart(faults)).0
    {
      hide ScanStorage;
      storage.w := World(storage.w.disk, faults, false);
      journal := new Journal(storage);
      if !journal.initialized {
        storage.Halt();
      }
    }
  }
}
