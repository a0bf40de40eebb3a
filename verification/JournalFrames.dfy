/** What each building block of a request may change, for every fault schedule. */
module JournalFrames {
  import opened Bytes
  import opened EditLog
  import opened Disk
  import opened JournalSpec

  ghost predicate SameButLogs(d: Files, d': Files) {
    d'.longs == d.longs && d'.paxos == d.paxos
  }

  ghost predicate HasNoTransactions(b: Bytes) { Scan(b) == LastTxId(INVALID_TXID) }

  /** Only segment files without transactions went away, and only .empty files came. */
  ghost predicate Tidied(d: Files, d': Files) {
    && SameButLogs(d, d')
    && (forall f :: f in d'.logs && !f.Empty? ==> f in d.logs && d'.logs[f] == d.logs[f])
    && (forall f :: f in d.logs && !f.Empty? && f !in d'.logs ==> IsSegmentFile(f) && HasNoTransactions(d.logs[f]))
  }

  /** A process that is gone does nothing, and nothing brings it back. */
  ghost predicate Later(w: World, w': World) { w.dead ==> w' == w }

  lemma {:induction false} DeleteTriesFrame(w: World, target: LogName, tries: nat)
    ensures Later(w, DeleteTries(w, target, tries))
    ensures SameButLogs(w.disk, DeleteTries(w, target, tries).disk)
    ensures DeleteTries(w, target, tries).disk.logs in {w.disk.logs, w.disk.logs - {target}}
    decreases tries
  {
    if tries > 0 && target in w.disk.logs {
      DeleteTriesFrame(Perform(w, DeleteLog(target)).0, target, tries - 1);
    }
  }

  /** The three states a replacement passes through; success means the last one. */
  lemma ReplaceFileFrame(w: World, src: LogName, target: LogName)
    requires src != target
    ensures
      var (w', ok) := ReplaceFile(w, src, target);
      && Later(w, w') && SameButLogs(w.disk, w'.disk)
      && (ok ==> !w'.dead && src in w.disk.logs && w'.disk.logs == (w.disk.logs - {src})[target := w.disk.logs[src]])
      && (|| w'.disk.logs == w.disk.logs
          || w'.disk.logs == w.disk.logs - {target}
          || (src in w.disk.logs && w'.disk.logs == (w.disk.logs - {src})[target := w.disk.logs[src]]))
  {
    DeleteTriesFrame(w, target, 5);
    var w1 := DeleteTries(w, target, 5);
    if src in w.disk.logs {
      assert (w.disk.logs - {target} - {src})[target := w.disk.logs[src]]
          == (w.disk.logs - {src})[target := w.disk.logs[src]];
    }
  }

  /** The next k operations fail, and then nothing does. */
  function Failures(k: nat): seq<Fault> {
    if k == 0 then [] else [Fails] + Failures(k - 1)
  }

  lemma NoFailures()
    ensures Failures(0) == []
  {
  }

  lemma OneOperation(w: World, op: FileOp, k: nat)
    requires !w.dead && Possible(w.disk, op) && w.faults == Failures(k)
    ensures Perform(w, op) == if k == 0 then (World(Apply(w.disk, op), [], false), true)
                              else (World(w.disk, Failures(k - 1), false), false)
  {
    hide Apply, Possible;
  }

  lemma {:induction false} FailingTries(w: World, target: LogName, tries: nat, k: nat)
    requires !w.dead && target in w.disk.logs && w.faults == Failures(k)
    ensures
      var w' := DeleteTries(w, target, tries);
      if k < tries
      then w' == World(w.disk.(logs := w.disk.logs - {target}), [], false)
      else w' == World(w.disk, Failures(k - tries), false)
    decreases tries
  {
    hide Perform, Failures;
    if tries > 0 {
      OneOperation(w, DeleteLog(target), k);
      if k > 0 {
        FailingTries(Perform(w, DeleteLog(target)).0, target, tries - 1, k - 1);
      }
    }
  }

  /** Five failures to remove the target are bridged, and no more. */
  lemma ReplaceBridgesFailures(w: World, src: LogName, target: LogName, k: nat)
    requires !w.dead && src != target && src in w.disk.logs && target in w.disk.logs && w.faults == Failures(k)
    ensures ReplaceFile(w, src, target).1 <==> k <= 5
  {
    hide Perform, Failures, DeleteTries;
    FailingTries(w, target, 5, k);
    var w1 := DeleteTries(w, target, 5);
    assert Failures(0) == [] by { NoFailures(); }
    OneOperation(w1, RenameLog(src, target), if k < 5 then 0 else k - 5);
  }

  lemma MoveAsideFrame(w: World, f: LogName)
    requires IsSegmentFile(f) && f in w.disk.logs && HasNoTransactions(w.disk.logs[f])
    ensures
      var (w', ok) := ReplaceFile(w, f, Empty(f));
      && Later(w, w') && Tidied(w.disk, w'.disk)
      && (ok ==> !w'.dead)
      && (forall g :: g in w.disk.logs && !g.Empty? && g != f ==> g in w'.disk.logs)
  {
    ReplaceFileFrame(w, f, Empty(f));
  }

  lemma {:induction false} ScanDownFrame(w: World, files: seq<LogName>)
    ensures
      var (w', found) := ScanDown(w, files);
      Later(w, w') && Tidied(w.disk, w'.disk)
    decreases |files|
  {
    if files != [] {
      var f := files[|files| - 1];
      if f in w.disk.logs && IsSegmentFile(f) && HasNoTransactions(w.disk.logs[f]) {
        MoveAsideFrame(w, f);
        var (w1, ok) := ReplaceFile(w, f, Empty(f));
        ScanDownFrame(w1, files[..|files| - 1]);
      }
    }
  }

  lemma ScanStorageFrame(w: World)
    ensures Later(w, ScanStorage(w).0) && Tidied(w.disk, ScanStorage(w).0.disk)
  {
    ScanDownFrame(w, Sorted(ListedLogs(w.disk)));
  }

  /** Which file an answer came from, and what it says of its content. */
  lemma GetSegmentInfoFrame(w: World, s: int)
    ensures
      var (w', info) := GetSegmentInfo(w, s);
      && Later(w, w') && Tidied(w.disk, w'.disk)
      && (info.Info? ==>
            && w' == w && info.segment.start == s
            && (if info.segment.inProgress
                then LogsAt(w.disk, s) == {InProgress(s)}
                    && Scan(w.disk.logs[InProgress(s)]) == LastTxId(info.segment.end)
                     && info.segment.end != INVALID_TXID
                else LogsAt(w.disk, s) == {Finalized(s, info.segment.end)}))
  {
    var r := GetLogFile(w.disk, s);
    if r.OneLog? {
      assert r.name in LogsAt(w.disk, s);
      if r.name.InProgress? && HasNoTransactions(w.disk.logs[r.name]) {
        MoveAsideFrame(w, r.name);
      }
    }
  }
}
