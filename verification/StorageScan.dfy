/** What scanning the storage finds, and what a manifest means in the states a node reaches. */
module StorageScan {
  import opened EditLog
  import opened Disk
  import opened JournalSpec
  import opened JournalFrames
  import opened JournalInvariant
  import opened FileJournalManagers
  import opened JournalRuns

  // ----- The latest segment -----

  ghost predicate HasTransactions(d: Files, f: LogName) {
    f in d.logs && Scan(d.logs[f]).LastTxId? && Scan(d.logs[f]).txid != INVALID_TXID
  }

  /** The k-th file is the highest with a transaction in it; -1 when there is none. */
  ghost predicate IsTop(d: Files, files: seq<LogName>, k: int) {
    && -1 <= k < |files|
    && (0 <= k ==> HasTransactions(d, files[k]))
    && forall j :: k < j < |files| ==> files[j] in d.logs && HasNoTransactions(d.logs[files[j]])
  }

  ghost function FoundAt(d: Files, files: seq<LogName>, k: int): Found
    requires SortedNames(files) && IsTop(d, files, k)
  {
    if k < 0 then NoTransactions else Latest(files[k].first, Scan(d.logs[files[k]]).txid)
  }

  /** The files above the k-th. */
  ghost function Above(files: seq<LogName>, k: int): set<LogName>
    requires -1 <= k < |files|
  {
    set j | k < j < |files| :: files[j]
  }

  /** Exactly these files were moved aside, with what they held. */
  ghost predicate MovedAside(d: Files, d': Files, moved: set<LogName>) {
    && SameButLogs(d, d')
    && (forall f: LogName :: !f.Empty? ==> (f in d'.logs <==> f in d.logs && f !in moved))
    && (forall f: LogName :: !f.Empty? && f in d'.logs ==> d'.logs[f] == d.logs[f])
    && (forall f :: f in moved ==> f in d.logs && Empty(f) in d'.logs && d'.logs[Empty(f)] == d.logs[f])
  }

  lemma {:induction false} ScanDownFinds(w: World, files: seq<LogName>) returns (k: int)
    requires SortedNames(files) && !ScanDown(w, files).1.ScanError?
    ensures -1 <= k < |files| && IsTop(w.disk, files, k)
    ensures ScanDown(w, files).1 == FoundAt(w.disk, files, k)
    ensures MovedAside(w.disk, ScanDown(w, files).0.disk, Above(files, k))
    ensures k == |files| - 1 ==> ScanDown(w, files).0 == w
    decreases |files|
  {
    hide Scan, ReplaceFile, IsTop, MovedAside, FoundAt, Above;
    var last := |files| - 1;
    if files == [] || Scan(w.disk.logs[files[last]]) != LastTxId(INVALID_TXID) {
      k := last;
      TopFound(w, files);
    } else {
      var f, front := files[last], files[..last];
      var (w1, ok) := ReplaceFile(w, f, Empty(f));
      FrontOnly(files);
      k := ScanDownFinds(w1, front);
      OneMoreDown(w, files, k);
    }
  }

  /** The highest file has a transaction, or there is none. */
  lemma TopFound(w: World, files: seq<LogName>)
    requires SortedNames(files) && !ScanDown(w, files).1.ScanError?
    requires files != [] ==> Scan(w.disk.logs[files[|files| - 1]]) != LastTxId(INVALID_TXID)
    ensures ScanDown(w, files).0 == w
    ensures IsTop(w.disk, files, |files| - 1) && ScanDown(w, files).1 == FoundAt(w.disk, files, |files| - 1)
    ensures MovedAside(w.disk, w.disk, Above(files, |files| - 1))
  {
    hide Scan;
    assert Above(files, |files| - 1) == {};
  }

  /** The highest file is moved aside, and the scan goes on below it. */
  lemma OneMoreDown(w: World, files: seq<LogName>, k: int)
    requires SortedNames(files) && files != [] && !ScanDown(w, files).1.ScanError?
    requires files[|files| - 1] in w.disk.logs && HasNoTransactions(w.disk.logs[files[|files| - 1]])
    requires
      var f, front := files[|files| - 1], files[..|files| - 1];
      var (w1, ok) := ReplaceFile(w, f, Empty(f));
      && ok && SortedNames(front) && -1 <= k < |front| && IsTop(w1.disk, front, k)
      && ScanDown(w1, front).1 == FoundAt(w1.disk, front, k)
      && MovedAside(w1.disk, ScanDown(w1, front).0.disk, Above(front, k))
    ensures IsTop(w.disk, files, k) && ScanDown(w, files).1 == FoundAt(w.disk, files, k)
    ensures MovedAside(w.disk, ScanDown(w, files).0.disk, Above(files, k))
  {
    hide Scan, ReplaceFile, IsTop, MovedAside;
    var f, front := files[|files| - 1], files[..|files| - 1];
    var w1 := ReplaceFile(w, f, Empty(f)).0;
    ReplaceFileFrame(w, f, Empty(f));
    FrontOnly(files);
    EmptiesStay(w1, front, f);
    TopOneMore(w.disk, w1.disk, files, k);
    assert Above(files, k) == Above(front, k) + {f};
    MovedOneMore(w.disk, w1.disk, ScanDown(w1, front).0.disk, f, Above(front, k));
  }

  lemma FrontOnly(files: seq<LogName>)
    requires SortedNames(files) && files != []
    ensures SortedNames(files[..|files| - 1]) && files[|files| - 1] !in files[..|files| - 1]
    ensures forall f :: f in files[..|files| - 1] ==> !f.Empty? && f != files[|files| - 1]
  {
  }

  lemma TopOneMore(d: Files, d1: Files, files: seq<LogName>, k: int)
    requires files != [] && -1 <= k < |files| - 1
    requires
      var f := files[|files| - 1];
      && f in d.logs && HasNoTransactions(d.logs[f])
      && (forall g: LogName :: !g.Empty? && g != f ==> (g in d1.logs <==> g in d.logs))
      && (forall g: LogName :: !g.Empty? && g != f && g in d.logs ==> d1.logs[g] == d.logs[g])
    requires SortedNames(files) && IsTop(d1, files[..|files| - 1], k)
    ensures IsTop(d, files, k)
    ensures 0 <= k ==> files[k] in d.logs && files[k] in d1.logs && d1.logs[files[k]] == d.logs[files[k]]
  {
    hide Scan;
    var last := |files| - 1;
    forall j | 0 <= j < last
      ensures files[j] == files[..last][j] && files[j] != files[last] && !files[j].Empty?
    {
    }
  }

  lemma MovedOneMore(d: Files, d1: Files, d': Files, f: LogName, moved: set<LogName>)
    requires f in d.logs && !f.Empty? && SameButLogs(d, d1) && d1.logs == (d.logs - {f})[Empty(f) := d.logs[f]]
    requires MovedAside(d1, d', moved) && Empty(f) in d'.logs && d'.logs[Empty(f)] == d.logs[f]
    requires forall g :: g in moved ==> !g.Empty? && g != f
    ensures MovedAside(d, d', moved + {f})
  {
  }

  /** Scanning further down does not touch what was moved aside before. */
  lemma {:induction false} EmptiesStay(w: World, files: seq<LogName>, f: LogName)
    requires SortedNames(files) && f !in files && Empty(f) in w.disk.logs && IsSegmentFile(f)
    ensures
      var d' := ScanDown(w, files).0.disk;
      Empty(f) in d'.logs && d'.logs[Empty(f)] == w.disk.logs[Empty(f)]
    decreases |files|
  {
    hide Scan, ReplaceFile;
    if files != [] {
      var g := files[|files| - 1];
      assert g != f;
      ReplaceFileFrame(w, g, Empty(g));
      EmptiesStay(ReplaceFile(w, g, Empty(g)).0, files[..|files| - 1], f);
    }
  }

  /**
   * A scan that ends without error finds the segment highest in order that has a transaction, and moves
   * aside exactly the files above it, none of which has any.
   */
  lemma ScanFindsLatest(w: World) returns (files: seq<LogName>, k: int)
    requires !ScanStorage(w).1.ScanError?
    ensures SortedNames(files) && forall f :: f in files <==> f in ListedLogs(w.disk)
    ensures IsTop(w.disk, files, k) && ScanStorage(w).1 == FoundAt(w.disk, files, k)
    ensures MovedAside(w.disk, ScanStorage(w).0.disk, Above(files, k))
  {
    files := Sorted(ListedLogs(w.disk));
    k := ScanDownFinds(w, files);
  }

  /** Scanning again finds the same and changes nothing. */
  lemma ScanIsIdempotent(w: World)
    requires !ScanStorage(w).1.ScanError?
    ensures ScanStorage(ScanStorage(w).0) == ScanStorage(w)
  {
    hide Scan, ScanDown;
    var files := Sorted(ListedLogs(w.disk));
    var k := ScanDownFinds(w, files);
    var w1 := ScanStorage(w).0;
    var again := Sorted(ListedLogs(w1.disk));
    var kept := files[..k + 1];
    forall f
      ensures f in again <==> f in kept
    {
      KeptOrMoved(files, k, f);
    }
    SortedUnique(again, kept);
    if k >= 0 {
      KeptOrMoved(files, k, kept[k]);
    }
    ScanSettled(w1, kept);
  }

  lemma KeptOrMoved(files: seq<LogName>, k: int, f: LogName)
    requires SortedNames(files) && -1 <= k < |files|
    ensures f in files[..k + 1] <==> f in files && f !in Above(files, k)
  {
    if f in files[..k + 1] {
      var i :| 0 <= i <= k && files[i] == f;
      assert f in files;
    }
    if f in files && f !in Above(files, k) {
      var i :| 0 <= i < |files| && files[i] == f;
      assert files[..k + 1][i] == f;
    }
  }

  lemma ScanSettled(w: World, files: seq<LogName>)
    requires SortedNames(files)
    requires files != [] ==> HasTransactions(w.disk, files[|files| - 1])
    ensures ScanDown(w, files).0 == w
    ensures ScanDown(w, files).1 ==
            if files == [] then NoTransactions
            else Latest(files[|files| - 1].first, Scan(w.disk.logs[files[|files| - 1]]).txid)
  {
    hide Scan;
  }

  // ----- A restart goes through -----

  ghost predicate AllScannable(d: Files, files: seq<LogName>) {
    forall f :: f in files ==> f in d.logs && IsSegmentFile(f) && Scan(d.logs[f]).LastTxId?
  }

  lemma {:induction false} CalmScanSucceeds(w: World, files: seq<LogName>)
    requires SortedNames(files) && AllScannable(w.disk, files) && w.faults == [] && !w.dead
    ensures !ScanDown(w, files).1.ScanError? && !ScanDown(w, files).0.dead
    decreases |files|
  {
    hide Scan;
    if files != [] {
      var last := |files| - 1;
      var f := files[last];
      if HasNoTransactions(w.disk.logs[f]) {
        CalmReplace(w, f, Empty(f));
        FrontOnly(files);
        var w1 := ReplaceFile(w, f, Empty(f)).0;
        forall g | g in files[..last]
          ensures g in w1.disk.logs && w1.disk.logs[g] == w.disk.logs[g]
        {
          assert g in files;
        }
        CalmScanSucceeds(w1, files[..last]);
      }
    }
  }

  lemma CalmReplace(w: World, src: LogName, target: LogName)
    requires src in w.disk.logs && src != target && w.faults == [] && !w.dead
    ensures
      var (w', ok) := ReplaceFile(w, src, target);
      ok && !w'.dead && w'.faults == []
      && w'.disk.logs == (w.disk.logs - {src})[target := w.disk.logs[src]]
  {
    ReplaceFileFrame(w, src, target);
    assert DeleteTries(w, target, 5) == if target in w.disk.logs then Perform(w, DeleteLog(target)).0 else w;
  }

  /** However a run of a node ended, a restart during which no operation fails brings it back. */
  lemma RestartSucceeds(evs: seq<Event>)
    requires AdmissibleRun(evs)
    ensures !Step(Run(FORMATTED, evs), Restart([])).0.w.dead
  {
    hide Run, Scan, IsLog, ScanDown;
    RunKeepsInv(evs);
    var d := Run(FORMATTED, evs).w.disk;
    var files := Sorted(ListedLogs(d));
    forall f | f in files
      ensures f in d.logs && IsSegmentFile(f) && Scan(d.logs[f]).LastTxId?
    {
      assert f in ListedLogs(d);
      if f.InProgress? {
        ScansHold(d.logs[f], f.first);
      } else {
        HoldsScans(d.logs[f], f.first, f.last);
      }
    }
    CalmScanSucceeds(World(d, [], false), files);
  }

  // ----- Manifests -----

  /**
   * In every state an admissible run reaches, a manifest is exactly the finalized segments that end at or
   * past the requested transaction, pairwise disjoint and in order.
   */
  lemma ManifestIsExact(evs: seq<Event>, sinceTxId: int, files: seq<EditLogFile>)
    requires AdmissibleRun(evs) && IsManifest(Run(FORMATTED, evs).w.disk, sinceTxId, files)
    ensures AllApart(files)
    ensures forall e :: e in files <==>
              e.name.Finalized? && e.name in Run(FORMATTED, evs).w.disk.logs && sinceTxId <= e.name.last
              && e == EditLogFile(e.name, e.name.first, e.name.last, false)
  {
    hide Run, IsLog;
    RunKeepsInv(evs);
    NeighboursSuffice(files);
  }

  /** There is no manifest at all when two wanted segments overlap. */
  lemma OverlapExcludesManifest(evs: seq<Event>, sinceTxId: int, a: EditLogFile, b: EditLogFile,
                                files: seq<EditLogFile>)
    requires AdmissibleRun(evs)
    requires
      var d := Run(FORMATTED, evs).w.disk;
      Listed(d, sinceTxId, a) && Listed(d, sinceTxId, b) && Overlap(a, b)
    ensures !IsManifest(Run(FORMATTED, evs).w.disk, sinceTxId, files)
  {
    hide Run, IsLog;
    RunKeepsInv(evs);
    if IsManifest(Run(FORMATTED, evs).w.disk, sinceTxId, files) {
      ManifestIsExact(evs, sinceTxId, files);
    }
  }
}
