/** The index over the storage directory: matching, sorting and selecting log files. */
module FileJournalManagers {
  import opened EditLog
  import opened Disk
  import opened JournalSpec

  datatype EditLogFile = EditLogFile(name: LogName, firstTxId: int, lastTxId: int, inProgress: bool) {
    /** The original's operator<: it also answers yes for equal keys. */
    predicate Less(other: EditLogFile) {
      if firstTxId < other.firstTxId then true
      else if firstTxId > other.firstTxId then false
      else if lastTxId < other.lastTxId then true
      else if lastTxId > other.lastTxId then false
      else true
    }

    predicate ContainsTxId(txid: int) { firstTxId <= txid <= lastTxId }
  }

  function FileOf(f: LogName): EditLogFile
    requires IsSegmentFile(f)
  {
    EditLogFile(f, f.first, NamedLast(f), f.InProgress?)
  }

  ghost predicate FromNames(files: seq<EditLogFile>) {
    forall i :: 0 <= i < |files| ==> IsSegmentFile(files[i].name) && files[i] == FileOf(files[i].name)
  }

  ghost predicate Distinct(files: seq<EditLogFile>) {
    forall i, j :: 0 <= i < j < |files| ==> files[i] != files[j]
  }

  ghost predicate InOrder(files: seq<EditLogFile>) {
    forall i, j :: 0 <= i < j < |files| ==> files[i].Less(files[j])
  }

  /** The segment files among the names, in the order of the names. */
  function Matched(names: seq<LogName>): seq<EditLogFile> {
    if names == [] then []
    else
      var f := names[|names| - 1];
      Matched(names[..|names| - 1]) + if IsSegmentFile(f) then [FileOf(f)] else []
  }

  lemma {:induction false} MatchedExactly(names: seq<LogName>)
    requires forall i, j :: 0 <= i < j < |names| ==> names[i] != names[j]
    ensures FromNames(Matched(names)) && Distinct(Matched(names))
    ensures forall e :: e in Matched(names) <==> e.name in names && IsSegmentFile(e.name) && e == FileOf(e.name)
  {
    if names != [] {
      var front := names[..|names| - 1];
      MatchedExactly(front);
      var f := names[|names| - 1];
      assert f !in front;
      assert forall g :: g in names <==> g in front || g == f;
    }
  }

  ghost predicate SameElements(a: seq<EditLogFile>, b: seq<EditLogFile>) {
    forall e :: e in a <==> e in b
  }

  /** Sorting by insertion; like the original's order it is only asked to sort distinct files. */
  method Sort(files: seq<EditLogFile>) returns (r: seq<EditLogFile>)
    requires FromNames(files) && Distinct(files)
    ensures InOrder(r) && SameElements(r, files) && FromNames(r) && Distinct(r) && |r| == |files|
  {
    r := [];
    for i := 0 to |files|
      invariant InOrder(r) && FromNames(r) && Distinct(r) && |r| == i
      invariant SameElements(r, files[..i])
    {
      assert files[i] !in files[..i];
      ghost var before := r;
      r := Insert(r, files[i]);
      assert files[..i + 1] == files[..i] + [files[i]];
    }
    assert files[..|files|] == files;
  }

  method Insert(sorted: seq<EditLogFile>, e: EditLogFile) returns (r: seq<EditLogFile>)
    requires InOrder(sorted) && FromNames(sorted + [e]) && Distinct(sorted) && e !in sorted
    ensures InOrder(r) && SameElements(r, sorted + [e]) && FromNames(r) && Distinct(r) && |r| == |sorted| + 1
  {
    var k := |sorted|;
    while k > 0 && !sorted[k - 1].Less(e)
      invariant 0 <= k <= |sorted|
      invariant forall j :: k <= j < |sorted| ==> e.Less(sorted[j])
    {
      k := k - 1;
    }
    r := sorted[..k] + [e] + sorted[k..];
    Inserted(sorted, e, k);
  }

  lemma Inserted(sorted: seq<EditLogFile>, e: EditLogFile, k: nat)
    requires k <= |sorted| && InOrder(sorted) && FromNames(sorted + [e]) && Distinct(sorted) && e !in sorted
    requires forall j :: 0 <= j < k ==> sorted[j].Less(e)
    requires forall j :: k <= j < |sorted| ==> e.Less(sorted[j])
    ensures var r := sorted[..k] + [e] + sorted[k..];
            InOrder(r) && SameElements(r, sorted + [e]) && FromNames(r) && Distinct(r)
  {
    hide EditLogFile.Less, FileOf;
    var r := sorted[..k] + [e] + sorted[k..];
    assert forall i :: 0 <= i < |sorted| ==> (sorted + [e])[i] == sorted[i];
    assert (sorted + [e])[|sorted|] == e;
    assert forall i :: 0 <= i < |r| ==> r[i] == if i < k then sorted[i] else if i == k then e else sorted[i - 1];
    assert forall x :: x in sorted <==> x in sorted[..k] || x in sorted[k..];
  }

  /** Names in the order of the files. */
  function Names(files: seq<EditLogFile>): (r: seq<LogName>)
    ensures |r| == |files| && forall i :: 0 <= i < |files| ==> r[i] == files[i].name
  {
    seq(|files|, i requires 0 <= i < |files| => files[i].name)
  }

  lemma NamesInOrder(files: seq<EditLogFile>)
    requires FromNames(files) && Distinct(files) && InOrder(files)
    ensures SortedNames(Names(files))
  {
    var names := Names(files);
    forall i, j | 0 <= i < j < |names|
      ensures names[i] != names[j] && Before(names[i], names[j])
    {
      assert files[i].Less(files[j]) && files[i] != files[j];
    }
  }

  /** There is one way to sort distinct names, so a scan visits the files in one order. */
  lemma {:induction false} SortedUnique(a: seq<LogName>, b: seq<LogName>)
    requires SortedNames(a) && SortedNames(b)
    requires forall f :: f in a <==> f in b
    ensures a == b
    decreases |a|
  {
    hide SortedNames;
    if a == [] {
      SomeElement(b);
    } else {
      assert a[|a| - 1] in b;
      SameLast(a, b);
      var a', b' := a[..|a| - 1], b[..|b| - 1];
      forall f
        ensures f in a' <==> f in b'
      {
        FrontLosesLast(a, f);
        FrontLosesLast(b, f);
      }
      FrontSorted(a);
      FrontSorted(b);
      SortedUnique(a', b');
      assert a == a' + [a[|a| - 1]] && b == b' + [b[|b| - 1]];
    }
  }

  lemma SameLast(a: seq<LogName>, b: seq<LogName>)
    requires SortedNames(a) && SortedNames(b) && a != [] && b != []
    requires forall f :: f in a <==> f in b
    ensures a[|a| - 1] == b[|b| - 1]
  {
    var x, y := a[|a| - 1], b[|b| - 1];
    assert x in a && y in b;
    LastIsHighest(a, y);
    LastIsHighest(b, x);
  }

  lemma FrontSorted(a: seq<LogName>)
    requires SortedNames(a) && a != []
    ensures SortedNames(a[..|a| - 1])
  {
  }

  lemma SomeElement(b: seq<LogName>)
    ensures b == [] || exists f :: f in b
  {
    if b != [] {
      assert b[0] in b;
    }
  }

  lemma LastIsHighest(a: seq<LogName>, f: LogName)
    requires SortedNames(a) && f in a
    ensures IsSegmentFile(f) && Before(f, a[|a| - 1])
  {
  }

  lemma FrontLosesLast(a: seq<LogName>, f: LogName)
    requires SortedNames(a) && a != []
    ensures f in a[..|a| - 1] <==> f in a && f != a[|a| - 1]
  {
    var front := a[..|a| - 1];
    if f in a && f != a[|a| - 1] {
      var i :| 0 <= i < |a| && a[i] == f;
      assert front[i] == f;
    }
    if f in front {
      var i :| 0 <= i < |front| && front[i] == f;
      assert a[i] == f;
    }
  }

  /** The files listed from transaction 0 on, sorted, are the ones a scan goes through. */
  lemma ListingIsSorted(files: seq<EditLogFile>, d: Files)
    requires FromNames(files) && Distinct(files) && InOrder(files)
    requires forall e :: e in files <==>
               e.name in d.logs && IsSegmentFile(e.name) && e == FileOf(e.name)
                   && (0 <= e.firstTxId || e.ContainsTxId(0))
    ensures Names(files) == Sorted(ListedLogs(d))
  {
    var names := Names(files);
    NamesInOrder(files);
    forall f
      ensures f in names <==> f in ListedLogs(d)
    {
      if f in names {
        var i :| 0 <= i < |names| && names[i] == f;
        assert files[i] in files;
      }
      if f in ListedLogs(d) {
        assert FileOf(f) in files;
        var i :| 0 <= i < |files| && files[i] == FileOf(f);
        assert names[i] == f;
      }
    }
    SortedUnique(names, Sorted(ListedLogs(d)));
  }

  // ----- Manifests -----

  ghost predicate NeighboursApart(files: seq<EditLogFile>) {
    forall i :: 0 < i < |files| ==> files[i - 1].lastTxId < files[i].firstTxId
  }

  ghost predicate AllApart(files: seq<EditLogFile>) {
    forall i, j :: 0 <= i < j < |files| ==> files[i].lastTxId < files[j].firstTxId
  }

  /** Comparing neighbours is enough as long as no segment ends before it starts. */
  lemma {:induction false} NeighboursSuffice(files: seq<EditLogFile>)
    requires forall e <- files :: e.firstTxId <= e.lastTxId
    ensures NeighboursApart(files) <==> AllApart(files)
  {
    if NeighboursApart(files) && |files| > 1 {
      var front := files[..|files| - 1];
      assert forall i :: 0 <= i < |front| ==> front[i] == files[i];
      NeighboursSuffice(front);
      forall i, j | 0 <= i < j < |files|
        ensures files[i].lastTxId < files[j].firstTxId
      {
        if j == |files| - 1 && i < j - 1 {
          assert front[i].lastTxId < front[j - 1].firstTxId;
        } else if j < |files| - 1 {
          assert front[i].lastTxId < front[j].firstTxId;
        }
      }
    }
  }

  method CheckIfLogsInSequence(files: seq<EditLogFile>) returns (ok: bool)
    ensures ok <==> NeighboursApart(files)
  {
    var prev: Option<EditLogFile> := None;
    for i := 0 to |files|
      invariant prev == if i == 0 then None else Some(files[i - 1])
      invariant NeighboursApart(files[..i])
    {
      if prev.Some? && files[i].firstTxId <= prev.value.lastTxId {
        return false;
      }
      assert files[..i + 1] == files[..i] + [files[i]];
      prev := Some(files[i]);
    }
    assert files[..|files|] == files;
    return true;
  }

  ghost predicate Reaches(e: EditLogFile, sinceTxId: int) {
    e.firstTxId >= sinceTxId || sinceTxId <= e.lastTxId
  }

  /** The segments a reader from sinceTxId on may want, files still being written among them if that is allowed. */
  ghost predicate Wanted(d: Files, sinceTxId: int, inProgressOk: bool, e: EditLogFile) {
    && e.name in d.logs && IsSegmentFile(e.name) && e == FileOf(e.name)
    && (inProgressOk || !e.inProgress) && Reaches(e, sinceTxId)
  }

  ghost predicate Listed(d: Files, sinceTxId: int, e: EditLogFile) {
    Wanted(d, sinceTxId, false, e)
  }

  ghost predicate IsManifest(d: Files, sinceTxId: int, files: seq<EditLogFile>) {
    && InOrder(files) && Distinct(files) && NeighboursApart(files)
    && (forall e :: e in files <==> Listed(d, sinceTxId, e))
  }

  ghost predicate Overlap(a: EditLogFile, b: EditLogFile) {
    a != b && a.firstTxId <= b.firstTxId <= a.lastTxId
  }

  class FileJournalManager {
    const storage: Storage
    var currentInProgress: Option<LogName>

    constructor (storage: Storage)
      ensures this.storage == storage && currentInProgress == None
    {
      this.storage := storage;
      currentInProgress := None;
    }

    /** The names in the directory, in whatever order the file system lists them. */
    method GetFilesInDirectory() returns (names: seq<LogName>)
      ensures forall f :: f in names <==> f in storage.w.disk.logs
      ensures forall i, j :: 0 <= i < j < |names| ==> names[i] != names[j]
    {
      names := [];
      var rest := storage.w.disk.logs.Keys;
      while rest != {}
        invariant rest <= storage.w.disk.logs.Keys
        invariant forall f :: f in names <==> f in storage.w.disk.logs && f !in rest
        invariant forall i, j :: 0 <= i < j < |names| ==> names[i] != names[j]
        decreases |rest|
      {
        var f :| f in rest;
        names := names + [f];
        rest := rest - {f};
      }
    }

    method MatchEditLogs() returns (ret: seq<EditLogFile>)
      ensures FromNames(ret) && Distinct(ret)
      ensures forall e :: e in ret <==> e.name in storage.w.disk.logs && IsSegmentFile(e.name) && e == FileOf(e.name)
    {
      var names := GetFilesInDirectory();
      ret := [];
      for i := 0 to |names|
        invariant ret == Matched(names[..i])
      {
        assert names[..i + 1][..i] == names[..i];
        if IsSegmentFile(names[i]) {
          ret := ret + [FileOf(names[i])];
        }
      }
      assert names[..|names|] == names;
      MatchedExactly(names);
    }

    /** All logs at or past a transaction, sorted. */
    method GetLogFiles(fromTxId: int) returns (ret: seq<EditLogFile>)
      ensures FromNames(ret) && Distinct(ret) && InOrder(ret)
      ensures forall e :: e in ret <==>
                            && e.name in storage.w.disk.logs && IsSegmentFile(e.name) && e == FileOf(e.name)
                            && (fromTxId <= e.firstTxId || e.ContainsTxId(fromTxId))
    {
      var all := MatchEditLogs();
      ret := [];
      for i := 0 to |all|
        invariant FromNames(ret) && Distinct(ret)
        invariant forall e :: e in ret <==> e in all[..i] && (fromTxId <= e.firstTxId || e.ContainsTxId(fromTxId))
      {
        assert all[..i + 1] == all[..i] + [all[i]];
        assert all[i] !in all[..i];
        if fromTxId <= all[i].firstTxId || all[i].ContainsTxId(fromTxId) {
          ret := ret + [all[i]];
        }
      }
      assert all[..|all|] == all;
      ret := Sort(ret);
    }

    /** The log starting at a transaction, unless there are several. */
    method GetLogFile(startTxId: int) returns (r: Lookup)
      ensures r == JournalSpec.GetLogFile(storage.w.disk, startTxId)
    {
      var all := MatchEditLogs();
      var hits: seq<EditLogFile> := [];
      for i := 0 to |all|
        invariant FromNames(hits) && Distinct(hits)
        invariant forall e :: e in hits <==> e in all[..i] && e.firstTxId == startTxId
      {
        assert all[..i + 1] == all[..i] + [all[i]];
        assert all[i] !in all[..i];
        if all[i].firstTxId == startTxId {
          hits := hits + [all[i]];
        }
      }
      assert all[..|all|] == all;
      HitsAre(hits, storage.w.disk, startTxId);
      if |hits| == 0 {
        return NoLog;
      } else if |hits| == 1 {
        return OneLog(hits[0].name);
      }
      return ManyLogs;
    }

    static lemma HitsAre(hits: seq<EditLogFile>, d: Files, s: int)
      requires FromNames(hits) && Distinct(hits)
      requires forall e :: e in hits <==>
                             && e.name in d.logs && IsSegmentFile(e.name) && e == FileOf(e.name)
                             && e.firstTxId == s
      ensures JournalSpec.GetLogFile(d, s) ==
              if |hits| == 0 then NoLog else if |hits| == 1 then OneLog(hits[0].name) else ManyLogs
    {
      var logs := LogsAt(d, s);
      forall f | f in logs
        ensures FileOf(f) in hits
      {
        assert FileOf(f).name == f;
      }
      forall e | e in hits
        ensures e.name in logs
      {
      }
      if |hits| == 0 {
        assert logs == {};
      } else if |hits| == 1 {
        assert forall f <- logs :: FileOf(f) == hits[0];
        assert hits[0] in hits && logs == {hits[0].name};
      } else {
        assert hits[0] in hits && hits[1] in hits && hits[0].name != hits[1].name;
      }
    }

    /** Every segment a reader may want from sinceTxId on. */
    method GetRemoteEditLogs(sinceTxId: int, inProgressOk: bool) returns (ret: seq<EditLogFile>)
      ensures FromNames(ret) && Distinct(ret) && InOrder(ret)
      ensures forall e :: e in ret <==> Wanted(storage.w.disk, sinceTxId, inProgressOk, e)
    {
      var all := MatchEditLogs();
      ret := [];
      for i := 0 to |all|
        invariant FromNames(ret) && Distinct(ret)
        invariant forall e :: e in ret <==> e in all[..i] && (inProgressOk || !e.inProgress) && Reaches(e, sinceTxId)
      {
        assert all[..i + 1] == all[..i] + [all[i]];
        assert all[i] !in all[..i];
        if inProgressOk || !all[i].inProgress {
          if all[i].firstTxId >= sinceTxId {
            ret := ret + [all[i]];
          } else if all[i].firstTxId < sinceTxId && sinceTxId <= all[i].lastTxId {
            ret := ret + [all[i]];
          }
        }
      }
      assert all[..|all|] == all;
      ret := Sort(ret);
    }

    method StartLogSegment(txid: int, layoutVersion: int) returns (ok: bool)
      modifies this, storage
      ensures (storage.w, ok) == Perform(old(storage.w), WriteLog(InProgress(txid), Header(layoutVersion)))
      ensures storage.w.disk.longs == old(storage.w.disk.longs) && (old(storage.w.dead) ==> storage.w.dead)
    {
      currentInProgress := Some(InProgress(txid));
      ok := storage.Run(WriteLog(InProgress(txid), Header(layoutVersion)));
    }

    /** Rename the in-progress file, never over a finalized one. */
    method FinalizeLogSegment(firstTxId: int, lastTxId: int) returns (ok: bool)
      modifies this, storage
      ensures
        var dst := Finalized(firstTxId, lastTxId);
        if dst in old(storage.w.disk.logs) then !ok && storage.w == old(storage.w)
        else (storage.w, ok) == Perform(old(storage.w), RenameLog(InProgress(firstTxId), dst))
      ensures storage.w.disk.longs == old(storage.w.disk.longs) && (old(storage.w.dead) ==> storage.w.dead)
    {
      var dst := Finalized(firstTxId, lastTxId);
      if dst in storage.w.disk.logs {
        return false;
      }
      ok := storage.Run(RenameLog(InProgress(firstTxId), dst));
      if ok && currentInProgress == Some(InProgress(firstTxId)) {
        currentInProgress := None;
      }
    }
  }
}
