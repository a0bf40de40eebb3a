/**
 * What each request does to one journal node, as functions on the node's volatile state and its world.
 * The class in Journal.dfy is proved to do exactly this; the theorems are about these functions.
 */
module JournalSpec {
  import opened Bytes
  import opened EditLog
  import opened Disk

  /** The fields that a restart loses. */
  datatype Vol = Vol(
    stream: Option<int>,   // the first txid of the file curSegment writes to
    curSegmentTxId: int,
    nextTxId: int,
    serial: int,           // currentEpochIpcSerial
    committed: int)        // committedTxnId

  datatype Node = Node(vol: Vol, w: World)

  const FRESH: Vol := Vol(None, INVALID_TXID, INVALID_TXID, -1, INVALID_TXID)

  datatype RequestInfo = RequestInfo(epoch: int, serial: int, committed: int)

  /** What the HTTP transfer of a segment comes to. */
  datatype Download = Complete(content: Bytes) | Broken(partial: Bytes) | Died(partial: Bytes)

  datatype Request =
    | NewEpoch(sameNamespace: bool, proposed: int)
    | StartLogSegment(info: RequestInfo, txid: int, layoutVersion: int)
    | JournalTxns(info: RequestInfo, segmentTxId: int, firstTxnId: int, numTxns: int, records: Bytes)
    | FinalizeLogSegment(info: RequestInfo, startTxId: int, endTxId: int)
    | PrepareRecovery(info: RequestInfo, segment: int)
    | AcceptRecovery(info: RequestInfo, state: Segment, download: Download)

  datatype AbortReason =
    | CommittedMovesBack | FinalizedExists | SegmentHasTransactions | NoStream | WriteFailed | RefinalizedDifferently
    | BadPaxosFile | AcceptedDiffersFromDisk | BadRecoveryState | EpochsOutOfOrder | DiscardsCommitted
    | SyncOverFinalized

  datatype Reply =
    | Lost                      // the process died, or was not there
    | Refused                   // an error return
    | Aborted(why: AbortReason)
    | Promised(lastSegment: Option<int>)
    | Done
    | Prepared(acceptedInEpoch: Option<int>, segment: Option<Segment>, lastWriterEpoch: int, lastCommitted: Option<int>)

  predicate Success(r: Reply) { r.Promised? || r.Done? || r.Prepared? }

  function Abort(n: Node, why: AbortReason): (Node, Reply) {
    (n.(w := n.w.(dead := true)), if n.w.dead then Lost else Aborted(why))
  }

  function PromisedEpoch(d: Files): int { Long(d, LastPromised) }
  function WriterEpoch(d: Files): int { Long(d, LastWriter) }

  // ----- Requests in order, from the right writer -----

  function UpdatePromise(n: Node, epoch: int): (Node, bool) {
    var (w, ok) := Perform(n.w, WriteLong(LastPromised, epoch));
    (Node(if ok then n.vol.(serial := 0) else n.vol, w), ok)
  }

  datatype Check = Passed | Stop(reply: Reply)

  function CheckRequest(n: Node, r: RequestInfo): (Node, Check) {
    var lpe := PromisedEpoch(n.w.disk);
    if r.epoch < lpe then (n, Stop(Refused))
    else
      var (n1, ok) := if r.epoch > lpe then UpdatePromise(n, r.epoch) else (n, true);
      if !ok || r.serial <= n1.vol.serial then (n1, Stop(Refused))
      else
        var n2 := n1.(vol := n1.vol.(serial := r.serial));
        if r.committed == INVALID_TXID then (n2, Passed)
        else if r.committed < n2.vol.committed then
          var (n3, reply) := Abort(n2, CommittedMovesBack);
          (n3, Stop(reply))
        else (n2.(vol := n2.vol.(committed := r.committed)), Passed)
  }

  function CheckWriteRequest(n: Node, r: RequestInfo): (Node, Check) {
    var (n1, c) := CheckRequest(n, r);
    if c.Passed? && r.epoch != WriterEpoch(n1.w.disk) then (n1, Stop(Refused)) else (n1, c)
  }

  function AbortCurSegment(n: Node): Node {
    if n.vol.stream.None? then n
    else n.(vol := n.vol.(stream := None, curSegmentTxId := INVALID_TXID))
  }

  // ----- Files -----

  function DeleteTries(w: World, target: LogName, tries: nat): World
    decreases tries
  {
    if tries == 0 || target !in w.disk.logs then w
    else
      var (w1, ok) := Perform(w, DeleteLog(target));
      if ok then w1 else DeleteTries(w1, target, tries - 1)
  }

  /** Remove the target, with retries and ignoring failure, then rename over it. */
  function ReplaceFile(w: World, src: LogName, target: LogName): (World, bool) {
    Perform(DeleteTries(w, target, 5), RenameLog(src, target))
  }

  /** A name that is listed as a log; the txids in a finalized name are plain digits. */
  predicate IsSegmentFile(f: LogName) { f.InProgress? || (f.Finalized? && 0 <= f.last) }

  /** The last txid a file is known by before it is scanned. */
  function NamedLast(f: LogName): int {
    if f.Finalized? then f.last else INVALID_TXID
  }

  function LogsAt(d: Files, s: int): set<LogName> {
    set f | f in d.logs && IsSegmentFile(f) && f.first == s
  }

  datatype Lookup = NoLog | OneLog(name: LogName) | ManyLogs

  ghost function GetLogFile(d: Files, s: int): (r: Lookup)
    ensures r.NoLog? <==> LogsAt(d, s) == {}
    ensures forall f :: r == OneLog(f) <==> LogsAt(d, s) == {f}
  {
    var logs := LogsAt(d, s);
    if logs == {} then NoLog
    else
      var f :| f in logs;
      if logs == {f} then OneLog(f) else ManyLogs
  }

  /** The order listings are sorted in: first txid, then last txid. */
  predicate Before(a: LogName, b: LogName)
    requires IsSegmentFile(a) && IsSegmentFile(b)
  {
    a.first < b.first || (a.first == b.first && NamedLast(a) <= NamedLast(b))
  }

  ghost predicate SortedNames(s: seq<LogName>) {
    && (forall i :: 0 <= i < |s| ==> IsSegmentFile(s[i]))
    && (forall i, j :: 0 <= i < j < |s| ==> s[i] != s[j] && Before(s[i], s[j]))
  }

  /** The files that getLogFiles(0) returns. */
  function ListedLogs(d: Files): set<LogName> {
    set f | f in d.logs && IsSegmentFile(f) && (0 <= f.first || f.first <= 0 <= NamedLast(f))
  }

  lemma MaxExists(s: set<LogName>)
    requires s != {} && forall f <- s :: IsSegmentFile(f)
    ensures exists m :: m in s && forall f <- s :: Before(f, m)
  {
    var x :| x in s;
    if s != {x} {
      MaxExists(s - {x});
      var m :| m in s - {x} && forall f <- s - {x} :: Before(f, m);
      var top := if Before(x, m) then m else x;
      assert forall f <- s :: f == x || f in s - {x};
      assert top in s && forall f <- s :: Before(f, top);
    } else {
      assert x in s && forall f <- s :: Before(f, x);
    }
  }

  ghost function Sorted(s: set<LogName>): (r: seq<LogName>)
    requires forall f <- s :: IsSegmentFile(f)
    ensures SortedNames(r)
    ensures forall f :: f in r <==> f in s
  {
    if s == {} then []
    else
      MaxExists(s);
      var m :| m in s && forall f <- s :: Before(f, m);
      Sorted(s - {m}) + [m]
  }

  datatype Found = ScanError | NoTransactions | Latest(first: int, last: int)

  /** From the highest file downwards: move empty ones aside, stop at the first with transactions. */
  function ScanDown(w: World, files: seq<LogName>): (World, Found)
    decreases |files|
  {
    if files == [] then (w, NoTransactions)
    else
      var f := files[|files| - 1];
      if f !in w.disk.logs || !IsSegmentFile(f) then (w, ScanError)
      else
        match Scan(w.disk.logs[f])
        case ScanFailed => (w, ScanError)
        case LastTxId(t) =>
          if t != INVALID_TXID then (w, Latest(f.first, t))
          else
            var (w1, ok) := ReplaceFile(w, f, Empty(f));
            if ok then ScanDown(w1, files[..|files| - 1]) else (w1, ScanError)
  }

  ghost function ScanStorage(w: World): (World, Found) {
    ScanDown(w, Sorted(ListedLogs(w.disk)))
  }

  datatype SegmentInfo = InfoError | NoSegment | Info(segment: Segment)

  ghost function GetSegmentInfo(w: World, s: int): (World, SegmentInfo) {
    match GetLogFile(w.disk, s)
    case ManyLogs => (w, InfoError)
    case NoLog => (w, NoSegment)
    case OneLog(f) =>
      // the digits of a finalized name never read as INVALID_TXID
      if f.Finalized? || f !in w.disk.logs then (w, Info(Segment(s, NamedLast(f), false)))
      else
        match Scan(w.disk.logs[f])
        case ScanFailed => (w, InfoError)
        case LastTxId(t) =>
          if t != INVALID_TXID then (w, Info(Segment(s, t, true)))
          else (ReplaceFile(w, f, Empty(f)).0, NoSegment)
  }

  // ----- Paxos records -----

  function PurgePaxosDecision(w: World, s: int): (World, bool) {
    if Paxos(s) in w.disk.paxos then Perform(w, DeletePaxos(Paxos(s))) else (w, true)
  }

  function PersistedPaxosData(d: Files, s: int): Option<Accepted> {
    if Paxos(s) in d.paxos then Some(d.paxos[Paxos(s)]) else None
  }

  function PersistPaxosData(w: World, s: int, a: Accepted): (World, bool) {
    var (w1, ok) := Perform(w, WritePaxos(PaxosTemp(s), a));
    if ok then Perform(w1, RenamePaxos(PaxosTemp(s), Paxos(s))) else (w1, false)
  }

  /** Move the synchronised file named by an accepted record into place, if it is still there. */
  function CompleteHalfDone(w: World, a: Accepted): (World, bool) {
    var tmp := SyncTemp(a.segment.start, a.epoch);
    if tmp in w.disk.logs then ReplaceFile(w, tmp, InProgress(a.segment.start)) else (w, true)
  }

  /** The transfer into the temporary file named by segment and epoch. */
  function SyncLog(w: World, s: int, epoch: int, download: Download): (World, bool) {
    var tmp := SyncTemp(s, epoch);
    if w.dead then (w, false)
    else
      match download
      case Complete(b) => (w.(disk := Apply(w.disk, WriteLog(tmp, b))), true)
      case Died(b) => (w.(disk := Apply(w.disk, WriteLog(tmp, b)), dead := true), false)
      case Broken(b) => (Perform(w.(disk := Apply(w.disk, WriteLog(tmp, b))), DeleteLog(tmp)).0, false)
  }

  // ----- The requests -----

  ghost function DoNewEpoch(n: Node, sameNamespace: bool, epoch: int): (Node, Reply) {
    if !sameNamespace || epoch <= PromisedEpoch(n.w.disk) then (n, Refused)
    else
      var (n1, ok) := UpdatePromise(n, epoch);
      if !ok then (n1, Refused)
      else
        var n2 := AbortCurSegment(n1);
        var (w3, found) := ScanStorage(n2.w);
        (n2.(w := w3),
         match found
         case ScanError => Refused
         case NoTransactions => Promised(None)
         case Latest(first, _) => Promised(Some(first)))
  }

  ghost function DoStart(n: Node, r: RequestInfo, txid: int, layoutVersion: int): (Node, Reply) {
    var (n0, c) := CheckRequest(n, r);
    if c.Stop? then (n0, c.reply)
    else
      var n1 := AbortCurSegment(n0);
      match GetLogFile(n1.w.disk, txid)
      case ManyLogs => (n1, Refused)
      case NoLog => OpenSegment(n1, r.epoch, txid, layoutVersion)
      case OneLog(f) =>
        if f.Finalized? || f !in n1.w.disk.logs then Abort(n1, FinalizedExists)
        else if Scan(n1.w.disk.logs[f]).ScanFailed? then (n1, Refused)
        else if Scan(n1.w.disk.logs[f]).txid != txid then Abort(n1, SegmentHasTransactions)
        else OpenSegment(n1, r.epoch, txid, layoutVersion)
  }

  function OpenSegment(n: Node, epoch: int, txid: int, layoutVersion: int): (Node, Reply) {
    var (w1, wrote) := if WriterEpoch(n.w.disk) == epoch then (n.w, true)
                       else Perform(n.w, WriteLong(LastWriter, epoch));
    if !wrote then (n.(w := w1), Refused)
    else
      var (w2, purged) := PurgePaxosDecision(w1, txid);
      if !purged then (n.(w := w2), Refused)
      else
        var (w3, created) := Perform(w2, WriteLog(InProgress(txid), Header(layoutVersion)));
        var vol := n.vol.(stream := Some(txid));
        if !created then (Node(vol, w3), Refused)
        else (Node(vol.(curSegmentTxId := txid, nextTxId := txid), w3), Done)
  }

  function DoJournal(n: Node, r: RequestInfo, segmentTxId: int, firstTxnId: int, numTxns: int, records: Bytes)
    : (Node, Reply)
  {
    var (n1, c) := CheckWriteRequest(n, r);
    if c.Stop? then (n1, c.reply)
    else if n1.vol.curSegmentTxId != segmentTxId then (AbortCurSegment(n1), Refused)
    else if n1.vol.nextTxId != firstTxnId then (n1, Refused)
    else if n1.vol.stream.None? then Abort(n1, NoStream)
    else
      var (w2, ok) := Perform(n1.w, AppendLog(InProgress(n1.vol.stream.value), records));
      if !ok then Abort(n1.(w := w2), WriteFailed)
      else (Node(n1.vol.(nextTxId := firstTxnId + numTxns), w2), Done)
  }

  ghost function DoFinalize(n: Node, r: RequestInfo, s: int, e: int): (Node, Reply) {
    var (n0, c) := CheckRequest(n, r);
    if c.Stop? then (n0, c.reply)
    else
      var counted := s == n0.vol.curSegmentTxId;
      var n1 := if counted then AbortCurSegment(n0) else n0;
      if counted && n1.vol.nextTxId != e + 1 then (n1, Refused)
      else
        match GetLogFile(n1.w.disk, s)
        case NoLog => (n1, Refused)
        case ManyLogs => (n1, Refused)
        case OneLog(f) =>
          if f.Finalized? then
            if f.last != e then Abort(n1, RefinalizedDifferently) else PurgeFinalized(n1, s)
          else if !counted && (f !in n1.w.disk.logs || Scan(n1.w.disk.logs[f]) != LastTxId(e)) then (n1, Refused)
          else if Finalized(s, e) in n1.w.disk.logs then (n1, Refused)
          else
            var (w2, renamed) := Perform(n1.w, RenameLog(InProgress(s), Finalized(s, e)));
            if renamed then PurgeFinalized(n1.(w := w2), s) else (n1.(w := w2), Refused)
  }

  function PurgeFinalized(n: Node, s: int): (Node, Reply) {
    var (w, ok) := PurgePaxosDecision(n.w, s);
    (n.(w := w), if ok then Done else Refused)
  }

  ghost function DoPrepare(n: Node, r: RequestInfo, s: int): (Node, Reply) {
    var (n0, c) := CheckRequest(n, r);
    if c.Stop? then (n0, c.reply)
    else
      var n1 := AbortCurSegment(n0);
      var previous := PersistedPaxosData(n1.w.disk, s);
      if previous.Some? && previous.value.segment.start != s then Abort(n1, BadPaxosFile)
      else
        var (w2, rolled) := if previous.Some? then CompleteHalfDone(n1.w, previous.value) else (n1.w, true);
        if !rolled then (n1.(w := w2), Refused)
        else
          var (w3, info) := GetSegmentInfo(w2, s);
          var n3 := n1.(w := w3);
          if info.InfoError? then (n3, Refused)
          else
            var hasFinalized := info.Info? && !info.segment.inProgress;
            var lwe := WriterEpoch(w3.disk);
            var cti := if n3.vol.committed == INVALID_TXID then None else Some(n3.vol.committed);
            if previous.Some? && !hasFinalized then
              // an unset end txid reads as 0
              var end := if info.Info? then info.segment.end else 0;
              if previous.value.segment.end != end then Abort(n3, AcceptedDiffersFromDisk)
              else (n3, Prepared(Some(previous.value.epoch), Some(previous.value.segment), lwe, cti))
            else (n3, Prepared(None, if info.Info? then Some(info.segment) else None, lwe, cti))
  }

  ghost function DoAccept(n: Node, r: RequestInfo, seg: Segment, download: Download): (Node, Reply) {
    var (n0, c) := CheckRequest(n, r);
    if c.Stop? then (n0, c.reply) else AcceptSegment(AbortCurSegment(n0), r.epoch, seg, download)
  }

  ghost function AcceptSegment(n: Node, epoch: int, seg: Segment, download: Download): (Node, Reply) {
    var s := seg.start;
    var prior := PersistedPaxosData(n.w.disk, s);
    if seg.end <= 0 || seg.end < s then Abort(n, BadRecoveryState)
    else if prior.Some? && prior.value.segment.start != s then Abort(n, BadPaxosFile)
    else if prior.Some? && prior.value.epoch > epoch then Abort(n, EpochsOutOfOrder)
    else
      // an error from the lookup is ignored and counts as no segment
      var (w1, current) := GetSegmentInfo(n.w, s);
      var n1 := n.(w := w1);
      if current.Info? && current.segment.end == seg.end then CommitAccept(n1, Accepted(epoch, seg), false)
      else if current.Info? && DiscardsCommittedTxn(n1.vol.committed, current.segment, seg) then
        Abort(n1, DiscardsCommitted)
      else if current.Info? && !current.segment.inProgress then Abort(n1, SyncOverFinalized)
      else
        var (w2, synced) := SyncLog(w1, s, epoch, download);
        if !synced then (n1.(w := w2), Refused)
        else CommitAccept(n1.(w := w2), Accepted(epoch, seg), true)
  }

  predicate DiscardsCommittedTxn(committed: int, current: Segment, replacement: Segment) {
    current.start <= committed <= current.end && !(replacement.start <= committed <= replacement.end)
  }

  /** The record first, the log file second: the record's rename is the commit point. */
  function CommitAccept(n: Node, a: Accepted, synced: bool): (Node, Reply) {
    var s := a.segment.start;
    var (w1, persisted) := PersistPaxosData(n.w, s, a);
    if !persisted then (n.(w := w1), Refused)
    else if !synced then (n.(w := w1), Done)
    else
      var (w2, replaced) := ReplaceFile(w1, SyncTemp(s, a.epoch), InProgress(s));
      (n.(w := w2), if replaced then Done else Refused)
  }

  // ----- Events and runs -----

  datatype Event =
    | Call(request: Request, faults: seq<Fault>)
    | Restart(restartFaults: seq<Fault>)

  ghost function Handle(n: Node, q: Request): (Node, Reply) {
    match q
    case NewEpoch(same, epoch) => DoNewEpoch(n, same, epoch)
    case StartLogSegment(r, txid, layout) => DoStart(n, r, txid, layout)
    case JournalTxns(r, s, first, num, records) => DoJournal(n, r, s, first, num, records)
    case FinalizeLogSegment(r, s, e) => DoFinalize(n, r, s, e)
    case PrepareRecovery(r, s) => DoPrepare(n, r, s)
    case AcceptRecovery(r, seg, download) => DoAccept(n, r, seg, download)
  }

  /** One event.  A dead process answers nothing; a restart that cannot scan its storage stays down. */
  ghost function Step(n: Node, ev: Event): (Node, Reply) {
    match ev
    case Restart(faults) =>
      var (w, found) := ScanStorage(World(n.w.disk, faults, false));
      (Node(FRESH, w.(dead := w.dead || found.ScanError?)), Lost)
    case Call(q, faults) =>
      if n.w.dead then (n, Lost)
      else
        var (n', reply) := Handle(n.(w := n.w.(faults := faults)), q);
        (n', if n'.w.dead && !reply.Aborted? then Lost else reply)
  }

  ghost function Run(n: Node, evs: seq<Event>): Node {
    if evs == [] then n else Step(Run(n, evs[..|evs| - 1]), evs[|evs| - 1]).0
  }

  /** A node that has just been formatted and started. */
  const FORMATTED: Node := Node(FRESH, World(Files(map[], map[], map[]), [], false))
}
