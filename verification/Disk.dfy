/**
 * The storage directory of one journal and the file operations that change it.
 *
 * Every change of a file is one atomic operation.  A fault schedule decides, operation by operation,
 * whether it works, fails with an I/O error, or falls together with a crash of the process.
 */
module Disk {
  import opened Bytes

  datatype Option<+T> = None | Some(value: T)

  /** The files that hold edits. */
  datatype LogName =
    | InProgress(first: int)            // edits_inprogress_S
    | Finalized(first: int, last: int)  // edits_S-E
    | SyncTemp(first: int, epoch: int)  // edits_inprogress_S.epoch=N
    | Empty(moved: LogName)             // <name>.empty

  /** paxos/S and the file it is first written to. */
  datatype PaxosName = Paxos(segment: int) | PaxosTemp(segment: int)

  datatype LongName = LastPromised | LastWriter

  /** A segment as the protocol messages describe it. */
  datatype Segment = Segment(start: int, end: int, inProgress: bool)

  /** What a node remembers about a recovery it accepted. */
  datatype Accepted = Accepted(epoch: int, segment: Segment)

  datatype Files = Files(
    logs: map<LogName, Bytes>,
    paxos: map<PaxosName, Accepted>,
    longs: map<LongName, int>)

  datatype FileOp =
    | WriteLog(log: LogName, content: Bytes)
    | AppendLog(log: LogName, content: Bytes)
    | RenameLog(log: LogName, target: LogName)
    | DeleteLog(log: LogName)
    | WritePaxos(record: PaxosName, accepted: Accepted)
    | RenamePaxos(record: PaxosName, to: PaxosName)
    | DeletePaxos(record: PaxosName)
    | WriteLong(name: LongName, value: int)

  /**
   * The effect of an operation that is carried out; a rename replaces its target, a write to an unlinked file
   * is lost.
   */
  function Apply(d: Files, op: FileOp): Files {
    match op
    case WriteLog(f, b) => d.(logs := d.logs[f := b])
    case AppendLog(f, b) => if f in d.logs then d.(logs := d.logs[f := d.logs[f] + b]) else d
    case RenameLog(f, t) => if f in d.logs then d.(logs := (d.logs - {f})[t := d.logs[f]]) else d
    case DeleteLog(f) => d.(logs := d.logs - {f})
    case WritePaxos(f, a) => d.(paxos := d.paxos[f := a])
    case RenamePaxos(f, t) => if f in d.paxos then d.(paxos := (d.paxos - {f})[t := d.paxos[f]]) else d
    case DeletePaxos(f) => d.(paxos := d.paxos - {f})
    case WriteLong(f, v) => d.(longs := d.longs[f := v])
  }

  /** A rename fails when its source is missing; deleting a missing file is not an error. */
  predicate Possible(d: Files, op: FileOp) {
    (op.RenameLog? ==> op.log in d.logs) && (op.RenamePaxos? ==> op.record in d.paxos)
  }

  datatype Fault = Works | Fails | CrashBefore | CrashAfter

  /** The disk, the faults still to come, and whether the process is gone. */
  datatype World = World(disk: Files, faults: seq<Fault>, dead: bool)

  function NextFault(w: World): Fault {
    if w.faults == [] then Works else w.faults[0]
  }

  /** One file operation: what is left of the world, and whether the call reported success. */
  function Perform(w: World, op: FileOp): (World, bool) {
    if w.dead then (w, false)
    else
      var rest := w.(faults := if w.faults == [] then [] else w.faults[1..]);
      match NextFault(w)
      case Works => if Possible(w.disk, op) then (rest.(disk := Apply(w.disk, op)), true) else (rest, false)
      case Fails => (rest, false)
      case CrashBefore => (rest.(dead := true), false)
      case CrashAfter =>
        if Possible(w.disk, op) then (rest.(disk := Apply(w.disk, op), dead := true), false)
        else (rest.(dead := true), false)
  }

  function Long(d: Files, name: LongName): int {
    if name in d.longs then d.longs[name] else 0
  }

  /** The storage as the running program sees it: an object whose only operation is Perform. */
  class Storage {
    var w: World

    constructor (w: World)
      ensures this.w == w
    {
      this.w := w;
    }

    method Run(op: FileOp) returns (ok: bool)
      modifies this
      ensures (w, ok) == Perform(old(w), op)
    {
      var r := Perform(w, op);
      w, ok := r.0, r.1;
    }

    /** The process stops; the disk stays as it is. */
    method Halt()
      modifies this
      ensures w == old(w).(dead := true)
    {
      w := w.(dead := true);
    }
  }
}
