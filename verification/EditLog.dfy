/**
 * The byte format of an edit log: an eight-byte header followed by records of
 *   opcode (1) | length (4) | txid (8) | data | checksum (4)
 * and what the log scanner answers on a byte string.
 */
module EditLog {
  import opened Bytes

  const INVALID_TXID: int := -12345
  const OPCODE: byte := 30
  const POSITIONS: int := 0x1_0000_0000  // the scanner's position is a 32-bit unsigned integer

  /** One record; its checksum is never looked at by the scanner. */
  datatype Entry = Entry(txid: int, data: Bytes, checksum: int)

  ghost predicate ValidEntry(e: Entry) {
    Fits(e.txid, 8) && Fits(12 + |e.data|, 4) && Fits(e.checksum, 4)
  }

  function Encode(e: Entry): (b: Bytes)
    ensures |b| == 17 + |e.data|
  {
    [OPCODE] + EncodeInt(12 + |e.data|, 4) + EncodeInt(e.txid, 8) + e.data + EncodeInt(e.checksum, 4)
  }

  function EncodeAll(es: seq<Entry>): Bytes {
    if es == [] then [] else EncodeAll(es[..|es| - 1]) + Encode(es[|es| - 1])
  }

  function Header(layoutVersion: int): (b: Bytes)
    ensures |b| == 8
  {
    EncodeInt(layoutVersion, 4) + EncodeInt(0, 4)
  }

  /** A file that begins with the layout version and no layout flags. */
  ghost predicate StartsWithLayout(b: Bytes, layoutVersion: int) {
    8 <= |b| && DecodeInt(b[..4]) == layoutVersion && DecodeInt(b[4..8]) == 0
  }

  /** The header is exactly the layout version and the flags. */
  lemma HeaderFields(layoutVersion: int)
    requires Fits(layoutVersion, 4)
    ensures |Header(layoutVersion)| == 8 && StartsWithLayout(Header(layoutVersion), layoutVersion)
  {
    hide EncodeInt, DecodeInt;
    assert Fits(0, 4) by { Radixes(); }
    IntRoundTrip(layoutVersion, 4);
    IntRoundTrip(0, 4);
    var h := Header(layoutVersion);
    assert h[..4] == EncodeInt(layoutVersion, 4) && h[4..8] == EncodeInt(0, 4);
  }

  // ----- The scanner -----

  datatype ScannedOp = EndOfLog | Op(txid: int, next: nat) | BadOp
  datatype Scanned = LastTxId(txid: int) | ScanFailed

  /**
   * One record at position pos.  BadOp stands for a wrong opcode, and for what the scanner leaves
   * undefined: reading past the end of the buffer and a length field that does not move forward.
   */
  function ScanOp(s: Bytes, pos: nat): (r: ScannedOp)
    ensures r.Op? ==> pos < r.next <= |s|
  {
    if pos >= |s| then EndOfLog
    else if s[pos] != OPCODE || pos + 13 > |s| then BadOp
    else
      var length := DecodeInt(s[pos + 1..pos + 5]);
      var txid := DecodeInt(s[pos + 5..pos + 13]);
      var p := (pos + 13 + (length - 12)) % POSITIONS;
      if p + 4 > |s| || p + 4 <= pos then BadOp else Op(txid, p + 4)
  }

  /** The rest of the scan, with the highest txid met so far. */
  function ScanFrom(s: Bytes, pos: nat, last: int): Scanned
    decreases |s| - pos
  {
    match ScanOp(s, pos)
    case BadOp => ScanFailed
    case EndOfLog => LastTxId(last)
    case Op(txid, next) =>
      if txid == INVALID_TXID then LastTxId(last)
      else ScanFrom(s, next, if last == INVALID_TXID || txid > last then txid else last)
  }

  /** A whole file; at 4 GiB and beyond the 32-bit position can never reach the end. */
  function Scan(s: Bytes): Scanned {
    if |s| < 8 || |s| >= POSITIONS || DecodeInt(s[4..8]) != 0 then ScanFailed
    else ScanFrom(s, 8, INVALID_TXID)
  }

  function Highest(es: seq<Entry>, last: int): int {
    if es == [] then last
    else
      var m := Highest(es[..|es| - 1], last);
      var t := es[|es| - 1].txid;
      if m == INVALID_TXID || t > m then t else m
  }

  /** It is the maximum, whatever the order of the entries. */
  lemma {:induction false} HighestIsMaximum(es: seq<Entry>)
    requires Loggable(es) && es != []
    ensures exists e :: e in es && e.txid == Highest(es, INVALID_TXID)
    ensures forall e <- es :: e.txid <= Highest(es, INVALID_TXID)
  {
    var front, last := es[..|es| - 1], es[|es| - 1];
    assert last in es && forall e <- front :: e in es;
    assert forall e <- es :: e in front || e == last;
    if front != [] {
      HighestIsMaximum(front);
      var e :| e in front && e.txid == Highest(front, INVALID_TXID);
    }
  }

  // ----- Round trip -----

  /** A record followed by anything reads back as its txid, and the scan stops exactly behind it. */
  lemma ScanOpRoundTrip(before: Bytes, e: Entry, after: Bytes)
    requires ValidEntry(e)
    requires |before + Encode(e) + after| < POSITIONS
    ensures ScanOp(before + Encode(e) + after, |before|) == Op(e.txid, |before + Encode(e)|)
  {
    var length, txid, checksum := EncodeInt(12 + |e.data|, 4), EncodeInt(e.txid, 8), EncodeInt(e.checksum, 4);
    Fields(before, length, txid, e.data, checksum, after);
    IntRoundTrip(12 + |e.data|, 4);
    IntRoundTrip(e.txid, 8);
    SmallMod(|before| + 13 + |e.data|, POSITIONS);
  }

  lemma Fields(before: Bytes, length: Bytes, txid: Bytes, data: Bytes, checksum: Bytes, after: Bytes)
    requires |length| == 4 && |txid| == 8 && |checksum| == 4
    ensures
      var s, pos := before + ([OPCODE] + length + txid + data + checksum) + after, |before|;
      && |s| == pos + 17 + |data| + |after|
      && s[pos] == OPCODE
      && s[pos + 1..pos + 5] == length
      && s[pos + 5..pos + 13] == txid
  {
  }

  /** Every byte of a record: opcode, length of what follows up to the checksum, txid, data and checksum. */
  lemma RecordFields(e: Entry)
    requires ValidEntry(e)
    ensures
      var b, n := Encode(e), |e.data|;
      && |b| == 17 + n && b[0] == 30
      && DecodeInt(b[1..5]) == |b| - 5 && DecodeInt(b[5..13]) == e.txid
      && b[13..13 + n] == e.data && DecodeInt(b[13 + n..]) == e.checksum
  {
    hide EncodeInt, DecodeInt;
    var length, txid, checksum := EncodeInt(12 + |e.data|, 4), EncodeInt(e.txid, 8), EncodeInt(e.checksum, 4);
    IntRoundTrip(12 + |e.data|, 4);
    IntRoundTrip(e.txid, 8);
    IntRoundTrip(e.checksum, 4);
    var b := Encode(e);
    assert b[1..5] == length && b[5..13] == txid && b[13 + |e.data|..] == checksum;
  }

  ghost predicate Loggable(es: seq<Entry>) {
    forall e <- es :: ValidEntry(e) && e.txid != INVALID_TXID
  }

  lemma {:induction false} EncodeAllCons(es: seq<Entry>)
    requires es != []
    ensures EncodeAll(es) == Encode(es[0]) + EncodeAll(es[1..])
  {
    hide Encode, EncodeAll;
    var front, last := es[..|es| - 1], es[|es| - 1];
    EncodeLast(es);
    if |es| == 1 {
      EncodeNone();
      assert front == [] && es[1..] == [];
      assert EncodeAll(front) + Encode(last) == Encode(es[0]) + EncodeAll(es[1..]);
    } else {
      EncodeAllCons(front);
      EncodeLast(es[1..]);
      assert front[1..] == es[1..][..|es| - 2];
      Regroup(Encode(es[0]), EncodeAll(front[1..]), Encode(last));
    }
  }

  lemma EncodeNone()
    ensures EncodeAll([]) == []
  {
  }

  lemma EncodeLast(es: seq<Entry>)
    requires es != []
    ensures EncodeAll(es) == EncodeAll(es[..|es| - 1]) + Encode(es[|es| - 1])
  {
    hide Encode;
  }

  lemma Regroup(a: Bytes, b: Bytes, c: Bytes)
    ensures (a + b) + c == a + (b + c)
  {
  }

  lemma {:induction false} HighestCons(es: seq<Entry>, last: int)
    requires es != []
    ensures Highest(es, last) ==
            Highest(es[1..], if last == INVALID_TXID || es[0].txid > last then es[0].txid else last)
  {
    if |es| > 1 {
      HighestCons(es[..|es| - 1], last);
      assert es[..|es| - 1][1..] == es[1..][..|es| - 2];
    } else {
      assert es[..0] == [];
    }
  }

  /** From any record boundary the scan passes over the records that follow, keeping the highest txid. */
  lemma {:induction false} ScanPassesOver(before: Bytes, es: seq<Entry>, rest: Bytes, last: int)
    requires Loggable(es)
    requires |before + EncodeAll(es) + rest| < POSITIONS
    ensures
      var s := before + EncodeAll(es) + rest;
      ScanFrom(s, |before|, last) == ScanFrom(s, |before + EncodeAll(es)|, Highest(es, last))
    decreases |es|
  {
    hide Encode, EncodeAll, ScanOp;
    if es == [] {
      EncodeNone();
    } else {
      var s := before + EncodeAll(es) + rest;
      EncodeAllCons(es);
      var more := EncodeAll(es[1..]) + rest;
      Regroup(before, Encode(es[0]), EncodeAll(es[1..]));
      Regroup(before + Encode(es[0]), EncodeAll(es[1..]), rest);
      ScanOpRoundTrip(before, es[0], more);
      HighestCons(es, last);
      var next := if last == INVALID_TXID || es[0].txid > last then es[0].txid else last;
      ScanPassesOver(before + Encode(es[0]), es[1..], rest, next);
    }
  }

  /** At the end of the file it reports it. */
  lemma ScanFromRoundTrip(before: Bytes, es: seq<Entry>, last: int)
    requires Loggable(es)
    requires |before + EncodeAll(es)| < POSITIONS
    ensures ScanFrom(before + EncodeAll(es), |before|, last) == LastTxId(Highest(es, last))
  {
    hide EncodeAll, Highest;
    assert before + EncodeAll(es) + [] == before + EncodeAll(es);
    ScanPassesOver(before, es, [], last);
  }

  /** Any eight bytes will do for a header, exactly if the flags are 0. */
  lemma HeaderIff(h: Bytes, es: seq<Entry>)
    requires |h| == 8 && Loggable(es) && |h + EncodeAll(es)| < POSITIONS
    ensures Scan(h + EncodeAll(es)) ==
            if DecodeInt(h[4..8]) == 0 then LastTxId(Highest(es, INVALID_TXID)) else ScanFailed
  {
    hide EncodeAll, Highest, DecodeInt;
    BehindHeader(h, EncodeAll(es));
    ScanFromRoundTrip(h, es, INVALID_TXID);
  }

  /** A byte that is no opcode, behind whole records, makes the whole scan fail. */
  lemma ForeignByteFails(layoutVersion: int, es: seq<Entry>, foreign: byte, rest: Bytes)
    requires Loggable(es) && Fits(layoutVersion, 4) && foreign != 30
    requires |Header(layoutVersion) + EncodeAll(es) + ([foreign] + rest)| < POSITIONS
    ensures Scan(Header(layoutVersion) + EncodeAll(es) + ([foreign] + rest)).ScanFailed?
  {
    hide EncodeAll, Highest, Header, DecodeInt;
    HeaderFields(layoutVersion);
    ScanPassesOver(Header(layoutVersion), es, [foreign] + rest, INVALID_TXID);
    BehindHeader(Header(layoutVersion), EncodeAll(es) + ([foreign] + rest));
    Regroup(Header(layoutVersion), EncodeAll(es), [foreign] + rest);
  }

  /** A record with the invalid txid ends the log for the scanner, whatever follows. */
  lemma InvalidTxidEnds(layoutVersion: int, es: seq<Entry>, e: Entry, rest: Bytes)
    requires Loggable(es) && Fits(layoutVersion, 4) && ValidEntry(e) && e.txid == INVALID_TXID
    requires |Header(layoutVersion) + EncodeAll(es) + (Encode(e) + rest)| < POSITIONS
    ensures Scan(Header(layoutVersion) + EncodeAll(es) + (Encode(e) + rest)) == LastTxId(Highest(es, INVALID_TXID))
  {
    hide Encode, EncodeAll, Highest, Header, DecodeInt, ScanOp;
    var h := Header(layoutVersion);
    HeaderFields(layoutVersion);
    ScanPassesOver(h, es, Encode(e) + rest, INVALID_TXID);
    ScanOpRoundTrip(h + EncodeAll(es), e, rest);
    Regroup(h + EncodeAll(es), Encode(e), rest);
    BehindHeader(h, EncodeAll(es) + (Encode(e) + rest));
    Regroup(h, EncodeAll(es), Encode(e) + rest);
  }

  lemma BehindHeader(h: Bytes, b: Bytes)
    requires |h| == 8
    ensures (h + b)[4..8] == h[4..8]
  {
  }

  /** Header plus records scans to the highest txid written, whatever the layout version. */
  lemma ScanRoundTrip(layoutVersion: int, es: seq<Entry>)
    requires Loggable(es) && Fits(layoutVersion, 4)
    requires |Header(layoutVersion) + EncodeAll(es)| < POSITIONS
    ensures Scan(Header(layoutVersion) + EncodeAll(es)) == LastTxId(Highest(es, INVALID_TXID))
  {
    var h := Header(layoutVersion);
    assert (h + EncodeAll(es))[4..8] == EncodeInt(0, 4);
    IntRoundTrip(0, 4);
    ScanFromRoundTrip(h, es, INVALID_TXID);
  }

  // ----- Segments: logs of consecutive transactions -----

  ghost predicate Consecutive(es: seq<Entry>, first: nat) {
    forall i :: 0 <= i < |es| ==> ValidEntry(es[i]) && es[i].txid == first + i
  }

  /** b encodes exactly the n transactions first, first+1, ... */
  ghost predicate IsBatch(b: Bytes, first: nat, n: nat) {
    exists es :: Consecutive(es, first) && |es| == n && EncodeAll(es) == b
  }

  /** b is a scannable file holding exactly the n transactions first, first+1, ... */
  ghost predicate IsLog(b: Bytes, first: nat, n: nat) {
    8 <= |b| < POSITIONS && DecodeInt(b[4..8]) == 0 && IsBatch(b[8..], first, n)
  }

  lemma {:induction false} HighestConsecutive(es: seq<Entry>, first: nat)
    requires Consecutive(es, first)
    ensures Highest(es, INVALID_TXID) == if es == [] then INVALID_TXID else first + |es| - 1
  {
    if es != [] {
      HighestConsecutive(es[..|es| - 1], first);
    }
  }

  /** The byte scan of a segment agrees with the count of what was written to it. */
  lemma ScanLog(b: Bytes, first: nat, n: nat)
    requires IsLog(b, first, n)
    ensures Scan(b) == LastTxId(if n == 0 then INVALID_TXID else first + n - 1)
  {
    var es :| Consecutive(es, first) && |es| == n && EncodeAll(es) == b[8..];
    assert b == b[..8] + EncodeAll(es);
    ScanFromRoundTrip(b[..8], es, INVALID_TXID);
    HighestConsecutive(es, first);
  }

  lemma {:induction false} EncodeAllAppend(xs: seq<Entry>, ys: seq<Entry>)
    ensures EncodeAll(xs + ys) == EncodeAll(xs) + EncodeAll(ys)
  {
    hide Encode, EncodeAll;
    if ys == [] {
      EncodeNone();
      assert xs + ys == xs && EncodeAll(xs) + [] == EncodeAll(xs);
    } else {
      var front := ys[..|ys| - 1];
      EncodeAllAppend(xs, front);
      EncodeLast(ys);
      EncodeLast(xs + ys);
      assert (xs + ys)[..|xs + ys| - 1] == xs + front;
      Regroup(EncodeAll(xs), EncodeAll(front), Encode(ys[|ys| - 1]));
    }
  }

  /** A fresh file is a log of no transactions, for every start. */
  lemma HeaderIsLog(layoutVersion: int, first: nat)
    requires Fits(layoutVersion, 4)
    ensures IsLog(Header(layoutVersion), first, 0)
  {
    var h := Header(layoutVersion);
    assert h[4..8] == EncodeInt(0, 4);
    IntRoundTrip(0, 4);
    assert Consecutive([], first) && EncodeAll([]) == h[8..];
  }

  lemma BatchOf(es: seq<Entry>, first: nat)
    requires Consecutive(es, first)
    ensures IsBatch(EncodeAll(es), first, |es|)
  {
  }

  lemma ConsecutiveAppend(xs: seq<Entry>, ys: seq<Entry>, first: nat)
    requires Consecutive(xs, first) && Consecutive(ys, first + |xs|)
    ensures Consecutive(xs + ys, first)
  {
    forall i | 0 <= i < |xs + ys|
      ensures ValidEntry((xs + ys)[i]) && (xs + ys)[i].txid == first + i
    {
      var e := (xs + ys)[i];
      assert e == if i < |xs| then xs[i] else ys[i - |xs|];
    }
  }

  lemma BatchAppend(a: Bytes, first: nat, n: nat, b: Bytes, m: nat)
    requires IsBatch(a, first, n) && IsBatch(b, first + n, m)
    ensures IsBatch(a + b, first, n + m)
  {
    var xs :| Consecutive(xs, first) && |xs| == n && EncodeAll(xs) == a;
    var ys :| Consecutive(ys, first + n) && |ys| == m && EncodeAll(ys) == b;
    ConsecutiveAppend(xs, ys, first);
    EncodeAllAppend(xs, ys);
    BatchOf(xs + ys, first);
  }

  /** Appending the next batch keeps a log contiguous. */
  lemma AppendBatch(b: Bytes, first: nat, n: nat, records: Bytes, m: nat)
    requires IsLog(b, first, n) && IsBatch(records, first + n, m) && |b + records| < POSITIONS
    ensures IsLog(b + records, first, n + m)
  {
    hide IsBatch;
    BatchAppend(b[8..], first, n, records, m);
    assert (b + records)[4..8] == b[4..8];
    assert (b + records)[8..] == b[8..] + records;
  }
}
