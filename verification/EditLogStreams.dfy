/** The stream classes that write and scan edit logs, byte by byte, on hosts of either endianness. */
module EditLogStreams {
  import opened Bytes
  import opened EditLog

  function Reversed(b: Bytes): (r: Bytes)
    ensures |r| == |b| && forall i :: 0 <= i < |b| ==> r[i] == b[|b| - 1 - i]
  {
    seq(|b|, i requires 0 <= i < |b| => b[|b| - 1 - i])
  }

  /** How the host lays out an n-byte integer in memory: what the byte member of the union shows. */
  function HostBytes(v: int, n: nat, littleEndian: bool): (r: Bytes)
    ensures |r| == n
  {
    if littleEndian then Reversed(EncodeInt(v, n)) else EncodeInt(v, n)
  }

  /** The integer that n bytes in memory are. */
  function HostInt(b: Bytes, littleEndian: bool): int {
    DecodeInt(if littleEndian then Reversed(b) else b)
  }

  // ----- The scanner -----

  class JNClientInputStream {
    const mStrm: Bytes
    var mCurPosition: nat

    constructor (buffer: Bytes)
      ensures mStrm == buffer && mCurPosition == 0
    {
      mStrm := buffer;
      mCurPosition := 0;
    }

    /** An integer at the current position; the result does not depend on the host. */
    method ReadAsType(n: nat, littleEndian: bool) returns (r: int)
      requires mCurPosition + n <= |mStrm|
      modifies this
      ensures mCurPosition == old(mCurPosition) + n
      ensures r == DecodeInt(mStrm[old(mCurPosition)..mCurPosition])
    {
      var u8 := new byte[n];
      var start := mCurPosition;
      for k := 0 to n
        invariant mCurPosition == start + k
        invariant littleEndian ==> forall j :: n - k <= j < n ==> u8[j] == mStrm[start + (n - 1 - j)]
        invariant !littleEndian ==> forall j :: 0 <= j < k ==> u8[j] == mStrm[start + j]
      {
        u8[if littleEndian then n - k - 1 else k] := mStrm[mCurPosition];
        mCurPosition := mCurPosition + 1;
      }
      var read := mStrm[start..start + n];
      assert (if littleEndian then Reversed(u8[..]) else u8[..]) == read;
      r := HostInt(u8[..], littleEndian);
    }

    method SkipHeader(littleEndian: bool) returns (status: int)
      requires mCurPosition == 0 && 8 <= |mStrm|
      modifies this
      ensures mCurPosition == 8 && (status == 0 <==> DecodeInt(mStrm[4..8]) == 0)
    {
      var layoutVersion := ReadAsType(4, littleEndian);
      var layoutFlags := ReadAsType(4, littleEndian);
      status := if layoutFlags != 0 then -1 else 0;
    }

    /** Past the end of the buffer, where the original reads undefined bytes, this stops with BadOp. */
    method ScanOp(littleEndian: bool) returns (r: ScannedOp)
      requires |mStrm| < POSITIONS
      modifies this
      ensures r == EditLog.ScanOp(mStrm, old(mCurPosition))
      ensures r.Op? ==> mCurPosition == r.next
      ensures r.EndOfLog? ==> mCurPosition == old(mCurPosition)
    {
      if mCurPosition >= |mStrm| {
        return EndOfLog;
      }
      var start := mCurPosition;
      var opcode := mStrm[mCurPosition];
      mCurPosition := mCurPosition + 1;
      if opcode != OPCODE || mCurPosition + 12 > |mStrm| {
        return BadOp;
      }
      var length := ReadAsType(4, littleEndian);
      var txid := ReadAsType(8, littleEndian);
      ScanString(length - 12);
      if mCurPosition + 4 > |mStrm| || mCurPosition + 4 <= start {
        return BadOp;
      }
      var checksum := ReadAsType(4, littleEndian);
      return Op(txid, mCurPosition);
    }

    /** Skipping is addition on a 32-bit unsigned position, for negative lengths too. */
    method ScanString(length: int)
      modifies this
      ensures mCurPosition == (old(mCurPosition) + length) % POSITIONS
    {
      mCurPosition := (mCurPosition + length) % POSITIONS;
    }

    /** The scan loop: it ends, and finds what the specification of a scan says. */
    static method ScanLog(content: Bytes, littleEndian: bool) returns (r: Scanned)
      ensures r == Scan(content)
    {
      if |content| < 8 || |content| >= POSITIONS {
        return ScanFailed;
      }
      var stream := new JNClientInputStream(content);
      var status := stream.SkipHeader(littleEndian);
      if status != 0 {
        return ScanFailed;
      }
      var tempLast := INVALID_TXID;
      while true
        invariant stream.mStrm == content
        invariant Scan(content) == ScanFrom(content, stream.mCurPosition, tempLast)
        decreases |content| - stream.mCurPosition
      {
        var op := stream.ScanOp(littleEndian);
        if op.BadOp? {
          return ScanFailed;
        }
        if op.EndOfLog? || op.txid == INVALID_TXID {
          break;
        }
        if tempLast == INVALID_TXID || op.txid > tempLast {
          tempLast := op.txid;
        }
      }
      return LastTxId(tempLast);
    }
  }

  // ----- The writer of a segment file -----

  class JNClientOutputStream {
    var stream: Bytes

    /** Opening for output truncates. */
    constructor ()
      ensures stream == []
    {
      stream := [];
    }

    method StoreAsBigEndian(v: int, n: nat, littleEndian: bool)
      modifies this
      ensures stream == old(stream) + EncodeInt(v, n)
    {
      var u8 := HostBytes(v, n, littleEndian);
      for k := 0 to n
        invariant stream == old(stream) + EncodeInt(v, n)[..k]
      {
        stream := stream + [u8[if littleEndian then n - k - 1 else k]];
        assert EncodeInt(v, n)[..k + 1] == EncodeInt(v, n)[..k] + [EncodeInt(v, n)[k]];
      }
      assert EncodeInt(v, n)[..n] == EncodeInt(v, n);
    }

    method Create(layoutVersion: int, littleEndian: bool)
      requires stream == []
      modifies this
      ensures stream == Header(layoutVersion)
      ensures Fits(layoutVersion, 4) ==> |stream| == 8 && StartsWithLayout(stream, layoutVersion)
    {
      if Fits(layoutVersion, 4) {
        HeaderFields(layoutVersion);
      }
      StoreAsBigEndian(layoutVersion, 4, littleEndian);
      StoreAsBigEndian(0, 4, littleEndian);
    }

    method WriteRaw(records: Bytes)
      modifies this
      ensures stream == old(stream) + records
    {
      stream := stream + records;
    }
  }

  // ----- The encoder of one record -----

  class RecordEncoder {
    const mBuffer: array<byte>
    var mSize: nat
    const mDataSize: nat

    ghost predicate Valid()
      reads this
    {
      mBuffer.Length == 17 + mDataSize && mSize <= mBuffer.Length
    }

    ghost function Written(): (b: Bytes)
      requires Valid()
      reads this, mBuffer
    {
      mBuffer[..mSize]
    }

    /** The whole record is in the buffer, checksum of everything before it included. */
    constructor (txId: int, data: Bytes, crc: Bytes -> int, littleEndian: bool)
      requires Fits(17 + |data|, 4)
      ensures Valid() && fresh(mBuffer) && mSize == mBuffer.Length
      ensures
        var body := [OPCODE] + EncodeInt(12 + |data|, 4) + EncodeInt(txId, 8) + data;
        Written() == Encode(Entry(txId, data, crc(body)))
    {
      mSize := 0;
      mDataSize := |data|;
      var length := 17 + |data|;
      mBuffer := new byte[length];
      new;
      hide EncodeInt;
      WriteByte(OPCODE);
      assert Written() == [OPCODE];
      StoreAsBigEndian(length - 5, 4, littleEndian);
      StoreAsBigEndian(txId, 8, littleEndian);
      WriteString(data);
      var body := mBuffer[..mSize];
      assert body == [OPCODE] + EncodeInt(12 + |data|, 4) + EncodeInt(txId, 8) + data;
      StoreAsBigEndian(crc(body), 4, littleEndian);
    }

    method WriteByte(b: byte)
      requires Valid() && mSize < mBuffer.Length
      modifies this, mBuffer
      ensures Valid() && Written() == old(Written()) + [b]
    {
      mBuffer[mSize] := b;
      mSize := mSize + 1;
    }

    method StoreAsBigEndian(v: int, n: nat, littleEndian: bool)
      requires Valid() && mSize + n <= mBuffer.Length
      modifies this, mBuffer
      ensures Valid() && Written() == old(Written()) + EncodeInt(v, n)
    {
      var u8 := HostBytes(v, n, littleEndian);
      for k := 0 to n
        invariant Valid() && mSize == old(mSize) + k
        invariant Written() == old(Written()) + EncodeInt(v, n)[..k]
      {
        WriteByte(u8[if littleEndian then n - k - 1 else k]);
        assert EncodeInt(v, n)[..k + 1] == EncodeInt(v, n)[..k] + [EncodeInt(v, n)[k]];
      }
      assert EncodeInt(v, n)[..n] == EncodeInt(v, n);
    }

    method WriteString(data: Bytes)
      requires Valid() && mSize + |data| <= mBuffer.Length
      modifies this, mBuffer
      ensures Valid() && Written() == old(Written()) + data
    {
      var start := mSize;
      forall i | 0 <= i < |data| {
        mBuffer[start + i] := data[i];
      }
      mSize := mSize + |data|;
    }
  }

  lemma LargestOf(es: seq<Entry>)
    requires Loggable(es)
    ensures es == [] ==> Highest(es, INVALID_TXID) == INVALID_TXID
    ensures es != [] ==>
              exists e :: e in es && Highest(es, INVALID_TXID) == e.txid && forall f <- es :: f.txid <= e.txid
  {
    if es != [] {
      HighestIsMaximum(es);
    }
  }

  lemma OneMore(es: seq<Entry>, i: nat)
    requires i < |es|
    ensures EncodeAll(es[..i + 1]) == EncodeAll(es[..i]) + Encode(es[i])
  {
    hide Encode;
    assert es[..i + 1][..i] == es[..i];
  }

  /** Write a segment of encoded records and scan it: the last transaction written is found, on any pair of hosts. */
  method WriteAndScan(layoutVersion: int, es: seq<Entry>, writerLittle: bool, scannerLittle: bool) returns (r: Scanned)
    requires Loggable(es) && Fits(layoutVersion, 4) && |EncodeAll(es)| + 8 < POSITIONS
    ensures es == [] ==> r == LastTxId(INVALID_TXID)
    ensures es != [] ==> exists e :: e in es && r == LastTxId(e.txid) && forall f <- es :: f.txid <= e.txid
  {
    hide Encode, EncodeAll, Header, Scan, Highest, Loggable;
    EncodeNone();
    assert es[..0] == [];
    var out := new JNClientOutputStream();
    out.Create(layoutVersion, writerLittle);
    for i := 0 to |es|
      invariant out.stream == Header(layoutVersion) + EncodeAll(es[..i])
    {
      out.WriteRaw(Encode(es[i]));
      OneMore(es, i);
    }
    assert es[..|es|] == es;
    ScanRoundTrip(layoutVersion, es);
    LargestOf(es);
    r := JNClientInputStream.ScanLog(out.stream, scannerLittle);
  }
}
