/**
 * WebSocket framing of the bundled web server: what one side writes, cut into any chunks, the other
 * side's buffer and deliver loop hand out again, message by message.
 */
module WebSocket {
  import opened Bytes

  const INT_MAX: int := 0x7FFF_FFFF
  const PAYLOAD_LIMIT: int := 0x7FFF_FFF2  // a longer payload and its header do not fit an int

  /** Conversion to the host's 32-bit int. */
  function ToInt(v: int): int {
    var low := v % WORD;
    if low <= INT_MAX then low else low - WORD
  }

  // ----- Masking, section 5.3 of RFC 6455 -----

  function Power2(n: nat): (p: nat)
    ensures p > 0
  {
    if n == 0 then 1 else 2 * Power2(n - 1)
  }

  /** Exclusive or of two n-bit numbers. */
  function XorBits(a: nat, b: nat, n: nat): (x: nat)
    ensures x < Power2(n)
  {
    if n == 0 then 0 else (a + b) % 2 + 2 * XorBits(a / 2, b / 2, n - 1)
  }

  lemma {:induction false} XorBitsTwice(a: nat, b: nat, n: nat)
    requires a < Power2(n)
    ensures XorBits(XorBits(a, b, n), b, n) == a
  {
    if n > 0 {
      XorBitsTwice(a / 2, b / 2, n - 1);
      XorAgain((a + b) % 2, XorBits(a / 2, b / 2, n - 1), a, b);
    }
  }

  lemma XorAgain(bit: nat, half: nat, a: nat, b: nat)
    requires bit == (a + b) % 2
    ensures (bit + 2 * half) / 2 == half && (bit + 2 * half + b) % 2 == a % 2
  {
  }

  function Xor(a: byte, b: byte): byte {
    assert Power2(8) == 256 by { ByteWidth(); }
    XorBits(a, b, 8)
  }

  lemma ByteWidth()
    ensures Power2(8) == 256
  {
    assert Power2(4) == 16;
    assert Power2(5) == 2 * Power2(4);
    assert Power2(6) == 2 * Power2(5);
    assert Power2(7) == 2 * Power2(6);
  }

  function Masked(data: Bytes, key: Bytes): (m: Bytes)
    requires |key| == 4
    ensures |m| == |data|
  {
    seq(|data|, i requires 0 <= i < |data| => Xor(data[i], key[i % 4]))
  }

  /** The i-th bit of a number. */
  function Bit(v: nat, i: nat): nat { v / Power2(i) % 2 }

  lemma HalfFirst(v: nat, r: nat)
    requires r > 0
    ensures v / (2 * r) == v / 2 / r
  {
    var q, rest := v / 2 / r, v / 2 % r;
    assert v / 2 == q * r + rest;
    assert v == 2 * (q * r + rest) + v % 2;
    assert v == q * (2 * r) + (2 * rest + v % 2);
    QuotientUnique(v, 2 * r, q, 2 * rest + v % 2);
  }

  lemma HigherBit(v: nat, i: nat)
    requires i > 0
    ensures Bit(v, i) == Bit(v / 2, i - 1)
  {
    HalfFirst(v, Power2(i - 1));
  }

  lemma {:induction false} XorBit(a: nat, b: nat, n: nat, i: nat)
    requires i < n
    ensures Bit(XorBits(a, b, n), i) == (if Bit(a, i) == Bit(b, i) then 0 else 1)
  {
    var rest := XorBits(a / 2, b / 2, n - 1);
    if i == 0 {
      assert Power2(0) == 1;
      LowBit((a + b) % 2, rest, a, b);
    } else {
      LowBit((a + b) % 2, rest, a, b);
      assert XorBits(a, b, n) / 2 == rest;
      hide Power2, Bit, XorBits;
      HigherBit(a, i);
      HigherBit(b, i);
      HigherBit(XorBits(a, b, n), i);
      XorBit(a / 2, b / 2, n - 1, i - 1);
    }
  }

  lemma LowBit(low: nat, rest: nat, a: nat, b: nat)
    requires low == (a + b) % 2
    ensures (low + 2 * rest) % 2 == (if a % 2 == b % 2 then 0 else 1) && (low + 2 * rest) / 2 == rest
  {
  }

  /** Bit by bit: octet i of the data meets octet i modulo 4 of the key. */
  lemma MaskedBit(data: Bytes, key: Bytes, i: nat, j: nat)
    requires |key| == 4 && i < |data| && j < 8
    ensures Bit(Masked(data, key)[i], j) == (if Bit(data[i], j) == Bit(key[i % 4], j) then 0 else 1)
  {
    hide XorBits, Bit;
    XorBit(data[i], key[i % 4], 8, j);
  }

  /** Masking is its own inverse. */
  lemma MaskTwice(data: Bytes, key: Bytes)
    requires |key| == 4
    ensures Masked(Masked(data, key), key) == data
  {
    forall i | 0 <= i < |data| ensures Masked(Masked(data, key), key)[i] == data[i] {
      ByteWidth();
      XorBitsTwice(data[i], key[i % 4], 8);
    }
  }

  // ----- A frame on the wire, section 5.2 of RFC 6455 -----

  /** A message as its sender means it; the key is empty when the frame is not masked. */
  datatype Sent = Sent(bits: byte, key: Bytes, payload: Bytes)

  ghost predicate Legal(f: Sent) {
    |f.key| in {0, 4} && |f.payload| < PAYLOAD_LIMIT
  }

  ghost function LengthField(n: nat, mask: byte): Bytes
    requires mask in {0, 128}
  {
    if n < 126 then [mask + n]
    else if n <= 0xFFFF then [mask + 126] + BigEndian(n, 2)
    else [mask + 127] + BigEndian(n, 8)
  }

  ghost function Frame(f: Sent): Bytes
    requires Legal(f)
  {
    if f.key == [] then [f.bits] + LengthField(|f.payload|, 0) + f.payload
    else [f.bits] + LengthField(|f.payload|, 128) + f.key + Masked(f.payload, f.key)
  }

  /** The length as it stands in the frame, and where it ends. */
  ghost predicate TellsLength(b: Bytes, n: nat, at: nat)
    requires 2 <= at <= |b|
  {
    if n < 126 then at == 2 && b[1] % 128 == n
    else if n <= 0xFFFF then at == 4 && b[1] % 128 == 126 && Unsigned(b[2..4]) == n
    else at == 10 && b[1] % 128 == 127 && Unsigned(b[2..10]) == n
  }

  /**
   * Every octet of a frame: the first as given, whether it is masked, the length in the shortest of its three
   * forms, the key, and the payload.
   */
  lemma FrameFields(f: Sent)
    requires Legal(f)
    ensures
      var b, n := Frame(f), |f.payload|;
      var at := if n < 126 then 2 else if n <= 0xFFFF then 4 else 10;
      && |b| == at + |f.key| + n && b[0] == f.bits && (b[1] >= 128 <==> f.key != []) && TellsLength(b, n, at)
      && b[at..at + |f.key|] == f.key
      && b[at + |f.key|..] == (if f.key == [] then f.payload else Masked(f.payload, f.key))
  {
    hide BigEndian, Unsigned, Masked, LengthField, TellsLength;
    var n, mask := |f.payload|, if f.key == [] then 0 else 128;
    var body := if f.key == [] then f.payload else Masked(f.payload, f.key);
    var field := LengthField(n, mask);
    SecondByte(n, mask);
    LengthFieldTells(n, mask, [f.bits], f.key + body);
    var b := [f.bits] + field + (f.key + body);
    assert Frame(f) == b by { FrameParts(f); }
    assert b[1] == field[0];
  }

  lemma FrameParts(f: Sent)
    requires Legal(f)
    ensures Frame(f) == [f.bits] + LengthField(|f.payload|, if f.key == [] then 0 else 128)
                        + (f.key + if f.key == [] then f.payload else Masked(f.payload, f.key))
  {
    hide LengthField, Masked;
  }

  lemma LengthFieldTells(n: nat, mask: byte, first: Bytes, rest: Bytes)
    requires mask in {0, 128} && |first| == 1 && n < PAYLOAD_LIMIT
    ensures
      var at := if n < 126 then 2 else if n <= 0xFFFF then 4 else 10;
      |LengthField(n, mask)| == at - 1 && TellsLength(first + LengthField(n, mask) + rest, n, at)
  {
    hide BigEndian, Unsigned;
    SecondByte(n, mask);
    var b := first + LengthField(n, mask) + rest;
    assert b[1] == LengthField(n, mask)[0];
    if n >= 126 {
      var size := if n <= 0xFFFF then 2 else 8;
      LengthBytes(n, mask, first, rest, size);
      LengthReadsBack(n, size);
    }
  }

  lemma LengthBytes(n: nat, mask: byte, first: Bytes, rest: Bytes, size: nat)
    requires mask in {0, 128} && |first| == 1 && 126 <= n && size == (if n <= 0xFFFF then 2 else 8)
    ensures |LengthField(n, mask)| == 1 + size
    ensures (first + LengthField(n, mask) + rest)[2..2 + size] == BigEndian(n, size)
  {
    hide BigEndian;
    Middle(first, [mask + (if n <= 0xFFFF then 126 else 127)], BigEndian(n, size), rest);
  }

  lemma Middle(a: Bytes, x: Bytes, b: Bytes, c: Bytes)
    ensures (a + (x + b) + c)[|a| + |x|..|a| + |x| + |b|] == b
  {
  }

  ghost function Frames(fs: seq<Sent>): Bytes
    requires forall f <- fs :: Legal(f)
  {
    if fs == [] then [] else Frame(fs[0]) + Frames(fs[1..])
  }

  // ----- What the receiver makes of its buffer -----

  /** What the handler is shown. */
  datatype Message = Message(bits: byte, length: int, content: Bytes)

  datatype Head = Head(header: nat, mask: nat, data: int)

  /** The sizes read off the first bytes; all zero while they cannot be told. */
  ghost function HeadOf(s: Bytes): (h: Head)
    ensures h.header == 0 ==> h.data == 0
  {
    var n := ToInt(|s|);
    if n < 2 then Head(0, 0, 0) else
    var len := s[1] % 128;
    var mask := if s[1] >= 128 then 4 else 0;
    if len < 126 && n >= mask then Head(2 + mask, mask, len)
    else if len == 126 && n >= 4 + mask then Head(4 + mask, mask, Unsigned(s[2..4]))
    else if n >= 10 + mask then
      Head(10 + mask, mask, ToInt(ToInt(Unsigned(s[2..6]) * WORD) + Unsigned(s[6..10])))
    else Head(0, mask, 0)
  }

  ghost predicate Buffered(s: Bytes) {
    var h := HeadOf(s);
    0 < h.header + h.data <= ToInt(|s|)
  }

  ghost function First(s: Bytes): Message
    requires Buffered(s)
  {
    var h := HeadOf(s);
    var content := if h.data < 0 then [] else s[h.header..h.header + h.data];
    Message(s[0], h.data, if h.mask == 0 then content else Masked(content, s[h.header - 4..h.header]))
  }

  lemma FirstIs(s: Bytes)
    requires Buffered(s)
    ensures
      var h := HeadOf(s);
      && 0 < |s| && (h.mask > 0 && h.data > 0 ==> 4 <= h.header && h.header + h.data <= |s|)
      && (h.data >= 0 ==> h.header + h.data <= |s|)
      && First(s) == Message(s[0], h.data,
                             if h.data <= 0 then []
                             else if h.mask == 0 then s[h.header..h.header + h.data]
                             else Masked(s[h.header..h.header + h.data], s[h.header - 4..h.header]))
  {
  }

  ghost function Rest(s: Bytes): (r: Bytes)
    requires Buffered(s)
    ensures |r| < |s|
  {
    s[HeadOf(s).header + HeadOf(s).data..]
  }

  /** What the deliver loop hands out, and what it leaves in the buffer. */
  ghost function Drain(s: Bytes): (seq<Message>, Bytes)
    decreases |s|
  {
    if !Buffered(s) then ([], s) else
    var (ms, left) := Drain(Rest(s));
    ([First(s)] + ms, left)
  }

  lemma DrainStep(s: Bytes)
    ensures if Buffered(s) then Drain(s) == ([First(s)] + Drain(Rest(s)).0, Drain(Rest(s)).1) else Drain(s) == ([], s)
  {
    hide Buffered, First, Rest;
  }

  // ----- A frame read back -----

  ghost function Header(f: Sent): Bytes
    requires Legal(f)
  {
    [f.bits] + LengthField(|f.payload|, if f.key == [] then 0 else 128) + f.key
  }

  lemma FrameShape(f: Sent)
    requires Legal(f)
    ensures Frame(f) == Header(f) + if f.key == [] then f.payload else Masked(f.payload, f.key)
    ensures |Frame(f)| == |Header(f)| + |f.payload| <= INT_MAX
  {
  }

  lemma LongLength(n: nat)
    requires n <= INT_MAX
    ensures var b := BigEndian(n, 8);
            ToInt(ToInt(Unsigned(b[..4]) * WORD) + Unsigned(b[4..])) == n
  {
    var b := BigEndian(n, 8);
    SplitBigEndian(0, n);
    assert b[..4] == BigEndian(0, 4) && b[4..] == BigEndian(n, 4);
    UnsignedBigEndian(0, 4);
    UnsignedBigEndian(n, 4);
    Radixes();
    SmallMod(n, WORD);
    SmallMod(0, WORD);
  }

  lemma LengthReadsBack(n: nat, size: nat)
    requires (size == 2 && n <= 0xFFFF) || (size == 8 && n < PAYLOAD_LIMIT)
    ensures Unsigned(BigEndian(n, size)) == n
  {
    UnsignedBigEndian(n, size);
    Radixes();
    assert Radix(1) == 256 && Radix(2) == 0x1_0000;
    SmallMod(n, Radix(size));
  }

  /** Of the eight length bytes only the lower four count, as an int. */
  lemma UpperLengthIsIgnored(s: Bytes)
    requires 10 <= |s| <= INT_MAX && s[1] == 127
    ensures HeadOf(s) == Head(10, 0, ToInt(Unsigned(s[6..10])))
  {
    hide Unsigned;
    IntIsItself(|s|);
    NoLowerBits(Unsigned(s[2..6]));
  }

  lemma NoLowerBits(v: nat)
    ensures ToInt(v * WORD) == 0
  {
    QuotientUnique(v * WORD, WORD, v, 0);
  }

  lemma IntIsItself(v: nat)
    requires v <= INT_MAX
    ensures ToInt(v) == v
  {
    SmallMod(v, WORD);
  }

  /** The header of a frame, followed by anything, is read for what it says. */
  lemma HeadOfFrame(f: Sent, more: Bytes)
    requires Legal(f) && |Header(f) + more| <= INT_MAX
    ensures HeadOf(Header(f) + more) == Head(|Header(f)|, |f.key|, |f.payload|)
  {
    hide ToInt, BigEndian, Unsigned;
    var s := Header(f) + more;
    IntIsItself(|s|);
    SecondByte(|f.payload|, if f.key == [] then 0 else 128);
    if |f.payload| < 126 {
    } else if |f.payload| <= 0xFFFF {
      ShortHead(f, more);
    } else {
      LongHead(f, more);
    }
  }

  lemma SecondByte(n: nat, mask: byte)
    requires mask in {0, 128}
    ensures
      var field := LengthField(n, mask);
      field != [] && field[0] == mask + (if n < 126 then n else if n <= 0xFFFF then 126 else 127)
  {
  }

  lemma ShortHead(f: Sent, more: Bytes)
    requires Legal(f) && 126 <= |f.payload| <= 0xFFFF
    ensures var s := Header(f) + more;
            |Header(f)| == 4 + |f.key| && Unsigned(s[2..4]) == |f.payload|
  {
    hide BigEndian, Unsigned;
    assert (Header(f) + more)[2..4] == BigEndian(|f.payload|, 2);
    LengthReadsBack(|f.payload|, 2);
  }

  lemma LongHead(f: Sent, more: Bytes)
    requires Legal(f) && 0xFFFF < |f.payload|
    ensures var s := Header(f) + more;
            |Header(f)| == 10 + |f.key| && ToInt(ToInt(Unsigned(s[2..6]) * WORD) + Unsigned(s[6..10])) == |f.payload|
  {
    hide BigEndian, Unsigned, ToInt;
    var s, b := Header(f) + more, BigEndian(|f.payload|, 8);
    assert s[2..6] == b[..4] && s[6..10] == b[4..];
    LongLength(|f.payload|);
  }

  /** A frame that has not wholly arrived is not delivered. */
  lemma PartIsNotDelivered(f: Sent, p: Bytes)
    requires Legal(f) && p < Frame(f)
    ensures !Buffered(p)
  {
    hide Frame, HeadOf;
    FrameShape(f);
    var head := Header(f);
    SmallMod(|p|, WORD);
    if |p| < |head| {
      assert p < head;
      PartOfHeader(f, p);
    } else {
      assert p == head + p[|head|..];
      HeadOfFrame(f, p[|head|..]);
    }
  }

  lemma PartOfHeader(f: Sent, p: Bytes)
    requires Legal(f) && p < Header(f)
    ensures HeadOf(p).header == 0 || HeadOf(p).header + HeadOf(p).data > |p|
  {
    SmallMod(|p|, WORD);
    if |p| >= 2 {
      assert p[1] == LengthField(|f.payload|, if f.key == [] then 0 else 128)[0];
    }
  }

  /** A frame that has arrived is delivered as it was meant, unmasked, and nothing after it is touched. */
  lemma FrameIsDelivered(f: Sent, more: Bytes)
    requires Legal(f) && |Frame(f) + more| <= INT_MAX
    ensures var s := Frame(f) + more;
            Buffered(s) && First(s) == Message(f.bits, |f.payload|, f.payload) && Rest(s) == more
  {
    hide Frame, HeadOf, Masked;
    FrameShape(f);
    var head := Header(f);
    var body := if f.key == [] then f.payload else Masked(f.payload, f.key);
    var s := Frame(f) + more;
    assert s == head + (body + more);
    HeadOfFrame(f, body + more);
    SmallMod(|s|, WORD);
    assert s[|head|..|head| + |f.payload|] == body;
    if f.key != [] {
      assert s[|head| - 4..|head|] == f.key;
      MaskTwice(f.payload, f.key);
    }
    assert s[|head| + |f.payload|..] == more;
  }

  // ----- A stream of frames, received in chunks -----

  ghost function Messages(fs: seq<Sent>): (ms: seq<Message>)
    ensures |ms| == |fs|
  {
    seq(|fs|, i requires 0 <= i < |fs| => Message(fs[i].bits, |fs[i].payload|, fs[i].payload))
  }

  /** s is the first k frames and a part, not the whole, of the next. */
  ghost predicate Splits(fs: seq<Sent>, s: Bytes, k: nat, part: Bytes)
    requires forall f <- fs :: Legal(f)
  {
    && k <= |fs|
    && s == Frames(fs[..k]) + part
    && (if k < |fs| then part < Frame(fs[k]) else part == [])
  }

  lemma FramesCons(fs: seq<Sent>, k: nat)
    requires 0 < k <= |fs| && forall f <- fs :: Legal(f)
    ensures Frames(fs[..k]) == Frame(fs[0]) + Frames(fs[1..][..k - 1])
  {
    assert fs[..k][1..] == fs[1..][..k - 1];
  }

  /** Whatever has arrived of a stream of frames is some whole frames and a part of the next. */
  lemma {:induction false} SplitOf(fs: seq<Sent>, s: Bytes) returns (k: nat, part: Bytes)
    requires (forall f <- fs :: Legal(f)) && s <= Frames(fs)
    ensures Splits(fs, s, k, part)
  {
    hide Frame;
    if fs == [] || s < Frame(fs[0]) {
      k, part := 0, s;
      assert Frames(fs[..0]) + s == s;
    } else {
      var size := |Frame(fs[0])|;
      assert s == Frame(fs[0]) + s[size..] && s[size..] <= Frames(fs[1..]);
      k, part := SplitOf(fs[1..], s[size..]);
      FramesCons(fs, k + 1);
      k := k + 1;
    }
  }

  /** The deliver loop hands out exactly the whole frames and leaves the part. */
  lemma {:induction false} DrainSplits(fs: seq<Sent>, s: Bytes, k: nat, part: Bytes)
    requires (forall f <- fs :: Legal(f)) && Splits(fs, s, k, part) && |s| <= INT_MAX
    ensures Drain(s) == (Messages(fs[..k]), part)
    decreases k
  {
    hide Frame, Buffered, First, Rest;
    if k == 0 {
      assert s == part;
      if fs == [] {
        assert !Buffered([]) by { Nothing(); }
      } else {
        PartIsNotDelivered(fs[0], part);
      }
    } else {
      FramesCons(fs, k);
      var more := Frames(fs[1..][..k - 1]) + part;
      assert s == Frame(fs[0]) + more;
      FrameIsDelivered(fs[0], more);
      DrainSplits(fs[1..], more, k - 1, part);
      assert Messages(fs[..1]) == [First(s)];
      assert Messages(fs[..k]) == Messages(fs[..1]) + Messages(fs[1..][..k - 1]);
    }
  }

  lemma Nothing()
    ensures !Buffered([])
  {
    SmallMod(0, WORD);
  }

  function Joined(chunks: seq<Bytes>): Bytes {
    if chunks == [] then [] else chunks[0] + Joined(chunks[1..])
  }

  /** The loop, run after every chunk. */
  ghost function Receive(buf: Bytes, chunks: seq<Bytes>): (seq<Message>, Bytes)
    decreases |chunks|
  {
    if chunks == [] then ([], buf) else
    var (ms, left) := Drain(buf + chunks[0]);
    var (rest, end) := Receive(left, chunks[1..]);
    (ms + rest, end)
  }

  /** At no moment does the buffer outgrow an int. */
  ghost predicate FitsInt(buf: Bytes, chunks: seq<Bytes>)
    decreases |chunks|
  {
    chunks == [] ||
    (|buf + chunks[0]| <= INT_MAX && FitsInt(Drain(buf + chunks[0]).1, chunks[1..]))
  }

  /**
   * However the stream of frames is cut into chunks, the messages come out whole, unmasked and in
   * order, and only an unfinished frame stays behind.
   */
  lemma {:induction false} ChunksDoNotMatter(fs: seq<Sent>, buf: Bytes, chunks: seq<Bytes>) returns (k: nat)
    requires (forall f <- fs :: Legal(f)) && buf + Joined(chunks) <= Frames(fs) && FitsInt(buf, chunks)
    requires Splits(fs, buf, 0, buf)
    ensures Splits(fs, buf + Joined(chunks), k, Receive(buf, chunks).1)
    ensures Receive(buf, chunks).0 == Messages(fs[..k])
    decreases |chunks|
  {
    hide Frame, Drain;
    if chunks == [] {
      k := 0;
      assert buf + Joined(chunks) == buf;
      return;
    }
    var s := buf + chunks[0];
    var later := Joined(chunks[1..]);
    assert buf + Joined(chunks) == s + later;
    assert s <= Frames(fs);
    var n, part := SplitOf(fs, s);
    DrainSplits(fs, s, n, part);
    LeftToCome(fs, s, n, part, later);
    var m := ChunksDoNotMatter(fs[n..], part, chunks[1..]);
    k := n + m;
    SplitsOn(fs, s, n, part, later, m, Receive(part, chunks[1..]).1);
    assert Messages(fs[..k]) == Messages(fs[..n]) + Messages(fs[n..][..m]);
  }

  lemma LeftToCome(fs: seq<Sent>, s: Bytes, n: nat, part: Bytes, later: Bytes)
    requires (forall f <- fs :: Legal(f)) && Splits(fs, s, n, part) && s + later <= Frames(fs)
    ensures part + later <= Frames(fs[n..]) && Splits(fs[n..], part, 0, part)
  {
    hide Frame, Frames;
    FramesSplit(fs, n);
    NoFrames(fs[n..], part);
    PrefixCancels(Frames(fs[..n]), part + later, Frames(fs[n..]));
    assert s + later == Frames(fs[..n]) + (part + later);
  }

  lemma NoFrames(fs: seq<Sent>, part: Bytes)
    requires forall f <- fs :: Legal(f)
    ensures Frames(fs[..0]) + part == part
  {
    assert Frames([]) + part == part;
  }

  lemma PrefixCancels(a: Bytes, b: Bytes, c: Bytes)
    ensures a + b <= a + c ==> b <= c
  {
    if a + b <= a + c {
      assert forall i :: 0 <= i < |b| ==> b[i] == (a + b)[|a| + i] == (a + c)[|a| + i] == c[i];
    }
  }

  lemma SplitsOn(fs: seq<Sent>, s: Bytes, n: nat, part: Bytes, later: Bytes, m: nat, end: Bytes)
    requires (forall f <- fs :: Legal(f)) && Splits(fs, s, n, part) && Splits(fs[n..], part + later, m, end)
    ensures Splits(fs, s + later, n + m, end)
  {
    hide Frame;
    assert fs[..n + m] == fs[..n] + fs[n..][..m];
    FramesAppend(fs[..n], fs[n..][..m]);
    assert s + later == Frames(fs[..n]) + (Frames(fs[n..][..m]) + end);
  }

  lemma FramesSplit(fs: seq<Sent>, n: nat)
    requires n <= |fs| && forall f <- fs :: Legal(f)
    ensures Frames(fs) == Frames(fs[..n]) + Frames(fs[n..])
  {
    hide Frame, Frames;
    assert fs == fs[..n] + fs[n..];
    FramesAppend(fs[..n], fs[n..]);
  }

  lemma {:induction false} FramesAppend(a: seq<Sent>, b: seq<Sent>)
    requires forall f <- a + b :: Legal(f)
    requires (forall f <- a :: Legal(f)) && (forall f <- b :: Legal(f))
    ensures Frames(a + b) == Frames(a) + Frames(b)
  {
    hide Frame;
    if a == [] {
      assert a + b == b;
    } else {
      assert (a + b)[1..] == a[1..] + b;
      FramesAppend(a[1..], b);
    }
  }

  // ----- The buffers and the connection -----

  class Iobuf {
    var buf: array<byte>
    var len: nat

    ghost predicate Valid()
      reads this
    {
      len <= buf.Length
    }

    ghost function Contents(): Bytes
      requires Valid()
      reads this, buf
    {
      buf[..len]
    }

    constructor ()
      ensures Valid() && fresh(buf) && Contents() == []
    {
      buf := new byte[0];
      len := 0;
    }

    /** Appends all of data, or nothing exactly when the buffer had to grow and no memory was granted. */
    method Append(data: Bytes, granted: bool) returns (appended: nat)
      requires Valid()
      modifies this, buf
      ensures Valid() && (buf == old(buf) || fresh(buf))
      ensures appended == if granted || old(len) + |data| <= old(buf.Length) then |data| else 0
      ensures Contents() == old(Contents()) + data[..appended]
    {
      appended := |data|;
      ghost var was := Contents();
      if |data| == 0 {
      } else if len + |data| <= buf.Length {
        forall k | 0 <= k < |data| { buf[len + k] := data[k]; }
        len := len + |data|;
        assert buf[..len] == was + data;
      } else if granted {
        var p := new byte[len + |data|];
        forall k | 0 <= k < len { p[k] := buf[k]; }
        forall k | 0 <= k < |data| { p[len + k] := data[k]; }
        buf := p;
        len := len + |data|;
        assert buf[..len] == was + data;
      } else {
        appended := 0;
      }
    }

    method Remove(n: nat)
      requires Valid()
      modifies this`len, buf
      ensures Valid()
      ensures Contents() == if n <= old(len) then old(Contents())[n..] else old(Contents())
    {
      if 0 < n <= len {
        forall k | 0 <= k < len - n { buf[k] := buf[n + k]; }
        len := len - n;
      }
    }
  }

  lemma PartOfContents(io: Iobuf, i: nat, j: nat)
    requires io.Valid() && i <= j <= io.len
    ensures io.Contents()[i..j] == io.buf[i..j]
  {
  }

  class Connection {
    const recv: Iobuf
    const send: Iobuf
    const handler: Message -> bool  // whether the user's handler answers MG_FALSE
    var finished: bool              // NSF_FINISHED_SENDING_DATA
    var delivered: seq<Message>

    ghost predicate Valid()
      reads this, recv, send, recv.buf, send.buf
    {
      recv != send && recv.buf != send.buf && recv.Valid() && send.Valid()
    }

    constructor (handler: Message -> bool)
      ensures Valid() && fresh(recv) && fresh(send) && fresh(recv.buf) && fresh(send.buf)
      ensures recv.Contents() == [] && send.Contents() == [] && delivered == [] && !finished
    {
      recv := new Iobuf();
      send := new Iobuf();
      this.handler := handler;
      finished := false;
      delivered := [];
    }

    /** Reads the sizes of the first frame. */
    method ReadHead() returns (header: nat, mask: nat, data: int)
      requires Valid()
      ensures Head(header, mask, data) == HeadOf(recv.Contents())
      ensures 0 < header + data <= ToInt(recv.len) ==> header + data <= recv.len && mask + 2 <= header <= recv.len
      ensures mask in {0, 4}
    {
      var buf, n := recv.buf, ToInt(recv.len);
      ghost var s := recv.Contents();
      assert n <= recv.len;
      header, mask, data := 0, 0, 0;
      if n >= 2 {
        var len: int := buf[1] % 128;
        mask := if buf[1] >= 128 then 4 else 0;
        if len < 126 && n >= mask {
          data := len;
          header := 2 + mask;
        } else if len == 126 && n >= 4 + mask {
          header := 4 + mask;
          data := Unsigned(buf[2..4]);
          assert s[2..4] == buf[2..4];
        } else if n >= 10 + mask {
          header := 10 + mask;
          data := ToInt(ToInt(Unsigned(buf[2..6]) * WORD) + Unsigned(buf[6..10]));
          assert s[2..6] == buf[2..6] && s[6..10] == buf[6..10];
        }
      }
    }

    /** Takes the mask off in place. */
    method Unmask(header: nat, data: nat)
      requires Valid() && 4 <= header && header + data <= recv.len
      modifies recv.buf
      ensures Valid()
      ensures var now, was := recv.Contents(), old(recv.Contents());
              && now[..header] == was[..header] && now[header + data..] == was[header + data..]
              && now[header..header + data] == Masked(was[header..header + data], was[header - 4..header])
    {
      hide Xor;
      var buf := recv.buf;
      ghost var was := recv.Contents();
      ghost var key, plain := was[header - 4..header], was[header..header + data];
      for i := 0 to data
        invariant buf[..header] == was[..header]
        invariant buf[header..header + i] == Masked(plain, key)[..i]
        invariant buf[header + i..recv.len] == was[header + i..]
      {
        assert buf[header + i] == plain[i] by { assert buf[header + i] == buf[header + i..recv.len][0]; }
        assert buf[header - 4 + i % 4] == key[i % 4] by {
          assert buf[..header][header - 4 + i % 4] == was[header - 4 + i % 4];
        }
        ghost var done := buf[header..header + i];
        buf[header + i] := Xor(buf[header + i], buf[header - 4 + i % 4]);
        assert buf[header..header + i + 1] == done + [Masked(plain, key)[i]];
        assert Masked(plain, key)[..i + 1] == Masked(plain, key)[..i] + [Masked(plain, key)[i]];
      }
      assert Masked(plain, key)[..data] == Masked(plain, key);
    }

    /** Hands the first frame to the handler, if all of it is there. */
    method DeliverFrame() returns (buffered: bool)
      requires Valid()
      modifies this`finished, this`delivered, recv`len, recv.buf
      ensures Valid() && buffered == old(Buffered(recv.Contents()))
      ensures buffered ==> delivered == old(delivered) + [old(First(recv.Contents()))]
      ensures buffered ==> recv.Contents() == old(Rest(recv.Contents()))
      ensures buffered ==> finished == (old(finished) || handler(old(First(recv.Contents()))))
      ensures !buffered ==>
                && delivered == old(delivered) && recv.Contents() == old(recv.Contents())
                && finished == old(finished)
      ensures send.Contents() == old(send.Contents())
    {
      ghost var was := recv.Contents();
      var header, mask, data := ReadHead();
      var frame := header + data;
      buffered := 0 < frame <= ToInt(recv.len);
      if buffered {
        var message := Take(header, mask, data);
        delivered := delivered + [message];
        if handler(message) {
          finished := true;
        }
        recv.Remove(frame);
      }
    }

    /** The message behind a header, unmasked in the buffer; what follows it stays. */
    method Take(header: nat, mask: nat, data: int) returns (message: Message)
      requires Valid() && Buffered(recv.Contents()) && HeadOf(recv.Contents()) == Head(header, mask, data)
      requires 0 < header + data <= recv.len && mask + 2 <= header <= recv.len && mask in {0, 4}
      modifies recv.buf
      ensures Valid() && message == First(old(recv.Contents()))
      ensures recv.Contents()[header + data..] == old(recv.Contents())[header + data..]
      ensures send.Contents() == old(send.Contents())
    {
      hide HeadOf, Buffered, Masked, First;
      ghost var was := recv.Contents();
      FirstIs(was);
      if mask > 0 && data > 0 {
        Unmask(header, data);
      }
      var content := if data < 0 then [] else recv.buf[header..header + data];
      assert recv.buf[0] == recv.Contents()[..header][0];
      if data >= 0 {
        PartOfContents(recv, header, header + data);
      }
      message := Message(recv.buf[0], data, content);
    }

    /**
     * Takes in a chunk and hands out every frame that is complete by then.  Without memory for it the chunk
     * is lost.
     */
    method ReceiveChunk(chunk: Bytes, granted: bool)
      requires Valid()
      modifies this`finished, this`delivered, recv, recv.buf
      ensures Valid() && (recv.buf == old(recv.buf) || fresh(recv.buf))
      ensures var kept := if granted || old(recv.len) + |chunk| <= old(recv.buf.Length) then chunk else [];
              var (ms, left) := Drain(old(recv.Contents()) + kept);
              delivered == old(delivered) + ms && recv.Contents() == left
      ensures send.Contents() == old(send.Contents())
    {
      hide Buffered, First, Rest, Drain;
      var appended := recv.Append(chunk, granted);
      ghost var kept := if granted || old(recv.len) + |chunk| <= old(recv.buf.Length) then chunk else [];
      assert chunk[..appended] == kept;
      ghost var all := recv.Contents();
      assert delivered + Drain(all).0 == old(delivered) + Drain(all).0;
      var more := true;
      while more
        invariant Valid() && (recv.buf == old(recv.buf) || fresh(recv.buf))
        invariant delivered + Drain(recv.Contents()).0 == old(delivered) + Drain(all).0
        invariant Drain(recv.Contents()).1 == Drain(all).1
        invariant send.Contents() == old(send.Contents())
        invariant !more ==> Drain(recv.Contents()) == ([], recv.Contents())
        decreases recv.len, more
      {
        ghost var before, so := recv.Contents(), delivered;
        DrainStep(before);
        more := DeliverFrame();
        if more {
          assert so + Drain(before).0 == delivered + Drain(recv.Contents()).0;
        }
      }
    }

    /**
     * A stream of frames arrives in whatever chunks: the handler has been shown exactly the frames that
     * are complete, in order, and only a part of the next one stays in the buffer.
     */
    method ReceiveStream(ghost fs: seq<Sent>, chunks: seq<Bytes>) returns (ghost k: nat)
      requires Valid() && recv.Contents() == []
      requires (forall f <- fs :: Legal(f)) && Joined(chunks) <= Frames(fs) && FitsInt([], chunks)
      modifies this`finished, this`delivered, recv, recv.buf
      ensures Valid() && Splits(fs, Joined(chunks), k, recv.Contents())
      ensures delivered == old(delivered) + Messages(fs[..k])
    {
      hide Drain, Frame;
      assert Splits(fs, [], 0, []) by { NoneYet(fs); }
      assert [] + Joined(chunks) == Joined(chunks);
      k := ChunksDoNotMatter(fs, [], chunks);
      ghost var (ms, end) := Receive([], chunks);
      for i := 0 to |chunks|
        invariant Valid() && (recv.buf == old(recv.buf) || fresh(recv.buf))
        invariant delivered + Receive(recv.Contents(), chunks[i..]).0 == old(delivered) + ms
        invariant Receive(recv.Contents(), chunks[i..]).1 == end
      {
        assert chunks[i..][1..] == chunks[i + 1..];
        ReceiveChunk(chunks[i], true);
      }
      assert chunks[|chunks|..] == [];
    }
  }

  lemma NoneYet(fs: seq<Sent>)
    requires forall f <- fs :: Legal(f)
    ensures Splits(fs, [], 0, [])
  {
    if fs != [] {
      FrameShape(fs[0]);
    }
  }

  // ----- Writing -----

  /**
   * Builds one frame and appends it to what is to be sent.  Without memory to build it nothing happens;
   * without room for it in the send buffer the frame is lost, and a closing frame still closes.
   */
  method MgWebsocketWrite(conn: Connection, opcode: int, data: Bytes, granted: bool, room: bool) returns (pending: nat)
    requires conn.Valid() && |data| < PAYLOAD_LIMIT
    modifies conn`finished, conn.send, conn.send.buf
    ensures conn.Valid() && (conn.send.buf == old(conn.send.buf) || fresh(conn.send.buf))
    ensures
      var frame := Frame(Sent(0x80 + opcode % 16, [], data));
      var built := granted || |data| + 10 <= 4192;
      var fits := room || old(conn.send.len) + |frame| <= old(conn.send.buf.Length);
      && conn.send.Contents() == old(conn.send.Contents()) + (if built && fits then frame else [])
      && conn.finished == (old(conn.finished) || (built && opcode == 8))
      && pending == (if built then |conn.send.Contents()| else 0)
    ensures conn.recv.Contents() == old(conn.recv.Contents())
  {
    ghost var f := Sent(0x80 + opcode % 16, [], data);
    if |data| + 10 > 4192 && !granted {
      return 0;
    }
    var copy := BuildFrame(0x80 + opcode % 16, data);
    var appended := conn.send.Append(copy, room);
    assert copy[..0] == [] && copy[..|copy|] == copy == Frame(f);
    if opcode == 8 {
      conn.finished := true;
    }
    pending := conn.send.len;
  }

  /** The shortest length form that holds the length. */
  method BuildFrame(first: byte, data: Bytes) returns (copy: Bytes)
    requires |data| < PAYLOAD_LIMIT
    ensures copy == Frame(Sent(first, [], data))
  {
    if |data| < 126 {
      copy := [first, |data|] + data;
    } else if |data| <= 0xFFFF {
      copy := [first, 126] + BigEndian(|data|, 2) + data;
    } else {
      copy := [first, 127] + (BigEndian(|data| / WORD, 4) + BigEndian(|data| % WORD, 4)) + data;
      SplitBigEndian(|data| / WORD, |data| % WORD);
    }
  }

  ghost function Written(messages: seq<(int, Bytes)>): (fs: seq<Sent>)
    requires forall m <- messages :: |m.1| < PAYLOAD_LIMIT
    ensures |fs| == |messages| && forall f <- fs :: Legal(f)
  {
    seq(|messages|, i requires 0 <= i < |messages| => Sent(0x80 + messages[i].0 % 16, [], messages[i].1))
  }

  /** Writing messages one after another produces the stream of their frames. */
  method WriteAll(conn: Connection, messages: seq<(int, Bytes)>)
    requires conn.Valid() && conn.send.Contents() == [] && forall m <- messages :: |m.1| < PAYLOAD_LIMIT
    modifies conn`finished, conn.send, conn.send.buf
    ensures conn.Valid() && conn.send.Contents() == Frames(Written(messages))
  {
    hide Frame;
    for i := 0 to |messages|
      invariant conn.Valid() && (conn.send.buf == old(conn.send.buf) || fresh(conn.send.buf))
      invariant conn.send.Contents() == Frames(Written(messages)[..i])
    {
      var pending := MgWebsocketWrite(conn, messages[i].0, messages[i].1, true, true);
      ghost var fs := Written(messages);
      assert fs[..i + 1] == fs[..i] + [fs[i]];
      FramesAppend(fs[..i], [fs[i]]);
      assert Frames([fs[i]]) == Frame(fs[i]) + Frames([]);
    }
    assert Written(messages)[..|messages|] == Written(messages);
  }

  // ----- From one side to the other -----

  /** A stream of frames that has arrived whole leaves no part of a frame. */
  lemma WholeStream(fs: seq<Sent>, k: nat, part: Bytes)
    requires (forall f <- fs :: Legal(f)) && Splits(fs, Frames(fs), k, part)
    ensures k == |fs| && part == []
  {
    hide Frame, Frames;
    FirstFrameFits(fs, k);
    FramesSplit(fs, k);
    assert |part| == |Frames(fs[k..])|;
  }

  lemma FirstFrameFits(fs: seq<Sent>, k: nat)
    requires (forall f <- fs :: Legal(f)) && k <= |fs|
    ensures if k < |fs| then |Frame(fs[k])| <= |Frames(fs[k..])| else |Frames(fs[k..])| == 0
  {
    hide Frame;
  }

  /** b in pieces of the given sizes, and what is left of it as the last piece. */
  function Cut(b: Bytes, sizes: seq<nat>): (chunks: seq<Bytes>)
    decreases |sizes|
  {
    if sizes == [] || |b| < sizes[0] then [b] else [b[..sizes[0]]] + Cut(b[sizes[0]..], sizes[1..])
  }

  lemma {:induction false} CutJoined(b: Bytes, sizes: seq<nat>)
    ensures Joined(Cut(b, sizes)) == b
    decreases |sizes|
  {
    if sizes == [] || |b| < sizes[0] {
      assert Cut(b, sizes) == [b] && Joined([b]) == b + Joined([]);
    } else {
      var rest := Cut(b[sizes[0]..], sizes[1..]);
      CutJoined(b[sizes[0]..], sizes[1..]);
      assert ([b[..sizes[0]]] + rest)[1..] == rest;
    }
  }

  /** A written message as the other side's handler is to see it. */
  function AsShown(m: (int, Bytes)): Message { Message(0x80 + m.0 % 16, |m.1|, m.1) }

  lemma WrittenMessages(messages: seq<(int, Bytes)>)
    requires forall m <- messages :: |m.1| < PAYLOAD_LIMIT
    ensures var ms := Messages(Written(messages));
            && |ms| == |messages|
            && forall i :: 0 <= i < |messages| ==> ms[i] == AsShown(messages[i])
  {
  }

  /**
   * What one side writes the other side's handler is shown: exactly the payloads, in order, however the
   * network cuts the stream, and nothing is left in the buffer.
   */
  method WriteThenReceive(messages: seq<(int, Bytes)>, sizes: seq<nat>, handler: Message -> bool)
    returns (delivered: seq<Message>, left: Bytes)
    requires forall m <- messages :: |m.1| < PAYLOAD_LIMIT
    requires FitsInt([], Cut(Frames(Written(messages)), sizes))
    ensures |delivered| == |messages|
    ensures forall i :: 0 <= i < |messages| ==> delivered[i] == AsShown(messages[i])
    ensures left == []
  {
    hide Frame, Frames, Splits, Written, Messages, Joined, Cut, Drain, FitsInt;
    var sender := new Connection(handler);
    var receiver := new Connection(handler);
    WriteAll(sender, messages);
    var stream := sender.send.buf[..sender.send.len];
    ghost var fs := Written(messages);
    CutJoined(stream, sizes);
    ghost var k := receiver.ReceiveStream(fs, Cut(stream, sizes));
    WholeStream(fs, k, receiver.recv.Contents());
    assert fs[..k] == fs;
    WrittenMessages(messages);
    delivered, left := receiver.delivered, receiver.recv.buf[..receiver.recv.len];
  }
}
