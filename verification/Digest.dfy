/**
 * The streaming SHA-1 and MD5 of the bundled web server, over an unspecified block transform: how a
 * message is cut into updates does not matter, and the padding is the standards'.
 */
module Digest {
  import opened Bytes

  const DWORD: int := 0x1_0000_0000_0000_0000

  /** The chaining value, as 32-bit words. */
  type Words = seq<nat>
  type Transform = (Words, Bytes) -> Words

  // ----- What a digest is -----

  /** The transform folded over the whole blocks of m. */
  ghost function Fold(f: Transform, st: Words, m: Bytes): Words
    decreases |m|
  {
    if |m| < 64 then st else Fold(f, f(st, m[..64]), m[64..])
  }

  /** The bytes after the last whole block. */
  ghost function Tail(m: Bytes): (t: Bytes)
    ensures |t| == |m| % 64
  {
    m[|m| - |m| % 64..]
  }

  function Zeros(n: nat): (z: Bytes)
    ensures |z| == n && forall i :: 0 <= i < n ==> z[i] == 0
  {
    seq(n, _ => 0)
  }

  /** How many zero bytes follow the bit 1 so that eight bytes of length complete a block. */
  ghost function Gap(n: nat): (g: nat)
    ensures (n + 1 + g) % 64 == 56 && g < 64
  {
    (119 - n % 64) % 64
  }

  /** Section 5.1.1 of FIPS 180-4 with the length big-endian, section 3.1 and 3.2 of RFC 1321 with it little-endian. */
  ghost function Padded(m: Bytes, length: Bytes): Bytes {
    m + [0x80] + Zeros(Gap(|m|)) + length
  }

  /** The length of n bytes in bits, in a double word. */
  function Bits(n: nat): nat { 8 * n % DWORD }

  function LittleEndian(v: nat, n: nat): (b: Bytes)
    ensures |b| == n
  {
    if n == 0 then [] else [v % 256] + LittleEndian(v / 256, n - 1)
  }

  const SHA1_INIT: Words := [0x67452301, 0xEFCDAB89, 0x98BADCFE, 0x10325476, 0xC3D2E1F0]
  const MD5_INIT: Words := [0x67452301, 0xefcdab89, 0x98badcfe, 0x10325476]

  ghost function Sha1(f: Transform, m: Bytes): Words {
    Fold(f, SHA1_INIT, Padded(m, BigEndian(Bits(|m|), 8)))
  }

  ghost function Md5(f: Transform, m: Bytes): Words {
    Fold(f, MD5_INIT, Padded(m, LittleEndian(Bits(|m|), 8)))
  }

  /**
   * p is the padding of m: the message, the bit 1, as few zero bits as complete a block together with eight
   * bytes, and these.
   */
  ghost predicate IsPadding(m: Bytes, p: Bytes) {
    && |p| % 64 == 0 && |m| + 9 <= |p| < |m| + 73
    && p[..|m|] == m && p[|m|] == 0x80 && forall i :: |m| < i < |p| - 8 ==> p[i] == 0
  }

  lemma PaddingIs(m: Bytes, p: Bytes)
    requires IsPadding(m, p)
    ensures p == Padded(m, p[|p| - 8..])
  {
    hide Gap;
    var g := |p| - |m| - 9;
    GapIs(|m|, g);
    assert p[|m| + 1..|p| - 8] == Zeros(g);
    assert p == p[..|m|] + [p[|m|]] + p[|m| + 1..|p| - 8] + p[|p| - 8..];
  }

  lemma GapIs(n: nat, g: nat)
    requires (n + 9 + g) % 64 == 0 && g < 64
    ensures g == Gap(n)
  {
  }

  /** The length of the message in bits, as a 64-bit number with its high byte first. */
  ghost predicate EndsBigEndian(m: Bytes, p: Bytes)
    requires |p| >= 8
  {
    Unsigned(p[|p| - 8..]) == 8 * |m| % DWORD
  }

  function Backwards(b: Bytes): (r: Bytes)
    ensures |r| == |b| && forall i :: 0 <= i < |b| ==> r[i] == b[|b| - 1 - i]
  {
    seq(|b|, i requires 0 <= i < |b| => b[|b| - 1 - i])
  }

  /** The same with its low byte first. */
  ghost predicate EndsLittleEndian(m: Bytes, p: Bytes)
    requires |p| >= 8
  {
    Unsigned(Backwards(p[|p| - 8..])) == 8 * |m| % DWORD
  }

  /** Section 6.1 of FIPS 180-4: the digest is computed over the one string that is the padding of the message. */
  lemma Sha1Pads(f: Transform, m: Bytes, p: Bytes)
    requires IsPadding(m, p) && EndsBigEndian(m, p)
    ensures Sha1(f, m) == Fold(f, [0x67452301, 0xEFCDAB89, 0x98BADCFE, 0x10325476, 0xC3D2E1F0], p)
  {
    hide Fold, Gap;
    PaddingIs(m, p);
    BigEndianUnsigned(p[|p| - 8..]);
  }

  /** Section 3 of RFC 1321. */
  lemma Md5Pads(f: Transform, m: Bytes, p: Bytes)
    requires IsPadding(m, p) && EndsLittleEndian(m, p)
    ensures Md5(f, m) == Fold(f, [0x67452301, 0xEFCDAB89, 0x98BADCFE, 0x10325476], p)
  {
    hide Fold, Gap, LittleEndian, BigEndian, Unsigned;
    PaddingIs(m, p);
    var tail := p[|p| - 8..];
    BigEndianUnsigned(Backwards(tail));
    LittleEndianIs(tail, Bits(|m|));
  }

  lemma LittleEndianIs(b: Bytes, v: nat)
    requires BigEndian(v, |b|) == Backwards(b)
    ensures b == LittleEndian(v, |b|)
  {
    hide BigEndian, LittleEndian, Backwards;
    forall i | 0 <= i < |b|
      ensures b[i] == LittleEndian(v, |b|)[i]
    {
      Mirrored(v, |b|, i);
    }
  }

  /** Little-endian is big-endian backwards. */
  lemma {:induction false} Mirrored(v: nat, n: nat, i: nat)
    requires i < n
    ensures LittleEndian(v, n)[i] == BigEndian(v, n)[n - 1 - i]
  {
    if i > 0 {
      Mirrored(v / 256, n - 1, i - 1);
    }
  }

  /** The transform is applied to the first block first, and to each block once. */
  lemma FoldOneBlock(f: Transform, st: Words, block: Bytes)
    requires |block| == 64
    ensures Fold(f, st, block) == f(st, block)
  {
    assert block[..64] == block && block[64..] == [];
  }

  // ----- Folding in pieces -----

  lemma TailDrop(m: Bytes)
    requires 64 <= |m|
    ensures Tail(m[64..]) == Tail(m)
  {
    var r := |m| % 64;
    assert m[64..][|m| - 64 - r..] == m[|m| - r..];
  }

  lemma {:induction false} TailAppend(a: Bytes, b: Bytes)
    ensures Tail(a + b) == Tail(Tail(a) + b)
    decreases |a|
  {
    hide Tail;
    if |a| < 64 {
      Short((_, _) => [], [], a);
    } else {
      assert (a + b)[64..] == a[64..] + b;
      TailDrop(a + b);
      TailDrop(a);
      TailAppend(a[64..], b);
    }
  }

  /** Folding can stop at any point and go on from the unfinished block. */
  lemma {:induction false} FoldAppend(f: Transform, st: Words, a: Bytes, b: Bytes)
    ensures Fold(f, st, a + b) == Fold(f, Fold(f, st, a), Tail(a) + b)
    decreases |a|
  {
    hide Tail;
    if |a| < 64 {
      Short(f, st, a);
    } else {
      assert (a + b)[..64] == a[..64] && (a + b)[64..] == a[64..] + b;
      TailDrop(a);
      FoldAppend(f, f(st, a[..64]), a[64..], b);
    }
  }

  lemma Short(f: Transform, st: Words, m: Bytes)
    requires |m| < 64
    ensures Fold(f, st, m) == st && Tail(m) == m
  {
  }

  lemma BlockStep(f: Transform, st: Words, m: Bytes)
    requires 64 <= |m|
    ensures Fold(f, st, m) == Fold(f, f(st, m[..64]), m[64..]) && Tail(m) == Tail(m[64..])
  {
    hide Tail;
    TailDrop(m);
  }

  /** The byte position in the block can be read off the low word of the bit count. */
  lemma PositionInBlock(n: nat, low: nat, high: nat)
    requires low < WORD && high * WORD + low == Bits(n)
    ensures low / 8 % 64 == n % 64 && low % 8 == 0
  {
    var k := 8 * n / DWORD * WORD + high;
    BitsOf(n, low, high);
    EighthOf(n, low, k);
    SameRest(n, low / 8, k * 0x80_0000);
  }

  /** 8 * n, from its words and the overflow. */
  lemma BitsOf(n: nat, low: nat, high: nat)
    requires high * WORD + low == 8 * n % DWORD
    ensures 8 * n == (8 * n / DWORD * WORD + high) * WORD + low
    ensures 8 * n == 8 * n / DWORD * DWORD + high * WORD + low
  {
  }

  lemma EighthOf(n: nat, low: nat, k: nat)
    requires 8 * n == k * WORD + low
    ensures low % 8 == 0 && n == low / 8 + 64 * (k * 0x80_0000)
  {
    assert low == 8 * (n - k * 0x2000_0000);
  }

  lemma SameRest(n: nat, m: nat, k: nat)
    requires n == m + 64 * k
    ensures n % 64 == m % 64
  {
  }

  /** The two-word counter with its hand-made carry counts bits modulo 2^64. */
  lemma CountBits(n: nat, low: nat, high: nat, len: nat, low': nat, high': nat)
    requires low < WORD && high < WORD && len < WORD && high * WORD + low == Bits(n)
    requires low' == (low + len * 8 % WORD) % WORD
    requires high' == (high + (if low' < low then 1 else 0) + len / 0x2000_0000) % WORD
    ensures high' * WORD + low' == Bits(n + len)
  {
    var x, y := len * 8 % WORD, len / 0x2000_0000;
    var carry := if low' < low then 1 else 0;
    BitsOf(n, low, high);
    BitsOfLength(len);
    Carry(low, x, low');
    Overflow(high + carry + y, high');
    Combine(8 * n / DWORD, high, low, y, x, carry, (high + carry + y) / WORD, high', low', n, len);
  }

  lemma BitsOfLength(len: nat)
    requires len < WORD
    ensures 8 * len == len / 0x2000_0000 * WORD + len * 8 % WORD
  {
    var y, rest := len / 0x2000_0000, len % 0x2000_0000;
    assert len == y * 0x2000_0000 + rest;
    QuotientUnique(8 * len, WORD, y, 8 * rest);
  }

  /** The carry out of a 32-bit sum shows in the sum being smaller than a summand. */
  lemma Carry(low: nat, x: nat, sum: nat)
    requires low < WORD && x < WORD && sum == (low + x) % WORD
    ensures low + x == (if sum < low then WORD else 0) + sum
  {
    if low + x < WORD {
      SmallMod(low + x, WORD);
    } else {
      QuotientUnique(low + x, WORD, 1, low + x - WORD);
    }
  }

  lemma Overflow(top: nat, rest: nat)
    requires rest == top % WORD
    ensures top == top / WORD * WORD + rest && rest < WORD
  {
  }

  lemma Combine(r: nat, high: nat, low: nat, y: nat, x: nat, carry: nat, t: nat, high': nat, low': nat, n: nat,
                len: nat)
    requires 8 * n == r * DWORD + high * WORD + low && 8 * len == y * WORD + x
    requires low + x == carry * WORD + low' && high + carry + y == t * WORD + high'
    requires high' < WORD && low' < WORD
    ensures high' * WORD + low' == 8 * (n + len) % DWORD
  {
    assert 8 * (n + len) == (r + t) * DWORD + (high' * WORD + low');
    QuotientUnique(8 * (n + len), DWORD, r + t, high' * WORD + low');
  }

  // ----- SHA-1 -----

  class Sha1Context {
    const transform: Transform
    var state: Words
    var count0: nat
    var count1: nat
    const buffer: array<byte>
    ghost var message: Bytes  // everything fed in so far

    ghost predicate Valid()
      reads this, buffer
    {
      && buffer.Length == 64 && count0 < WORD && count1 < WORD
      && count1 * WORD + count0 == Bits(|message|)
      && state == Fold(transform, SHA1_INIT, message)
      && buffer[..|message| % 64] == Tail(message)
    }

    constructor (transform: Transform)
      ensures Valid() && fresh(buffer) && message == [] && this.transform == transform
    {
      this.transform := transform;
      state := SHA1_INIT;
      count0, count1 := 0, 0;
      buffer := new byte[64];
      message := [];
    }

    method CopyIn(at: nat, data: Bytes)
      requires at + |data| <= buffer.Length
      modifies buffer
      ensures buffer[..at + |data|] == old(buffer[..at]) + data
    {
      forall k | 0 <= k < |data| {
        buffer[at + k] := data[k];
      }
    }

    method AddToCount(len: nat)
      requires len < WORD && count0 < WORD && count1 < WORD && count1 * WORD + count0 == Bits(|message|)
      modifies `count0, `count1
      ensures count0 < WORD && count1 < WORD && count1 * WORD + count0 == Bits(|message| + len)
    {
      var j := count0;
      count0 := (count0 + len * 8 % WORD) % WORD;
      var carry := if count0 < j then 1 else 0;
      CountBits(|message|, j, count1, len, count0, (count1 + carry + len / 0x2000_0000) % WORD);
      count1 := (count1 + carry + len / 0x2000_0000) % WORD;
    }

    /** The whole blocks of data from i on; what is left is less than a block.  The 32-bit index does not wrap. */
    method Blocks(data: Bytes, start: nat, ghost j: nat) returns (i: nat)
      requires start <= |data| && j < 64 && (start + j) % 64 == 0 && j + |data| < WORD
      modifies `state
      ensures start <= i <= |data| < i + 64
      ensures state == Fold(transform, old(state), data[start..]) && Tail(data[start..]) == data[i..]
    {
      hide Fold, Tail;
      i := start;
      IndexInRange(i, j, |data|);
      while (i + 63) % WORD < |data|
        invariant start <= i <= |data| && (i + j) % 64 == 0 && (i + 63) % WORD == i + 63
        invariant Fold(transform, old(state), data[start..]) == Fold(transform, state, data[i..])
        invariant Tail(data[start..]) == Tail(data[i..])
        decreases |data| - i
      {
        BlockStep(transform, state, data[i..]);
        assert data[i..][..64] == data[i..i + 64] && data[i..][64..] == data[i + 64..];
        state := transform(state, data[i..i + 64]);
        i := i + 64;
        IndexInRange(i, j, |data|);
      }
      Short(transform, state, data[i..]);
    }

    /** Feeds data, which with what is pending in the block must not reach 2^32 bytes. */
    method Update(data: Bytes)
      requires Valid() && |message| % 64 + |data| < WORD
      modifies this, buffer
      ensures Valid() && message == old(message) + data
    {
      hide Fold, Tail, Bits;
      ghost var m := message;
      var len := |data|;
      PositionInBlock(|m|, count0, count1);
      var j := count0 / 8 % 64;
      AddToCount(len);
      FoldAppend(transform, SHA1_INIT, m, data);
      TailAppend(m, data);
      ghost var pending := Tail(m) + data;
      var i := 0;
      SmallMod(j + len, WORD);
      if (j + len) % WORD > 63 {
        i := 64 - j;
        CopyIn(j, data[..i]);
        FirstBlock(transform, state, pending, buffer[..], data, i);
        state := transform(state, buffer[..]);
        i := Blocks(data, i, j);
        j := 0;
        assert buffer[..j] == [];
      } else {
        Short(transform, state, pending);
        assert data[i..] == data;
      }
      assert buffer[..j] + data[i..] == Tail(m + data);
      CopyIn(j, data[i..]);
      message := m + data;
    }

    /** Zero bytes, one by one, until the counter shows room for exactly the length. */
    method PadZeros(ghost n: nat)
      requires Valid() && |message| == n + 1
      modifies this, buffer
      ensures Valid() && message == old(message) + Zeros(Gap(n))
    {
      hide Fold, Tail;
      ghost var k := 0;
      PositionInBlock(|message|, count0, count1);
      while count0 / 8 % 64 != 56
        invariant Valid() && message == old(message) + Zeros(k) && k <= Gap(n)
        invariant count0 / 8 % 64 == |message| % 64
        decreases Gap(n) - k
      {
        GapNotReached(n, k);
        Update([0]);
        assert Zeros(k + 1) == Zeros(k) + [0];
        k := k + 1;
        PositionInBlock(|message|, count0, count1);
      }
      GapReached(n, k);
    }

    method Final() returns (digest: Bytes)
      requires Valid()
      modifies this, buffer
      ensures digest == WordsBigEndian(Sha1(transform, old(message)))
    {
      hide Tail, Gap, BigEndian;
      ghost var m := message;
      var finalcount := BigEndian(count1, 4) + BigEndian(count0, 4);
      SplitBigEndian(count1, count0);
      Update([0x80]);
      PadZeros(|m|);
      Update(finalcount);
      assert message == Padded(m, finalcount);
      digest := WordsBigEndian(state);
    }
  }

  lemma IndexInRange(i: nat, j: nat, len: nat)
    requires i <= len && j < 64 && (i + j) % 64 == 0 && j + len < WORD
    ensures (i + 63) % WORD == i + 63
  {
    assert i + j == 64 * ((i + j) / 64);
    SmallMod(i + 63, WORD);
  }

  /** Exactly for such pieces the 32-bit sum in the test for a whole block is right. */
  lemma BlockTestIff(j: nat, len: nat)
    requires j < 64 && len < WORD
    ensures ((j + len) % WORD > 63 <==> j + len > 63) <==> j + len < WORD
  {
    if j + len < WORD {
      SmallMod(j + len, WORD);
    } else {
      QuotientUnique(j + len, WORD, 1, j + len - WORD);
    }
  }

  /** The block that a piece completes. */
  lemma FirstBlock(f: Transform, st: Words, pending: Bytes, block: Bytes, data: Bytes, i: nat)
    requires |block| == 64 && i <= |data| && pending == block + data[i..]
    ensures Fold(f, st, pending) == Fold(f, f(st, block), data[i..]) && Tail(pending) == Tail(data[i..])
  {
    hide Fold, Tail;
    BlockStep(f, st, pending);
    assert pending[..64] == block && pending[64..] == data[i..];
  }

  lemma GapNotReached(n: nat, k: nat)
    requires k <= Gap(n) && (n + 1 + k) % 64 != 56
    ensures k < Gap(n)
  {
  }

  lemma GapReached(n: nat, k: nat)
    requires k <= Gap(n) && (n + 1 + k) % 64 == 56
    ensures k == Gap(n)
  {
  }

  function WordsBigEndian(st: Words): Bytes {
    if st == [] then [] else BigEndian(st[0], 4) + WordsBigEndian(st[1..])
  }

  function WordsLittleEndian(st: Words): Bytes {
    if st == [] then [] else LittleEndian(st[0], 4) + WordsLittleEndian(st[1..])
  }

  /** Each word takes four bytes of the digest, high byte first in SHA-1 and low byte first in MD5. */
  lemma {:induction false} WordAt(st: Words, i: nat)
    requires i < |st|
    ensures |WordsBigEndian(st)| == 4 * |st| == |WordsLittleEndian(st)|
    ensures WordsBigEndian(st)[4 * i..4 * i + 4] == BigEndian(st[i], 4)
    ensures WordsLittleEndian(st)[4 * i..4 * i + 4] == LittleEndian(st[i], 4)
  {
    hide BigEndian, LittleEndian;
    if |st| > 1 {
      WordAt(st[1..], if i > 0 then i - 1 else 0);
    }
    var (be, le) := (WordsBigEndian(st), WordsLittleEndian(st));
    assert be == BigEndian(st[0], 4) + WordsBigEndian(st[1..]);
    assert le == LittleEndian(st[0], 4) + WordsLittleEndian(st[1..]);
    if i > 0 {
      assert be[4 * i..4 * i + 4] == WordsBigEndian(st[1..])[4 * (i - 1)..4 * (i - 1) + 4];
      assert le[4 * i..4 * i + 4] == WordsLittleEndian(st[1..])[4 * (i - 1)..4 * (i - 1) + 4];
    }
  }

  /** No piece is so long that it wraps the 32-bit sum of what is pending and what comes. */
  ghost predicate Feedable(pieces: seq<Bytes>) {
    forall i :: 0 <= i < |pieces| ==> |Joined(pieces[..i])| % 64 + |pieces[i]| < WORD
  }

  /** However a message is cut into pieces, the digest is that of the whole. */
  method Sha1OfPieces(transform: Transform, pieces: seq<Bytes>) returns (digest: Bytes)
    requires Feedable(pieces)
    ensures digest == WordsBigEndian(Sha1(transform, Joined(pieces)))
  {
    var context := new Sha1Context(transform);
    for i := 0 to |pieces|
      invariant context.Valid() && context.transform == transform && fresh(context) && fresh(context.buffer)
      invariant context.message == Joined(pieces[..i])
    {
      assert pieces[..i + 1][..i] == pieces[..i];
      context.Update(pieces[i]);
    }
    assert pieces[..|pieces|] == pieces;
    digest := context.Final();
  }

  ghost function Joined(pieces: seq<Bytes>): Bytes {
    if pieces == [] then [] else Joined(pieces[..|pieces| - 1]) + pieces[|pieces| - 1]
  }

  // ----- MD5 -----

  class Md5Context {
    const transform: Transform
    var buf: Words
    var bits0: nat
    var bits1: nat
    const input: array<byte>
    ghost var message: Bytes

    ghost predicate Valid()
      reads this, input
    {
      && input.Length == 64 && bits0 < WORD && bits1 < WORD
      && bits1 * WORD + bits0 == Bits(|message|)
      && buf == Fold(transform, MD5_INIT, message)
      && input[..|message| % 64] == Tail(message)
    }

    constructor (transform: Transform)
      ensures Valid() && fresh(input) && message == [] && this.transform == transform
    {
      this.transform := transform;
      buf := MD5_INIT;
      bits0, bits1 := 0, 0;
      input := new byte[64];
      message := [];
    }

    method CopyIn(at: nat, data: Bytes)
      requires at + |data| <= input.Length
      modifies input
      ensures input[..at + |data|] == old(input[..at]) + data
    {
      forall k | 0 <= k < |data| {
        input[at + k] := data[k];
      }
    }

    method AddToCount(len: nat)
      requires len < WORD && bits0 < WORD && bits1 < WORD && bits1 * WORD + bits0 == Bits(|message|)
      modifies `bits0, `bits1
      ensures bits0 < WORD && bits1 < WORD && bits1 * WORD + bits0 == Bits(|message| + len)
    {
      var t := bits0;
      bits0 := (t + len * 8 % WORD) % WORD;
      var carry := if bits0 < t then 1 else 0;
      CountBits(|message|, t, bits1, len, bits0, (bits1 + carry + len / 0x2000_0000) % WORD);
      bits1 := (bits1 + carry + len / 0x2000_0000) % WORD;
    }

    /** Whole blocks go through the input buffer one at a time; the rest stays in it. */
    method Blocks(data: Bytes)
      requires input.Length == 64
      modifies `buf, input
      ensures buf == Fold(transform, old(buf), data) && input[..|data| % 64] == Tail(data)
    {
      hide Fold, Tail;
      var i := 0;
      assert data[i..] == data;
      while |data| - i >= 64
        invariant 0 <= i <= |data| && i % 64 == 0
        invariant Fold(transform, old(buf), data) == Fold(transform, buf, data[i..])
        invariant Tail(data) == Tail(data[i..])
      {
        BlockStep(transform, buf, data[i..]);
        assert data[i..][..64] == data[i..i + 64] && data[i..][64..] == data[i + 64..];
        assert input[..0] == [];
        CopyIn(0, data[i..i + 64]);
        assert input[..] == input[..64];
        buf := transform(buf, input[..]);
        i := i + 64;
      }
      Short(transform, buf, data[i..]);
      assert input[..0] == [];
      CopyIn(0, data[i..]);
    }

    method Update(data: Bytes)
      requires Valid() && |data| < WORD
      modifies this, input
      ensures Valid() && message == old(message) + data
    {
      hide Fold, Tail, Bits;
      ghost var m := message;
      var len := |data|;
      PositionInBlock(|m|, bits0, bits1);
      var t := bits0 / 8 % 64;
      AddToCount(len);
      FoldAppend(transform, MD5_INIT, m, data);
      TailAppend(m, data);
      ghost var pending := Tail(m) + data;
      message := m + data;
      if t != 0 {
        var room := 64 - t;
        if len < room {
          CopyIn(t, data);
          Short(transform, buf, pending);
          return;
        }
        CopyIn(t, data[..room]);
        BlockStep(transform, buf, pending);
        assert pending[..64] == input[..] && pending[64..] == data[room..];
        buf := transform(buf, input[..]);
        Blocks(data[room..]);
        assert |data[room..]| % 64 == |message| % 64;
      } else {
        assert pending == data;
        Blocks(data);
      }
    }

    /** The padding up to the length, with an extra block when the length does not fit. */
    method PadInput(count: nat, ghost length: Bytes)
      requires input.Length == 64 && count < 64 && |length| == 8
      modifies `buf, input
      ensures Fold(transform, buf, input[..56] + length)
           == Fold(transform, old(buf), old(input[..count]) + ([0x80] + Zeros((119 - count) % 64) + length))
    {
      hide Fold;
      ghost var start := input[..count];
      ghost var pending := start + ([0x80] + Zeros((119 - count) % 64) + length);
      CopyIn(count, [0x80]);
      var room := 64 - 1 - count;
      if room < 8 {
        CopyIn(count + 1, Zeros(room));
        assert pending[..64] == input[..] && pending[64..] == Zeros(56) + length;
        BlockStep(transform, buf, pending);
        buf := transform(buf, input[..]);
        assert input[..0] == [];
        CopyIn(0, Zeros(56));
        assert input[..56] + length == pending[64..];
      } else {
        CopyIn(count + 1, Zeros(room - 8));
        assert input[..56] + length == pending;
      }
    }

    /** The length goes into the last eight bytes of the buffer. */
    method Final() returns (digest: Bytes)
      requires Valid()
      modifies this, input
      ensures digest == WordsLittleEndian(Md5(transform, old(message)))
    {
      hide Fold, Tail, LittleEndian;
      ghost var m := message;
      PositionInBlock(|m|, bits0, bits1);
      var length := LittleEndian(bits0, 4) + LittleEndian(bits1, 4);
      SplitLittleEndian(bits0, bits1);
      ghost var rest := [0x80] + Zeros(Gap(|m|)) + length;
      assert Padded(m, length) == m + rest;
      FoldAppend(transform, MD5_INIT, m, rest);
      PadInput(bits0 / 8 % 64, length);
      CopyIn(56, length);
      assert input[..] == input[..64];
      BlockStep(transform, buf, input[..]);
      buf := transform(buf, input[..]);
      assert input[..][64..] == [];
      Short(transform, buf, []);
      digest := WordsLittleEndian(buf);
    }
  }

  lemma SplitLittleEndian(low: nat, high: nat)
    requires low < WORD
    ensures LittleEndian(low, 4) + LittleEndian(high, 4) == LittleEndian(high * WORD + low, 8)
  {
    LittleEndianConcat(low, 4, high, 4);
    assert Radix(4) == WORD by { Radixes(); }
  }

  lemma {:induction false} LittleEndianConcat(low: nat, a: nat, high: nat, b: nat)
    requires low < Radix(a)
    ensures LittleEndian(low, a) + LittleEndian(high, b) == LittleEndian(high * Radix(a) + low, a + b)
  {
    if a == 0 {
      assert Radix(0) == 1 && LittleEndian(low, 0) == [];
    } else {
      hide Radix;
      LowerByte(high, low, a, high * Radix(a) + low);
      LittleEndianConcat(low / 256, a - 1, high, b);
      assert LittleEndian(low, a) + LittleEndian(high, b)
          == [low % 256] + (LittleEndian(low / 256, a - 1) + LittleEndian(high, b));
    }
  }

  function HexDigit(d: nat): char
    requires d < 16
  {
    "0123456789abcdef"[d]
  }

  function Hex(b: Bytes): string {
    if b == [] then [] else [HexDigit(b[0] / 16), HexDigit(b[0] % 16)] + Hex(b[1..])
  }

  /** What a lower-case hexadecimal digit stands for. */
  function HexValue(c: char): int {
    if '0' <= c <= '9' then c as int - 48 else if 'a' <= c <= 'f' then c as int - 87 else -1
  }

  /** Two digits a byte, the high one first. */
  lemma {:induction false} HexAt(b: Bytes, i: nat)
    requires i < |b|
    ensures |Hex(b)| == 2 * |b|
    ensures 0 <= HexValue(Hex(b)[2 * i]) && 0 <= HexValue(Hex(b)[2 * i + 1])
    ensures HexValue(Hex(b)[2 * i]) * 16 + HexValue(Hex(b)[2 * i + 1]) == b[i]
  {
    HexDigitIs(b[0] / 16);
    HexDigitIs(b[0] % 16);
    hide HexDigit, HexValue;
    if |b| > 1 {
      HexAt(b[1..], if i > 0 then i - 1 else 0);
    }
    assert i > 0 ==> Hex(b)[2 * i] == Hex(b[1..])[2 * (i - 1)] && Hex(b)[2 * i + 1] == Hex(b[1..])[2 * (i - 1) + 1];
  }

  lemma HexDigitIs(d: nat)
    requires d < 16
    ensures HexValue(HexDigit(d)) == d
  {
    var c := HexDigit(d);
    assert c == if d < 10 then (48 + d) as char else (87 + d) as char;
  }

  /** The MD5 of several strings, in hexadecimal, is that of their concatenation. */
  method MgMd5(transform: Transform, strings: seq<Bytes>) returns (hex: string)
    requires forall p <- strings :: |p| < WORD
    ensures hex == Hex(WordsLittleEndian(Md5(transform, Joined(strings))))
  {
    var ctx := new Md5Context(transform);
    for i := 0 to |strings|
      invariant ctx.Valid() && ctx.transform == transform && fresh(ctx) && fresh(ctx.input)
      invariant ctx.message == Joined(strings[..i])
    {
      assert strings[..i + 1][..i] == strings[..i];
      ctx.Update(strings[i]);
    }
    assert strings[..|strings|] == strings;
    var hash := ctx.Final();
    hex := Hex(hash);
  }
}
