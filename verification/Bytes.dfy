/** Bytes and fixed-width big-endian integers. */
module Bytes {
  type byte = x: int | 0 <= x < 256
  type Bytes = seq<byte>

  const WORD: int := 0x1_0000_0000

  /** 256^n: the number of values an n-byte integer takes. */
  function Radix(n: nat): (r: nat)
    ensures r > 0
  {
    if n == 0 then 1 else 256 * Radix(n - 1)
  }

  /** The n low-order bytes of v, most significant first. */
  function BigEndian(v: nat, n: nat): (b: Bytes)
    ensures |b| == n
  {
    if n == 0 then [] else BigEndian(v / 256, n - 1) + [v % 256]
  }

  /** The k-th byte is the k-th most significant digit of the n to base 256. */
  lemma {:induction false} BigEndianAt(v: nat, n: nat, k: nat)
    requires k < n
    ensures BigEndian(v, n)[k] == v / Radix(n - 1 - k) % 256
  {
    if k < n - 1 {
      BigEndianAt(v / 256, n - 1, k);
      DivTwice(v, Radix(n - 2 - k));
    }
  }

  lemma DivTwice(v: nat, r: nat)
    requires r > 0
    ensures v / 256 / r == v / (256 * r)
  {
    var q, rest := v / 256 / r, v / 256 % r;
    assert v / 256 == q * r + rest;
    assert v == 256 * (q * r + rest) + v % 256;
    assert v == q * (256 * r) + (rest * 256 + v % 256);
    QuotientUnique(v, 256 * r, q, rest * 256 + v % 256);
  }

  /** The value of a big-endian byte string. */
  function Unsigned(b: Bytes): nat {
    if b == [] then 0 else Unsigned(b[..|b| - 1]) * 256 + b[|b| - 1]
  }

  lemma {:induction false} UnsignedBigEndian(v: nat, n: nat)
    ensures Unsigned(BigEndian(v, n)) == v % Radix(n)
  {
    if n > 0 {
      var b := BigEndian(v, n);
      assert b[..|b| - 1] == BigEndian(v / 256, n - 1);
      UnsignedBigEndian(v / 256, n - 1);
      ModStep(v, Radix(n - 1));
    }
  }

  lemma ModStep(v: nat, r: nat)
    requires r > 0
    ensures v % (256 * r) == (v / 256 % r) * 256 + v % 256
  {
    var q, rest := v / 256 / r, v / 256 % r;
    assert v / 256 == q * r + rest;
    assert v == 256 * (q * r + rest) + v % 256;
    assert v == q * (256 * r) + (rest * 256 + v % 256);
    assert rest * 256 + v % 256 < 256 * r;
    QuotientUnique(v, 256 * r, q, rest * 256 + v % 256);
  }

  lemma QuotientUnique(v: nat, d: nat, q: nat, m: nat)
    requires d > 0 && m < d && v == q * d + m
    ensures v / d == q && v % d == m
  {
    var k := v / d - q;
    assert k * d == m - v % d;
    assert k > 0 ==> k * d >= d;
    assert k < 0 ==> k * d <= -(d as int);
  }

  lemma {:induction false} UnsignedBound(b: Bytes)
    ensures Unsigned(b) < Radix(|b|)
  {
    if b != [] {
      UnsignedBound(b[..|b| - 1]);
    }
  }

  lemma {:induction false} BigEndianUnsigned(b: Bytes)
    ensures BigEndian(Unsigned(b), |b|) == b
  {
    if b != [] {
      BigEndianUnsigned(b[..|b| - 1]);
      assert b == b[..|b| - 1] + [b[|b| - 1]];
    }
  }

  // Two's complement: what the host's int (n == 4) and long (n == 8) hold.

  ghost predicate Fits(v: int, n: nat) {
    -(Radix(n) as int) <= 2 * v < Radix(n)
  }

  function ToTwos(v: int, n: nat): nat { v % Radix(n) }

  function FromTwos(u: nat, n: nat): int {
    if 2 * u < Radix(n) then u else u - Radix(n)
  }

  function EncodeInt(v: int, n: nat): (b: Bytes)
    ensures |b| == n
  {
    BigEndian(ToTwos(v, n), n)
  }

  function DecodeInt(b: Bytes): int { FromTwos(Unsigned(b), |b|) }

  /** Writing a fixed-width signed integer and reading it back gives it back. */
  lemma IntRoundTrip(v: int, n: nat)
    requires Fits(v, n)
    ensures DecodeInt(EncodeInt(v, n)) == v
  {
    UnsignedBigEndian(ToTwos(v, n), n);
    var r := Radix(n);
    if v >= 0 {
      SmallMod(v, r);
      SmallMod(ToTwos(v, n), r);
    } else {
      assert ToTwos(v, n) == v + r by { NegativeMod(v, r); }
      SmallMod(ToTwos(v, n), r);
    }
  }

  lemma SmallMod(v: int, r: nat)
    requires 0 <= v < r
    ensures v % r == v
  {
    QuotientUnique(v, r, 0, v);
  }

  lemma NegativeMod(v: int, r: nat)
    requires r > 0 && -(r as int) <= v < 0
    ensures v % r == v + r
  {
    var q := v / r;
    assert v % r == v - q * r;
    assert q >= 0 ==> q * r >= 0;
    assert q <= -2 ==> q * r <= -2 * r;
  }

  lemma Radixes()
    ensures Radix(4) == 0x1_0000_0000 && Radix(8) == 0x1_0000_0000_0000_0000
  {
    assert Radix(1) == 256 && Radix(2) == 65536 && Radix(3) == 16777216;
    assert Radix(4) == 256 * Radix(3);
    assert Radix(5) == 256 * Radix(4);
    assert Radix(6) == 256 * Radix(5);
    assert Radix(7) == 256 * Radix(6);
  }

  lemma SplitBigEndian(high: nat, low: nat)
    requires low < WORD
    ensures BigEndian(high, 4) + BigEndian(low, 4) == BigEndian(high * WORD + low, 8)
  {
    BigEndianConcat(high, 4, low, 4);
    assert Radix(4) == WORD by { Radixes(); }
  }

  /** Adding whole multiples of 256 leaves the low byte. */
  lemma LowByte(k: nat, low: nat, v: nat)
    requires v == 256 * k + low
    ensures v % 256 == low % 256 && v / 256 == k + low / 256
  {
  }

  /** The lowest byte of a number that is put together from two, and what is above it. */
  lemma LowerByte(high: nat, low: nat, n: nat, v: nat)
    requires n > 0 && low < Radix(n) && v == high * Radix(n) + low
    ensures v % 256 == low % 256 && v / 256 == high * Radix(n - 1) + low / 256
    ensures low / 256 < Radix(n - 1)
  {
    var r := Radix(n - 1);
    assert high * Radix(n) == high * (256 * r) == 256 * (high * r);
    LowByte(high * r, low, v);
  }

  lemma {:induction false} BigEndianConcat(high: nat, a: nat, low: nat, b: nat)
    requires low < Radix(b)
    ensures BigEndian(high, a) + BigEndian(low, b) == BigEndian(high * Radix(b) + low, a + b)
  {
    if b == 0 {
      assert Radix(0) == 1 && BigEndian(low, 0) == [];
    } else {
      hide Radix;
      LowerByte(high, low, b, high * Radix(b) + low);
      BigEndianConcat(high, a, low / 256, b - 1);
      assert BigEndian(high, a) + BigEndian(low, b) == (BigEndian(high, a) + BigEndian(low / 256, b - 1)) + [low % 256];
    }
  }
}
