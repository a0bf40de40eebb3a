/** Percent-encoding of section 2.1 of RFC 3986, as the bundled web server writes and reads it. */
module UrlCodec {
  import opened Bytes

  function Code(c: char): byte
    requires c < 128 as char
  {
    c as int
  }

  predicate IsDigit(c: byte) { Code('0') <= c <= Code('9') }

  predicate IsHex(c: byte) { IsDigit(c) || Code('a') <= c <= Code('f') || Code('A') <= c <= Code('F') }

  predicate IsAlnum(c: byte) { IsDigit(c) || Code('a') <= c <= Code('z') || Code('A') <= c <= Code('Z') }

  /** Looking for the character 0 finds the terminator, so that byte counts as one of the set. */
  predicate Plain(c: byte) {
    IsAlnum(c) || c == 0 || c as char in "._-$,;~()"
  }

  function HexCode(d: int): (c: byte)
    requires 0 <= d < 16
  {
    "0123456789abcdef"[d] as int
  }

  function ToLower(c: byte): byte {
    if Code('A') <= c <= Code('Z') then c + 32 else c
  }

  function HexToInt(c: byte): (d: int)
    requires IsHex(c)
    ensures 0 <= d < 16
  {
    var x := ToLower(c);
    if IsDigit(x) then x - Code('0') else x - Code('W')
  }

  // ----- What the two produce when there is room -----

  ghost function Escape(c: byte): (e: Bytes) {
    if Plain(c) then [c] else [Code('%'), HexCode(c / 16), HexCode(c % 16)]
  }

  ghost function Encoded(s: Bytes): (e: Bytes)
    ensures |e| <= 3 * |s|
  {
    if s == [] then [] else Encoded(s[..|s| - 1]) + Escape(s[|s| - 1])
  }

  /** Section 2.3 of RFC 3986, by character code. */
  ghost predicate Unreserved(c: byte) {
    48 <= c <= 57 || 65 <= c <= 90 || 97 <= c <= 122 || c in [45, 46, 95, 126]
  }

  /** What else is left as it is: the terminator, and dollar, parentheses, comma and semicolon. */
  const ALSO_PLAIN: Bytes := [0, 36, 40, 41, 44, 59]

  ghost function DigitCode(d: nat): byte
    requires d < 16
  {
    if d < 10 then 48 + d else 87 + d
  }

  /** A byte is left as it is, or becomes a percent sign and two lower-case digits, the high one first. */
  lemma EscapeIs(c: byte)
    ensures Escape(c) == if Unreserved(c) || c in ALSO_PLAIN then [c] else [37, DigitCode(c / 16), DigitCode(c % 16)]
  {
    HexCodeIs(c / 16);
    HexCodeIs(c % 16);
    hide HexCode;
    PlainIff(c);
  }

  lemma HexCodeIs(d: nat)
    requires d < 16
    ensures HexCode(d) == DigitCode(d)
  {
  }

  lemma PlainIff(c: byte)
    ensures Plain(c) <==> Unreserved(c) || c in ALSO_PLAIN
  {
    assert "._-$,;~()" == ['.', '_', '-', '$', ',', ';', '~', '(', ')'];
  }

  /** So nothing but these, percent signs and digits is ever written. */
  lemma {:induction false} EncodedAlphabet(s: Bytes)
    ensures forall c <- Encoded(s) :: Unreserved(c) || c in ALSO_PLAIN || c == 37
  {
    if s != [] {
      EncodedAlphabet(s[..|s| - 1]);
      EscapeIs(s[|s| - 1]);
    }
  }

  ghost predicate Escaped(s: Bytes) {
    |s| >= 3 && s[0] == Code('%') && IsHex(s[1]) && IsHex(s[2])
  }

  /** How many bytes the first character of s takes. */
  ghost function Width(s: Bytes): (w: nat)
    requires s != []
    ensures w <= |s|
  {
    if Escaped(s) then 3 else 1
  }

  ghost function FirstOf(s: Bytes, form: bool): byte
    requires s != []
  {
    if Escaped(s) then HexToInt(s[1]) * 16 + HexToInt(s[2])
    else if form && s[0] == Code('+') then Code(' ')
    else s[0]
  }

  ghost function Decoded(s: Bytes, form: bool): Bytes
    decreases |s|
  {
    if s == [] then [] else [FirstOf(s, form)] + Decoded(s[Width(s)..], form)
  }

  // ----- Decoding undoes encoding -----

  lemma HexRoundTrip(d: int)
    requires 0 <= d < 16
    ensures IsHex(HexCode(d)) && HexToInt(HexCode(d)) == d
  {
    var c := HexCode(d);
    assert if d < 10 then c == Code('0') + d else c == Code('a') + d - 10;
  }

  /** No plain character means anything else to the reader, not even to the reader of forms. */
  lemma DecodeEscape(c: byte, more: Bytes, form: bool)
    ensures Decoded(Escape(c) + more, form) == [c] + Decoded(more, form)
  {
    hide HexCode, HexToInt;
    HexRoundTrip(c / 16);
    HexRoundTrip(c % 16);
    var s := Escape(c) + more;
    if Plain(c) {
      assert c != Code('%') && c != Code('+');
      assert s[1..] == more;
    } else {
      assert s[3..] == more;
    }
  }

  /** The value of a hexadecimal digit by character code, in either case. */
  ghost function DigitValue(c: byte): (d: int)
    requires 48 <= c <= 57 || 65 <= c <= 70 || 97 <= c <= 102
    ensures 0 <= d < 16
  {
    if c <= 57 then c - 48 else if c <= 70 then c - 55 else c - 87
  }

  /** What the reader makes of the first bytes, whoever wrote them. */
  lemma DecodeFirst(a: byte, b: byte, more: Bytes, form: bool)
    requires (48 <= a <= 57 || 65 <= a <= 70 || 97 <= a <= 102) && (48 <= b <= 57 || 65 <= b <= 70 || 97 <= b <= 102)
    ensures Decoded([37, a, b] + more, form) == [16 * DigitValue(a) + DigitValue(b)] + Decoded(more, form)
  {
    HexToIntIs(a);
    HexToIntIs(b);
    hide HexToInt, DigitValue, IsHex;
    assert ([37, a, b] + more)[3..] == more;
  }

  lemma HexToIntIs(c: byte)
    requires 48 <= c <= 57 || 65 <= c <= 70 || 97 <= c <= 102
    ensures IsHex(c) && HexToInt(c) == DigitValue(c)
  {
  }

  lemma DecodePlus(more: Bytes, form: bool)
    ensures Decoded([43] + more, form) == [if form then 32 else 43] + Decoded(more, form)
  {
    hide HexToInt, IsHex;
    assert ([43] + more)[1..] == more;
  }

  lemma {:induction false} DecodeEncoded(s: Bytes, more: Bytes, form: bool)
    ensures Decoded(Encoded(s) + more, form) == s + Decoded(more, form)
    decreases |s|
  {
    hide Decoded, Escape;
    if s == [] {
      assert Encoded(s) + more == more && s + Decoded(more, form) == Decoded(more, form);
    } else {
      var init, last := s[..|s| - 1], s[|s| - 1];
      assert Encoded(s) + more == Encoded(init) + (Escape(last) + more);
      DecodeEncoded(init, Escape(last) + more, form);
      DecodeEscape(last, more, form);
      assert s == init + [last];
    }
  }

  /** Every byte string comes back, whether or not the reader takes a plus for a space. */
  lemma UrlRoundTrip(s: Bytes, form: bool)
    ensures Decoded(Encoded(s), form) == s
  {
    DecodeEncoded(s, [], form);
    assert Encoded(s) + [] == Encoded(s);
  }

  // ----- The two loops -----

  /**
   * Writes the encoding of as many of the bytes as leave room for three more and the terminator; all of
   * them when the destination is longer than three times the source.
   */
  method MgUrlEncode(src: Bytes, dst: array<byte>) returns (j: nat, ghost k: nat)
    requires dst.Length > 0
    modifies dst
    ensures k <= |src| && j < dst.Length && dst[..j] == Encoded(src[..k]) && dst[j] == 0
    ensures k < |src| ==> j + 3 >= dst.Length
    ensures dst.Length > 3 * |src| ==> k == |src|
  {
    hide Plain, HexCode, Encoded;
    assert src[..0] == [] && Encoded([]) == [] by { EncodedNothing(); }
    var i := 0;
    j := 0;
    while i < |src| && j + 2 < dst.Length - 1
      invariant i <= |src| && j < dst.Length && j <= 3 * i
      invariant dst[..j] == Encoded(src[..i])
    {
      EncodedMore(src, i);
      ghost var done := dst[..j];
      if Plain(src[i]) {
        dst[j] := src[i];
        assert dst[..j + 1] == done + Escape(src[i]);
      } else if j + 3 < dst.Length {
        dst[j] := Code('%');
        dst[j + 1] := HexCode(src[i] / 16);
        dst[j + 2] := HexCode(src[i] % 16);
        j := j + 2;
        assert dst[..j + 1] == done + Escape(src[i]);
      }
      i, j := i + 1, j + 1;
    }
    ghost var done := dst[..j];
    dst[j] := 0;
    assert dst[..j] == done;
    k := i;
  }

  lemma EncodedNothing()
    ensures Encoded([]) == []
  {
  }

  lemma EncodedMore(src: Bytes, i: nat)
    requires i < |src|
    ensures Encoded(src[..i + 1]) == Encoded(src[..i]) + Escape(src[i])
  {
    hide Escape;
    assert src[..i + 1][..i] == src[..i];
  }

  /** Writes the decoding if it fits together with its terminator; otherwise what fits of it, and answers -1. */
  method MgUrlDecode(src: Bytes, dst: array<byte>, form: bool) returns (n: int)
    requires dst.Length > 0
    modifies dst
    ensures var d := Decoded(src, form);
            if |d| < dst.Length then n == |d| && dst[..n] == d && dst[n] == 0
            else n == -1 && dst[..dst.Length - 1] == d[..dst.Length - 1] && dst[dst.Length - 1] == 0
  {
    hide IsHex, HexToInt, Width, FirstOf, Decoded, Code;
    var i, j := 0, 0;
    assert src[0..] == src && Decoded([], form) == [] by { DecodedNothing(form); }
    assert dst[..0] + Decoded(src[0..], form) == Decoded(src, form);
    while i < |src| && j < dst.Length - 1
      invariant i <= |src| && j < dst.Length
      invariant dst[..j] + Decoded(src[i..], form) == Decoded(src, form)
    {
      ghost var done := dst[..j];
      DecodeStep(src, i, form);
      var step := DecodeOne(src, i, dst, j, form);
      assert dst[..j + 1] == done + [FirstOf(src[i..], form)];
      i, j := i + step, j + 1;
    }
    ghost var done := dst[..j];
    if i < |src| {
      DecodeStep(src, i, form);
    } else {
      assert src[i..] == [];
      assert done + [] == done;
    }
    dst[j] := 0;
    assert dst[..j] == done;
    n := if i >= |src| then j else -1;
  }

  lemma DecodedNothing(form: bool)
    ensures Decoded([], form) == []
  {
  }

  lemma DecodeStep(src: Bytes, i: nat, form: bool)
    requires i < |src|
    ensures var w := Width(src[i..]);
            i + w <= |src| && Decoded(src[i..], form) == [FirstOf(src[i..], form)] + Decoded(src[i + w..], form)
  {
    hide FirstOf, Width;
    var w := Width(src[i..]);
    assert src[i..][w..] == src[i + w..];
  }

  method DecodeOne(src: Bytes, i: nat, dst: array<byte>, j: nat, form: bool) returns (step: nat)
    requires i < |src| && j < dst.Length
    modifies dst
    ensures dst[..] == old(dst[..])[j := FirstOf(src[i..], form)] && step == Width(src[i..])
  {
    step := 1;
    if src[i] == Code('%') && i < |src| - 2 && IsHex(src[i + 1]) && IsHex(src[i + 2]) {
      dst[j] := HexToInt(src[i + 1]) * 16 + HexToInt(src[i + 2]);
      step := 3;
    } else if form && src[i] == Code('+') {
      dst[j] := Code(' ');
    } else {
      dst[j] := src[i];
    }
  }

  /** Encoding into a destination longer than three times the source and decoding again gives the source. */
  method EncodeThenDecode(src: Bytes, wide: array<byte>, back: array<byte>, form: bool) returns (n: int)
    requires wide.Length > 3 * |src| && back.Length > |src| && wide != back
    modifies wide, back
    ensures n == |src| && back[..n] == src
  {
    var j, k := MgUrlEncode(src, wide);
    assert src[..k] == src;
    UrlRoundTrip(src, form);
    n := MgUrlDecode(wide[..j], back, form);
  }
}
