/** The UTF-8 codec behind `str.encode("utf-8")` and `bytes.decode("utf-8")`:
    strings are sequences of Unicode scalar values, and decoding accepts exactly
    the well-formed byte sequences of the Unicode Standard, section 3.9, Table 3-7
    (no overlong forms, no surrogates, nothing above U+10FFFF). */
module Utf8 {
  import opened Wrappers
  import opened Bytes

  predicate IsContinuation(b: byte) {
    0x80 <= b < 0xC0
  }

  /** The bytes of one scalar value: 1 to 4 of them, shortest form. */
  function EncodeChar(c: char): (bs: seq<byte>)
    ensures 1 <= |bs| <= 4
    ensures (bs[0] < 0x80) <==> |bs| == 1
  {
    var n := c as int;
    if n < 0x80 then [n]
    else if n < 0x800 then [0xC0 + n / 0x40, 0x80 + n % 0x40]
    else if n < 0x1_0000 then [0xE0 + n / 0x1000, 0x80 + (n / 0x40) % 0x40, 0x80 + n % 0x40]
    else [0xF0 + n / 0x4_0000, 0x80 + (n / 0x1000) % 0x40, 0x80 + (n / 0x40) % 0x40, 0x80 + n % 0x40]
  }

  /** `s.encode("utf-8")` */
  function Encode(s: string): (bs: seq<byte>)
    ensures |bs| >= |s|
  {
    if s == [] then [] else EncodeChar(s[0]) + Encode(s[1..])
  }

  function ScalarOf(n: int): (c: char)
    requires 0 <= n < 0xD800 || 0xE000 <= n < 0x11_0000
    ensures c as int == n
  {
    n as char
  }

  /** Decodes the first scalar value of `bs`, giving it and the number of bytes
      it used, or None when `bs` does not start with a well-formed sequence. */
  function DecodeFirst(bs: seq<byte>): (r: Option<(char, nat)>)
    requires |bs| > 0
    ensures r.Some? ==> 1 <= r.value.1 <= |bs| && r.value.1 <= 4
  {
    var b0 := bs[0] as int;
    if b0 < 0x80 then Some((ScalarOf(b0), 1))
    else if 0xC2 <= b0 < 0xE0 then
      if |bs| >= 2 && IsContinuation(bs[1]) then
        Some((ScalarOf((b0 - 0xC0) * 0x40 + (bs[1] as int - 0x80)), 2))
      else None
    else if 0xE0 <= b0 < 0xF0 then
      var lo := if b0 == 0xE0 then 0xA0 else 0x80;
      var hi := if b0 == 0xED then 0xA0 else 0xC0;
      if |bs| >= 3 && lo <= bs[1] < hi && IsContinuation(bs[2]) then
        Some((ScalarOf((b0 - 0xE0) * 0x1000 + (bs[1] as int - 0x80) * 0x40 + (bs[2] as int - 0x80)), 3))
      else None
    else if 0xF0 <= b0 < 0xF5 then
      var lo := if b0 == 0xF0 then 0x90 else 0x80;
      var hi := if b0 == 0xF4 then 0x90 else 0xC0;
      if |bs| >= 4 && lo <= bs[1] < hi && IsContinuation(bs[2]) && IsContinuation(bs[3]) then
        Some((ScalarOf((b0 - 0xF0) * 0x4_0000 + (bs[1] as int - 0x80) * 0x1000
                       + (bs[2] as int - 0x80) * 0x40 + (bs[3] as int - 0x80)), 4))
      else None
    else None
  }

  /** `bs.decode("utf-8")`; None where Python raises UnicodeDecodeError. */
  function Decode(bs: seq<byte>): (r: Option<string>)
    ensures r.Some? ==> |r.value| <= |bs|
    decreases |bs|
  {
    if bs == [] then Some([])
    else match DecodeFirst(bs)
      case None => None
      case Some((c, k)) =>
        match Decode(bs[k..])
        case None => None
        case Some(rest) => Some([c] + rest)
  }

  /** Splitting a number into a high part and six low bits. */
  lemma Low6(lo: int, hi: int)
    requires 0 <= lo < 0x40 && 0 <= hi
    ensures (lo + 0x40 * hi) % 0x40 == lo && (lo + 0x40 * hi) / 0x40 == hi
  {
  }

  /** Decoding the encoding of a scalar value gives it back, whatever follows. */
  lemma DecodeFirstEncodeChar(c: char, rest: seq<byte>)
    ensures DecodeFirst(EncodeChar(c) + rest) == Some((c, |EncodeChar(c)|))
  {
    var n := c as int;
    if n < 0x80 {
    } else if n < 0x800 {
      DecodeFirstEncode2(c, rest);
    } else if n < 0x1_0000 {
      DecodeFirstEncode3(c, rest);
    } else {
      DecodeFirstEncode4(c, rest);
    }
  }

  lemma DecodeFirstEncode2(c: char, rest: seq<byte>)
    requires 0x80 <= c as int < 0x800
    ensures DecodeFirst(EncodeChar(c) + rest) == Some((c, 2))
  {
    var n := c as int;
    var bs := EncodeChar(c) + rest;
    Low6(n % 0x40, n / 0x40);
    assert (bs[0] as int - 0xC0) * 0x40 + (bs[1] as int - 0x80) == n;
  }

  lemma DecodeFirstEncode3(c: char, rest: seq<byte>)
    requires 0x800 <= c as int < 0x1_0000
    ensures DecodeFirst(EncodeChar(c) + rest) == Some((c, 3))
  {
    var n := c as int;
    var bs := EncodeChar(c) + rest;
    var q := n / 0x40;
    Low6(n % 0x40, q);
    Low6(q % 0x40, q / 0x40);
    assert q / 0x40 == n / 0x1000;
    assert (bs[0] as int - 0xE0) * 0x1000 + (bs[1] as int - 0x80) * 0x40 + (bs[2] as int - 0x80) == n;
  }

  lemma DecodeFirstEncode4(c: char, rest: seq<byte>)
    requires 0x1_0000 <= c as int
    ensures DecodeFirst(EncodeChar(c) + rest) == Some((c, 4))
  {
    var n := c as int;
    var bs := EncodeChar(c) + rest;
    var q := n / 0x40;
    var q2 := q / 0x40;
    Low6(n % 0x40, q);
    Low6(q % 0x40, q2);
    Low6(q2 % 0x40, q2 / 0x40);
    assert q2 == n / 0x1000;
    assert q2 / 0x40 == n / 0x4_0000;
    assert (bs[0] as int - 0xF0) * 0x4_0000 + (bs[1] as int - 0x80) * 0x1000
           + (bs[2] as int - 0x80) * 0x40 + (bs[3] as int - 0x80) == n;
  }

  lemma {:induction false} DecodeEncode(s: string)
    ensures Decode(Encode(s)) == Some(s)
  {
    if s != [] {
      var e := EncodeChar(s[0]);
      DecodeFirstEncodeChar(s[0], Encode(s[1..]));
      assert (e + Encode(s[1..]))[|e|..] == Encode(s[1..]);
      DecodeEncode(s[1..]);
      assert [s[0]] + s[1..] == s;
    }
  }

  /** A well-formed leading sequence is the encoding of the value it decodes to. */
  lemma EncodeCharDecodeFirst(bs: seq<byte>)
    requires |bs| > 0 && DecodeFirst(bs).Some?
    ensures EncodeChar(DecodeFirst(bs).value.0) == bs[..DecodeFirst(bs).value.1]
  {
    var b0 := bs[0] as int;
    if b0 < 0x80 {
    } else if b0 < 0xE0 {
      EncodeCharDecode2(bs);
    } else if b0 < 0xF0 {
      EncodeCharDecode3(bs);
    } else {
      EncodeCharDecode4(bs);
    }
  }

  lemma EncodeCharDecode2(bs: seq<byte>)
    requires |bs| > 0 && DecodeFirst(bs).Some? && 0x80 <= bs[0] < 0xE0
    ensures EncodeChar(DecodeFirst(bs).value.0) == bs[..2]
  {
    Low6(bs[1] as int - 0x80, bs[0] as int - 0xC0);
  }

  lemma EncodeCharDecode3(bs: seq<byte>)
    requires |bs| > 0 && DecodeFirst(bs).Some? && 0xE0 <= bs[0] < 0xF0
    ensures EncodeChar(DecodeFirst(bs).value.0) == bs[..3]
  {
    var b0 := bs[0] as int;
    var n := DecodeFirst(bs).value.0 as int;
    var q := (b0 - 0xE0) * 0x40 + (bs[1] as int - 0x80);
    Low6(bs[2] as int - 0x80, q);
    Low6(bs[1] as int - 0x80, b0 - 0xE0);
    assert n / 0x1000 == b0 - 0xE0;
  }

  lemma EncodeCharDecode4(bs: seq<byte>)
    requires |bs| > 0 && DecodeFirst(bs).Some? && 0xF0 <= bs[0]
    ensures EncodeChar(DecodeFirst(bs).value.0) == bs[..4]
  {
    var b0 := bs[0] as int;
    var n := DecodeFirst(bs).value.0 as int;
    var q2 := (b0 - 0xF0) * 0x40 + (bs[1] as int - 0x80);
    var q := q2 * 0x40 + (bs[2] as int - 0x80);
    Low6(bs[3] as int - 0x80, q);
    Low6(bs[2] as int - 0x80, q2);
    Low6(bs[1] as int - 0x80, b0 - 0xF0);
    assert n / 0x1000 == q2;
    assert n / 0x4_0000 == b0 - 0xF0;
  }

  /** Decoding succeeds only on encodings: whatever decodes re-encodes to the same bytes. */
  lemma {:induction false} EncodeDecode(bs: seq<byte>)
    requires Decode(bs).Some?
    ensures Encode(Decode(bs).value) == bs
    decreases |bs|
  {
    if bs != [] {
      var c, k := DecodeCons(bs);
      EncodeDecode(bs[k..]);
      EncodeCons(c, Decode(bs[k..]).value);
      assert bs == bs[..k] + bs[k..];
    }
  }

  /** A non-empty input that decodes is the encoding of its first scalar value
      followed by bytes that decode to the rest. */
  lemma DecodeCons(bs: seq<byte>) returns (c: char, k: nat)
    requires bs != [] && Decode(bs).Some?
    ensures k <= |bs| && EncodeChar(c) == bs[..k]
    ensures Decode(bs[k..]).Some? && Decode(bs).value == [c] + Decode(bs[k..]).value
  {
    c, k := DecodeFirst(bs).value.0, DecodeFirst(bs).value.1;
    EncodeCharDecodeFirst(bs);
  }

  lemma EncodeCons(c: char, s: string)
    ensures Encode([c] + s) == EncodeChar(c) + Encode(s)
  {
    assert ([c] + s)[1..] == s;
  }

  /** ASCII text encodes to one byte per character, the character's code. */
  lemma {:induction false} EncodeAscii(s: string)
    requires forall i :: 0 <= i < |s| ==> s[i] as int < 0x80
    ensures |Encode(s)| == |s|
    ensures forall i :: 0 <= i < |s| ==> Encode(s)[i] == s[i] as int
    decreases |s|
  {
    if s != [] {
      EncodeAscii(s[1..]);
    }
  }
}
