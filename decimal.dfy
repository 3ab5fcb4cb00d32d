/** Decimal text of integers: `str(n)` and `int(text)`, and the length
    announcement of the unicast handshake, which is `str(len(frame)).encode()`
    on the sending side and `int(data.decode())` on the receiving side. */
module Decimal {
  import opened Wrappers
  import opened Bytes
  import Utf8

  predicate IsDigit(c: char) {
    '0' <= c <= '9'
  }

  predicate AllDigits(s: string) {
    forall i :: 0 <= i < |s| ==> IsDigit(s[i])
  }

  function DigitChar(d: nat): (c: char)
    requires d < 10
    ensures IsDigit(c)
  {
    ('0' as int + d) as char
  }

  function DigitValue(c: char): (d: nat)
    requires IsDigit(c)
    ensures d < 10 && DigitChar(d) == c
  {
    c as int - '0' as int
  }

  /** `str(n)` for a natural number: no sign, no leading zero. */
  function NatText(n: nat): (s: string)
    ensures |s| >= 1 && AllDigits(s)
    ensures s[0] == '0' ==> n == 0
    decreases n
  {
    if n < 10 then [DigitChar(n)] else NatText(n / 10) + [DigitChar(n % 10)]
  }

  /** `str(n)` for any integer: a minus sign in front of a negative one. */
  function IntText(n: int): (s: string)
    ensures |s| >= 1
    ensures s[0] == '-' <==> n < 0
  {
    if n < 0 then "-" + NatText(-n) else NatText(n)
  }

  /** The value of a non-empty run of decimal digits, most significant first. */
  function DigitsValue(s: string): nat
    requires |s| >= 1 && AllDigits(s)
    decreases |s|
  {
    if |s| == 1 then DigitValue(s[0])
    else 10 * DigitsValue(s[..|s| - 1]) + DigitValue(s[|s| - 1])
  }

  /** What `int()` accepts here: an optional sign followed by one or more digits. */
  predicate IsIntLiteral(s: string) {
    if |s| > 0 && (s[0] == '-' || s[0] == '+') then |s| > 1 && AllDigits(s[1..])
    else |s| > 0 && AllDigits(s)
  }

  /** `int(s)`; None where Python raises ValueError. */
  function ParseInt(s: string): (r: Option<int>)
    ensures r.Some? <==> IsIntLiteral(s)
  {
    if |s| > 1 && s[0] == '-' && AllDigits(s[1..]) then Some(0 - DigitsValue(s[1..]) as int)
    else if |s| > 1 && s[0] == '+' && AllDigits(s[1..]) then Some(DigitsValue(s[1..]))
    else if |s| > 0 && AllDigits(s) then Some(DigitsValue(s))
    else None
  }

  lemma {:induction false} DigitsValueNatText(n: nat)
    ensures DigitsValue(NatText(n)) == n
    decreases n
  {
    if n >= 10 {
      var s := NatText(n);
      DigitsValueNatText(n / 10);
      assert s[..|s| - 1] == NatText(n / 10);
    }
  }

  lemma {:induction false} NatTextDigitsValue(s: string)
    requires |s| >= 1 && AllDigits(s) && (s[0] == '0' ==> |s| == 1)
    ensures NatText(DigitsValue(s)) == s
    decreases |s|
  {
    if |s| > 1 {
      var init := s[..|s| - 1];
      NatTextDigitsValue(init);
      DigitsValuePositive(init);
      assert s == init + [s[|s| - 1]];
    }
  }

  /** A digit run that does not start with '0' has a positive value. */
  lemma {:induction false} DigitsValuePositive(s: string)
    requires |s| >= 1 && AllDigits(s) && s[0] != '0'
    ensures DigitsValue(s) > 0
    decreases |s|
  {
    if |s| > 1 {
      DigitsValuePositive(s[..|s| - 1]);
    }
  }

  /** `int(str(n)) == n` for every integer. */
  lemma ParseIntText(n: int)
    ensures ParseInt(IntText(n)) == Some(n)
  {
    var s := IntText(n);
    if n < 0 {
      assert s[1..] == NatText(-n);
      DigitsValueNatText(-n);
    } else {
      DigitsValueNatText(n);
    }
  }

  /** Canonical decimal text is exactly what `str` produces from the value `int` reads. */
  lemma TextParseInt(s: string)
    requires IsIntLiteral(s)
    requires s[0] != '+'
    requires s[0] == '-' ==> s[1] != '0'
    requires s[0] == '0' ==> |s| == 1
    ensures IntText(ParseInt(s).value) == s
  {
    if s[0] == '-' {
      var t := s[1..];
      DigitsValuePositive(t);
      NatTextDigitsValue(t);
      assert s == "-" + t;
    } else {
      NatTextDigitsValue(s);
    }
  }

  /** The length announcement that precedes a frame: `str(n).encode()`. */
  function Announcement(n: nat): (a: seq<byte>)
    ensures |a| >= 1
    ensures forall i :: 0 <= i < |a| ==> '0' as int <= a[i] as int <= '9' as int
  {
    Utf8.EncodeAscii(NatText(n));
    Utf8.Encode(NatText(n))
  }

  /** The receiver's reading of the announcement: `int(data.decode())`. */
  function ParseAnnouncement(data: seq<byte>): Option<int> {
    match Utf8.Decode(data)
    case None => None
    case Some(text) => ParseInt(text)
  }

  lemma {:induction false} AnnouncementRoundTrip(n: nat)
    ensures ParseAnnouncement(Announcement(n)) == Some(n)
  {
    Utf8.DecodeEncode(NatText(n));
    ParseIntText(n);
  }

  function Pow10(k: nat): nat {
    if k == 0 then 1 else 10 * Pow10(k - 1)
  }

  /** A number below 10^k has at most k digits, and its announcement one byte per digit. */
  lemma {:induction false} AnnouncementLength(n: nat, k: nat)
    requires 1 <= k && n < Pow10(k)
    ensures |Announcement(n)| == |NatText(n)| <= k
    decreases n
  {
    Utf8.EncodeAscii(NatText(n));
    if n >= 10 {
      AnnouncementLength(n / 10, k - 1);
    }
  }
}
