/** Bytes and the little-endian signed 32-bit integers of the `struct` format
    character `i` with byte order `<`. */
module Bytes {

  /** One octet, as Python's `bytes` hold them. */
  type byte = b: int | 0 <= b < 256

  const Int32Min: int := -0x8000_0000
  const Int32Max: int := 0x7FFF_FFFF

  predicate IsInt32(n: int) {
    Int32Min <= n <= Int32Max
  }

  /** `struct.pack("<i", n)`: two's complement, least significant byte first. */
  function EncodeInt32(n: int): (b: seq<byte>)
    requires IsInt32(n)
    ensures |b| == 4
  {
    var u := if n < 0 then n + 0x1_0000_0000 else n;
    [u % 0x100, (u / 0x100) % 0x100, (u / 0x1_0000) % 0x100, u / 0x100_0000]
  }

  /** The four bytes read as an unsigned little-endian number. */
  function Value(b: seq<byte>): int
    requires |b| == 4
  {
    b[0] as int + 0x100 * b[1] as int + 0x1_0000 * b[2] as int + 0x100_0000 * b[3] as int
  }

  /** `struct.unpack("<i", b)[0]` for exactly four bytes. */
  function DecodeInt32(b: seq<byte>): (n: int)
    requires |b| == 4
    ensures IsInt32(n)
  {
    var u := Value(b);
    if u <= Int32Max then u else u - 0x1_0000_0000
  }

  lemma DecodeEncodeInt32(n: int)
    requires IsInt32(n)
    ensures DecodeInt32(EncodeInt32(n)) == n
  {
    var u := if n < 0 then n + 0x1_0000_0000 else n;
    Digits(u);
  }

  /** A number below 2^32 is the sum of its four base-256 digits, the ones EncodeInt32 takes. */
  lemma Digits(u: int)
    requires 0 <= u < 0x1_0000_0000
    ensures u == u % 0x100 + 0x100 * ((u / 0x100) % 0x100) + 0x1_0000 * ((u / 0x1_0000) % 0x100)
                 + 0x100_0000 * (u / 0x100_0000)
  {
    var q1 := u / 0x100;
    var q2 := q1 / 0x100;
    var q3 := q2 / 0x100;
    assert u == u % 0x100 + 0x100 * q1;
    assert q1 == q1 % 0x100 + 0x100 * q2;
    assert q2 == q2 % 0x100 + 0x100 * q3;
    LowWord(u % 0x100 + 0x100 * (q1 % 0x100), q2);
    LowWord(u % 0x100 + 0x100 * (q1 % 0x100), q2 % 0x100 + 0x100 * q3);
    assert u / 0x1_0000 == q2;
    LowTriple(u % 0x100 + 0x100 * (q1 % 0x100) + 0x1_0000 * (q2 % 0x100), q3);
    assert u / 0x100_0000 == q3;
  }

  lemma LowWord(lo: int, hi: int)
    requires 0 <= lo < 0x1_0000 && 0 <= hi
    ensures (lo + 0x1_0000 * hi) / 0x1_0000 == hi
  {
  }

  lemma LowTriple(lo: int, hi: int)
    requires 0 <= lo < 0x100_0000 && 0 <= hi
    ensures (lo + 0x100_0000 * hi) / 0x100_0000 == hi
  {
  }

  /** Splitting off the low byte of a number. */
  lemma LowByte(lo: int, hi: int)
    requires 0 <= lo < 0x100 && 0 <= hi
    ensures (lo + 0x100 * hi) % 0x100 == lo && (lo + 0x100 * hi) / 0x100 == hi
  {
  }

  lemma EncodeDecodeInt32(b: seq<byte>)
    requires |b| == 4
    ensures EncodeInt32(DecodeInt32(b)) == b
  {
    var u := Value(b);
    var hi3 := b[1] as int + 0x100 * b[2] as int + 0x1_0000 * b[3] as int;
    var hi2 := b[2] as int + 0x100 * b[3] as int;
    LowByte(b[0] as int, hi3);
    LowByte(b[1] as int, hi2);
    LowByte(b[2] as int, b[3] as int);
    assert u / 0x1_0000 == hi2;
    assert u / 0x100_0000 == b[3];
  }
}
