/** Bytes and 32-bit unsigned integers as the converter sees them, and the
    big-endian decoding used for every length and dimension field of a PNG
    file. */
module Bytes {

  /** An unsigned char. */
  type byte = x: int | 0 <= x < 0x100

  /** An unsigned int (32 bits on the targets the converter is built for). */
  type uint32 = x: int | 0 <= x < 0x1_0000_0000

  /** The four bytes starting at buf[0], most significant first, read as one
      unsigned 32-bit value. bigEndianToUint32 in main.c combines the
      shifted bytes with `|`; they occupy disjoint bit ranges, so `|` is `+`
      here. */
  function BigEndianToUint32(buf: seq<byte>): (r: uint32)
    requires |buf| >= 4
    ensures r / 0x100_0000 == buf[0]
    ensures r / 0x1_0000 % 0x100 == buf[1]
    ensures r / 0x100 % 0x100 == buf[2]
    ensures r % 0x100 == buf[3]
  {
    DigitsCombine(buf[0], buf[1], buf[2], buf[3]);
    (buf[0] as int) * 0x100_0000 + (buf[1] as int) * 0x1_0000 + (buf[2] as int) * 0x100 + buf[3] as int
  }

  /** The four-byte big-endian form of v, as a PNG writer stores it. */
  function Uint32ToBigEndian(v: uint32): (buf: seq<byte>)
    ensures |buf| == 4
    ensures (buf[0] as int) * 0x100_0000 + (buf[1] as int) * 0x1_0000 + (buf[2] as int) * 0x100 + buf[3] as int == v
  {
    DigitsOf(v);
    [v / 0x100_0000, v / 0x1_0000 % 0x100, v / 0x100 % 0x100, v % 0x100]
  }

  /** The base-256 digits of a 32-bit value. */
  lemma DigitsOf(v: uint32)
    ensures v == (v / 0x100_0000) * 0x100_0000 + (v / 0x1_0000 % 0x100) * 0x1_0000 + (v / 0x100 % 0x100) * 0x100 + v % 0x100
  {
    var q1 := v / 0x100;
    var q2 := q1 / 0x100;
    var q3 := q2 / 0x100;
    assert v == q1 * 0x100 + v % 0x100;
    assert q1 == q2 * 0x100 + q1 % 0x100;
    assert q2 == q3 * 0x100 + q2 % 0x100;
    assert q2 == v / 0x1_0000;
    assert q3 == v / 0x100_0000;
  }

  /** Reading four base-256 digits back out of the value they make up. */
  lemma DigitsCombine(d0: byte, d1: byte, d2: byte, d3: byte)
    ensures var v := (d0 as int) * 0x100_0000 + (d1 as int) * 0x1_0000 + (d2 as int) * 0x100 + d3 as int;
      && v < 0x1_0000_0000
      && v / 0x100_0000 == d0 && v / 0x1_0000 % 0x100 == d1 && v / 0x100 % 0x100 == d2 && v % 0x100 == d3
  {
    var v := (d0 as int) * 0x100_0000 + (d1 as int) * 0x1_0000 + (d2 as int) * 0x100 + d3 as int;
    var q1 := ((d0 as int) * 0x100 + d1) * 0x100 + d2;
    var q2 := (d0 as int) * 0x100 + d1;
    DivModBase(v, q1, d3);
    DivModBase(q1, q2, d2);
    DivModBase(q2, d0, d1);
    assert v / 0x1_0000 == q1 / 0x100;
    assert v / 0x100_0000 == q2 / 0x100;
  }

  /** Division by 256 of q * 256 + d, for a digit d. */
  lemma DivModBase(x: int, q: int, d: byte)
    requires x == q * 0x100 + d
    ensures x / 0x100 == q && x % 0x100 == d
  {
  }

  /** Decoding what the encoder wrote gives the value back, for every value
      below 2^32. */
  lemma DecodeEncode(v: uint32)
    ensures BigEndianToUint32(Uint32ToBigEndian(v)) == v
  {
  }

  /** Encoding a decoded value gives the same four bytes back: the decoding is
      injective on four-byte prefixes. */
  lemma EncodeDecode(buf: seq<byte>)
    requires |buf| >= 4
    ensures Uint32ToBigEndian(BigEndianToUint32(buf)) == buf[..4]
  {
    var r := BigEndianToUint32(buf);
    var e := Uint32ToBigEndian(r);
    assert e[0] == buf[0] && e[1] == buf[1] && e[2] == buf[2] && e[3] == buf[3];
  }
}
