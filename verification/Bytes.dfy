/** Raw memory: bytes, and the little-endian 16- and 32-bit integers that the
    structs of the storage engine keep in it. */
module Bytes {

  type byte = b: int | 0 <= b < 256

  /** The value of bytes in two's complement, the least significant one first. */
  function Decoded(bs: seq<byte>): int
    requires bs != []
  {
    var b: int := bs[0];
    if |bs| > 1 then b + 0x100 * Decoded(bs[1..]) else if b < 0x80 then b else b - 0x100
  }

  /** The signed 16-bit value of two bytes. */
  function ShortOf(lo: byte, hi: byte): (v: int)
    ensures -0x8000 <= v < 0x8000
  {
    ShortValue(lo, hi);
    Decoded([lo, hi])
  }

  lemma ShortValue(lo: byte, hi: byte)
    ensures var u := lo + 0x100 * hi; Decoded([lo, hi]) == if u < 0x8000 then u else u - 0x1_0000
  {
    assert [lo, hi][1..] == [hi];
  }

  /** The signed 32-bit value of four bytes. */
  function IntOf(b0: byte, b1: byte, b2: byte, b3: byte): (v: int)
    ensures -0x8000_0000 <= v < 0x8000_0000
  {
    IntValue(b0, b1, b2, b3);
    Decoded([b0, b1, b2, b3])
  }

  lemma IntValue(b0: byte, b1: byte, b2: byte, b3: byte)
    ensures var u := b0 + 0x100 * b1 + 0x1_0000 * b2 + 0x100_0000 * b3;
      Decoded([b0, b1, b2, b3]) == if u < 0x8000_0000 then u else u - 0x1_0000_0000
  {
    assert [b0, b1, b2, b3][1..] == [b1, b2, b3];
    assert [b1, b2, b3][1..] == [b2, b3];
    ShortValue(b2, b3);
  }

  /** A C `short` stored at byte offset `off`. */
  function ShortAt(m: seq<byte>, off: nat): (v: int)
    requires off + 2 <= |m|
    ensures -0x8000 <= v < 0x8000
  {
    ShortOf(m[off], m[off + 1])
  }

  /** A C `int` stored at byte offset `off`. */
  function IntAt(m: seq<byte>, off: nat): (v: int)
    requires off + 4 <= |m|
    ensures -0x8000_0000 <= v < 0x8000_0000
  {
    IntOf(m[off], m[off + 1], m[off + 2], m[off + 3])
  }

  /** The two bytes of a short, and back. */
  function LowByte(v: int): byte { v % 0x100 }
  function HighByte(v: int): byte { v / 0x100 % 0x100 }

  lemma ShortRoundTrip(v: int)
    requires -0x8000 <= v < 0x8000
    ensures ShortOf(LowByte(v), HighByte(v)) == v
  {
    ShortValue(LowByte(v), HighByte(v));
  }

  function Byte2(v: int): byte { v / 0x1_0000 % 0x100 }
  function Byte3(v: int): byte { v / 0x100_0000 % 0x100 }

  lemma IntRoundTrip(v: int)
    requires -0x8000_0000 <= v < 0x8000_0000
    ensures IntOf(LowByte(v), HighByte(v), Byte2(v), Byte3(v)) == v
  {
    IntValue(LowByte(v), HighByte(v), Byte2(v), Byte3(v));
    var q := v / 0x100;
    var r := q / 0x100;
    var t := r / 0x100;
    assert r == v / 0x1_0000;
    assert t == v / 0x100_0000;
    assert v == LowByte(v) + 0x100 * q && q == HighByte(v) + 0x100 * r && r == Byte2(v) + 0x100 * t;
    assert -0x80 <= t < 0x80;
  }

  /** Storing a C `int` at byte offset `off`. */
  function PutInt(m: seq<byte>, off: nat, v: int): (r: seq<byte>)
    requires off + 4 <= |m|
    requires -0x8000_0000 <= v < 0x8000_0000
    ensures |r| == |m|
    ensures IntAt(r, off) == v
    ensures forall k :: 0 <= k < |m| && !(off <= k < off + 4) ==> r[k] == m[k]
  {
    IntRoundTrip(v);
    m[off := LowByte(v)][off + 1 := HighByte(v)][off + 2 := Byte2(v)][off + 3 := Byte3(v)]
  }
}
