/**
 * 32-bit signed integers as .NET's BinaryWriter.Write(int) and
 * BinaryReader.ReadInt32 put them on the wire: four bytes, least
 * significant first, two's complement.
 */
module LittleEndian {

  type byte = b: int | 0 <= b < 256

  const Two32: int := 0x1_0000_0000
  const MinInt32: int := -0x8000_0000
  const MaxInt32: int := 0x7FFF_FFFF

  type int32 = x: int | MinInt32 <= x <= MaxInt32

  /** C#'s unchecked conversion of a wider integer to `int`: wrap-around modulo 2^32. */
  function Wrap(x: int): (r: int32)
    ensures (r - x) % Two32 == 0
    ensures MinInt32 <= x <= MaxInt32 ==> r == x
  {
    var u := x % Two32;
    if u > MaxInt32 then u - Two32 else u
  }

  /** The unsigned 32-bit pattern of a signed value. */
  function Unsigned(x: int32): (u: int)
    ensures 0 <= u < Two32
    ensures x >= 0 ==> u == x
  {
    if x < 0 then x + Two32 else x
  }

  function EncodeLE(x: int32): (r: seq<byte>)
    ensures |r| == 4
  {
    var u := Unsigned(x);
    [u % 256, (u / 256) % 256, (u / 65536) % 256, u / 16777216]
  }

  function DecodeLE(b: seq<byte>): (x: int32)
    requires |b| == 4
  {
    var u: int := b[0] as int + 256 * (b[1] as int) + 65536 * (b[2] as int) + 16777216 * (b[3] as int);
    if u > MaxInt32 then u - Two32 else u
  }

  /** Reading back what was written yields the written value. */
  lemma DecodeEncode(x: int32)
    ensures DecodeLE(EncodeLE(x)) == x
  {
    var u := Unsigned(x);
    var b := EncodeLE(x);
    assert u == b[0] + 256 * (u / 256);
    assert u / 256 == b[1] + 256 * (u / 65536);
    assert u / 65536 == b[2] + 256 * b[3];
  }

  /** Every four-byte pattern is the encoding of exactly one value. */
  lemma EncodeDecode(b: seq<byte>)
    requires |b| == 4
    ensures EncodeLE(DecodeLE(b)) == b
  {
    var b0: int, b1: int, b2: int, b3: int := b[0], b[1], b[2], b[3];
    var u := b0 + 256 * b1 + 65536 * b2 + 16777216 * b3;
    assert Unsigned(DecodeLE(b)) == u;
    assert u % 256 == b0 && u / 256 == b1 + 256 * b2 + 65536 * b3;
    assert (u / 256) % 256 == b1 && u / 65536 == b2 + 256 * b3;
    assert (u / 65536) % 256 == b2 && u / 16777216 == b3;
  }
}
