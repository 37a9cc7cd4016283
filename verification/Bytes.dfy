/** Bytes, fixed-width integers and their big-endian wire form. */
module Bytes {

  newtype byte = x: int | 0 <= x < 256
  type bytes = seq<byte>

  const INT32_MAX: int := 0x7FFF_FFFF
  const TWO_32: int := 0x1_0000_0000

  type int32 = x: int | -0x8000_0000 <= x <= 0x7FFF_FFFF
  type int8 = x: int | -128 <= x <= 127

  /** Conversion of a 64-bit size to `int`: the value modulo 2^32, read as signed. */
  function Narrow32(x: int): (r: int32)
    ensures -0x8000_0000 <= x <= INT32_MAX ==> r == x
    ensures INT32_MAX < x <= INT32_MAX + TWO_32 ==> r == x - TWO_32
    ensures -0x8000_0000 - TWO_32 <= x < -0x8000_0000 ==> r == x + TWO_32
  {
    var u := x % TWO_32;
    if u > INT32_MAX then u - TWO_32 else u
  }

  /** `htobe32` followed by a copy of the four bytes. */
  function Int32Bytes(x: int32): (b: bytes)
    ensures |b| == 4
  {
    var u := if x < 0 then x + TWO_32 else x;
    [(u / 0x100_0000) as byte, (u / 0x1_0000 % 256) as byte, (u / 256 % 256) as byte, (u % 256) as byte]
  }

  function Unsigned32(b: bytes): int
    requires |b| == 4
  {
    b[0] as int * 0x100_0000 + b[1] as int * 0x1_0000 + b[2] as int * 256 + b[3] as int
  }

  /** `be32toh` of four copied bytes. */
  function BytesInt32(b: bytes): int32
    requires |b| == 4
  {
    var u := Unsigned32(b);
    if u > INT32_MAX then u - TWO_32 else u
  }

  function Int8Byte(x: int8): byte { (if x < 0 then x + 256 else x) as byte }

  function ByteInt8(b: byte): int8 { if b > 127 then b as int - 256 else b as int }

  /** Reading back a big-endian integer gives the integer, and every four bytes are some integer's. */
  lemma Int32RoundTrip(x: int32)
    ensures BytesInt32(Int32Bytes(x)) == x
  {
    var u := if x < 0 then x + TWO_32 else x;
    assert u / 0x1_0000 == u / 0x100_0000 * 256 + u / 0x1_0000 % 256;
    assert u / 256 == u / 0x1_0000 * 256 + u / 256 % 256;
  }

  lemma BytesRoundTrip(b: bytes)
    requires |b| == 4
    ensures Int32Bytes(BytesInt32(b)) == b
  {
    var u := Unsigned32(b);
    assert u / 256 == b[0] as int * 0x1_0000 + b[1] as int * 256 + b[2] as int;
    assert u / 0x1_0000 == b[0] as int * 256 + b[1] as int;
    assert u / 0x100_0000 == b[0] as int;
  }

  /** The most significant byte comes first: the bytes weigh 2^24, 2^16, 2^8 and 1. */
  lemma BigEndian(x: int32)
    ensures var b := Int32Bytes(x);
      b[0] as int * 16777216 + b[1] as int * 65536 + b[2] as int * 256 + b[3] as int
      == if x < 0 then x + 4294967296 else x
  {
    var u := if x < 0 then x + TWO_32 else x;
    assert u / 0x1_0000 == u / 0x100_0000 * 256 + u / 0x1_0000 % 256;
    assert u / 256 == u / 0x1_0000 * 256 + u / 256 % 256;
  }

  lemma BigEndianRead(b: bytes)
    requires |b| == 4
    ensures var u := b[0] as int * 16777216 + b[1] as int * 65536 + b[2] as int * 256 + b[3] as int;
      BytesInt32(b) == if u > 2147483647 then u - 4294967296 else u
  {
    BytesRoundTrip(b);
    BigEndian(BytesInt32(b));
  }

  /** The first byte in which `a` and `b` differ is smaller in `a`. */
  ghost predicate Below(a: bytes, b: bytes) {
    exists i :: 0 <= i < |a| && i < |b| && a[..i] == b[..i] && a[i] < b[i]
  }

  /** Numbers of the same sign are ordered on the wire as they are. */
  lemma WireOrder(x: int32, y: int32)
    requires x < y && (x < 0 <==> y < 0)
    ensures Below(Int32Bytes(x), Int32Bytes(y))
  {
    hide Int32Bytes;
    var a, b := Int32Bytes(x), Int32Bytes(y);
    BigEndian(x);
    BigEndian(y);
    var i := if a[0] != b[0] then 0 else if a[1] != b[1] then 1 else if a[2] != b[2] then 2 else 3;
    assert a[..i] == b[..i];
    assert a[i] < b[i];
  }

  /** Numbers whose bytes can be read off their digits. */
  lemma WireSamples()
    ensures Int32Bytes(0x01020304) == [1, 2, 3, 4] && Int32Bytes(300) == [0, 0, 1, 44]
    ensures Int32Bytes(-2) == [255, 255, 255, 254]
    ensures BytesInt32([1, 2, 3, 4]) == 0x01020304 && BytesInt32([0, 0, 1, 44]) == 300
    ensures Int8Byte(-2) == 254 && Int8Byte(-128) == 128 && Int8Byte(1) == 1
  {
  }

  /** Two's complement in one byte. */
  lemma TwosComplement(x: int8)
    ensures Int8Byte(x) as int == if x < 0 then x + 256 else x
    ensures ByteInt8(Int8Byte(x)) == x
  {
  }

  lemma Int8RoundTrip(x: int8)
    ensures ByteInt8(Int8Byte(x)) == x
  {
  }

  lemma SliceOfSlice(a: bytes, from: nat, to: nat, i: nat, j: nat)
    requires from <= to <= |a| && i <= j <= to - from
    ensures a[from..to][i..j] == a[from + i..from + j]
  {
    var x, y := a[from..to][i..j], a[from + i..from + j];
    assert forall k :: 0 <= k < j - i ==> x[k] == y[k];
  }
}
