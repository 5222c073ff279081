/** Little-endian byte strings and the 32-bit two's-complement integers
    that the `i` code of a `<` struct format stands for. */
module Bytes {

  /** One octet of a file. */
  type Byte = b: int | 0 <= b < 256

  const TWO_TO_31: int := 0x8000_0000
  const TWO_TO_32: int := 0x1_0000_0000

  /** The smaller of two integers. */
  function Min(a: int, b: int): (m: int)
    ensures m <= a && m <= b
    ensures m == a || m == b
  {
    if a <= b then a else b
  }

  function Pow256(n: nat): (r: nat)
    ensures r >= 1
  {
    if n == 0 then 1 else 256 * Pow256(n - 1)
  }

  /** The unsigned value of `b` read little-endian: `b[0]` is the least significant byte. */
  function LittleEndian(b: seq<Byte>): (r: nat)
    ensures r < Pow256(|b|)
    ensures |b| > 0 ==> r % 256 == b[0]
  {
    if |b| == 0 then 0 else b[0] + 256 * LittleEndian(b[1..])
  }

  /** The `n` little-endian bytes of `x`. */
  function ToLittleEndian(x: nat, n: nat): (b: seq<Byte>)
    requires x < Pow256(n)
    ensures |b| == n && LittleEndian(b) == x
  {
    if n == 0 then []
    else
      var rest := ToLittleEndian(x / 256, n - 1);
      assert ([x % 256] + rest)[1..] == rest;
      [x % 256] + rest
  }

  /** Reading bytes and writing them back gives the same bytes. */
  lemma {:induction false} LittleEndianRoundTrip(b: seq<Byte>)
    ensures ToLittleEndian(LittleEndian(b), |b|) == b
  {
    if |b| > 0 {
      LittleEndianRoundTrip(b[1..]);
      var u := LittleEndian(b);
      assert u % 256 == b[0] && u / 256 == LittleEndian(b[1..]);
      assert b == [b[0]] + b[1..];
    }
  }

  /** The four-byte unrolling of `LittleEndian`. */
  lemma LittleEndian4(b: seq<Byte>)
    requires |b| == 4
    ensures LittleEndian(b) == b[0] as int + 256 * (b[1] as int) + 65536 * (b[2] as int) + 16777216 * (b[3] as int)
  {
    assert b[1..][1..] == b[2..] && b[2..][1..] == b[3..] && b[3..][1..] == [];
    assert LittleEndian(b[3..]) == b[3];
    assert LittleEndian(b[2..]) == b[2] as int + 256 * LittleEndian(b[3..]);
    assert LittleEndian(b[1..]) == b[1] as int + 256 * LittleEndian(b[2..]);
  }

  lemma Pow256Of4()
    ensures Pow256(4) == TWO_TO_32
  {
  }

  predicate IsInt32(x: int)
  {
    -TWO_TO_31 <= x < TWO_TO_31
  }

  /** The signed 32-bit integer whose little-endian two's-complement form is `b`. */
  function DecodeInt32(b: seq<Byte>): (x: int)
    requires |b| == 4
    ensures IsInt32(x)
    ensures x < 0 <==> b[3] >= 128
  {
    var u := b[0] as int + 256 * (b[1] as int) + 65536 * (b[2] as int) + 16777216 * (b[3] as int);
    if u >= TWO_TO_31 then u - TWO_TO_32 else u
  }

  /** The signed value is the two's-complement reading of the unsigned little-endian value:
      the two agree modulo 2^32, and coincide when the value is not negative. */
  lemma DecodeInt32Wraps(b: seq<Byte>)
    requires |b| == 4
    ensures (LittleEndian(b) - DecodeInt32(b)) % TWO_TO_32 == 0
    ensures 0 <= DecodeInt32(b) ==> DecodeInt32(b) == LittleEndian(b)
  {
    LittleEndian4(b);
  }

  /** The four little-endian two's-complement bytes of a signed 32-bit integer. */
  function EncodeInt32(x: int): (b: seq<Byte>)
    requires IsInt32(x)
    ensures |b| == 4
    ensures DecodeInt32(b) == x
  {
    Pow256Of4();
    var b := ToLittleEndian(if x < 0 then x + TWO_TO_32 else x, 4);
    LittleEndian4(b);
    b
  }

  /** Decoding then encoding four bytes gives the same bytes back. */
  lemma Int32BytesRoundTrip(b: seq<Byte>)
    requires |b| == 4
    ensures EncodeInt32(DecodeInt32(b)) == b
  {
    Pow256Of4();
    LittleEndian4(b);
    LittleEndianRoundTrip(b);
  }
}
