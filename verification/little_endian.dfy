/** The fixed-width integer writers the encoder uses (`StreamExtensions`).
    `BitConverter.GetBytes` follows the platform byte order; the model fixes it
    to little-endian, the order the BMP format requires. Each writer is paired
    with an independent reader that reassembles the two's-complement value. */
module LittleEndian {

  import opened Bytes

  const Int32Min: int := -0x8000_0000
  const Int32Max: int := 0x7FFF_FFFF
  const Int16Min: int := -0x8000
  const Int16Max: int := 0x7FFF

  predicate IsInt32(v: int) { Int32Min <= v <= Int32Max }
  predicate IsInt16(v: int) { Int16Min <= v <= Int16Max }

  /** The signed 32-bit value whose little-endian two's-complement bytes are `bs`. */
  function ReadInt32(bs: seq<byte>): (v: int)
    requires |bs| == 4
    ensures IsInt32(v)
  {
    var u := bs[0] as int + 0x100 * bs[1] as int + 0x1_0000 * bs[2] as int + 0x100_0000 * bs[3] as int;
    if u <= Int32Max then u else u - 0x1_0000_0000
  }

  /** The signed 16-bit value whose little-endian two's-complement bytes are `bs`. */
  function ReadInt16(bs: seq<byte>): (v: int)
    requires |bs| == 2
    ensures IsInt16(v)
  {
    var u := bs[0] as int + 0x100 * bs[1] as int;
    if u <= Int16Max then u else u - 0x1_0000
  }

  /** `WriteInt32`: four bytes, least significant first, that read back as `v`. */
  function WriteInt32(v: int): (bs: seq<byte>)
    requires IsInt32(v)
    ensures |bs| == 4
    ensures ReadInt32(bs) == v
  {
    var u := if v < 0 then v + 0x1_0000_0000 else v;
    BaseDigits(u);
    var q1 := u / 0x100;
    var q2 := q1 / 0x100;
    [(u % 0x100) as byte, (q1 % 0x100) as byte, (q2 % 0x100) as byte, (q2 / 0x100) as byte]
  }

  /** The base-256 digits of an unsigned 32-bit value recompose it. */
  lemma BaseDigits(u: int)
    requires 0 <= u < 0x1_0000_0000
    ensures var q1 := u / 0x100; var q2 := q1 / 0x100;
      && 0 <= q2 / 0x100 < 0x100
      && u == u % 0x100 + 0x100 * (q1 % 0x100) + 0x1_0000 * (q2 % 0x100) + 0x100_0000 * (q2 / 0x100)
  {
    var q1 := u / 0x100;
    var q2 := q1 / 0x100;
    assert u == u % 0x100 + 0x100 * q1;
    assert q1 == q1 % 0x100 + 0x100 * q2;
    assert q2 == q2 % 0x100 + 0x100 * (q2 / 0x100);
  }

  /** Digits of `d0 + 256*rest` are `d0` followed by the digits of `rest`. */
  lemma SplitDigit(u: int, d0: int, rest: int)
    requires 0 <= d0 < 0x100 && 0 <= rest && u == d0 + 0x100 * rest
    ensures u % 0x100 == d0 && u / 0x100 == rest
  {
  }

  /** `WriteInt16`: two bytes, least significant first, that read back as `v`. */
  function WriteInt16(v: int): (bs: seq<byte>)
    requires IsInt16(v)
    ensures |bs| == 2
    ensures ReadInt16(bs) == v
  {
    var u := if v < 0 then v + 0x1_0000 else v;
    [(u % 0x100) as byte, (u / 0x100) as byte]
  }

  /** Reading is injective: every four bytes are the encoding of the value
      they read as, so `WriteInt32` and `ReadInt32` are mutually inverse. */
  lemma WriteReadInt32(bs: seq<byte>)
    requires |bs| == 4
    ensures WriteInt32(ReadInt32(bs)) == bs
  {
    var d0, d1, d2, d3 := bs[0] as int, bs[1] as int, bs[2] as int, bs[3] as int;
    var u := d0 + 0x100 * d1 + 0x1_0000 * d2 + 0x100_0000 * d3;
    var v := ReadInt32(bs);
    assert (if v < 0 then v + 0x1_0000_0000 else v) == u;
    SplitDigit(u, d0, d1 + 0x100 * d2 + 0x1_0000 * d3);
    SplitDigit(d1 + 0x100 * d2 + 0x1_0000 * d3, d1, d2 + 0x100 * d3);
    SplitDigit(d2 + 0x100 * d3, d2, d3);
    var w := WriteInt32(v);
    assert w == [d0 as byte, d1 as byte, d2 as byte, d3 as byte];
  }

  /** Every two bytes are the encoding of the value they read as. */
  lemma WriteReadInt16(bs: seq<byte>)
    requires |bs| == 2
    ensures WriteInt16(ReadInt16(bs)) == bs
  {
    SplitDigit(bs[0] as int + 0x100 * bs[1] as int, bs[0] as int, bs[1] as int);
    var w := WriteInt16(ReadInt16(bs));
    assert w[0] == bs[0] && w[1] == bs[1];
  }

  /** Non-negative values are written as their plain base-256 digits, so a
      non-negative value below 2^24 ends in a zero byte. */
  lemma WriteInt32Digits(v: int)
    requires 0 <= v <= Int32Max
    ensures WriteInt32(v) == [(v % 0x100) as byte, (v / 0x100 % 0x100) as byte, (v / 0x1_0000 % 0x100) as byte, (v / 0x100_0000) as byte]
    ensures v < 0x100_0000 ==> WriteInt32(v)[3] == 0
  {
  }
}
