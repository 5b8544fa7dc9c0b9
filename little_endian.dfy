/**
 * Little-endian decoding of unsigned integers from the bytes of the mapped file
 * (`read_uint16` and `read_uint32`), with the matching encoders as their inverses.
 */
module LittleEndian {
  /** One byte of the buffer, as the source reads it through `(unsigned char)`. */
  type byte = b: int | 0 <= b < 0x100

  /** `unsigned short` */
  type u16 = x: int | 0 <= x < 0x1_0000

  /** `unsigned int` (32 bits) */
  type u32 = x: int | 0 <= x < 0x1_0000_0000

  /** The two bytes that store `x`, least-significant byte first. */
  function EncodeU16(x: u16): (s: seq<byte>)
    ensures |s| == 2
  {
    [x % 0x100, x / 0x100]
  }

  /** The four bytes that store `x`, least-significant byte first. */
  function EncodeU32(x: u32): (s: seq<byte>)
    ensures |s| == 4
  {
    EncodeU16(x % 0x1_0000) + EncodeU16(x / 0x1_0000)
  }

  /**
   * `read_uint16`: the byte at `off` ORed with the next byte shifted left by 8.
   * The two bytes do not overlap, so the OR is the sum written here.
   */
  function ReadU16(buf: seq<byte>, off: nat): (r: nat)
    requires off + 2 <= |buf|
    ensures r < 0x1_0000
  {
    buf[off] as int + buf[off + 1] as int * 0x100
  }

  /**
   * `read_uint32`: four bytes shifted by 0, 8, 16 and 24 and ORed together in `int`,
   * then converted to `unsigned int`. The shifted bytes do not overlap, so the OR holds
   * the sum's bits. When the top byte is 0x80 or more, its shift leaves the range of
   * `int` and the OR reads as a negative `int`; the conversion adds 2^32 back, so the
   * result is the sum in every case.
   */
  function ReadU32(buf: seq<byte>, off: nat): (r: nat)
    requires off + 4 <= |buf|
    ensures r < 0x1_0000_0000
  {
    buf[off] as int + buf[off + 1] as int * 0x100 + buf[off + 2] as int * 0x1_0000
      + buf[off + 3] as int * 0x100_0000
  }

  /** Splitting `lo + 2^16 * hi` at a 16-bit boundary recovers both parts. */
  lemma SplitHalf(lo: int, hi: int)
    requires 0 <= lo < 0x1_0000
    ensures (lo + hi * 0x1_0000) % 0x1_0000 == lo && (lo + hi * 0x1_0000) / 0x1_0000 == hi
  {
  }

  /** The bytes `read_uint16` reads are the little-endian encoding of its result. */
  lemma EncodeReadU16(buf: seq<byte>, off: nat)
    requires off + 2 <= |buf|
    ensures EncodeU16(ReadU16(buf, off)) == buf[off..off + 2]
  {
  }

  /** The bytes `read_uint32` reads are the little-endian encoding of its result. */
  lemma EncodeReadU32(buf: seq<byte>, off: nat)
    requires off + 4 <= |buf|
    ensures EncodeU32(ReadU32(buf, off)) == buf[off..off + 4]
  {
    var lo, hi := ReadU16(buf, off), ReadU16(buf, off + 2);
    SplitHalf(lo, hi);
    EncodeReadU16(buf, off);
    EncodeReadU16(buf, off + 2);
    assert buf[off..off + 4] == buf[off..off + 2] + buf[off + 2..off + 4];
  }

  /** Decoding the encoding of `x` gives `x` back. */
  lemma DecodeEncodeU16(x: u16)
    ensures ReadU16(EncodeU16(x), 0) == x
  {
  }

  /** Decoding the encoding of `x` gives `x` back. */
  lemma DecodeEncodeU32(x: u32)
    ensures ReadU32(EncodeU32(x), 0) == x
  {
  }

  /** Wherever the encoding of `x` sits in a buffer, `read_uint16` there yields `x`. */
  lemma ReadU16Encoded(buf: seq<byte>, off: nat, x: u16)
    requires off + 2 <= |buf| && buf[off..off + 2] == EncodeU16(x)
    ensures ReadU16(buf, off) == x
  {
    var r := ReadU16(buf, off);
    EncodeReadU16(buf, off);
    DecodeEncodeU16(r);
    DecodeEncodeU16(x);
  }

  /** Wherever the encoding of `x` sits in a buffer, `read_uint32` there yields `x`. */
  lemma ReadU32Encoded(buf: seq<byte>, off: nat, x: u32)
    requires off + 4 <= |buf| && buf[off..off + 4] == EncodeU32(x)
    ensures ReadU32(buf, off) == x
  {
    var r := ReadU32(buf, off);
    EncodeReadU32(buf, off);
    DecodeEncodeU32(r);
    DecodeEncodeU32(x);
  }

  /** A read looks only at its own bytes: a buffer that agrees on them reads the same. */
  lemma ReadU32Local(buf: seq<byte>, other: seq<byte>, off: nat)
    requires off + 4 <= |buf| && off + 4 <= |other|
    requires buf[off..off + 4] == other[off..off + 4]
    ensures ReadU32(buf, off) == ReadU32(other, off)
  {
    assert buf[off] == buf[off..off + 4][0] == other[off];
    assert buf[off + 1] == buf[off..off + 4][1] == other[off + 1];
    assert buf[off + 2] == buf[off..off + 4][2] == other[off + 2];
    assert buf[off + 3] == buf[off..off + 4][3] == other[off + 3];
  }

  lemma ReadU16Example()
    ensures ReadU16([0x34, 0x12], 0) == 0x1234
  {
  }

  lemma ReadU32Example()
    ensures ReadU32([0x78, 0x56, 0x34, 0x12], 0) == 0x1234_5678
  {
  }
}
