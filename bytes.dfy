/**
 * The integer widths of the .fnt loader and the little-endian byte order of
 * the file: the first byte of a field is its least significant one.
 */
module Bytes {

  /** One byte as returned by `getc`, an `unsigned char`. */
  type byte = x: int | 0 <= x < 0x100
  /** An `unsigned short` field. */
  type u16 = x: int | 0 <= x < 0x1_0000
  /** An `unsigned long` field; the file stores 32 bits. */
  type u32 = x: int | 0 <= x < 0x1_0000_0000

  /** The value of two bytes, first byte low-order (READSHORT). */
  function LeShort(b: seq<byte>): (v: u16)
    requires |b| == 2
    ensures v % 0x100 == b[0] && v / 0x100 == b[1]
  {
    b[0] as int + 0x100 * b[1] as int
  }

  /** The value of four bytes, first byte lowest-order (READLONG). */
  function LeLong(b: seq<byte>): (v: u32)
    requires |b| == 4
    ensures v % 0x1_0000 == LeShort(b[..2]) && v / 0x1_0000 == LeShort(b[2..])
  {
    var lo, hi := LeShort(b[..2]), LeShort(b[2..]);
    assert b[0] as int + 0x100 * b[1] as int + 0x1_0000 * b[2] as int + 0x100_0000 * b[3] as int == lo + 0x1_0000 * hi;
    b[0] as int + 0x100 * b[1] as int + 0x1_0000 * b[2] as int + 0x100_0000 * b[3] as int
  }

  /** The two bytes a writer of the format stores for `v`. */
  function ShortBytes(v: u16): (b: seq<byte>)
    ensures |b| == 2 && LeShort(b) == v
  {
    [v % 0x100, v / 0x100]
  }

  /** The four bytes a writer of the format stores for `v`. */
  function LongBytes(v: u32): (b: seq<byte>)
    ensures |b| == 4 && LeLong(b) == v
  {
    var lo := v % 0x1_0000;
    var hi := v / 0x1_0000;
    [lo % 0x100, lo / 0x100, hi % 0x100, hi / 0x100]
  }

  /** Decoding two bytes loses nothing: they are the encoding of their value. */
  lemma ShortBytesOfLeShort(b: seq<byte>)
    requires |b| == 2
    ensures ShortBytes(LeShort(b)) == b
  {
    var v := LeShort(b);
    assert v % 0x100 == b[0] && v / 0x100 == b[1];
  }

  /** Decoding four bytes loses nothing: they are the encoding of their value. */
  lemma LongBytesOfLeLong(b: seq<byte>)
    requires |b| == 4
    ensures LongBytes(LeLong(b)) == b
  {
    var v := LeLong(b);
    var lo: int := b[0] as int + 0x100 * b[1] as int;
    var hi: int := b[2] as int + 0x100 * b[3] as int;
    assert v == lo + 0x1_0000 * hi;
    assert v % 0x1_0000 == lo && v / 0x1_0000 == hi;
    assert lo % 0x100 == b[0] && lo / 0x100 == b[1];
    assert hi % 0x100 == b[2] && hi / 0x100 == b[3];
  }
}
