/** Bytes, and the 32-bit words they form in memory on a little-endian machine. */
module Bytes {

  type Byte = b: int | 0 <= b < 256

  /** The word at byte `o`. */
  function LittleEndian(b: seq<Byte>, o: int): (w: int)
    requires 0 <= o <= |b| - 4
    ensures 0 <= w < 0x1_0000_0000
  {
    var (b0: int, b1: int, b2: int, b3: int) := (b[o], b[o + 1], b[o + 2], b[o + 3]);
    b0 + 0x100 * b1 + 0x1_0000 * b2 + 0x100_0000 * b3
  }

  /** The four bytes of a word in memory. */
  function LittleEndianBytes(w: int): (b: seq<Byte>)
    requires 0 <= w < 0x1_0000_0000
    ensures |b| == 4 && LittleEndian(b, 0) == w
  {
    [w % 0x100, w / 0x100 % 0x100, w / 0x1_0000 % 0x100, w / 0x100_0000]
  }
}
