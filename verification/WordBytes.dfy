/** The bytes of the allocator's 32-bit words in memory order, and of a run of words. */
module WordBytes {
  import opened Bytes
  import opened DivMod
  import opened HeapLayout

  function Unsigned(w: Word): (u: int)
    ensures 0 <= u < 0x1_0000_0000
  {
    if w < 0 then w + 0x1_0000_0000 else w
  }

  function Signed(u: int): Word
    requires 0 <= u < 0x1_0000_0000
  {
    if u < 0x8000_0000 then u else u - 0x1_0000_0000
  }

  function ByteOf(w: Word, k: int): (b: Byte)
    requires 0 <= k < 4
  {
    var u := Unsigned(w);
    if k == 0 then u % 256 else if k == 1 then u / 256 % 256 else if k == 2 then u / 65536 % 256 else u / 16777216
  }

  function FromBytes(b0: Byte, b1: Byte, b2: Byte, b3: Byte): Word {
    Signed(b0 + 256 * b1 + 65536 * b2 + 16777216 * b3)
  }

  /** The word with byte `k` replaced. */
  function WithByte(w: Word, k: int, b: Byte): Word
    requires 0 <= k < 4
  {
    FromBytes(if k == 0 then b else ByteOf(w, 0), if k == 1 then b else ByteOf(w, 1),
              if k == 2 then b else ByteOf(w, 2), if k == 3 then b else ByteOf(w, 3))
  }

  lemma FromBytesBytes(b0: Byte, b1: Byte, b2: Byte, b3: Byte)
    ensures ByteOf(FromBytes(b0, b1, b2, b3), 0) == b0 && ByteOf(FromBytes(b0, b1, b2, b3), 1) == b1
    ensures ByteOf(FromBytes(b0, b1, b2, b3), 2) == b2 && ByteOf(FromBytes(b0, b1, b2, b3), 3) == b3
  {
    var u := b0 + 256 * (b1 + 256 * (b2 + 256 * b3));
    assert u == b0 + 256 * b1 + 65536 * b2 + 16777216 * b3;
    assert u / 256 == b1 + 256 * (b2 + 256 * b3);
    assert u / 65536 == b2 + 256 * b3;
    assert u / 16777216 == b3;
  }

  lemma WithByteBytes(w: Word, k: int, b: Byte, j: int)
    requires 0 <= k < 4 && 0 <= j < 4
    ensures ByteOf(WithByte(w, k, b), j) == if j == k then b else ByteOf(w, j)
  {
    FromBytesBytes(if k == 0 then b else ByteOf(w, 0), if k == 1 then b else ByteOf(w, 1),
                   if k == 2 then b else ByteOf(w, 2), if k == 3 then b else ByteOf(w, 3));
  }

  /** Byte `i` of a payload. */
  function ByteAt(c: seq<Word>, i: int): Byte
    requires 0 <= i < 4 * |c|
  {
    ByteOf(c[i / 4], i % 4)
  }

  /** The bytes of a word are those of its two's complement, the least significant one first. */
  lemma WordOfBytes(c: seq<Word>, i: int)
    requires 0 <= i < |c|
    ensures var u := ByteAt(c, 4 * i) + 0x100 * ByteAt(c, 4 * i + 1) + 0x1_0000 * ByteAt(c, 4 * i + 2) +
                       0x100_0000 * ByteAt(c, 4 * i + 3);
            c[i] == if u < 0x8000_0000 then u else u - 0x1_0000_0000
  {
    FourDigits(Unsigned(c[i]));
  }

  /** Storing a byte changes that byte of the payload and no other. */
  lemma StoreByte(c: seq<Word>, i: int, b: Byte, j: int)
    requires 0 <= i < 4 * |c| && 0 <= j < 4 * |c|
    ensures ByteAt(c[i / 4 := WithByte(c[i / 4], i % 4, b)], j) == if j == i then b else ByteAt(c, j)
  {
    WithByteBytes(c[i / 4], i % 4, b, j % 4);
  }
}
