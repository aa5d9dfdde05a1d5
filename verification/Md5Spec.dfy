/** The MD5 message digest as sections 3.1 to 3.5 of RFC 1321 define it: pad the message to a multiple of
    64 bytes, append its length in bits, and fold a four-word state over its 64-byte blocks. */
module Md5Spec {
  import opened Bytes

  datatype Regs = Regs(a: bv32, b: bv32, c: bv32, d: bv32)

  const BLOCK: int := 64

  // ---------------------------------------------------------------- section 3.4

  function F(x: bv32, y: bv32, z: bv32): bv32 {
    (x & y) | (!x & z)
  }

  function G(x: bv32, y: bv32, z: bv32): bv32 {
    (x & z) | (y & !z)
  }

  function H(x: bv32, y: bv32, z: bv32): bv32 {
    x ^ y ^ z
  }

  function I(x: bv32, y: bv32, z: bv32): bv32 {
    y ^ (x | !z)
  }

  /** Wherever `x` has the bits of `m`, F selects `y` ... */
  lemma FTakesY(x: bv32, y: bv32, z: bv32, m: bv32)
    requires x & m == m
    ensures F(x, y, z) & m == y & m
  {
  }

  /** ... and where it has none of them, `z`. */
  lemma FTakesZ(x: bv32, y: bv32, z: bv32, m: bv32)
    requires x & m == 0
    ensures F(x, y, z) & m == z & m
  {
  }

  /** G selects by `z`. */
  lemma GTakesX(x: bv32, y: bv32, z: bv32, m: bv32)
    requires z & m == m
    ensures G(x, y, z) & m == x & m
  {
  }

  lemma GTakesY(x: bv32, y: bv32, z: bv32, m: bv32)
    requires z & m == 0
    ensures G(x, y, z) & m == y & m
  {
  }

  /** H is the parity. */
  lemma HOdd(x: bv32, y: bv32, z: bv32, m: bv32)
    requires x & m == m && y & m == m
    ensures H(x, y, z) & m == z & m
  {
  }

  lemma HEven(x: bv32, y: bv32, z: bv32, m: bv32)
    requires x & m == 0 && y & m == 0
    ensures H(x, y, z) & m == z & m
  {
  }

  lemma HFlips(x: bv32, y: bv32, z: bv32, m: bv32)
    requires x & m == m && y & m == 0
    ensures H(x, y, z) & m == !z & m
  {
  }

  lemma HFlipsToo(x: bv32, y: bv32, z: bv32, m: bv32)
    requires x & m == 0 && y & m == m
    ensures H(x, y, z) & m == !z & m
  {
  }

  /** I flips `y` where `x` has a one or `z` a zero. */
  lemma IFlips(x: bv32, y: bv32, z: bv32, m: bv32)
    requires x & m == m
    ensures I(x, y, z) & m == !y & m
  {
  }

  lemma IFlipsToo(x: bv32, y: bv32, z: bv32, m: bv32)
    requires z & m == 0
    ensures I(x, y, z) & m == !y & m
  {
  }

  lemma IKeeps(x: bv32, y: bv32, z: bv32, m: bv32)
    requires x & m == 0 && z & m == m
    ensures I(x, y, z) & m == y & m
  {
  }

  /** The auxiliary function of the round that step `i` belongs to. */
  function Mix(i: int, x: bv32, y: bv32, z: bv32): bv32 {
    if i < 16 then F(x, y, z) else if i < 32 then G(x, y, z) else if i < 48 then H(x, y, z) else I(x, y, z)
  }

  /** Which word of the block step `i` uses. */
  function WordIndex(i: int): (k: int)
    requires 0 <= i < 64
    ensures 0 <= k < 16
  {
    if i < 16 then i
    else if i < 32 then [1, 6, 11, 0, 5, 10, 15, 4, 9, 14, 3, 8, 13, 2, 7, 12][i - 16]
    else if i < 48 then [5, 8, 11, 14, 1, 4, 7, 10, 13, 0, 3, 6, 9, 12, 15, 2][i - 32]
    else [0, 7, 14, 5, 12, 3, 10, 1, 8, 15, 6, 13, 4, 11, 2, 9][i - 48]
  }

  /** How far step `i` rotates. */
  function Shift(i: int): (s: nat)
    ensures 0 < s < 32
  {
    var j := i % 4;
    if i < 16 then (if j == 0 then 7 else if j == 1 then 12 else if j == 2 then 17 else 22)
    else if i < 32 then (if j == 0 then 5 else if j == 1 then 9 else if j == 2 then 14 else 20)
    else if i < 48 then (if j == 0 then 4 else if j == 1 then 11 else if j == 2 then 16 else 23)
    else (if j == 0 then 6 else if j == 1 then 10 else if j == 2 then 15 else 21)
  }

  /** `T[i + 1]`: the integer part of 4294967296 times the absolute value of the sine of `i + 1`. */
  function T(i: int): bv32
    requires 0 <= i < 64
  {
    if i < 16 then [
      0xd76aa478, 0xe8c7b756, 0x242070db, 0xc1bdceee, 0xf57c0faf, 0x4787c62a, 0xa8304613, 0xfd469501,
      0x698098d8, 0x8b44f7af, 0xffff5bb1, 0x895cd7be, 0x6b901122, 0xfd987193, 0xa679438e, 0x49b40821][i]
    else if i < 32 then [
      0xf61e2562, 0xc040b340, 0x265e5a51, 0xe9b6c7aa, 0xd62f105d, 0x02441453, 0xd8a1e681, 0xe7d3fbc8,
      0x21e1cde6, 0xc33707d6, 0xf4d50d87, 0x455a14ed, 0xa9e3e905, 0xfcefa3f8, 0x676f02d9, 0x8d2a4c8a][i - 16]
    else if i < 48 then [
      0xfffa3942, 0x8771f681, 0x6d9d6122, 0xfde5380c, 0xa4beea44, 0x4bdecfa9, 0xf6bb4b60, 0xbebfbc70,
      0x289b7ec6, 0xeaa127fa, 0xd4ef3085, 0x04881d05, 0xd9d4d039, 0xe6db99e5, 0x1fa27cf8, 0xc4ac5665][i - 32]
    else [
      0xf4292244, 0x432aff97, 0xab9423a7, 0xfc93a039, 0x655b59c3, 0x8f0ccc92, 0xffeff47d, 0x85845dd1,
      0x6fa87e4f, 0xfe2ce6e0, 0xa3014314, 0x4e0811a1, 0xf7537e82, 0xbd3af235, 0x2ad7d2bb, 0xeb86d391][i - 48]
  }

  /** `ROTATE_LEFT` */
  function RotateLeft(x: bv32, n: nat): bv32
    requires 0 < n < 32
  {
    (x << n) | (x >> (32 - n))
  }

  function Mixed(a: bv32, b: bv32, f: bv32, x: bv32, s: nat, t: bv32): bv32
    requires 0 < s < 32
  {
    RotateLeft(a + f + x + t, s) + b
  }

  /** Step `i`, after which the registers change roles. */
  function Step(i: int, r: Regs, x: seq<bv32>): Regs
    requires 0 <= i < 64 && |x| == 16
  {
    Regs(r.d, Mixed(r.a, r.b, Mix(i, r.b, r.c, r.d), x[WordIndex(i)], Shift(i), T(i)), r.b, r.c)
  }

  /** Steps `i` to `i + n`. */
  function Steps(i: int, n: nat, r: Regs, x: seq<bv32>): Regs
    requires 0 <= i && i + n <= 64 && |x| == 16
    decreases n
  {
    if n == 0 then r else Step(i + n - 1, Steps(i, n - 1, r, x), x)
  }

  lemma FourSteps(i: int, r: Regs, x: seq<bv32>)
    requires 0 <= i <= 60 && |x| == 16
    ensures Steps(i, 4, r, x) == Step(i + 3, Step(i + 2, Step(i + 1, Step(i, r, x), x), x), x)
  {
    hide Step;
    assert Steps(i, 1, r, x) == Step(i, Steps(i, 0, r, x), x);
    assert Steps(i, 2, r, x) == Step(i + 1, Steps(i, 1, r, x), x);
    assert Steps(i, 3, r, x) == Step(i + 2, Steps(i, 2, r, x), x);
  }

  lemma {:induction false} StepsJoin(i: int, n: nat, m: nat, r: Regs, x: seq<bv32>)
    requires 0 <= i && i + n + m <= 64 && |x| == 16
    ensures Steps(i, n + m, r, x) == Steps(i + n, m, Steps(i, n, r, x), x)
    decreases m
  {
    hide Step;
    if m > 0 {
      StepsJoin(i, n, m - 1, r, x);
    }
  }

  function Words(block: seq<Byte>): (x: seq<bv32>)
    requires |block| == BLOCK
    ensures |x| == 16
  {
    seq(16, j requires 0 <= j < 16 => LittleEndian(block, 4 * j) as bv32)
  }

  function Sum(r: Regs, s: Regs): Regs {
    Regs(r.a + s.a, r.b + s.b, r.c + s.c, r.d + s.d)
  }

  /** One block folded into the state. */
  function Compress(r: Regs, block: seq<Byte>): Regs
    requires |block| == BLOCK
  {
    Sum(r, Steps(0, 64, r, Words(block)))
  }

  /** All whole blocks of `m` folded into the state. */
  function Fold(r: Regs, m: seq<Byte>): Regs
    decreases |m|
  {
    if |m| < BLOCK then r else Fold(Compress(r, m[..BLOCK]), m[BLOCK..])
  }

  // ---------------------------------------------------------------- sections 3.1, 3.2, 3.3 and 3.5

  const INITIAL: Regs := Regs(0x67452301, 0xefcdab89, 0x98badcfe, 0x10325476)

  const WRAP64: int := 0x1_0000_0000_0000_0000

  /** The length in bits, modulo 2^64, as 8 bytes, low-order word first. */
  function LengthBytes(bits: int): (b: seq<Byte>)
    requires 0 <= bits < WRAP64
    ensures |b| == 8
  {
    LittleEndianBytes(bits % 0x1_0000_0000) + LittleEndianBytes(bits / 0x1_0000_0000)
  }

  lemma PadLength(n: nat)
    ensures (n + 1 + (55 - n) % BLOCK + 8) % BLOCK == 0
  {
    var q := (55 - n) / BLOCK;
    assert n + 1 + (55 - n) % BLOCK + 8 == BLOCK * (1 - q);
  }

  /** A one bit, zeros up to 8 bytes short of a block, and the length. */
  function Padded(m: seq<Byte>): (p: seq<Byte>)
    ensures |p| % BLOCK == 0 && m <= p
  {
    PadLength(|m|);
    m + [0x80] + seq((55 - |m|) % BLOCK, i => 0) + LengthBytes(8 * |m| % WRAP64)
  }

  function Output(r: Regs): seq<Byte> {
    LittleEndianBytes(r.a as int) + LittleEndianBytes(r.b as int) + LittleEndianBytes(r.c as int)
        + LittleEndianBytes(r.d as int)
  }

  function Digest(m: seq<Byte>): seq<Byte> {
    Output(Fold(INITIAL, Padded(m)))
  }

  lemma {:induction false} FoldConcat(r: Regs, m: seq<Byte>, n: seq<Byte>)
    requires |m| % BLOCK == 0
    ensures Fold(r, m + n) == Fold(Fold(r, m), n)
    decreases |m|
  {
    hide Compress;
    if |m| == 0 {
      assert m + n == n;
    } else {
      assert |m| >= BLOCK;
      assert (m + n)[..BLOCK] == m[..BLOCK] && (m + n)[BLOCK..] == m[BLOCK..] + n;
      FoldConcat(Compress(r, m[..BLOCK]), m[BLOCK..], n);
    }
  }

  /** What has been folded so far, and the bytes that wait for a block to be full. */
  function Tail(m: seq<Byte>): (t: seq<Byte>)
    ensures |t| == |m| % BLOCK
  {
    m[|m| - |m| % BLOCK..]
  }

  lemma FoldWhole(r: Regs, m: seq<Byte>)
    ensures Fold(r, m) == Fold(r, m[..|m| - |m| % BLOCK])
  {
    hide Compress;
    var k := |m| - |m| % BLOCK;
    assert m == m[..k] + m[k..];
    FoldConcat(r, m[..k], m[k..]);
  }

  lemma FoldOne(r: Regs, m: seq<Byte>, block: seq<Byte>)
    requires |m| % BLOCK == 0 && |block| == BLOCK
    ensures Fold(r, m + block) == Compress(Fold(r, m), block)
  {
    hide Compress;
    FoldConcat(r, m, block);
    assert block[..BLOCK] == block;
    assert Fold(Compress(Fold(r, m), block), block[BLOCK..]) == Compress(Fold(r, m), block);
  }
}
