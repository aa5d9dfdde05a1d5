/** What `ext2/ext2fs.c` reads out of a file system image, as functions of the image: bitmaps, i-nodes
    and the translation of a file's block index to a block address. */
module Ext2Image {
  import opened Bytes
  import opened DivMod
  import opened Sequences

  /** `BLKSIZE` */
  const BLKSIZE: int := 1024
  /** `BLK_POINTERS` */
  const BLK_POINTERS: int := 256
  /** `sizeof(ext2_inode_t)` and the offset of its `i_blocks`. */
  const INODE_SIZE: int := 128
  const I_BLOCKS: int := 40
  /** `EXT2_NDADDR` and `EXT2_NADDR` */
  const NDADDR: int := 12
  const NADDR: int := 15

  type Sector = s: seq<Byte> | |s| == 1024 witness seq(1024, i => 0)

  datatype Group = Group(blockBitmap: int, inodeBitmap: int, inodeTable: int)

  /** The image and what `ext2_mount` takes from its superblock and group descriptors. */
  datatype Fs = Fs(img: seq<Sector>, blockCount: int, inodeCount: int, blocksPerGroup: int, inodesPerGroup: int,
                   groups: seq<Group>)

  ghost predicate GroupSound(fs: Fs, g: int)
    requires 0 <= g < |fs.groups|
  {
    && 0 < fs.groups[g].blockBitmap < |fs.img| && 0 < fs.groups[g].inodeBitmap < |fs.img|
    && 0 < fs.groups[g].inodeTable
    && BLKSIZE * fs.groups[g].inodeTable + INODE_SIZE * fs.inodesPerGroup <= BLKSIZE * |fs.img|
  }

  /** The bitmaps and i-node tables lie inside the image, each bitmap fits one block, and there are as
      many groups as `ext2_mount` counts. */
  ghost predicate Sound(fs: Fs) {
    && 0 < |fs.img| <= 0x1_0000_0000 && 0 <= fs.blockCount && 0 <= fs.inodeCount
    && 0 < fs.blocksPerGroup <= 8 * BLKSIZE && 0 < fs.inodesPerGroup <= 8 * BLKSIZE
    && fs.blockCount <= fs.blocksPerGroup * |fs.groups| && fs.inodeCount <= fs.inodesPerGroup * |fs.groups|
    && forall g {:trigger GroupSound(fs, g)} :: 0 <= g < |fs.groups| ==> GroupSound(fs, g)
  }

  /** `1 << j` for a bit number of a byte. */
  function Bit(j: int): int
    requires 0 <= j < 8
  {
    [1, 2, 4, 8, 16, 32, 64, 128][j]
  }

  /** Whether bit `n` of a bitmap is set. */
  predicate BitSet(b: Sector, n: int)
    requires 0 <= n < 8 * BLKSIZE
  {
    b[n / 8] / Bit(n % 8) % 2 == 1
  }

  /** The first `k` bits of byte `i` of a bitmap, as a number. */
  function BitSum(b: Sector, i: nat, k: nat): int
    requires i < 1024 && k <= 8
  {
    if k == 0 then 0 else BitSum(b, i, k - 1) + if BitSet(b, 8 * i + k - 1) then Pow2(k - 1) else 0
  }

  /** Each byte of a bitmap is the sum of its bits, the lowest one first. */
  lemma ByteIsBits(b: Sector, i: nat)
    requires i < 1024
    ensures b[i] == BitSum(b, i, 8)
  {
    hide BitSum;
    LowBits(b, i, 8);
    EightBits();
  }

  lemma EightBits()
    ensures Pow2(8) == 256
  {
    assert Pow2(4) == 16;
    Pow2Sum(4, 4);
  }

  lemma {:induction false} LowBits(b: Sector, i: nat, k: nat)
    requires i < 1024 && k <= 8
    ensures BitSum(b, i, k) == b[i] % Pow2(k)
  {
    hide BitSet;
    if k > 0 {
      LowBits(b, i, k - 1);
      TopBit(b[i], Pow2(k - 1));
      BitAt(b, i, k - 1);
    }
  }

  lemma BitAt(b: Sector, i: nat, k: nat)
    requires i < 1024 && k < 8
    ensures BitSet(b, 8 * i + k) <==> b[i] / Pow2(k) % 2 == 1
  {
    assert (8 * i + k) / 8 == i && (8 * i + k) % 8 == k;
    assert Pow2(1) == 2 && Pow2(2) == 4 && Pow2(3) == 8 && Pow2(4) == 16 && Pow2(5) == 32;
    assert Pow2(6) == 64 && Pow2(7) == 128;
  }

  lemma GroupOf(n: int, perGroup: int, count: int, groups: int)
    requires 0 < n < count <= perGroup * groups && 0 < perGroup <= 8 * BLKSIZE
    ensures 0 <= (n - 1) / perGroup < groups && 0 <= (n - 1) % perGroup < perGroup
  {
    var q := (n - 1) / perGroup;
    assert q * perGroup <= n - 1 < perGroup * groups;
    if q >= groups {
      MulMonotone(groups, q, perGroup);
    }
  }

  /** What `ext2_block_used` makes of the block bitmap, for an address in range. */
  predicate BlockUsed(fs: Fs, addr: int)
    requires Sound(fs) && 0 < addr < fs.blockCount
  {
    GroupOf(addr, fs.blocksPerGroup, fs.blockCount, |fs.groups|);
    BlockBit(fs, (addr - 1) / fs.blocksPerGroup, (addr - 1) % fs.blocksPerGroup)
  }

  /** Bit `n` of the block bitmap of group `g`. */
  predicate BlockBit(fs: Fs, g: int, n: int)
    requires Sound(fs) && 0 <= g < |fs.groups| && 0 <= n < fs.blocksPerGroup
  {
    assert GroupSound(fs, g);
    BitSet(fs.img[fs.groups[g].blockBitmap], n)
  }

  /** `ext2_inode_used(ino) == 1` */
  predicate InodeUsed(fs: Fs, ino: int)
    requires Sound(fs)
  {
    0 < ino < fs.inodeCount &&
    (GroupOf(ino, fs.inodesPerGroup, fs.inodeCount, |fs.groups|);
     var g := (ino - 1) / fs.inodesPerGroup;
     assert GroupSound(fs, g);
     BitSet(fs.img[fs.groups[g].inodeBitmap], (ino - 1) % fs.inodesPerGroup))
  }

  /** The byte of the image at which an i-node starts. */
  function InodePos(fs: Fs, ino: int): (pos: int)
    requires Sound(fs) && 0 < ino < fs.inodeCount
    ensures 0 < pos / BLKSIZE < |fs.img| && pos % BLKSIZE <= BLKSIZE - INODE_SIZE && pos % INODE_SIZE == 0
  {
    GroupOf(ino, fs.inodesPerGroup, fs.inodeCount, |fs.groups|);
    var g := (ino - 1) / fs.inodesPerGroup;
    assert GroupSound(fs, g);
    InodeFits(fs.groups[g].inodeTable, (ino - 1) % fs.inodesPerGroup, fs.inodesPerGroup, |fs.img|);
    BLKSIZE * fs.groups[g].inodeTable + INODE_SIZE * ((ino - 1) % fs.inodesPerGroup)
  }

  lemma InodeFits(table: int, n: int, perGroup: int, blocks: int)
    requires 0 < table && 0 <= n < perGroup && BLKSIZE * table + INODE_SIZE * perGroup <= BLKSIZE * blocks
    ensures var pos := BLKSIZE * table + INODE_SIZE * n;
            0 < pos / BLKSIZE < blocks && pos % BLKSIZE <= BLKSIZE - INODE_SIZE && pos % INODE_SIZE == 0
  {
    var pos := BLKSIZE * table + INODE_SIZE * n;
    assert pos == INODE_SIZE * (8 * table + n);
  }

  /** Pointer `k` of the i-node. */
  function InodePointer(fs: Fs, ino: int, k: int): int
    requires Sound(fs) && 0 < ino < fs.inodeCount && 0 <= k < NADDR
  {
    var pos := InodePos(fs, ino);
    LittleEndian(fs.img[pos / BLKSIZE], pos % BLKSIZE + I_BLOCKS + 4 * k)
  }

  /** The result of a translation.  `Stops`: the program panics, or reads through a pointer that is no
      buffer, or past the end of one. */
  datatype Trans = Fails | Addr(addr: int) | Stops

  /** `ext2_blkptr_read`: entry `k` of the pointer block at `p`. */
  function Entry(fs: Fs, p: int, k: int): Trans {
    if 0 < p < |fs.img| && 0 <= k < BLK_POINTERS then Addr(LittleEndian(fs.img[p], 4 * k)) else Stops
  }

  function EntryOf(fs: Fs, p: Trans, k: int): Trans {
    if p.Addr? then Entry(fs, p.addr, k) else p
  }

  /** `ext2_blkaddr_read` */
  function Translate(fs: Fs, ino: int, idx: int): Trans
    requires Sound(fs) && 0 <= idx
  {
    if ino == 0 then Addr(idx)
    else if !InodeUsed(fs, ino) then Fails
    else
      var i1, i2, i3 := idx - 12, idx - 12 - 256, idx - 12 - 256 - 256 * 256;
      if idx < NDADDR then Addr(InodePointer(fs, ino, idx))
      else if i1 < BLK_POINTERS then Entry(fs, InodePointer(fs, ino, 12), i1)
      else if i2 < BLK_POINTERS * BLK_POINTERS then
        var addres := Entry(fs, InodePointer(fs, ino, 13), i2 / BLK_POINTERS);
        EntryOf(fs, addres, i2 % BLK_POINTERS)
      else if i3 < BLK_POINTERS * BLK_POINTERS * BLK_POINTERS then
        var addres := Entry(fs, InodePointer(fs, ino, 14), i3 / (BLK_POINTERS * BLK_POINTERS));
        var second := EntryOf(fs, addres, i3 / BLK_POINTERS);
        EntryOf(fs, second, i3 % BLK_POINTERS)
      else Fails
  }

  /** What a caller of `blk_get` is told. */
  datatype Answer = NoBlock | Hole | At(addr: int) | Halts

  /** `blk_get`, as a function of the image. */
  function Outcome(fs: Fs, ino: int, idx: int): Answer
    requires Sound(fs) && 0 <= idx
  {
    match Translate(fs, ino, idx)
    case Fails => NoBlock
    case Stops => Halts
    case Addr(a) =>
      if a == 0 then Hole
      else if ino > 0 && 0 < a < fs.blockCount && !BlockUsed(fs, a) then Halts
      else if 0 < a < |fs.img| then At(a)
      else Halts
  }

  // ---------------------------------------------------------------- the block map

  function Power(d: nat): (n: int)
    ensures n > 0
  {
    if d == 0 then 1 else BLK_POINTERS * Power(d - 1)
  }

  /** Block `k` of those below an indirect pointer `p` of level `d`, found digit by digit. */
  function Walk(fs: Fs, p: int, d: nat, k: int): Trans
    requires 0 <= k < Power(d)
    decreases d
  {
    if d == 0 then Addr(p)
    else
      var q := Entry(fs, p, k / Power(d - 1));
      if q.Addr? then Walk(fs, q.addr, d - 1, k % Power(d - 1)) else q
  }

  lemma Digits(k: int, d: nat)
    requires d > 0 && 0 <= k < Power(d)
    ensures 0 <= k / Power(d - 1) < BLK_POINTERS && 0 <= k % Power(d - 1) < Power(d - 1)
  {
    var n, q := Power(d - 1), k / Power(d - 1);
    assert q * n + k % n == k;
    if q >= BLK_POINTERS {
      MulMonotone(BLK_POINTERS, q, n);
    }
  }

  /** The pointers on the way to block `k` are all there. */
  predicate Reaches(fs: Fs, p: int, d: nat, k: int)
    requires 0 <= k < Power(d)
    decreases d
  {
    if d == 0 then true
    else
      Digits(k, d);
      0 < p < |fs.img| && Reaches(fs, LittleEndian(fs.img[p], 4 * (k / Power(d - 1))), d - 1, k % Power(d - 1))
  }

  /** And then, and only then, they lead to an address. */
  lemma {:induction false} WalkReaches(fs: Fs, p: int, d: nat, k: int)
    requires 0 <= k < Power(d)
    ensures if Reaches(fs, p, d, k) then Walk(fs, p, d, k).Addr? else Walk(fs, p, d, k) == Stops
    decreases d
  {
    if d > 0 {
      Digits(k, d);
      if 0 < p < |fs.img| {
        WalkReaches(fs, LittleEndian(fs.img[p], 4 * (k / Power(d - 1))), d - 1, k % Power(d - 1));
      }
    }
  }

  lemma {:induction false} ConcatLength<T>(parts: seq<seq<T>>, n: int)
    requires forall i :: 0 <= i < |parts| ==> |parts[i]| == n
    ensures |Concat(parts)| == n * |parts|
    decreases |parts|
  {
    if parts != [] {
      var m := |parts| - 1;
      ConcatLength(parts[..m], n);
      assert n * (m + 1) == n * m + n;
    }
  }

  lemma {:induction false} ConcatAt<T>(parts: seq<seq<T>>, n: int, k: int)
    requires 0 < n && forall i :: 0 <= i < |parts| ==> |parts[i]| == n
    requires 0 <= k && k / n < |parts|
    ensures |Concat(parts)| == n * |parts| && k < n * |parts| && Concat(parts)[k] == parts[k / n][k % n]
    decreases |parts|
  {
    var m, q := |parts| - 1, k / n;
    ConcatLength(parts, n);
    ConcatLength(parts[..m], n);
    assert k == n * q + k % n;
    if q < m {
      ConcatAt(parts[..m], n, k);
    } else {
      assert q == m;
    }
  }

  /** The flat list of what is below an indirect pointer of level `d`: the blocks below its first entry, then those
      below the second, and so on.  Where a pointer does not lie in the image there are no addresses. */
  function Flat(fs: Fs, p: int, d: nat): seq<Trans>
    decreases d
  {
    if d == 0 then [Addr(p)]
    else if 0 < p < |fs.img| then
      Concat(seq(BLK_POINTERS, k requires 0 <= k < BLK_POINTERS => Flat(fs, LittleEndian(fs.img[p], 4 * k), d - 1)))
    else seq(Power(d), k => Stops)
  }

  lemma {:induction false} FlatLength(fs: Fs, p: int, d: nat)
    ensures |Flat(fs, p, d)| == Power(d)
    decreases d
  {
    if d > 0 && 0 < p < |fs.img| {
      var parts := seq(BLK_POINTERS,
          k requires 0 <= k < BLK_POINTERS => Flat(fs, LittleEndian(fs.img[p], 4 * k), d - 1));
      forall k | 0 <= k < |parts| ensures |parts[k]| == Power(d - 1) {
        FlatLength(fs, LittleEndian(fs.img[p], 4 * k), d - 1);
      }
      ConcatLength(parts, Power(d - 1));
    }
  }

  /** The list below a pointer of level `d`, taken apart by the leading digit of the position. */
  lemma FlatStep(fs: Fs, p: int, d: nat, k: int)
    requires d > 0 && 0 < p < |fs.img| && 0 <= k < Power(d)
    ensures var n := Power(d - 1);
            && 0 <= k / n < BLK_POINTERS && |Flat(fs, p, d)| == Power(d)
            && |Flat(fs, LittleEndian(fs.img[p], 4 * (k / n)), d - 1)| == n
            && Flat(fs, p, d)[k] == Flat(fs, LittleEndian(fs.img[p], 4 * (k / n)), d - 1)[k % n]
  {
    var n := Power(d - 1);
    Digits(k, d);
    FlatLength(fs, p, d);
    FlatLength(fs, LittleEndian(fs.img[p], 4 * (k / n)), d - 1);
    var parts := seq(BLK_POINTERS, j requires 0 <= j < BLK_POINTERS => Flat(fs, LittleEndian(fs.img[p], 4 * j), d - 1));
    forall j | 0 <= j < |parts| ensures |parts[j]| == n {
      FlatLength(fs, LittleEndian(fs.img[p], 4 * j), d - 1);
    }
    ConcatAt(parts, n, k);
  }

  /** Walking to block `k` finds element `k` of the flat list, whatever is missing elsewhere. */
  lemma {:induction false} WalkFlat(fs: Fs, p: int, d: nat, k: int)
    requires 0 <= k < Power(d)
    ensures |Flat(fs, p, d)| == Power(d) && Walk(fs, p, d, k) == Flat(fs, p, d)[k]
    decreases d
  {
    FlatLength(fs, p, d);
    if d > 0 {
      Digits(k, d);
      if 0 < p < |fs.img| {
        FlatStep(fs, p, d, k);
        WalkFlat(fs, LittleEndian(fs.img[p], 4 * (k / Power(d - 1))), d - 1, k % Power(d - 1));
      }
    }
  }

  /** The address the i-node's block map gives to block `idx`: 12 direct pointers, then what is below the
      single, the double and the triple indirect pointer. */
  function Mapped(fs: Fs, ino: int, idx: int): Trans
    requires Sound(fs) && InodeUsed(fs, ino) && 0 <= idx
  {
    var start := NDADDR;
    if idx < start then Addr(InodePointer(fs, ino, idx))
    else if idx < start + Power(1) then Walk(fs, InodePointer(fs, ino, 12), 1, idx - start)
    else if idx < start + Power(1) + Power(2) then Walk(fs, InodePointer(fs, ino, 13), 2, idx - start - Power(1))
    else if idx < start + Power(1) + Power(2) + Power(3) then
      Walk(fs, InodePointer(fs, ino, 14), 3, idx - start - Power(1) - Power(2))
    else Fails
  }

  /** Number of the first block whose address is below the triple indirect pointer. */
  const TRIPLE: int := 12 + 256 + 256 * 256

  lemma Powers()
    ensures Power(0) == 1 && Power(1) == 256 && Power(2) == 65536 && Power(3) == 16777216
  {
    assert Power(1) == 256 * Power(0);
    assert Power(2) == 256 * Power(1);
    assert Power(3) == 256 * Power(2);
  }

  /** The translation follows the block map everywhere but in the part of the triple region that lies
      beyond its first 256 * 256 blocks. */
  lemma TranslateMapped(fs: Fs, ino: int, idx: int)
    requires Sound(fs) && InodeUsed(fs, ino) && 0 <= idx && !(TRIPLE + 65536 <= idx < TRIPLE + Power(3))
    ensures Translate(fs, ino, idx) == Mapped(fs, ino, idx)
  {
    Powers();
    if idx < NDADDR {
    } else if idx < NDADDR + 256 {
      WalkOne(fs, InodePointer(fs, ino, 12), idx - NDADDR);
    } else if idx < TRIPLE {
      WalkTwo(fs, InodePointer(fs, ino, 13), idx - NDADDR - 256);
    } else if idx < TRIPLE + 65536 {
      WalkThree(fs, InodePointer(fs, ino, 14), idx - TRIPLE);
    }
  }

  lemma WalkOne(fs: Fs, p: int, k: int)
    requires 0 <= k < Power(1)
    ensures Walk(fs, p, 1, k) == Entry(fs, p, k)
  {
    Powers();
    QuotientOf(k, 1, k, 0);
  }

  lemma WalkTwo(fs: Fs, p: int, k: int)
    requires 0 <= k < Power(2)
    ensures Walk(fs, p, 2, k) == EntryOf(fs, Entry(fs, p, k / 256), k % 256)
  {
    Powers();
    var q := Entry(fs, p, k / 256);
    if q.Addr? {
      WalkOne(fs, q.addr, k % 256);
    }
  }

  lemma WalkThree(fs: Fs, p: int, k: int)
    requires 0 <= k < 65536
    ensures k < Power(3)
    ensures Walk(fs, p, 3, k) == EntryOf(fs, EntryOf(fs, Entry(fs, p, k / 65536), k / 256), k % 256)
  {
    Powers();
    var q := Entry(fs, p, 0);
    assert k / 65536 == 0 && k % 65536 == k;
    if q.Addr? {
      WalkTwo(fs, q.addr, k);
    }
  }

  /** Beyond them it always goes astray: the second index is not reduced modulo the size of a pointer
      block. */
  lemma TranslateAstray(fs: Fs, ino: int, idx: int)
    requires Sound(fs) && InodeUsed(fs, ino) && TRIPLE + 65536 <= idx < TRIPLE + Power(3)
    ensures Translate(fs, ino, idx) == Stops
  {
    Powers();
    var k := idx - TRIPLE;
    assert k / 256 >= 256;
  }

  /** So for a block the map has, the translation is right exactly outside that part. */
  lemma TranslateExact(fs: Fs, ino: int, idx: int)
    requires Sound(fs) && InodeUsed(fs, ino) && 0 <= idx && Mapped(fs, ino, idx) != Stops
    ensures Translate(fs, ino, idx) == Mapped(fs, ino, idx) <==> !(TRIPLE + 65536 <= idx < TRIPLE + Power(3))
  {
    if TRIPLE + 65536 <= idx < TRIPLE + Power(3) {
      TranslateAstray(fs, ino, idx);
    } else {
      TranslateMapped(fs, ino, idx);
    }
  }

  /** The block map of a file as one list: 12 direct pointers, then what is below the three indirect ones. */
  function BlockList(fs: Fs, ino: int): seq<Trans>
    requires Sound(fs) && InodeUsed(fs, ino)
  {
    seq(NDADDR, k requires 0 <= k < NDADDR => Addr(InodePointer(fs, ino, k)))
    + Flat(fs, InodePointer(fs, ino, 12), 1) + Flat(fs, InodePointer(fs, ino, 13), 2)
        + Flat(fs, InodePointer(fs, ino, 14), 3)
  }

  /** The pointers of the i-node and of the pointer blocks that lead to block `idx` are all there. */
  predicate Present(fs: Fs, ino: int, idx: int)
    requires Sound(fs) && InodeUsed(fs, ino) && 0 <= idx
  {
    var start := NDADDR;
    if idx < start then true
    else if idx < start + Power(1) then Reaches(fs, InodePointer(fs, ino, 12), 1, idx - start)
    else if idx < start + Power(1) + Power(2) then Reaches(fs, InodePointer(fs, ino, 13), 2, idx - start - Power(1))
    else
      && idx < start + Power(1) + Power(2) + Power(3)
      && Reaches(fs, InodePointer(fs, ino, 14), 3, idx - start - Power(1) - Power(2))
  }

  /** The block map gives element `idx` of that list, which is an address exactly when the pointers that lead to it
      are there. */
  lemma MappedFlat(fs: Fs, ino: int, idx: int)
    requires Sound(fs) && InodeUsed(fs, ino) && 0 <= idx
    ensures |BlockList(fs, ino)| == TRIPLE + Power(3)
    ensures Mapped(fs, ino, idx) == if idx < TRIPLE + Power(3) then BlockList(fs, ino)[idx] else Fails
    ensures Mapped(fs, ino, idx).Addr? <==> Present(fs, ino, idx)
  {
    hide Walk, Flat, Reaches, InodePointer, Sound;
    Powers();
    var p1, p2, p3 := InodePointer(fs, ino, 12), InodePointer(fs, ino, 13), InodePointer(fs, ino, 14);
    FlatLength(fs, p1, 1);
    FlatLength(fs, p2, 2);
    FlatLength(fs, p3, 3);
    if idx < NDADDR {
    } else if idx < NDADDR + 256 {
      WalkFlat(fs, p1, 1, idx - NDADDR);
      WalkReaches(fs, p1, 1, idx - NDADDR);
    } else if idx < TRIPLE {
      WalkFlat(fs, p2, 2, idx - NDADDR - 256);
      WalkReaches(fs, p2, 2, idx - NDADDR - 256);
    } else if idx < TRIPLE + Power(3) {
      WalkFlat(fs, p3, 3, idx - TRIPLE);
      WalkReaches(fs, p3, 3, idx - TRIPLE);
    }
  }

  /** On any file block `idx` is element `idx` of the list, up to the first 256 * 256 blocks of the triple region; and
      that is an address if the pointers that lead to it, and no others, are there. */
  lemma TranslateFlat(fs: Fs, ino: int, idx: int)
    requires Sound(fs) && InodeUsed(fs, ino) && 0 <= idx < TRIPLE + 65536
    ensures idx < |BlockList(fs, ino)| && Translate(fs, ino, idx) == BlockList(fs, ino)[idx]
    ensures Translate(fs, ino, idx).Addr? <==> Present(fs, ino, idx)
  {
    Powers();
    TranslateMapped(fs, ino, idx);
    MappedFlat(fs, ino, idx);
  }

  // ---------------------------------------------------------------- an image on which the translation fails

  const ONES: Sector := seq(1024, k => 255)
  /** A block of pointers to block 4. */
  const FOURS: Sector := seq(1024, k => if k % 4 == 0 then 4 else 0)
  /** One group of eight i-nodes, all in use; they and block 4 hold nothing but pointers to block 4. */
  const WITNESS: Fs := Fs([ONES, ONES, ONES, FOURS, FOURS], 5, 2, 8, 8, [Group(1, 2, 3)])

  lemma Pointers(k: int)
    requires 0 <= k < BLK_POINTERS
    ensures LittleEndian(FOURS, 4 * k) == 4
  {
  }

  lemma WitnessSound()
    ensures Sound(WITNESS) && InodeUsed(WITNESS, 1) && InodePos(WITNESS, 1) == 3 * BLKSIZE
    ensures forall k :: 0 <= k < NADDR ==> InodePointer(WITNESS, 1, k) == 4
  {
    assert GroupSound(WITNESS, 0);
    assert ONES[0] == 255;
    forall k | 0 <= k < NADDR
      ensures InodePointer(WITNESS, 1, k) == 4
    {
      Pointers(10 + k);
    }
  }

  lemma {:induction false} WitnessWalk(d: nat, k: int)
    requires 0 <= k < Power(d)
    ensures Walk(WITNESS, 4, d, k) == Addr(4)
    decreases d
  {
    if d > 0 {
      Digits(k, d);
      Pointers(k / Power(d - 1));
      WitnessWalk(d - 1, k % Power(d - 1));
    }
  }

  /** Its first i-node has every block of the triple region, and none beyond the first 256 * 256 is found. */
  lemma WitnessAstray(idx: int)
    requires TRIPLE + 65536 <= idx < TRIPLE + Power(3)
    ensures Sound(WITNESS) && InodeUsed(WITNESS, 1)
    ensures Mapped(WITNESS, 1, idx) == Addr(4) && Translate(WITNESS, 1, idx) == Stops
  {
    WitnessSound();
    Powers();
    WitnessWalk(3, idx - TRIPLE);
    TranslateAstray(WITNESS, 1, idx);
  }

  // ---------------------------------------------------------------- what is checked and what is not

  /** A file's block at address `a` of the image is handed out exactly when it is marked as used or its address is
      not below the block count, where it is not checked. */
  lemma CheckedExact(fs: Fs, ino: int, idx: int, a: int)
    requires Sound(fs) && 0 < ino && 0 <= idx && Translate(fs, ino, idx) == Addr(a) && 0 < a < |fs.img|
    ensures Outcome(fs, ino, idx) == At(a) <==> (a < fs.blockCount ==> BlockUsed(fs, a))
  {
  }

  /** The bit of an i-node, of which the valid numbers are 1 to the number of i-nodes. */
  predicate InodeMarked(fs: Fs, ino: int)
    requires Sound(fs) && 0 < ino <= fs.inodeCount
  {
    GroupOf(ino, fs.inodesPerGroup, fs.inodeCount + 1, |fs.groups| + 1);
    LastGroup(ino - 1, fs.inodesPerGroup, |fs.groups|);
    var g := (ino - 1) / fs.inodesPerGroup;
    assert GroupSound(fs, g);
    BitSet(fs.img[fs.groups[g].inodeBitmap], (ino - 1) % fs.inodesPerGroup)
  }

  lemma LastGroup(n: int, perGroup: int, groups: int)
    requires 0 < perGroup && 0 <= n < perGroup * groups
    ensures 0 <= n / perGroup < groups
  {
    if n / perGroup >= groups {
      MulMonotone(groups, n / perGroup, perGroup);
    }
  }

  const EINVAL: int := 22

  /** What `ext2_inode_used` answers. */
  function InodeAnswer(fs: Fs, ino: int): int
    requires Sound(fs)
  {
    if ino <= 0 || ino >= fs.inodeCount then EINVAL else if InodeUsed(fs, ino) then 1 else 0
  }

  /** Of the valid numbers it is wrong about the last one, and about no other. */
  lemma LastInode(fs: Fs, ino: int)
    requires Sound(fs) && 0 < ino <= fs.inodeCount
    ensures InodeAnswer(fs, ino) == (if InodeMarked(fs, ino) then 1 else 0) <==> ino < fs.inodeCount
  {
  }
}
