/** A small image whose contents are spelled out, and what the driver makes of it, in plain numbers: two groups, each
    with eight i-nodes and eight blocks; i-node 2 has direct, indirect, doubly and triply indirect blocks. */
module Ext2Sample {
  import opened BlockCache
  import opened BlockPool
  import opened Bytes
  import opened DivMod
  import opened Ext2Image

  /** Byte `i` of a word in memory, on a little-endian machine. */
  function ByteOf(w: nat, i: int): Byte {
    if i == 0 then w % 256 else if i == 1 then w / 256 % 256 else if i == 2 then w / 65536 % 256
    else w / 16777216 % 256
  }

  const ZEROS: Sector := seq(1024, k => 0)

  /** A bitmap of eight bits. */
  function Bitmap(b: Byte): Sector {
    seq(1024, k => if k == 0 then b else 0)
  }

  /** A pointer block that holds `first`, `first + 1` and so on. */
  function Table(first: nat): Sector {
    seq(1024, k requires 0 <= k < 1024 => ByteOf(first + k / 4, k % 4))
  }

  /** One that holds 13 once and 14 from then on, and one that holds 11 throughout. */
  const SECOND: Sector := seq(1024, k => if k == 0 then 13 else if k % 4 == 0 then 14 else 0)
  const THIRD: Sector := seq(1024, k => if k % 4 == 0 then 11 else 0)

  /** The pointers of i-node 2. */
  const POINTERS: seq<nat> := [8, 9, 0, 0x04030201, 10, 16, 26, 27, 28, 29, 30, 31, 10, 11, 12]

  /** The i-node tables of the two groups: i-node 2 lies 128 bytes into the first, i-node 11 has 7 as its first byte. */
  const INODES0: Sector :=
    seq(1024, k requires 0 <= k < 1024 => if 168 <= k < 228 then ByteOf(POINTERS[(k - 168) / 4], k % 4) else 0)
  const INODES1: Sector := seq(1024, k => if k == 256 then 7 else 0)

  const SAMPLE: Fs := Fs(
    [ZEROS, ZEROS, Bitmap(0x8d), Bitmap(0x03), INODES0, Bitmap(0x41), Bitmap(0x04), INODES1,
     Bitmap(0x99), Bitmap(0x77), Table(1000), SECOND, THIRD, Table(2000), Table(3000), ZEROS, ZEROS],
    16, 16, 8, 8, [Group(2, 3, 4), Group(5, 6, 7)])

  lemma Entries(first: nat, j: nat)
    requires j < 256 && first + j < 65536
    ensures LittleEndian(Table(first), 4 * j) == first + j
  {
    hide LittleEndian, ByteOf;
    var b, w := Table(first), first + j;
    assert b[4 * j] == ByteOf(w, 0) && b[4 * j + 1] == ByteOf(w, 1) && b[4 * j + 2] == ByteOf(w, 2)
           && b[4 * j + 3] == ByteOf(w, 3);
    WordAt(b, 4 * j, w);
  }

  lemma SampleSound()
    ensures Sound(SAMPLE)
  {
    assert GroupSound(SAMPLE, 0) && GroupSound(SAMPLE, 1);
  }

  /** The bitmaps: i-nodes 1, 2 and 11 are in use, and blocks 1, 3, 4, 8, 9 and 15. */
  lemma SampleBits()
    ensures Sound(SAMPLE)
    ensures forall ino :: InodeUsed(SAMPLE, ino) <==> ino in {1, 2, 11}
    ensures forall addr :: 0 < addr < 16 ==> (BlockUsed(SAMPLE, addr) <==> addr in {1, 3, 4, 8, 9, 15})
    ensures InodePos(SAMPLE, 2) == 4224 && InodePos(SAMPLE, 11) == 7424
  {
    SampleSound();
  }

  /** The pointers of i-node 2. */
  lemma SamplePointers(k: nat)
    requires k < 15
    ensures Sound(SAMPLE) && InodePointer(SAMPLE, 2, k) == POINTERS[k]
  {
    hide LittleEndian;
    SampleBits();
    assert SAMPLE.img[4] == INODES0;
    PointerBytes(k);
  }

  lemma PointerBytes(k: nat)
    requires k < 15
    ensures LittleEndian(INODES0, 168 + 4 * k) == POINTERS[k]
  {
    hide ByteOf, LittleEndian;
    var w := POINTERS[k];
    PointerByte(k, 0);
    PointerByte(k, 1);
    PointerByte(k, 2);
    PointerByte(k, 3);
    WordAt(INODES0, 168 + 4 * k, w);
  }

  lemma PointerByte(k: nat, i: nat)
    requires k < 15 && i < 4
    ensures INODES0[168 + 4 * k + i] == ByteOf(POINTERS[k], i)
  {
    hide ByteOf;
  }

  lemma WordAt(b: Sector, o: nat, w: nat)
    requires o <= 1020 && w < 0x1_0000_0000 && b[o] == ByteOf(w, 0) && b[o + 1] == ByteOf(w, 1)
    requires b[o + 2] == ByteOf(w, 2) && b[o + 3] == ByteOf(w, 3)
    ensures LittleEndian(b, o) == w
  {
    FourDigits(w);
  }

  /** Where its blocks lie, at both ends of each region ... */
  lemma SampleBlocks()
    ensures Sound(SAMPLE)
    ensures Translate(SAMPLE, 2, 0) == Addr(8) && Translate(SAMPLE, 2, 3) == Addr(67305985)
    ensures Translate(SAMPLE, 2, 11) == Addr(31)
    ensures Translate(SAMPLE, 2, 12) == Addr(1000) && Translate(SAMPLE, 2, 267) == Addr(1255)
    ensures Translate(SAMPLE, 3, 0) == Fails && Translate(SAMPLE, 0, 5) == Addr(5)
  {
    hide LittleEndian, InodePointer;
    SampleBits();
    SamplePointers(0);
    SamplePointers(3);
    SamplePointers(11);
    SamplePointers(12);
    Entries(1000, 0);
    Entries(1000, 255);
  }

  lemma SampleDoubles()
    ensures Sound(SAMPLE)
    ensures Translate(SAMPLE, 2, 268) == Addr(2000) && Translate(SAMPLE, 2, 523) == Addr(2255)
    ensures Translate(SAMPLE, 2, 524) == Addr(3000) && Translate(SAMPLE, 2, 65803) == Addr(3255)
  {
    hide LittleEndian, InodePointer;
    SampleBits();
    SamplePointers(13);
    Seconds();
    Entries(2000, 0);
    Entries(2000, 255);
    Entries(3000, 0);
    Entries(3000, 255);
  }

  /** ... and past the last that can be reached. */
  lemma SampleTriples()
    ensures Sound(SAMPLE)
    ensures Translate(SAMPLE, 2, 65804) == Addr(2000) && Translate(SAMPLE, 2, 66060) == Addr(3000)
    ensures Translate(SAMPLE, 2, 131339) == Addr(3255) && Translate(SAMPLE, 2, 131340) == Stops
    ensures Translate(SAMPLE, 2, 16843019) == Stops && Translate(SAMPLE, 2, 16843020) == Fails
  {
    hide LittleEndian, InodePointer;
    SampleBits();
    SamplePointers(14);
    Seconds();
    Entries(2000, 0);
    Entries(3000, 0);
    Entries(3000, 255);
  }

  lemma Seconds()
    ensures LittleEndian(SECOND, 0) == 13 && LittleEndian(SECOND, 4) == 14 && LittleEndian(SECOND, 1020) == 14
    ensures LittleEndian(THIRD, 0) == 11 && LittleEndian(THIRD, 4) == 11 && LittleEndian(THIRD, 1020) == 11
  {
  }

  /** What a caller of `blk_get` gets: used blocks, an unchecked one past the count, a hole, and nothing or a panic. */
  lemma SampleOutcomes()
    ensures Sound(SAMPLE)
    ensures Outcome(SAMPLE, 2, 0) == At(8) && Outcome(SAMPLE, 2, 1) == At(9) && Outcome(SAMPLE, 2, 5) == At(16)
    ensures Outcome(SAMPLE, 2, 2) == Hole && Outcome(SAMPLE, 2, 4) == Halts && Outcome(SAMPLE, 2, 12) == Halts
    ensures Outcome(SAMPLE, 3, 0) == NoBlock && Outcome(SAMPLE, 0, 0) == Hole && Outcome(SAMPLE, 0, 16) == At(16)
  {
    SampleBits();
    SampleBlocks();
    SamplePointers(1);
    SamplePointers(2);
    SamplePointers(4);
    SamplePointers(5);
  }

  /** Nothing is held, and each buffer can be released `room` times. */
  ghost predicate Ready(cache: Cache, room: int)
    reads cache, cache.blocks
  {
    cache.Valid() && cache.held == NONE && cache.fs == SAMPLE && Roomy(cache.Now(), room)
  }

  lemma Fewer(p: Pool, p': Pool, room: nat, n: nat)
    requires Shape(p) && Shape(p') && Roomy(p, room) && Grown(p, p', n) && n <= room < WRAP
    ensures Roomy(p', room - n)
  {
    GrownRoomy(p, p', room, n);
  }

  method Look(cache: Cache, idx: nat, ghost room: nat) returns (c: Content)
    requires Ready(cache, room) && LOOKUP + 1 <= room < WRAP && ContentOf(SAMPLE, 2, idx) != Crashed
    modifies cache, cache.blocks
    ensures Ready(cache, room - LOOKUP - 1) && c == ContentOf(SAMPLE, 2, idx)
  {
    hide ContentOf, Steady, Stacked;
    ghost var p := cache.Now();
    c := cache.LookUp(2, idx);
    Fewer(p, cache.Now(), room, LOOKUP + 1);
  }

  method Inode(cache: Cache, ino: nat, ghost room: nat) returns (err: int, inode: seq<Byte>)
    requires Ready(cache, room) && 3 <= room < WRAP
    modifies cache, cache.blocks
    ensures Ready(cache, room - 2) && Sound(SAMPLE) && err == if InodeUsed(SAMPLE, ino) then 0 else ENONET
    ensures err == 0 ==> var pos := InodePos(SAMPLE, ino);
            inode == SAMPLE.img[pos / BLKSIZE][pos % BLKSIZE..pos % BLKSIZE + INODE_SIZE]
  {
    hide InodeUsed, InodePos, Steady, Stacked;
    ghost var p := cache.Now();
    err, inode := cache.InodeRead(ino);
    Fewer(p, cache.Now(), room, 2);
  }

  method AskInode(cache: Cache, ino: nat, ghost room: nat) returns (used: int)
    requires Ready(cache, room) && 2 <= room < WRAP
    modifies cache, cache.blocks
    ensures Ready(cache, room - 1) && Sound(SAMPLE) && used == InodeAnswer(SAMPLE, ino)
  {
    hide InodeAnswer, Steady, Stacked;
    ghost var p := cache.Now();
    used := cache.Ext2InodeUsed(ino);
    Fewer(p, cache.Now(), room, 1);
  }

  method AskBlock(cache: Cache, addr: nat, ghost room: nat) returns (used: int)
    requires Ready(cache, room) && 2 <= room < WRAP && addr > 0
    modifies cache, cache.blocks
    ensures Ready(cache, room - 1) && Sound(SAMPLE)
    ensures used == if addr >= 16 then EINVAL else if BlockUsed(SAMPLE, addr) then 1 else 0
  {
    hide BlockUsed, Steady, Stacked;
    ghost var p := cache.Now();
    var alive;
    used, alive := cache.Ext2BlockUsed(addr);
    Fewer(p, cache.Now(), room, 1);
  }

  /** The program on this image: three blocks of the root directory, i-node 11 and i-node 3, which is free, and which
      i-nodes and blocks of some are in use. */
  method ReadSample()
    returns (blocks: seq<Content>, inode: seq<Byte>, errs: seq<int>, inodes: seq<int>, used: seq<int>)
    ensures blocks == [Data(Bitmap(0x99)), Data(Bitmap(0x77)), Zeros]
    ensures |inode| == 128 && inode[0] == 7 && errs == [0, 64]
    ensures inodes == [22, 1, 1, 0, 0, 1, 0, 22]
    ensures used == [1, 0, 1, 1, 0, 1, 1, 0, 1, 22]
  {
    hide Outcome, InodeUsed, BlockUsed, InodePos, Sound, Ready;
    SampleBits();
    SampleOutcomes();
    var cache := Mounted();
    var room := WRAP - 1;
    var first := Look(cache, 0, room);
    var second := Look(cache, 1, room - 7);
    var third := Look(cache, 2, room - 14);
    blocks := [first, second, third];
    var err, missing, none;
    err, inode := Inode(cache, 11, room - 21);
    missing, none := Inode(cache, 3, room - 23);
    errs := [err, missing];
    inodes := AskInodes(cache, room - 25);
    used := AskBlocks(cache, room - 33);
  }

  method AskInodes(cache: Cache, ghost room: nat) returns (used: seq<int>)
    requires Ready(cache, room) && 100 < room < WRAP
    modifies cache, cache.blocks
    ensures Ready(cache, room - 8) && used == [22, 1, 1, 0, 0, 1, 0, 22]
  {
    hide InodeUsed, Sound, Ready;
    SampleBits();
    var inos := [0, 1, 2, 3, 10, 11, 12, 16];
    used := [];
    for i := 0 to 8
      invariant Ready(cache, room - i) && used == [22, 1, 1, 0, 0, 1, 0, 22][..i]
    {
      var answer := AskInode(cache, inos[i], room - i);
      used := used + [answer];
    }
  }

  method AskBlocks(cache: Cache, ghost room: nat) returns (used: seq<int>)
    requires Ready(cache, room) && 100 < room < WRAP
    modifies cache, cache.blocks
    ensures Ready(cache, room - 10) && used == [1, 0, 1, 1, 0, 1, 1, 0, 1, 22]
  {
    hide BlockUsed, Sound, Ready;
    SampleBits();
    var addrs := [1, 2, 3, 4, 5, 8, 9, 14, 15, 16];
    used := [];
    for i := 0 to 10
      invariant Ready(cache, room - i) && used == [1, 0, 1, 1, 0, 1, 1, 0, 1, 22][..i]
    {
      var answer := AskBlock(cache, addrs[i], room - i);
      used := used + [answer];
    }
  }

  method Mounted() returns (cache: Cache)
    ensures Ready(cache, WRAP - 1) && fresh(cache) && fresh(cache.blocks)
  {
    SampleSound();
    cache := new Cache(SAMPLE);
  }
}
