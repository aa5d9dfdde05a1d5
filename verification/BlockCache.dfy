/** The block cache of `ext2/ext2fs.c` and the routines that read metadata through it.  Looking a block up
    for a file re-enters the cache to read bitmaps, i-nodes and pointer blocks.

    The list that `blk_put` and `blk_alloc` share is used as a stack, and a buffer that is found again stays where it
    is on it: once all buffers are in use every miss reclaims the same one, the one loaded latest. */
module BlockCache {
  import opened Bytes
  import opened Ext2Image
  import opened BlockPool
  import opened Sequences

  /** What `blk_get` returns: `NULL`, `BLK_ZERO` or a buffer; or nothing, because the program stopped. */
  datatype Got = Null | Zero | Buffer(i: int) | Stopped

  /** At most so many releases happen in the course of one lookup, and of one translation. */
  const LOOKUP: int := 6
  const TRANSLATION: int := 5

  const ENONET: int := 64

  /** Buffer `i` caches block `idx` of file `ino`. */
  ghost predicate Holds(p: Pool, i: int, ino: nat, idx: nat)
    requires Shape(p)
  {
    Resident(p, i) && p.bufs[i].inode == ino && p.bufs[i].index == idx
  }

  ghost predicate Absent(p: Pool, ino: nat, idx: nat)
    requires Shape(p)
  {
    forall j {:trigger Holds(p, j, ino, idx)} :: !Holds(p, j, ino, idx)
  }

  /** No block of a file was brought into the pool. */
  ghost predicate NoNewFile(p: Pool, p': Pool)
    requires Shape(p) && Shape(p')
  {
    forall ino: nat, idx: nat {:trigger Absent(p', ino, idx)} :: ino > 0 && Absent(p, ino, idx) ==> Absent(p', ino, idx)
  }

  /** What a lookup tells a client about a block. */
  datatype Content = Missing | Zeros | Data(data: Sector) | Crashed

  function ContentOf(fs: Fs, ino: nat, idx: nat): Content
    requires Sound(fs)
  {
    match Outcome(fs, ino, idx)
    case NoBlock => Missing
    case Hole => Zeros
    case At(addr) => if 0 <= addr < |fs.img| then Data(fs.img[addr]) else Crashed
    case Halts => Crashed
  }

  class Cache {
    const fs: Fs
    const blocks: array<Buf>
    var freelst: seq<int>
    var lrulst: seq<int>
    var buckets: seq<seq<int>>
    /** The buffer in use, and how often each was released after it had become reclaimable. */
    ghost var held: int
    ghost var hits: seq<int>
    /** The buffers that were released, in the order of time. */
    ghost var releases: seq<int>

    ghost function Now(): Pool
      reads this, blocks
    {
      Pool(blocks[..], freelst, lrulst, buckets, hits)
    }

    ghost predicate Valid()
      reads this, blocks
    {
      Inv(fs, Now(), held, NONE) && Stacked(Now())
    }

    /** `blk_init` */
    constructor (fs: Fs)
      requires Sound(fs)
      ensures Valid() && this.fs == fs && held == NONE && releases == [] && Roomy(Now(), WRAP - 1) && fresh(blocks)
      ensures FirstBlocks(Now(), 0)
    {
      this.fs := fs;
      blocks := new Buf[NBLOCKS](i => Buf(0, 0, 0, 0, seq(1024, k => 0)));
      freelst, lrulst, buckets := [], [], seq(NBUCKETS, k => []);
      held, hits, releases := NONE, seq(NBLOCKS, i => 0), [];
      new;
      var i := 0;
      while i < NBLOCKS
        invariant 0 <= i <= NBLOCKS && freelst == seq(i, k => k) && lrulst == [] && releases == []
        invariant buckets == seq(NBUCKETS, k => []) && hits == seq(NBLOCKS, i => 0) && held == NONE
        invariant forall k :: 0 <= k < NBLOCKS ==> blocks[k].refcnt == 0
      {
        freelst := freelst + [i];
        i := i + 1;
      }
      InitialInv(fs, Now());
    }

    /** `blk_alloc`: never finds the pool exhausted, since nothing is held.  What it reclaims once no buffer is free is
        always the last of the 64, the one loaded latest. */
    method Alloc() returns (i: int)
      requires Valid() && held == NONE
      modifies this`freelst, this`lrulst, this`buckets
      ensures i == Victim(old(Now())) && Inv(fs, Now(), NONE, i) && Stacked(Now()) && Now() == Taken(old(Now()))
      ensures forall j {:trigger Resident(Now(), j)} :: Resident(Now(), j) ==> Resident(old(Now()), j)
      ensures old(freelst) == [] ==>
                (LeastRecent(releases, i) <==> forall j :: 0 <= j < LAST ==> After(releases, i, j))
    {
      ghost var p := Now();
      StackedTaken(fs, p);
      if freelst != [] {
        FreeTaken(fs, p);
        SameBuckets(fs, p, p.(free := p.free[1..]));
        i := freelst[0];
        freelst := freelst[1..];
        assert Now() == p.(free := p.free[1..]);
        return;
      }
      LruTaken(fs, p);
      EvictedResident(fs, p);
      ReclaimExact(releases);
      i := lrulst[0];
      lrulst := lrulst[1..];
      var k := Home(blocks[i]);
      buckets := buckets[k := Without(buckets[k], i)];
      assert Now() == Evicted(p);
    }

    /** `blk_put` */
    method BlkPut(i: int)
      requires Valid() && held == i != NONE && hits[i] + 1 < WRAP
      modifies this`lrulst, this`held, this`hits, this`releases, blocks
      ensures Valid() && held == NONE && Grown(old(Now()), Now(), 1) && NoNewFile(old(Now()), Now())
      ensures Now() == Put(old(Now()), i) && releases == old(releases) + [i]
    {
      ghost var p := Now();
      PutKeys(fs, p, i);
      HeldPut(fs, p, i);
      StackedPut(fs, p, i);
      releases := releases + [i];
      blocks[i] := blocks[i].(refcnt := (blocks[i].refcnt - 1) % WRAP);
      held := NONE;
      if blocks[i].refcnt > 0 {
        hits := hits[i := hits[i] + 1];
        assert Now() == Put(p, i);
        return;
      }
      lrulst := [i] + lrulst;
      assert Now() == Put(p, i);
    }

    /** The search loop of `blk_get`. */
    method Search(ino: nat, idx: nat) returns (i: int)
      requires Valid()
      ensures if i == NONE then Absent(Now(), ino, idx) else Holds(Now(), i, ino, idx)
    {
      ghost var p := Now();
      var k := (ino + idx) % NBUCKETS;
      assert BucketOk(p, k);
      forall m | 0 <= m < |buckets[k]| ensures 0 <= buckets[k][m] < NBLOCKS {
        assert buckets[k][m] in p.buckets[k];
      }
      var n := 0;
      while n < |buckets[k]|
        invariant 0 <= n <= |buckets[k]|
        invariant forall m :: 0 <= m < n ==> !(blocks[buckets[k][m]].inode == ino && blocks[buckets[k][m]].index == idx)
      {
        i := buckets[k][n];
        assert i in p.buckets[k];
        if blocks[i].inode == ino && blocks[i].index == idx {
          assert Resident(p, i) && Holds(p, i, ino, idx);
          return;
        }
        n := n + 1;
      }
      forall j {:trigger Holds(p, j, ino, idx)} ensures !Holds(p, j, ino, idx) {
      }
      i := NONE;
    }

    /** The end of `blk_get`: `pread` into a buffer that is filed under the key. */
    method Load(ino: nat, idx: nat, blkaddr: int) returns (r: Got)
      requires Valid() && held == NONE && 0 < blkaddr
      requires Outcome(fs, ino, idx) == if blkaddr < |fs.img| then At(blkaddr) else Halts
      requires Absent(Now(), ino, idx)
      modifies this, blocks
      ensures if blkaddr < |fs.img| then r.Buffer? else r == Stopped
      ensures r != Stopped ==> Valid() && Grown(old(Now()), Now(), 0)
      ensures r != Stopped ==> r.i == Victim(old(Now()))
      ensures r != Stopped ==> held == r.i && Holds(Now(), r.i, ino, idx) && blocks[r.i].data == fs.img[blkaddr]
      ensures r != Stopped && ino == 0 ==> NoNewFile(old(Now()), Now())
      ensures r != Stopped ==>
                && releases == old(releases)
                && Now() == Missed(old(Now()), Buf(ino, idx, blkaddr, 1, fs.img[blkaddr]))
    {
      hide Outcome, Down, Unique, Good, Placed, Filed, Reclaimable, Steady, NoNewFile, Absent;
      ghost var p0 := Now();
      var i := Alloc();
      ghost var p := Now();
      if blkaddr >= |fs.img| {
        return Stopped;
      }
      var b := Buf(ino, idx, blkaddr, 1, fs.img[blkaddr]);
      Loaded(fs, p0, b);
      blocks[i] := b;
      var k := Home(b);
      buckets := buckets[k := [i] + buckets[k]];
      hits := hits[i := 0];
      held := i;
      assert Now() == Filled(p, i, b);
      r := Buffer(i);
    }

    /** `blk_get`: the answer depends on the image alone, and a buffer that is returned holds the block of
        the image that the translation names. */
    method BlkGet(ino: nat, idx: nat) returns (r: Got)
      requires Valid() && held == NONE && Roomy(Now(), if ino == 0 then 1 else LOOKUP + 1)
      modifies this, blocks
      ensures r.Null? <==> Outcome(fs, ino, idx) == NoBlock
      ensures r.Zero? <==> Outcome(fs, ino, idx) == Hole
      ensures r.Stopped? <==> Outcome(fs, ino, idx) == Halts
      ensures !r.Stopped? ==> Valid() && Grown(old(Now()), Now(), if ino == 0 then 0 else LOOKUP)
      ensures ino == 0 && !r.Stopped? ==> NoNewFile(old(Now()), Now()) && releases == old(releases)
      ensures ino == 0 && r.Buffer? ==>
                && idx < |fs.img|
                && (Absent(old(Now()), 0, idx) ==> r.i == Victim(old(Now())))
                && Now() == if Absent(old(Now()), 0, idx) then Missed(old(Now()), Buf(0, idx, idx, 1, fs.img[idx]))
                            else old(Now())
      ensures r.Buffer? ==> held == r.i && Holds(Now(), r.i, ino, idx)
      ensures r.Buffer? ==>
                && 0 < Outcome(fs, ino, idx).addr < |fs.img|
                && blocks[r.i].data == fs.img[Outcome(fs, ino, idx).addr]
      ensures r.Null? || r.Zero? ==> held == NONE
      decreases if ino > 0 then 1 else 0, 1
    {
      var i := Search(ino, idx);
      if i != NONE {
        Found(fs, Now(), i, ino, idx);
        GrownTrans(Now(), Now(), Now(), 0, LOOKUP);
        held := i;
        return Buffer(i);
      }
      ghost var h := Now();
      var t := BlkaddrRead(ino, idx);
      if t.Stops? {
        return Stopped;
      }
      if t.Fails? {
        return Null;
      }
      var blkaddr := t.addr;
      if blkaddr == 0 {
        return Zero;
      }
      ghost var h1, n := Now(), if ino == 0 then 0 else TRANSLATION;
      if ino > 0 {
        var used, alive := Ext2BlockUsed(blkaddr);
        if used == 0 {
          return Stopped;
        }
        GrownTrans(h, h1, Now(), TRANSLATION, 1);
        n := LOOKUP;
      }
      ghost var h2 := Now();
      r := Load(ino, idx, blkaddr);
      if r != Stopped {
        GrownTrans(h, h2, Now(), n, 0);
      }
    }

    /** Whether some buffer is close to its last release: so many more of them would be too many.  When nothing is held
        the reference count tells how often a buffer was released. */
    method SomeWorn() returns (worn: bool)
      requires Valid() && held == NONE
      ensures worn <==> !Roomy(Now(), LOOKUP + 1)
    {
      worn := false;
      ghost var p := Now();
      var i := 0;
      while i < NBLOCKS
        invariant 0 <= i <= NBLOCKS
        invariant worn <==> exists j :: 0 <= j < i && hits[j] + LOOKUP + 1 >= WRAP
      {
        Releases(fs, p, i);
        if (WRAP - blocks[i].refcnt) % WRAP + LOOKUP + 1 >= WRAP {
          worn := true;
        }
        i := i + 1;
      }
    }

    /** A client that looks up a block and releases it. */
    method LookUp(ino: nat, idx: nat) returns (c: Content)
      requires Valid() && held == NONE && Roomy(Now(), LOOKUP + 1)
      modifies this, blocks
      ensures c == ContentOf(fs, ino, idx)
      ensures c != Crashed ==> Valid() && held == NONE && Grown(old(Now()), Now(), LOOKUP + 1)
    {
      hide Grown, Steady, Stacked, Unique, Good, Placed, Filed, Reclaimable, NoNewFile;
      ghost var p := Now();
      var r := BlkGet(ino, idx);
      if r.Stopped? {
        return Crashed;
      }
      ghost var p1, n := Now(), if ino == 0 then 0 else LOOKUP;
      if r.Buffer? {
        c := Data(blocks[r.i].data);
        StillRoom(p, p1, r.i, n);
        BlkPut(r.i);
        GrownTrans(p, p1, Now(), n, 1);
        GrownMore(p, Now(), n + 1, LOOKUP + 1);
      } else {
        c := if r.Null? then Missing else Zeros;
        GrownMore(p, Now(), n, LOOKUP + 1);
      }
    }

    /** A client that looks up one block after another, as all callers do: it gets what the image holds, in whatever
        order it asks and however often, until the program stops or some buffer is worn.  Once no buffer is free the
        list does not change any more, and all buffers but the last keep what they hold. */
    method Lookups(keys: seq<(nat, nat)>) returns (got: seq<Content>, worn: bool)
      requires Valid() && held == NONE
      modifies this, blocks
      ensures |got| <= |keys| && forall k :: 0 <= k < |got| ==> got[k] == ContentOf(fs, keys[k].0, keys[k].1)
      ensures |got| < |keys| && !worn ==> got != [] && got[|got| - 1] == Crashed
      ensures forall k :: 0 <= k < |got| - 1 ==> got[k] != Crashed
      ensures Crashed !in got ==> Valid() && held == NONE
      ensures Crashed !in got ==> Steady(old(Now()), Now()) && (old(freelst) == [] ==> lrulst == old(lrulst))
      ensures worn ==> Crashed !in got && !Roomy(Now(), LOOKUP + 1)
      ensures 7 * |keys| < 0x1_0000_0000 && old(Roomy(Now(), 7 * |keys|)) ==> !worn
    {
      hide Stacked, SameBlock, Unique, Good, Placed, Filed, Reclaimable, Outcome;
      got := [];
      var n := 0;
      ghost var start := Now();
      ghost var short := (LOOKUP + 1) * |keys| < WRAP && Roomy(Now(), (LOOKUP + 1) * |keys|);
      SteadySelf(start);
      while n < |keys|
        invariant n == |got| <= |keys| && Valid() && held == NONE && Steady(start, Now())
        invariant short ==> Roomy(Now(), (LOOKUP + 1) * (|keys| - n))
        invariant forall k :: 0 <= k < n ==> got[k] == ContentOf(fs, keys[k].0, keys[k].1) && got[k] != Crashed
      {
        worn := SomeWorn();
        if worn {
          SameList(fs, start, Now());
          return;
        }
        ghost var p := Now();
        var c := LookUp(keys[n].0, keys[n].1);
        got := got + [c];
        if c == Crashed {
          return;
        }
        if short {
          GrownRoomy(p, Now(), (LOOKUP + 1) * (|keys| - n), LOOKUP + 1);
        }
        SteadyTrans(start, p, Now());
        n := n + 1;
      }
      SameList(fs, start, Now());
      worn := false;
    }

    /** `ext2_block_used`.  The result for an address out of range is not 0, so `blk_get` goes on to read there.  For
        address 0 the bit number wraps around, and the program is at the mercy of what lies behind the group descriptors
        unless there are enough of them. */
    method Ext2BlockUsed(blkaddr: nat) returns (used: int, alive: bool)
      requires Valid() && held == NONE && Roomy(Now(), 2)
      modifies this, blocks
      ensures Valid() && held == NONE && Grown(old(Now()), Now(), 1) && NoNewFile(old(Now()), Now())
      ensures alive <==> blkaddr > 0 || fs.blockCount == 0 || 0xFFFF_FFFF / fs.blocksPerGroup < |fs.groups|
      ensures blkaddr > 0 ==>
                used == if blkaddr >= fs.blockCount then EINVAL else if BlockUsed(fs, blkaddr) then 1 else 0
      ensures blkaddr == 0 && alive ==>
                used == if fs.blockCount == 0 then EINVAL
                        else if BlockBit(fs, 0xFFFF_FFFF / fs.blocksPerGroup, 0xFFFF_FFFF % fs.blocksPerGroup) then 1
                        else 0
      decreases 0, 4
    {
      used, alive := EINVAL, true;
      if blkaddr < fs.blockCount {
        var n := if blkaddr > 0 then blkaddr - 1 else WRAP - 1;
        var group := n / fs.blocksPerGroup;
        if blkaddr > 0 {
          GroupOf(blkaddr, fs.blocksPerGroup, fs.blockCount, |fs.groups|);
        } else if group >= |fs.groups| {
          SteadySelf(Now());
          return EINVAL, false;
        }
        assert GroupSound(fs, group);
        used := ReadBit(fs.groups[group].blockBitmap, n % fs.blocksPerGroup);
      }
    }

    /** `ext2_inode_used` */
    method Ext2InodeUsed(ino: nat) returns (used: int)
      requires Valid() && held == NONE && Roomy(Now(), 2)
      modifies this, blocks
      ensures Valid() && held == NONE && Grown(old(Now()), Now(), 1) && NoNewFile(old(Now()), Now())
      ensures used == InodeAnswer(fs, ino)
      decreases 0, 4
    {
      used := EINVAL;
      if 0 < ino < fs.inodeCount {
        GroupOf(ino, fs.inodesPerGroup, fs.inodeCount, |fs.groups|);
        var group := (ino - 1) / fs.inodesPerGroup;
        assert GroupSound(fs, group);
        used := ReadBit(fs.groups[group].inodeBitmap, (ino - 1) % fs.inodesPerGroup);
      }
    }

    /** The part the two bitmap lookups share. */
    method ReadBit(bitmap: nat, n: nat) returns (bit: int)
      requires Valid() && held == NONE && Roomy(Now(), 2) && 0 < bitmap < |fs.img| && n < 8 * BLKSIZE
      modifies this, blocks
      ensures Valid() && held == NONE && Grown(old(Now()), Now(), 1) && NoNewFile(old(Now()), Now())
      ensures bit == if BitSet(fs.img[bitmap], n) then 1 else 0
      decreases 0, 3
    {
      var blk := MetaGet(bitmap);
      bit := if blocks[blk].data[n / 8] / Bit(n % 8) % 2 == 1 then 1 else 0;
      BlkPut(blk);
    }

    /** `blk_get` on metadata that lies inside the image. */
    method MetaGet(addr: nat) returns (blk: int)
      requires Valid() && held == NONE && Roomy(Now(), 2) && 0 < addr < |fs.img|
      modifies this, blocks
      ensures Valid() && held == blk && 0 <= blk < NBLOCKS && blocks[blk].data == fs.img[addr]
      ensures Grown(old(Now()), Now(), 0) && hits[blk] + 1 < WRAP && NoNewFile(old(Now()), Now())
      decreases 0, 2
    {
      var r := BlkGet(0, addr);
      blk := r.i;
    }

    /** `ext2_inode_read`, of the bytes of the i-node. */
    method InodeRead(ino: nat) returns (err: int, inode: seq<Byte>)
      requires Valid() && held == NONE && Roomy(Now(), 3)
      modifies this, blocks
      ensures Valid() && held == NONE && Grown(old(Now()), Now(), 2) && NoNewFile(old(Now()), Now())
      ensures err == if InodeUsed(fs, ino) then 0 else ENONET
      ensures err == 0 ==> var pos := InodePos(fs, ino);
              inode == fs.img[pos / BLKSIZE][pos % BLKSIZE..pos % BLKSIZE + INODE_SIZE]
      decreases 0, 5
    {
      ghost var h, p := Now(), Now();
      var used := Ext2InodeUsed(ino);
      if used != 1 {
        GrownTrans(h, Now(), Now(), 1, 1);
        return ENONET, [];
      }
      GrownRoomy(p, Now(), 3, 1);
      ghost var h1 := Now();
      GroupOf(ino, fs.inodesPerGroup, fs.inodeCount, |fs.groups|);
      var pos := BLKSIZE * fs.groups[(ino - 1) / fs.inodesPerGroup].inodeTable
          + INODE_SIZE * ((ino - 1) % fs.inodesPerGroup);
      assert pos == InodePos(fs, ino);
      var blk := MetaGet(pos / BLKSIZE);
      inode := blocks[blk].data[pos % BLKSIZE..pos % BLKSIZE + INODE_SIZE];
      ghost var h2 := Now();
      BlkPut(blk);
      GrownTrans(h1, h2, Now(), 0, 1);
      GrownTrans(h, h1, Now(), 1, 1);
      err := 0;
    }

    /** `ext2_blkptr_read` */
    method BlkptrRead(blkaddr: nat, blkidx: nat) returns (t: Trans)
      requires Valid() && held == NONE && Roomy(Now(), 2)
      modifies this, blocks
      ensures t == Entry(fs, blkaddr, blkidx) && (t.Addr? ==> t.addr >= 0)
      ensures !t.Stops? ==> Valid() && held == NONE && Grown(old(Now()), Now(), 1) && NoNewFile(old(Now()), Now())
      decreases 0, 3
    {
      if blkidx >= BLK_POINTERS {
        return Stops;
      }
      var r := BlkGet(0, blkaddr);
      if !r.Buffer? {
        return Stops;
      }
      t := Addr(LittleEndian(blocks[r.i].data, 4 * blkidx));
      BlkPut(r.i);
    }

    /** `ext2_blkaddr_read` */
    method BlkaddrRead(ino: nat, blkidx: nat) returns (t: Trans)
      requires Valid() && held == NONE && (ino > 0 ==> Roomy(Now(), TRANSLATION + 1))
      modifies this, blocks
      ensures t == Translate(fs, ino, blkidx) && (t.Addr? ==> t.addr >= 0)
      ensures ino == 0 ==> Now() == old(Now()) && releases == old(releases)
      ensures !t.Stops? ==> Valid() && held == NONE && NoNewFile(old(Now()), Now())
      ensures !t.Stops? ==> Grown(old(Now()), Now(), if ino == 0 then 0 else TRANSLATION)
      decreases if ino > 0 then 1 else 0, 0
    {
      if ino == 0 {
        return Addr(blkidx);
      }
      ghost var h, p := Now(), Now();
      var err, inode := InodeRead(ino);
      GrownRoomy(p, Now(), 6, 2);
      GrownTrans(h, Now(), Now(), 2, 3);
      if err != 0 {
        return Fails;
      }
      ghost var h1 := Now();
      t := MapRead(ino, inode, blkidx);
      if !t.Stops? {
        GrownTrans(h, h1, Now(), 2, 3);
      }
    }

    /** The part of `ext2_blkaddr_read` that follows the pointers of the i-node. */
    method MapRead(ghost ino: nat, inode: seq<Byte>, blkidx: nat) returns (t: Trans)
      requires Valid() && held == NONE && Roomy(Now(), 4) && InodeUsed(fs, ino)
      requires var pos := InodePos(fs, ino); inode == fs.img[pos / BLKSIZE][pos % BLKSIZE..pos % BLKSIZE + INODE_SIZE]
      modifies this, blocks
      ensures t == Translate(fs, ino, blkidx) && (t.Addr? ==> t.addr >= 0)
      ensures !t.Stops? ==> Valid() && held == NONE && NoNewFile(old(Now()), Now()) && Grown(old(Now()), Now(), 3)
      decreases 0, 5
    {
      InodeWords(fs, ino, inode);
      GrownTrans(Now(), Now(), Now(), 0, 3);
      var idx: int := blkidx;
      if idx < NDADDR {
        return Addr(LittleEndian(inode, I_BLOCKS + 4 * idx));
      }
      idx := idx - 12;
      var available := BLK_POINTERS;
      if idx < available {
        t := Chain1(LittleEndian(inode, I_BLOCKS + 4 * 12), idx);
        return;
      }
      idx := idx - available;
      available := BLK_POINTERS * BLK_POINTERS;
      if idx < available {
        t := Chain2(LittleEndian(inode, I_BLOCKS + 4 * 13), idx / BLK_POINTERS, idx % BLK_POINTERS);
        return;
      }
      idx := idx - available;
      available := BLK_POINTERS * BLK_POINTERS * BLK_POINTERS;
      if idx < available {
        t := Chain3(LittleEndian(inode, I_BLOCKS + 4 * 14), idx / (BLK_POINTERS * BLK_POINTERS), idx / BLK_POINTERS,
            idx % BLK_POINTERS);
        return;
      }
      t := Fails;
    }

    /** One, two and three calls of `ext2_blkptr_read` in a row. */
    method Chain1(p: nat, k0: nat) returns (t: Trans)
      requires Valid() && held == NONE && Roomy(Now(), 4)
      modifies this, blocks
      ensures t == Entry(fs, p, k0) && (t.Addr? ==> t.addr >= 0)
      ensures !t.Stops? ==> Valid() && held == NONE && NoNewFile(old(Now()), Now()) && Grown(old(Now()), Now(), 3)
      decreases 0, 4
    {
      ghost var h := Now();
      t := BlkptrRead(p, k0);
      if !t.Stops? {
        GrownTrans(h, Now(), Now(), 1, 2);
      }
    }

    method Chain2(p: nat, k0: nat, k1: nat) returns (t: Trans)
      requires Valid() && held == NONE && Roomy(Now(), 4)
      modifies this, blocks
      ensures t == EntryOf(fs, Entry(fs, p, k0), k1) && (t.Addr? ==> t.addr >= 0)
      ensures !t.Stops? ==> Valid() && held == NONE && NoNewFile(old(Now()), Now()) && Grown(old(Now()), Now(), 3)
      decreases 0, 4
    {
      ghost var h, p0 := Now(), Now();
      t := BlkptrRead(p, k0);
      if t.Stops? {
        return;
      }
      GrownRoomy(p0, Now(), 4, 1);
      ghost var h1 := Now();
      t := BlkptrRead(t.addr, k1);
      if !t.Stops? {
        GrownTrans(h, h1, Now(), 1, 1);
        GrownTrans(h, Now(), Now(), 2, 1);
      }
    }

    method Chain3(p: nat, k0: nat, k1: nat, k2: nat) returns (t: Trans)
      requires Valid() && held == NONE && Roomy(Now(), 4)
      modifies this, blocks
      ensures t == EntryOf(fs, EntryOf(fs, Entry(fs, p, k0), k1), k2) && (t.Addr? ==> t.addr >= 0)
      ensures !t.Stops? ==> Valid() && held == NONE && NoNewFile(old(Now()), Now()) && Grown(old(Now()), Now(), 3)
      decreases 0, 4
    {
      ghost var h, p0 := Now(), Now();
      t := BlkptrRead(p, k0);
      if t.Stops? {
        return;
      }
      GrownRoomy(p0, Now(), 4, 1);
      ghost var h1, p1 := Now(), Now();
      t := BlkptrRead(t.addr, k1);
      if t.Stops? {
        return;
      }
      GrownRoomy(p1, Now(), 3, 1);
      ghost var h2 := Now();
      t := BlkptrRead(t.addr, k2);
      if !t.Stops? {
        GrownTrans(h, h1, h2, 1, 1);
        GrownTrans(h, h2, Now(), 2, 1);
      }
    }
  }

  lemma StillRoom(p: Pool, p': Pool, i: int, n: int)
    requires Shape(p) && Roomy(p, LOOKUP + 1) && Grown(p, p', n) && 0 <= n <= LOOKUP && 0 <= i < NBLOCKS
    ensures p'.hits[i] + 1 < WRAP
  {
  }

  lemma SteadySelf(p: Pool)
    requires Shape(p)
    ensures Steady(p, p)
  {
  }

  /** A full pool has one list only. */
  lemma SameList(fs: Fs, p: Pool, q: Pool)
    requires Inv(fs, p, NONE, NONE) && Stacked(p) && Inv(fs, q, NONE, NONE) && Stacked(q) && Steady(p, q)
    ensures p.free == [] ==> q.lru == p.lru == Down(NBLOCKS)
  {
    hide Inv;
    StackedFull(fs, p);
    StackedFull(fs, q);
  }

  lemma SteadyTrans(p: Pool, p1: Pool, p2: Pool)
    requires Steady(p, p1) && Steady(p1, p2)
    ensures Steady(p, p2)
  {
    if p.free == [] {
      forall j {:trigger p2.bufs[j]} | 0 <= j < LAST
        ensures SameBlock(p.bufs[j], p2.bufs[j])
      {
        assert SameBlock(p.bufs[j], p1.bufs[j]);
      }
    }
  }

  /** Buffer `j` caches block `j + 1` of the image and was released once. */
  predicate Early(p: Pool, j: int)
    requires |p.bufs| == |p.hits| == NBLOCKS && 0 <= j < NBLOCKS
  {
    p.bufs[j].inode == 0 && p.bufs[j].index == j + 1
  }

  /** Which blocks a new cache holds when the first `k` blocks of the image have been asked for. */
  ghost predicate FirstBlocks(p: Pool, k: int) {
    && 0 <= k <= NBLOCKS && Shape(p) && |p.free| == NBLOCKS - k
    && (forall j {:trigger p.hits[j]} :: 0 <= j < NBLOCKS ==> p.hits[j] == 0)
    && forall j {:trigger Early(p, j)} :: 0 <= j < k ==> Early(p, j)
  }

  /** They are found, and no others. */
  lemma OnlyFirst(fs: Fs, p: Pool, k: int)
    requires FirstBlocks(p, k) && Inv(fs, p, NONE, NONE) && Stacked(p)
    ensures forall idx: nat {:trigger Absent(p, 0, idx)} :: idx > k ==> Absent(p, 0, idx)
    ensures forall j {:trigger Holds(p, j, 0, j + 1)} :: 0 <= j < k ==> Holds(p, j, 0, j + 1)
    ensures Roomy(p, WRAP - 1) && Victim(p) == if k < NBLOCKS then k else LAST
  {
    hide Inv, Stacked, Placed;
    forall j | 0 <= j < NBLOCKS
      ensures (Resident(p, j) <==> j < k) && (j < k ==> Early(p, j))
    {
      InUsed(fs, p, j);
    }
    forall j {:trigger Holds(p, j, 0, j + 1)} | 0 <= j < k
      ensures Holds(p, j, 0, j + 1)
    {
      assert Resident(p, j) && Early(p, j);
    }
  }

  lemma InUsed(fs: Fs, p: Pool, j: int)
    requires Inv(fs, p, NONE, NONE) && Stacked(p) && 0 <= j < NBLOCKS
    ensures Resident(p, j) <==> j < NBLOCKS - |p.free|
  {
    InUse(p, j);
  }

  /** One more of them is asked for. */
  lemma FirstNext(fs: Fs, p: Pool, k: int, b: Buf)
    requires FirstBlocks(p, k) && k < NBLOCKS && Stacked(p) && b.inode == 0 && b.index == k + 1 && b.refcnt == 1
    ensures FirstBlocks(Put(Missed(p, b), k), k + 1)
  {
    hide Missed, Put, Stacked;
    MissedPut(p, b);
    var q := Put(Missed(p, b), k);
    MissedShape(p, b);
    forall j {:trigger Early(q, j)} | 0 <= j < k + 1
      ensures Early(q, j)
    {
      assert j < k ==> Early(p, j);
    }
  }

  lemma MissedShape(p: Pool, b: Buf)
    requires Shape(p) && Stacked(p) && b.refcnt == 1
    ensures 0 <= Victim(p) < NBLOCKS && Shape(Put(Missed(p, b), Victim(p)))
  {
    MissedPut(p, b);
  }

  /** Block `idx` of the image is asked for and released. */
  method Ask(cache: Cache, idx: nat) returns (i: int)
    requires cache.Valid() && cache.held == NONE && Roomy(cache.Now(), WRAP - 1)
    requires 0 < idx < |cache.fs.img| && Absent(cache.Now(), 0, idx)
    modifies cache, cache.blocks
    ensures cache.Valid() && cache.held == NONE && i == Victim(old(cache.Now())) && 0 <= i < NBLOCKS
    ensures cache.Now() == Put(Missed(old(cache.Now()), Buf(0, idx, idx, 1, cache.fs.img[idx])), i)
    ensures cache.releases == old(cache.releases) + [i] && Holds(cache.Now(), i, 0, idx)
  {
    var r := cache.BlkGet(0, idx);
    i := r.i;
    PutFiled(cache.fs, cache.Now(), i);
    cache.BlkPut(i);
  }

  /** An input on which it is not the least recently used block that is given up.  Blocks 1 to 65 of an image are asked
      for once each: the last of them replaces block 64, the latest before it, and block 1 stays. */
  method AskInOrder(fs: Fs) returns (cache: Cache)
    requires Sound(fs) && 65 < |fs.img|
    ensures cache.Valid() && cache.fs == fs && cache.held == NONE && cache.freelst == []
    ensures cache.releases == seq(64, k => k) + [63]
    ensures forall j {:trigger Holds(cache.Now(), j, 0, j + 1)} :: 0 <= j < 63 ==> Holds(cache.Now(), j, 0, j + 1)
    ensures Holds(cache.Now(), 63, 0, 65) && Absent(cache.Now(), 0, 64)
  {
    hide Inv, Stacked, Missed, Put, Roomy, Resident;
    cache := new Cache(fs);
    var k := 0;
    while k < NBLOCKS
      invariant 0 <= k <= NBLOCKS && fresh(cache) && fresh(cache.blocks) && cache.fs == fs
      invariant cache.Valid() && cache.held == NONE && FirstBlocks(cache.Now(), k)
      invariant cache.releases == seq(k, j => j)
    {
      ghost var p := cache.Now();
      OnlyFirst(fs, p, k);
      var i := Ask(cache, k + 1);
      FirstNext(fs, p, k, Buf(0, k + 1, k + 1, 1, fs.img[k + 1]));
      assert seq(k + 1, j => j) == seq(k, j => j) + [k];
      k := k + 1;
    }
    ghost var p := cache.Now();
    OnlyFirst(fs, p, k);
    var i := Ask(cache, k + 1);
    Replaced(fs, p, Buf(0, k + 1, k + 1, 1, fs.img[k + 1]));
  }

  lemma Replaced(fs: Fs, p: Pool, b: Buf)
    requires FirstBlocks(p, NBLOCKS) && Inv(fs, p, NONE, NONE) && Stacked(p)
    requires b.inode == 0 && b.index == NBLOCKS + 1 && b.refcnt == 1
    requires var q := Put(Missed(p, b), LAST); Inv(fs, q, NONE, NONE) && Stacked(q)
    ensures var q := Put(Missed(p, b), LAST);
      && q.free == [] && Absent(q, 0, NBLOCKS)
      && forall j {:trigger Holds(q, j, 0, j + 1)} :: 0 <= j < LAST ==> Holds(q, j, 0, j + 1)
  {
    hide Inv, Stacked, Missed, Put, Resident;
    var q := Put(Missed(p, b), LAST);
    MissedPut(p, b);
    MissedShape(p, b);
    forall j | 0 <= j < NBLOCKS
      ensures Resident(q, j) && Early(p, j)
    {
      InUsed(fs, q, j);
    }
    forall j {:trigger Holds(q, j, 0, NBLOCKS)}
      ensures !Holds(q, j, 0, NBLOCKS)
    {
      if Holds(q, j, 0, NBLOCKS) {
        ResidentRange(q, j);
      }
    }
  }

  lemma ResidentRange(p: Pool, j: int)
    requires Shape(p) && Resident(p, j)
    ensures 0 <= j < NBLOCKS
  {
  }

  lemma InitialInv(fs: Fs, p: Pool)
    requires Sound(fs) && |p.bufs| == NBLOCKS && p.free == seq(NBLOCKS, k => k) && p.lru == []
    requires p.buckets == seq(NBUCKETS, k => []) && p.hits == seq(NBLOCKS, i => 0)
    requires forall i :: 0 <= i < NBLOCKS ==> p.bufs[i].refcnt == 0
    ensures Inv(fs, p, NONE, NONE) && Stacked(p) && Roomy(p, WRAP - 1)
  {
    forall i {:trigger i in p.free} ensures i in p.free <==> 0 <= i < NBLOCKS {
      assert 0 <= i < NBLOCKS ==> p.free[i] == i;
    }
    assert forall i {:trigger i in p.free} :: i in p.free ==> p.hits[i] == 0 && p.bufs[i].refcnt == 0;
    forall k {:trigger BucketOk(p, k)} | 0 <= k < NBUCKETS ensures BucketOk(p, k) {
      assert p.buckets[k] == [];
    }
    assert forall i {:trigger Resident(p, i)} :: !Resident(p, i);
  }

  lemma EvictedResident(fs: Fs, p: Pool)
    requires Inv(fs, p, NONE, NONE) && p.free == [] && p.lru != []
    ensures 0 <= p.lru[0] < NBLOCKS && Shape(Evicted(p))
    ensures forall j {:trigger Resident(Evicted(p), j)} :: Resident(Evicted(p), j) ==> Resident(p, j)
  {
    var i := p.lru[0];
    assert i in p.lru && Resident(p, i);
    var k, p' := Home(p.bufs[i]), Evicted(p);
    assert BucketOk(p, k);
    WithoutMembers(p.buckets[k], i);
  }

  lemma InodeWords(fs: Fs, ino: int, inode: seq<Byte>)
    requires Sound(fs) && 0 < ino < fs.inodeCount
    requires var pos := InodePos(fs, ino); inode == fs.img[pos / BLKSIZE][pos % BLKSIZE..pos % BLKSIZE + INODE_SIZE]
    ensures forall k :: 0 <= k < NADDR ==> LittleEndian(inode, I_BLOCKS + 4 * k) == InodePointer(fs, ino, k)
  {
  }

  /** Releasing changes no key. */
  lemma PutKeys(fs: Fs, p: Pool, i: int)
    requires Inv(fs, p, i, NONE) && 0 <= i < NBLOCKS
    ensures Shape(Put(p, i)) && NoNewFile(p, Put(p, i))
  {
    var p' := Put(p, i);
    assert p'.buckets == p.buckets;
    forall ino: nat, idx: nat {:trigger Absent(p', ino, idx)} | Absent(p, ino, idx) ensures Absent(p', ino, idx) {
      forall j {:trigger Holds(p', j, ino, idx)} ensures !Holds(p', j, ino, idx) {
        assert !Holds(p, j, ino, idx);
      }
    }
  }

  /** A resident buffer holds the right block, and may be handed out. */
  lemma Found(fs: Fs, p: Pool, i: int, ino: nat, idx: nat)
    requires Inv(fs, p, NONE, NONE) && Holds(p, i, ino, idx)
    ensures Inv(fs, p, i, NONE) && 0 <= i < NBLOCKS
    ensures Outcome(fs, ino, idx) == At(p.bufs[i].blkaddr) && 0 < p.bufs[i].blkaddr < |fs.img|
    ensures p.bufs[i].data == fs.img[p.bufs[i].blkaddr]
  {
    assert BufOk(fs, p, i);
  }

  lemma FilledKeys(fs: Fs, p0: Pool, p: Pool, i: int, b: Buf)
    requires Inv(fs, p, NONE, i) && 0 <= i < NBLOCKS && Shape(p0) && b.inode == 0
    requires p0.bufs == p.bufs && forall j {:trigger Resident(p, j)} :: Resident(p, j) ==> Resident(p0, j)
    ensures Shape(Filled(p, i, b)) && NoNewFile(p0, Filled(p, i, b))
  {
    var p' := Filled(p, i, b);
    forall ino: nat, idx: nat {:trigger Absent(p', ino, idx)} | ino > 0 && Absent(p0, ino, idx)
        ensures Absent(p', ino, idx) {
      forall j {:trigger Holds(p', j, ino, idx)} ensures !Holds(p', j, ino, idx) {
        assert !Holds(p0, j, ino, idx);
        assert Resident(p', j) && j != i ==> Resident(p, j);
      }
    }
  }

  /** What loading a block that is not cached does to the pool. */
  lemma Loaded(fs: Fs, p0: Pool, b: Buf)
    requires Shape(p0) && Stacked(p0) && Absent(p0, b.inode, b.index) && b.refcnt == 1
    requires Inv(fs, Taken(p0), NONE, Victim(p0)) && Stacked(Taken(p0))
    requires forall j {:trigger Resident(Taken(p0), j)} :: Resident(Taken(p0), j) ==> Resident(p0, j)
    requires Outcome(fs, b.inode, b.index) == At(b.blkaddr) && 0 < b.blkaddr < |fs.img| && b.data == fs.img[b.blkaddr]
    ensures var q := Missed(p0, b);
      && Inv(fs, q, Victim(p0), NONE) && Stacked(q) && Grown(p0, q, 0) && Holds(q, Victim(p0), b.inode, b.index)
      && (b.inode == 0 ==> NoNewFile(p0, q))
  {
    hide Outcome, NoDup, Down, Unique, Good, Placed, Filed, Reclaimable;
    var i, p := Victim(p0), Taken(p0);
    forall j {:trigger Resident(p, j)} | Resident(p, j) ensures !SameKey(p.bufs[j], b) {
      assert Resident(p0, j) && !Holds(p0, j, b.inode, b.index);
    }
    LooseFilled(fs, p, i, b);
    if b.inode == 0 {
      FilledKeys(fs, p0, p, i, b);
    }
  }

  /** With nothing held a reference count tells how often the buffer was released. */
  lemma Releases(fs: Fs, p: Pool, i: int)
    requires Inv(fs, p, NONE, NONE) && 0 <= i < NBLOCKS
    ensures 0 <= p.hits[i] < WRAP && p.hits[i] == (WRAP - p.bufs[i].refcnt) % WRAP
  {
    hide Outcome, NoDup, BucketOk, Unique, Sound, Filed;
    if Resident(p, i) {
      assert BufOk(fs, p, i);
    } else {
      assert i in p.free;
    }
  }
}
