/** The buffer pool of `ext2/ext2fs.c` as a value: which list each buffer is on, what it holds, and what
    each step of the cache does to that. */
module BlockPool {
  import opened Ext2Image
  import opened Sequences

  const NBUCKETS: int := 16
  const NBLOCKS: int := 64
  const LAST: int := NBLOCKS - 1
  /** `b_refcnt` is a `uint32_t`. */
  const WRAP: int := 0x1_0000_0000
  const NONE: int := -1

  datatype Buf = Buf(inode: nat, index: nat, blkaddr: int, refcnt: int, data: Sector)

  /** The pool.  `hits` counts the releases of a buffer since it went onto the LRU list. */
  datatype Pool = Pool(bufs: seq<Buf>, free: seq<int>, lru: seq<int>, buckets: seq<seq<int>>, hits: seq<int>)

  /** `BUCKET(ino, idx)` */
  function Home(b: Buf): (k: int)
    ensures 0 <= k < NBUCKETS
  {
    (b.inode + b.index) % NBUCKETS
  }

  ghost predicate NoDup(s: seq<int>) {
    forall i, j {:trigger s[i], s[j]} :: 0 <= i < j < |s| ==> s[i] != s[j]
  }

  ghost predicate Shape(p: Pool) {
    |p.bufs| == NBLOCKS && |p.buckets| == NBUCKETS && |p.hits| == NBLOCKS
  }

  /** The buffer is in its own bucket. */
  ghost predicate Resident(p: Pool, i: int)
    requires Shape(p)
  {
    0 <= i < NBLOCKS && i in p.buckets[Home(p.bufs[i])]
  }

  /** A bucket holds, without repetition, buffers that belong there. */
  ghost predicate BucketOk(p: Pool, k: int)
    requires Shape(p) && 0 <= k < NBUCKETS
  {
    NoDup(p.buckets[k]) && forall i {:trigger i in p.buckets[k]} :: i in p.buckets[k] ==>
        0 <= i < NBLOCKS && Home(p.bufs[i]) == k
  }

  ghost predicate Filed(p: Pool)
    requires Shape(p)
  {
    forall k {:trigger BucketOk(p, k)} :: 0 <= k < NBUCKETS ==> BucketOk(p, k)
  }

  /** Each buffer is free, and then was never used, or resident, but not both; `loose` is on no list. */
  ghost predicate Placed(p: Pool, loose: int)
    requires Shape(p)
  {
    && NoDup(p.free) && NoDup(p.lru)
    && (forall i {:trigger i in p.free} :: i in p.free ==>
        0 <= i < NBLOCKS && i != loose && p.hits[i] == 0 && p.bufs[i].refcnt == 0)
    && (forall i {:trigger i in p.lru} :: i in p.lru ==> Resident(p, i))
    && (forall i {:trigger Resident(p, i)} :: 0 <= i < NBLOCKS ==> (Resident(p, i) <==> i !in p.free && i != loose))
  }

  /** What is not held can be reclaimed. */
  ghost predicate Reclaimable(p: Pool, held: int)
    requires Shape(p)
  {
    forall i {:trigger Resident(p, i)} :: Resident(p, i) && i != held ==> i in p.lru
  }

  ghost predicate SameKey(a: Buf, b: Buf) {
    a.inode == b.inode && a.index == b.index
  }

  /** No block is cached twice. */
  ghost predicate Unique(p: Pool)
    requires Shape(p)
  {
    forall i, j {:trigger Resident(p, i), Resident(p, j)} :: Resident(p, i) && Resident(p, j) && i != j ==>
        !SameKey(p.bufs[i], p.bufs[j])
  }

  /** A buffer agrees with the image and its reference count with the number of its releases. */
  ghost predicate BufOk(fs: Fs, p: Pool, i: int)
    requires Sound(fs) && Shape(p) && 0 <= i < NBLOCKS
  {
    var b := p.bufs[i];
    && Outcome(fs, b.inode, b.index) == At(b.blkaddr) && 0 < b.blkaddr < |fs.img| && b.data == fs.img[b.blkaddr]
    && (if i in p.lru then 0 <= p.hits[i] < WRAP && b.refcnt == (WRAP - p.hits[i]) % WRAP
        else p.hits[i] == 0 && b.refcnt == 1)
  }

  ghost predicate Good(fs: Fs, p: Pool)
    requires Sound(fs) && Shape(p)
  {
    forall i {:trigger BufOk(fs, p, i)} :: Resident(p, i) ==> BufOk(fs, p, i)
  }

  /** The invariant of the pool, with buffer `held` acquired and buffer `loose` on no list. */
  ghost predicate Inv(fs: Fs, p: Pool, held: int, loose: int) {
    && Sound(fs) && Shape(p) && Filed(p) && Placed(p, loose) && Reclaimable(p, held) && Unique(p) && Good(fs, p)
    && (held != NONE ==> Resident(p, held))
  }

  /** The numbers below `n`, downwards. */
  function Down(n: nat): (s: seq<int>)
    ensures |s| == n && forall k :: 0 <= k < n ==> s[k] == n - 1 - k
  {
    seq(n, k => n - 1 - k)
  }

  /** The buffers are taken into use in the order of their numbers, and the LRU list holds those in use with the
      latest first; the very latest is missing from it before its first release. */
  ghost predicate Stacked(p: Pool) {
    var m := NBLOCKS - |p.free|;
    && 0 <= m && p.free == seq(|p.free|, k => m + k)
    && (p.lru == Down(m) || (m > 0 && p.lru == Down(m - 1)))
  }

  ghost predicate SameBlock(a: Buf, b: Buf) {
    SameKey(a, b) && a.blkaddr == b.blkaddr && a.data == b.data
  }

  /** Once no buffer is free that stays so, and all buffers but the last keep the blocks they hold. */
  ghost predicate Steady(p: Pool, p': Pool) {
    p.free == [] ==>
      && p'.free == [] && |p.bufs| == |p'.bufs| == NBLOCKS
      && forall j {:trigger p'.bufs[j]} :: 0 <= j < LAST ==> SameBlock(p.bufs[j], p'.bufs[j])
  }

  /** Buffer releases since `p` number at most `n` for each buffer that stayed, and a full pool is steady. */
  ghost predicate Grown(p: Pool, p': Pool, n: int) {
    && |p.hits| == |p'.hits| == NBLOCKS && Steady(p, p')
    && forall i {:trigger p'.hits[i]} :: 0 <= i < NBLOCKS ==> p'.hits[i] <= p.hits[i] + n || p'.hits[i] <= n
  }

  ghost predicate Roomy(p: Pool, n: int)
    requires Shape(p)
  {
    forall i {:trigger p.hits[i]} :: 0 <= i < NBLOCKS ==> p.hits[i] + n < WRAP
  }

  lemma GrownRoomy(p: Pool, p': Pool, n: int, m: int)
    requires Shape(p) && Shape(p') && Roomy(p, n) && Grown(p, p', m) && 0 <= m <= n < WRAP
    ensures Roomy(p', n - m)
  {
  }

  lemma GrownTrans(p: Pool, p1: Pool, p2: Pool, n: int, m: int)
    requires Grown(p, p1, n) && Grown(p1, p2, m) && 0 <= n && 0 <= m
    ensures Grown(p, p2, n + m)
  {
    if p.free == [] {
      forall j {:trigger p2.bufs[j]} | 0 <= j < LAST
        ensures SameBlock(p.bufs[j], p2.bufs[j])
      {
        assert SameBlock(p.bufs[j], p1.bufs[j]);
      }
    }
  }

  lemma GrownMore(p: Pool, p': Pool, n: int, m: int)
    requires Grown(p, p', n) && n <= m
    ensures Grown(p, p', m)
  {
  }

  // ---------------------------------------------------------------- steps

  /** Without held buffers the pool is never exhausted: if nothing is free, something is reclaimable. */
  lemma NotExhausted(fs: Fs, p: Pool)
    requires Inv(fs, p, NONE, NONE) && p.free == []
    ensures p.lru != []
  {
    assert Resident(p, 0);
  }

  lemma TailMembers(s: seq<int>)
    requires NoDup(s) && s != []
    ensures NoDup(s[1..]) && forall x {:trigger x in s[1..]} {:trigger x in s} :: x in s[1..] <==> x in s && x != s[0]
  {
    assert s == [s[0]] + s[1..];
  }

  lemma HeadMembers(x: int, s: seq<int>)
    requires NoDup(s) && x !in s
    ensures NoDup([x] + s) && forall y {:trigger y in [x] + s} {:trigger y in s} :: y in [x] + s <==> y in s || y == x
  {
  }

  /** `TAILQ_REMOVE` */
  lemma {:induction false} WithoutMembers(s: seq<int>, x: int)
    requires NoDup(s)
    ensures NoDup(Without(s, x))
    ensures forall y {:trigger y in Without(s, x)} {:trigger y in s} :: y in Without(s, x) <==> y in s && y != x
  {
    if s != [] {
      TailMembers(s);
      if s[0] != x {
        WithoutMembers(s[1..], x);
        HeadMembers(s[0], Without(s[1..], x));
      }
    }
  }

  /** Taking the first free buffer. */
  lemma FreeTaken(fs: Fs, p: Pool)
    requires Inv(fs, p, NONE, NONE) && p.free != []
    ensures Inv(fs, p.(free := p.free[1..]), NONE, p.free[0])
  {
    var p' := p.(free := p.free[1..]);
    TailMembers(p.free);
    SameBuckets(fs, p, p');
    assert p.free[0] in p.free;
  }

  /** What does not depend on the two lists. */
  lemma SameBuckets(fs: Fs, p: Pool, p': Pool)
    requires Sound(fs) && Shape(p) && p'.bufs == p.bufs && p'.buckets == p.buckets && p'.hits == p.hits
    ensures Shape(p') && forall i {:trigger Resident(p', i)} {:trigger Resident(p, i)} ::
            Resident(p', i) == Resident(p, i)
    ensures Filed(p) ==> Filed(p')
    ensures Unique(p) ==> Unique(p')
    ensures p'.lru == p.lru && Good(fs, p) ==> Good(fs, p')
  {
    if Filed(p) {
      forall k {:trigger BucketOk(p', k)} | 0 <= k < NBUCKETS ensures BucketOk(p', k) {
        assert BucketOk(p, k);
      }
    }
    if Unique(p) {
      forall i, j {:trigger Resident(p', i), Resident(p', j)} | Resident(p', i) && Resident(p', j) && i != j
        ensures !SameKey(p'.bufs[i], p'.bufs[j])
      {
        assert Resident(p, i) && Resident(p, j);
      }
    }
    if p'.lru == p.lru && Good(fs, p) {
      forall i {:trigger BufOk(fs, p', i)} | Resident(p', i) ensures BufOk(fs, p', i) {
        assert Resident(p, i) && BufOk(fs, p, i);
      }
    }
  }

  /** The pool after the first buffer of the LRU list was taken off it and out of its bucket. */
  function Evicted(p: Pool): Pool
    requires |p.bufs| == NBLOCKS && |p.buckets| == NBUCKETS && p.lru != [] && 0 <= p.lru[0] < NBLOCKS
  {
    var i := p.lru[0];
    var k := Home(p.bufs[i]);
    p.(lru := p.lru[1..], buckets := p.buckets[k := Without(p.buckets[k], i)])
  }

  lemma LruTaken(fs: Fs, p: Pool)
    requires Inv(fs, p, NONE, NONE) && p.free == [] && p.lru != []
    ensures 0 <= p.lru[0] < NBLOCKS && Inv(fs, Evicted(p), NONE, p.lru[0])
  {
    var i := p.lru[0];
    assert i in p.lru && Resident(p, i);
    var k, p' := Home(p.bufs[i]), Evicted(p);
    TailMembers(p.lru);
    assert BucketOk(p, k);
    WithoutMembers(p.buckets[k], i);
    forall j {:trigger Resident(p', j)} | 0 <= j < NBLOCKS ensures Resident(p', j) <==> Resident(p, j) && j != i {
    }
    forall h {:trigger BucketOk(p', h)} | 0 <= h < NBUCKETS ensures BucketOk(p', h) {
      assert BucketOk(p, h);
    }
    forall j {:trigger BufOk(fs, p', j)} | Resident(p', j) ensures BufOk(fs, p', j) {
      assert Resident(p, j) && BufOk(fs, p, j);
    }
  }

  /** The pool after the loose buffer `i` was loaded and put at the head of its bucket. */
  function Filled(p: Pool, i: int, b: Buf): Pool
    requires |p.bufs| == |p.hits| == NBLOCKS && |p.buckets| == NBUCKETS && 0 <= i < NBLOCKS
  {
    var k := Home(b);
    p.(bufs := p.bufs[i := b], buckets := p.buckets[k := [i] + p.buckets[k]], hits := p.hits[i := 0])
  }

  lemma LooseFilled(fs: Fs, p: Pool, i: int, b: Buf)
    requires Inv(fs, p, NONE, i) && 0 <= i < NBLOCKS && b.refcnt == 1
    requires Outcome(fs, b.inode, b.index) == At(b.blkaddr) && 0 < b.blkaddr < |fs.img| && b.data == fs.img[b.blkaddr]
    requires forall j {:trigger Resident(p, j)} :: Resident(p, j) ==> !SameKey(p.bufs[j], b)
    ensures Inv(fs, Filled(p, i, b), i, NONE)
  {
    var k, p' := Home(b), Filled(p, i, b);
    assert !Resident(p, i);
    forall h {:trigger BucketOk(p, h)} | 0 <= h < NBUCKETS ensures i !in p.buckets[h] {
      assert BucketOk(p, h);
    }
    assert BucketOk(p, k);
    HeadMembers(i, p.buckets[k]);
    forall j {:trigger Resident(p', j)} | 0 <= j < NBLOCKS ensures Resident(p', j) <==> Resident(p, j) || j == i {
    }
    forall h {:trigger BucketOk(p', h)} | 0 <= h < NBUCKETS ensures BucketOk(p', h) {
      assert BucketOk(p, h);
    }
    forall j {:trigger BufOk(fs, p', j)} | Resident(p', j) ensures BufOk(fs, p', j) {
      if j != i {
        assert Resident(p, j) && BufOk(fs, p, j);
      } else {
        assert i !in p.lru;
      }
    }
    forall j, l {:trigger Resident(p', j), Resident(p', l)} | Resident(p', j) && Resident(p', l) && j != l
      ensures !SameKey(p'.bufs[j], p'.bufs[l])
    {
      assert j != i ==> Resident(p, j);
      assert l != i ==> Resident(p, l);
    }
  }

  /** The buffer that is loaded next: the next one in order, and when all are in use always the last. */
  function Victim(p: Pool): int {
    if p.free != [] then NBLOCKS - |p.free| else LAST
  }

  /** The pool after `blk_alloc`. */
  function Taken(p: Pool): Pool
    requires |p.bufs| == NBLOCKS && |p.buckets| == NBUCKETS
  {
    if p.free != [] then p.(free := p.free[1..])
    else if p.lru != [] && 0 <= p.lru[0] < NBLOCKS then Evicted(p)
    else p
  }

  /** The pool after a lookup that found nothing loaded `b`. */
  function Missed(p: Pool, b: Buf): (q: Pool)
    requires |p.bufs| == NBLOCKS && |p.buckets| == NBUCKETS && |p.hits| == NBLOCKS && |p.free| <= NBLOCKS
    ensures |q.bufs| == NBLOCKS && |q.buckets| == NBUCKETS && |q.hits| == NBLOCKS
  {
    Filled(Taken(p), Victim(p), b)
  }

  /** The pool after `blk_put`. */
  function Put(p: Pool, i: int): Pool
    requires |p.bufs| == |p.hits| == NBLOCKS && 0 <= i < NBLOCKS
  {
    var refcnt := (p.bufs[i].refcnt - 1) % WRAP;
    var p' := p.(bufs := p.bufs[i := p.bufs[i].(refcnt := refcnt)]);
    if refcnt > 0 then p'.(hits := p.hits[i := p.hits[i] + 1]) else p'.(lru := [i] + p.lru)
  }

  /** What does not depend on reference counts. */
  lemma PutFiled(fs: Fs, p: Pool, i: int)
    requires Inv(fs, p, i, NONE) && 0 <= i < NBLOCKS
    ensures Shape(Put(p, i)) && Filed(Put(p, i)) && Unique(Put(p, i))
    ensures forall j {:trigger Resident(Put(p, i), j)} {:trigger Resident(p, j)} ::
            Resident(Put(p, i), j) == Resident(p, j)
  {
    hide NoDup, BufOk;
    var p' := Put(p, i);
    assert p'.buckets == p.buckets;
    forall h {:trigger BucketOk(p', h)} | 0 <= h < NBUCKETS ensures BucketOk(p', h) {
      assert BucketOk(p, h);
    }
    forall j, l {:trigger Resident(p', j), Resident(p', l)} | Resident(p', j) && Resident(p', l) && j != l
      ensures !SameKey(p'.bufs[j], p'.bufs[l])
    {
      assert Resident(p, j) && Resident(p, l);
    }
  }

  /** The counts stay right. */
  lemma PutGood(fs: Fs, p: Pool, i: int)
    requires Inv(fs, p, i, NONE) && 0 <= i < NBLOCKS && p.hits[i] + 1 < WRAP
    ensures Shape(Put(p, i)) && Good(fs, Put(p, i)) && Grown(p, Put(p, i), 1)
    ensures if i in p.lru then Put(p, i).lru == p.lru else Put(p, i).lru == [i] + p.lru
  {
    hide NoDup, BucketOk, Unique, Outcome;
    var p' := Put(p, i);
    assert Resident(p, i) && BufOk(fs, p, i);
    PutCount(p.hits[i]);
    PutFiled(fs, p, i);
    forall j {:trigger BufOk(fs, p', j)} | Resident(p', j) ensures BufOk(fs, p', j) {
      assert Resident(p, j) && BufOk(fs, p, j);
    }
  }

  /** Releasing a buffer reclaims it once, however often it was found in its bucket since, as long as it
      was released fewer than 2^32 times. */
  lemma HeldPut(fs: Fs, p: Pool, i: int)
    requires Inv(fs, p, i, NONE) && 0 <= i < NBLOCKS && p.hits[i] + 1 < WRAP
    ensures Inv(fs, Put(p, i), NONE, NONE)
    ensures Grown(p, Put(p, i), 1)
  {
    hide NoDup, BucketOk, BufOk, Unique, SameKey, Outcome;
    PutFiled(fs, p, i);
    PutGood(fs, p, i);
    if i !in p.lru {
      HeadMembers(i, p.lru);
    }
  }

  /** The reference count after `n` more releases of a buffer whose count had reached 0. */
  lemma PutCount(n: int)
    requires 0 <= n
    ensures n < WRAP ==> ((WRAP - n) % WRAP - 1) % WRAP == (WRAP - (n + 1)) % WRAP
    ensures n + 1 < WRAP ==> (WRAP - (n + 1)) % WRAP > 0
    ensures n + 1 == WRAP ==> (WRAP - (n + 1)) % WRAP == 0
  {
  }

  /** That bound is exact: the release that makes the count reach 0 again puts the buffer on the LRU list
      a second time. */
  lemma HeldPutExact(fs: Fs, p: Pool, i: int)
    requires Inv(fs, p, i, NONE) && 0 <= i < NBLOCKS
    ensures Inv(fs, Put(p, i), NONE, NONE) <==> p.hits[i] + 1 < 0x1_0000_0000
  {
    assert Resident(p, i) && BufOk(fs, p, i);
    if p.hits[i] + 1 < WRAP {
      HeldPut(fs, p, i);
    } else {
      PutCount(p.hits[i]);
      var p' := Put(p, i);
      assert p'.lru == [i] + p.lru && i in p.lru;
      var j :| 0 <= j < |p.lru| && p.lru[j] == i;
      assert p'.lru[0] == p'.lru[j + 1];
    }
  }

  /** With nothing held the list is complete. */
  lemma StackedFull(fs: Fs, p: Pool)
    requires Inv(fs, p, NONE, NONE) && Stacked(p)
    ensures p.lru == Down(NBLOCKS - |p.free|)
  {
    hide Outcome, NoDup, BucketOk, BufOk, Unique, Sound, Filed, Good;
    var m := NBLOCKS - |p.free|;
    if m > 0 {
      InUse(p, 0);
      DownMembers(m - 1);
      assert Resident(p, m - 1);
    }
  }

  /** So the buffer to be loaded next is the next one in order, or else always the last. */
  lemma StackedTaken(fs: Fs, p: Pool)
    requires Inv(fs, p, NONE, NONE) && Stacked(p)
    ensures p.free != [] ==> p.free[0] == NBLOCKS - |p.free| && Stacked(p.(free := p.free[1..]))
    ensures p.free == [] ==> p.lru == Down(NBLOCKS) && p.lru[1..] == Down(LAST)
  {
    hide Inv;
    StackedFull(fs, p);
    if p.free != [] {
      var m := NBLOCKS - |p.free|;
      assert p.free[1..] == seq(|p.free| - 1, k => m + 1 + k);
    }
  }

  /** The first release of a buffer puts it back where it was taken from. */
  lemma StackedPut(fs: Fs, p: Pool, i: int)
    requires Inv(fs, p, i, NONE) && 0 <= i < NBLOCKS && p.hits[i] + 1 < WRAP && Stacked(p)
    ensures Stacked(Put(p, i)) && Put(p, i).lru == Down(NBLOCKS - |p.free|)
  {
    hide Outcome, NoDup, BucketOk, BufOk, Unique, Sound, Filed, Good;
    PutGood(fs, p, i);
    var m := NBLOCKS - |p.free|;
    InUse(p, i);
    DownMembers(m);
    if i in p.lru {
      assert Resident(p, m - 1) && m - 1 in p.lru;
    } else {
      DownMembers(m - 1);
      assert p.lru == Down(m - 1) && i == m - 1;
      assert [i] + p.lru == Down(m);
    }
  }

  lemma DownMembers(n: nat)
    ensures forall j :: j in Down(n) <==> 0 <= j < n
  {
    forall j | 0 <= j < n
      ensures j in Down(n)
    {
      assert Down(n)[n - 1 - j] == j;
    }
  }

  /** The buffers in use are those with the lowest numbers. */
  lemma InUse(p: Pool, i: int)
    requires Shape(p) && Placed(p, NONE) && Stacked(p) && 0 <= i < NBLOCKS
    ensures Resident(p, i) <==> i < NBLOCKS - |p.free|
    ensures |p.free| < NBLOCKS ==> Resident(p, NBLOCKS - |p.free| - 1)
  {
    hide NoDup;
    var m := NBLOCKS - |p.free|;
    assert forall k :: 0 <= k < |p.free| ==> p.free[k] == m + k;
    assert i >= m ==> p.free[i - m] == i;
    assert m > 0 ==> m - 1 !in p.free;
  }

  /** The pool after a buffer was found in its bucket and released, `n` times in a row. */
  function PutTimes(p: Pool, i: int, n: nat): (q: Pool)
    requires |p.bufs| == |p.hits| == NBLOCKS && 0 <= i < NBLOCKS
    ensures |q.bufs| == |q.hits| == NBLOCKS
  {
    if n == 0 then p else Put(PutTimes(p, i, n - 1), i)
  }

  /** All goes well, and each round wears the buffer a little more ... */
  lemma {:induction false} WornByPuts(fs: Fs, p: Pool, i: int, n: nat)
    requires Inv(fs, p, NONE, NONE) && Resident(p, i) && p.hits[i] + n < WRAP
    ensures var q := PutTimes(p, i, n);
      Inv(fs, q, NONE, NONE) && Inv(fs, q, i, NONE) && q.hits[i] == p.hits[i] + n && i in q.lru
    decreases n
  {
    hide NoDup, BucketOk, Unique, SameKey, Outcome;
    if n > 0 {
      var q := PutTimes(p, i, n - 1);
      WornByPuts(fs, p, i, n - 1);
      assert Resident(q, i) && BufOk(fs, q, i);
      PutCount(q.hits[i]);
      PutFiled(fs, q, i);
      PutGood(fs, q, i);
      HeldPut(fs, q, i);
    }
  }

  /** ... until, as can happen to every resident buffer, one round too many puts it onto the LRU list twice. */
  lemma WornOut(fs: Fs, p: Pool, i: int)
    requires Inv(fs, p, NONE, NONE) && Resident(p, i)
    ensures 0 <= p.hits[i] < WRAP
    ensures var n := WRAP - 1 - p.hits[i];
      Inv(fs, PutTimes(p, i, n), i, NONE) && !Inv(fs, PutTimes(p, i, n + 1), NONE, NONE)
  {
    hide NoDup, Filed, Placed, Reclaimable, Unique, Good, Outcome, Resident, Put;
    HitsInRange(fs, p, i);
    var n := WRAP - 1 - p.hits[i];
    WornByPuts(fs, p, i, n);
    HeldPutExact(fs, PutTimes(p, i, n), i);
  }

  lemma HitsInRange(fs: Fs, p: Pool, i: int)
    requires Inv(fs, p, NONE, NONE) && Resident(p, i)
    ensures 0 <= i < NBLOCKS && 0 <= p.hits[i] < WRAP
  {
    hide Outcome, NoDup, Filed, Unique;
    assert BufOk(fs, p, i) && i in p.lru;
  }

  // ---------------------------------------------------------------- which buffer is reclaimed

  /** The position of the last `x` in `s`, or -1. */
  function LastAt(s: seq<int>, x: int): (k: int)
    ensures -1 <= k < |s| && (k >= 0 ==> s[k] == x) && forall j :: k < j < |s| ==> s[j] != x
  {
    if s == [] then -1 else if s[|s| - 1] == x then |s| - 1 else LastAt(s[..|s| - 1], x)
  }

  /** Buffer `y` was released after the last release of `x`. */
  predicate After(s: seq<int>, x: int, y: int) {
    exists k :: LastAt(s, x) < k < |s| && s[k] == y
  }

  /** No other buffer was released as long ago as `i`. */
  ghost predicate LeastRecent(releases: seq<int>, i: int) {
    forall j :: 0 <= j < NBLOCKS && j != i ==> LastAt(releases, i) < LastAt(releases, j)
  }

  lemma AfterAt(s: seq<int>, x: int, y: int)
    requires x != y
    ensures LastAt(s, x) < LastAt(s, y) <==> After(s, x, y)
  {
    hide LastAt;
  }

  /** The last buffer, which is the one that is reclaimed, is the least recently released exactly when every other one
      was released after it. */
  lemma ReclaimExact(releases: seq<int>)
    ensures LeastRecent(releases, LAST) <==> forall j :: 0 <= j < LAST ==> After(releases, LAST, j)
  {
    forall j | 0 <= j < LAST
      ensures LastAt(releases, LAST) < LastAt(releases, j) <==> After(releases, LAST, j)
    {
      AfterAt(releases, LAST, j);
    }
  }

  /** A buffer that is found and released again does not move on the list, so it may be released last and another be
      reclaimed. */
  lemma FoundStays(fs: Fs, p: Pool, j: int)
    requires Inv(fs, p, NONE, NONE) && Stacked(p) && p.free == [] && 0 <= j < NBLOCKS && p.hits[j] + 1 < WRAP
    ensures Inv(fs, Put(p, j), NONE, NONE) && Put(p, j).lru == p.lru && Victim(Put(p, j)) == LAST
  {
    StackedFull(fs, p);
    assert p.lru[NBLOCKS - 1 - j] == j;
    assert Resident(p, j);
    HeldPut(fs, p, j);
    PutGood(fs, p, j);
  }

  /** A lookup that found nothing, and the release of what it loaded. */
  lemma MissedPut(p: Pool, b: Buf)
    requires Shape(p) && Stacked(p) && b.refcnt == 1
    ensures var v := Victim(p);
      && 0 <= v < NBLOCKS
      && var q := Put(Missed(p, b), v);
         && q.bufs == p.bufs[v := b.(refcnt := 0)] && q.hits == p.hits[v := 0]
         && q.free == if p.free == [] then [] else p.free[1..]
  {
    hide Resident;
  }

  /** Two misses in a row: the second reclaims the buffer of the first, which was released last, and it is not the least
      recently released. */
  lemma MissAfterMiss(fs: Fs, p: Pool, b: Buf, releases: seq<int>)
    requires Inv(fs, p, NONE, NONE) && Stacked(p) && p.free == []
    requires b.refcnt == 1
    ensures var q := Put(Missed(p, b), LAST);
      q.free == [] && q.lru == p.lru && Victim(q) == LAST && forall j :: 0 <= j < LAST ==> q.bufs[j] == p.bufs[j]
    ensures !LeastRecent(releases + [LAST], LAST)
  {
    StackedTaken(fs, p);
    assert LastAt(releases + [LAST], LAST) == |releases|;
    assert [LAST] + Down(LAST) == Down(NBLOCKS);
    assert LastAt(releases + [LAST], 0) < |releases|;
  }
}
