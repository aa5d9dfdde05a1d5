/** The checker of `malloc/mdriver.c` as a client of the allocator: it replays a trace, checks every
    payload the allocator hands out and the survival of the data in it, and measures utilisation. */
module Driver {
  import opened HeapLayout
  import opened Bytes
  import opened WordBytes
  import opened Allocator

  datatype Op = Alloc(index: int, size: int) | Realloc(index: int, size: int) | Free(index: int)

  /** `range_t`: the byte addresses of a payload, both ends included. */
  datatype Range = Range(lo: int, hi: int, index: int)

  datatype Mode = DbgNone | DbgCheap | DbgExpensive

  const RANDOM_DATA_LEN: int := 65536

  type Contents = map<int, seq<Word>>

  // ---------------------------------------------------------------- traces

  /** The ids that are allocated, and those that were and have been freed, as a trace goes along. */
  datatype Ids = Ids(live: set<int>, freed: set<int>)

  function After(ids: Ids, op: Op): Ids {
    match op
    case Alloc(i, _) => Ids(ids.live + {i}, ids.freed - {i})
    case Realloc(i, size) => if size > 0 then Ids(ids.live + {i}, ids.freed) else Ids(ids.live - {i}, ids.freed)
    case Free(i) => if i in ids.live then Ids(ids.live - {i}, ids.freed + {i}) else ids
  }

  /** No id is allocated twice, and no freed id is reallocated or freed again.  Sizes are such that
      rounding them up does not wrap around. */
  predicate Legal(ids: Ids, op: Op, numIds: int) {
    match op
    case Alloc(i, size) => 0 <= i < numIds && i !in ids.live && 0 <= size <= SIZE_MAX - 23
    case Realloc(i, size) => 0 <= i < numIds && i !in ids.freed && 0 <= size <= SIZE_MAX - 23
    case Free(i) => i == -1 || (0 <= i < numIds && i !in ids.freed)
  }

  predicate LegalTrace(ids: Ids, ops: seq<Op>, numIds: int)
    decreases |ops|
  {
    ops == [] || (Legal(ids, ops[0], numIds) && LegalTrace(After(ids, ops[0]), ops[1..], numIds))
  }

  /** The most an operation can add to the heap, in words. */
  function Need(op: Op): int {
    if op.Free? || op.size <= 0 then 0 else NormalizeSize(op.size) / 4
  }

  function TotalNeed(ops: seq<Op>): int {
    if ops == [] then 0 else Need(ops[0]) + TotalNeed(ops[1..])
  }

  lemma {:induction false} TotalNeedNonNegative(ops: seq<Op>)
    ensures 0 <= TotalNeed(ops)
  {
    if ops != [] {
      TotalNeedNonNegative(ops[1..]);
    }
  }

  /** The operation a replay has come to. */
  lemma NextOp(ops: seq<Op>, at: nat, ids: Ids, numIds: int)
    requires at < |ops| && LegalTrace(ids, ops[at..], numIds)
    ensures Legal(ids, ops[at], numIds) && LegalTrace(After(ids, ops[at]), ops[at + 1..], numIds)
    ensures TotalNeed(ops[at..]) == Need(ops[at]) + TotalNeed(ops[at + 1..]) && 0 <= TotalNeed(ops[at + 1..])
  {
    assert ops[at..][0] == ops[at] && ops[at..][1..] == ops[at + 1..];
    TotalNeedNonNegative(ops[at + 1..]);
  }

  // ---------------------------------------------------------------- requested bytes

  /** The requested sizes of the live ids below `n`, added up. */
  function LiveBytes(sizes: seq<int>, live: set<int>, n: nat): int
    requires n <= |sizes|
  {
    if n == 0 then 0 else LiveBytes(sizes, live, n - 1) + if n - 1 in live then sizes[n - 1] else 0
  }

  lemma {:induction false} LiveBytesSet(sizes: seq<int>, live: set<int>, i: int, size: int, n: nat)
    requires n <= |sizes| && 0 <= i < |sizes|
    ensures LiveBytes(sizes[i := size], live + {i}, n) ==
            LiveBytes(sizes, live, n) + if i < n then size - (if i in live then sizes[i] else 0) else 0
  {
    if n > 0 {
      LiveBytesSet(sizes, live, i, size, n - 1);
    }
  }

  lemma {:induction false} LiveBytesUnset(sizes: seq<int>, live: set<int>, i: int, n: nat)
    requires n <= |sizes| && 0 <= i < |sizes|
    ensures LiveBytes(sizes, live - {i}, n) == LiveBytes(sizes, live, n) - if i < n && i in live then sizes[i] else 0
  {
    if n > 0 {
      LiveBytesUnset(sizes, live, i, n - 1);
    }
  }

  /** The sizes the driver records, and which ids are live, after a trace. */
  function Replay(ops: seq<Op>, numIds: nat): (r: (Ids, seq<int>))
    ensures |r.1| == numIds
    decreases |ops|
  {
    if ops == [] then (Ids({}, {}), seq(numIds, i => 0))
    else
      var op := ops[|ops| - 1];
      var (ids, sizes) := Replay(ops[..|ops| - 1], numIds);
      (After(ids, op), if op.Free? || !(0 <= op.index < numIds) then sizes else sizes[op.index := op.size])
  }

  /** The bytes requested and not yet freed after a trace. */
  function Requested(ops: seq<Op>, numIds: nat): int {
    var (ids, sizes) := Replay(ops, numIds);
    LiveBytes(sizes, ids.live, numIds)
  }

  /** `used` is the most that was requested and not freed after any of the first `n` operations. */
  ghost predicate HighWater(ops: seq<Op>, n: int, numIds: nat, used: int)
    requires 0 <= n <= |ops|
  {
    && (forall i :: 0 <= i <= n ==> Requested(ops[..i], numIds) <= used)
    && (exists i :: 0 <= i <= n && Requested(ops[..i], numIds) == used)
  }

  lemma HighWaterStart(ops: seq<Op>, numIds: nat)
    ensures HighWater(ops, 0, numIds, 0)
  {
    NoLiveBytes(seq(numIds, i => 0), {}, numIds);
    assert Requested(ops[..0], numIds) == 0;
  }

  lemma HighWaterStep(ops: seq<Op>, n: int, numIds: nat, used: int, ids: Ids, sizes: seq<int>)
    requires 0 <= n < |ops| && HighWater(ops, n, numIds, used)
    requires Replay(ops[..n + 1], numIds) == (ids, sizes)
    ensures var now := LiveBytes(sizes, ids.live, numIds);
            HighWater(ops, n + 1, numIds, if now > used then now else used)
  {
    var now := LiveBytes(sizes, ids.live, numIds);
    assert Requested(ops[..n + 1], numIds) == now;
    var i :| 0 <= i <= n && Requested(ops[..i], numIds) == used;
  }

  lemma {:induction false} NoLiveBytes(sizes: seq<int>, live: set<int>, n: nat)
    requires n <= |sizes| && forall i {:trigger i in live} :: 0 <= i < n ==> i !in live
    ensures LiveBytes(sizes, live, n) == 0
  {
    if n > 0 {
      NoLiveBytes(sizes, live, n - 1);
    }
  }

  // ---------------------------------------------------------------- what the driver knows

  /** The driver's arrays describe live payloads of at least the requested size. */
  ghost predicate Tracks(l: Contents, blocks: seq<int>, sizes: seq<int>, ids: Ids) {
    && |sizes| == |blocks|
    && (forall i {:trigger i in ids.live} :: i in ids.live ==>
          0 <= i < |blocks| && i !in ids.freed && blocks[i] in l && 0 < sizes[i] <= 4 * |l[blocks[i]]|)
    && (forall i, j {:trigger i in ids.live, j in ids.live} :: i in ids.live && j in ids.live && i != j ==>
        blocks[i] != blocks[j])
    && (forall i {:trigger blocks[i]} :: 0 <= i < |blocks| && i !in ids.live && i !in ids.freed ==>
        blocks[i] == NULL && sizes[i] == 0)
  }

  lemma LiveId(l: Contents, blocks: seq<int>, sizes: seq<int>, ids: Ids, i: int)
    requires Tracks(l, blocks, sizes, ids) && i in ids.live
    ensures 0 <= i < |blocks| && i !in ids.freed
  {
  }

  /** Every payload belongs to a live id: the driver has lost none. */
  ghost predicate Owned(l: Contents, blocks: seq<int>, live: set<int>) {
    l.Keys == set i | i in live && 0 <= i < |blocks| :: blocks[i]
  }

  lemma OwnedPlaced(l: Contents, l': Contents, blocks: seq<int>, sizes: seq<int>, ids: Ids, index: int, p: int)
    requires Tracks(l, blocks, sizes, ids) && Owned(l, blocks, ids.live) && 0 <= index < |blocks|
    requires l'.Keys == (if index in ids.live then l.Keys - {blocks[index]} else l.Keys) + {p}
    ensures Owned(l', blocks[index := p], ids.live + {index})
  {
    var blocks', live' := blocks[index := p], ids.live + {index};
    forall a | a in l'.Keys
      ensures a in set i | i in live' && 0 <= i < |blocks'| :: blocks'[i]
    {
      if a == p {
        assert index in live' && blocks'[index] == a;
      } else {
        var i :| i in ids.live && 0 <= i < |blocks| && blocks[i] == a;
        assert i in live' && blocks'[i] == a;
      }
    }
    forall i | i in live' && 0 <= i < |blocks'|
      ensures blocks'[i] in l'.Keys
    {
      if i != index {
        assert i in ids.live && blocks[i] in l.Keys;
      }
    }
  }

  lemma OwnedDropped(l: Contents, l': Contents, blocks: seq<int>, sizes: seq<int>, ids: Ids, index: int,
                     blocks': seq<int>)
    requires Tracks(l, blocks, sizes, ids) && Owned(l, blocks, ids.live) && 0 <= index < |blocks| == |blocks'|
    requires l'.Keys == if index in ids.live then l.Keys - {blocks[index]} else l.Keys
    requires forall i :: 0 <= i < |blocks| && i != index ==> blocks'[i] == blocks[i]
    ensures Owned(l', blocks', ids.live - {index})
  {
    hide Tracks;
    var live' := ids.live - {index};
    forall a | a in l'.Keys
      ensures a in set i | i in live' && 0 <= i < |blocks'| :: blocks'[i]
    {
      var i :| i in ids.live && 0 <= i < |blocks| && blocks[i] == a;
      assert i in live' && blocks'[i] == a;
    }
    forall i | i in live' && 0 <= i < |blocks'|
      ensures blocks'[i] in l'.Keys
    {
      OtherBlock(l, blocks, sizes, ids, index, i);
    }
  }

  lemma OtherBlock(l: Contents, blocks: seq<int>, sizes: seq<int>, ids: Ids, i: int, j: int)
    requires Tracks(l, blocks, sizes, ids) && j in ids.live && i != j && 0 <= i < |blocks|
    ensures 0 <= j < |blocks| && blocks[j] in l.Keys && (i in ids.live ==> blocks[i] != blocks[j])
  {
  }

  lemma TracksAt(l: Contents, blocks: seq<int>, sizes: seq<int>, ids: Ids, i: int)
    requires Tracks(l, blocks, sizes, ids) && 0 <= i < |blocks| && i !in ids.freed
    ensures |sizes| == |blocks|
    ensures if i in ids.live then blocks[i] in l && 0 < sizes[i] <= 4 * |l[blocks[i]]|
            else blocks[i] == NULL && sizes[i] == 0
  {
  }

  function DataAt(data: seq<Byte>, base: int, k: int): Byte
    requires |data| == RANDOM_DATA_LEN
  {
    data[(base + k) % RANDOM_DATA_LEN]
  }

  /** The first `n` bytes of `c` are the random data from `base` on. */
  ghost predicate Holds(c: seq<Word>, n: int, base: int, data: seq<Byte>)
    requires |data| == RANDOM_DATA_LEN && n <= 4 * |c|
  {
    forall k {:trigger ByteAt(c, k)} :: 0 <= k < n ==> ByteAt(c, k) == DataAt(data, base, k)
  }

  lemma HoldsIs(c: seq<Word>, n: int, base: int, data: seq<Byte>)
    requires |data| == 65536 && n <= 4 * |c|
    ensures Holds(c, n, base, data) <==>
            forall k {:trigger ByteAt(c, k)} :: 0 <= k < n ==> ByteAt(c, k) == data[(base + k) % 65536]
  {
    assert forall k :: DataAt(data, base, k) == data[(base + k) % 65536];
  }

  lemma HoldsOneMore(c: seq<Word>, i: int, base: int, data: seq<Byte>)
    requires |data| == RANDOM_DATA_LEN && 0 <= i < 4 * |c|
    ensures Holds(c, i + 1, base, data) <==> Holds(c, i, base, data) && ByteAt(c, i) == DataAt(data, base, i)
  {
  }

  lemma HoldsStored(c: seq<Word>, i: int, base: int, data: seq<Byte>, c': seq<Word>)
    requires |data| == RANDOM_DATA_LEN && 0 <= i < 4 * |c| && Holds(c, i, base, data)
    requires c' == c[i / 4 := WithByte(c[i / 4], i % 4, DataAt(data, base, i))]
    ensures Holds(c', i + 1, base, data)
  {
    forall k {:trigger ByteAt(c', k)} | 0 <= k < i + 1 ensures ByteAt(c', k) == DataAt(data, base, k) {
      StoreByte(c, i, DataAt(data, base, i), k);
    }
  }

  /** Every live payload still holds what the driver wrote there. */
  ghost predicate Intact(l: Contents, blocks: seq<int>, sizes: seq<int>, bases: seq<int>, ids: Ids, data: seq<Byte>)
    requires Tracks(l, blocks, sizes, ids) && |data| == RANDOM_DATA_LEN
  {
    && |bases| == |blocks|
    && forall i {:trigger i in ids.live} :: i in ids.live ==> Holds(l[blocks[i]], sizes[i], bases[i], data)
  }

  function RangeOf(origin: int, p: int, size: int, index: int): Range {
    Range(origin + 4 * p, origin + 4 * p + size - 1, index)
  }

  /** The range list holds ranges of live payloads, at most one for each id. */
  ghost predicate Listed(ranges: seq<Range>, origin: int, blocks: seq<int>, sizes: seq<int>, ids: Ids) {
    && |sizes| == |blocks|
    && (forall j {:trigger ranges[j]} :: 0 <= j < |ranges| ==>
          && 0 <= ranges[j].index < |blocks| && ranges[j].index in ids.live
          && ranges[j] == RangeOf(origin, blocks[ranges[j].index], sizes[ranges[j].index], ranges[j].index))
    && (forall j, k {:trigger ranges[j], ranges[k]} :: 0 <= j < k < |ranges| ==> ranges[j].index != ranges[k].index)
  }

  /** The driver's overlap test: one of the two ends of the new range lies inside the old one. */
  predicate Touches(lo: int, hi: int, r: Range) {
    (lo >= r.lo && lo <= r.hi) || (hi >= r.lo && hi <= r.hi)
  }

  lemma OverwrittenTwice(l0: Contents, l1: Contents, l2: Contents, p: int)
    requires p in l1 && l1 == l0[p := l1[p]] && p in l2 && l2 == l1[p := l2[p]]
    ensures l2 == l0[p := l2[p]]
  {
  }

  // ---------------------------------------------------------------- steps of the checker

  /** Live payloads are aligned and lie apart, inside the heap. */
  ghost predicate Spread(l: Contents, end: int) {
    && (forall p {:trigger p in l} :: p in l ==> p % 4 == 0 && FIRST < p && p + |l[p]| < end)
    && (forall p, q {:trigger p in l, q in l} :: p in l && q in l && p < q ==> p + |l[p]| < q)
  }

  lemma HeapSpread(heap: Heap)
    requires heap.Valid()
    ensures Spread(heap.Payloads(), heap.memBrk)
  {
    var m, blk, l := heap.mem[..], heap.blk, heap.Payloads();
    forall p {:trigger p in l} | p in l ensures p % 4 == 0 && FIRST < p && p + |l[p]| < heap.memBrk {
      PayloadAligned(m, blk, p);
      PayloadsApart(m, blk, heap.memBrk, p, p);
    }
    forall p, q {:trigger p in l, q in l} | p in l && q in l && p < q ensures p + |l[p]| < q {
      PayloadsApart(m, blk, heap.memBrk, p, q);
    }
  }

  /** All payloads the driver knows about, except that of `index`, are still there and unchanged, and
      `p` is none of them. */
  ghost predicate OthersKept(l: Contents, l': Contents, blocks: seq<int>, sizes: seq<int>, ids: Ids, index: int, p: int)
    requires Tracks(l, blocks, sizes, ids)
  {
    forall i {:trigger i in ids.live} :: i in ids.live && i != index ==>
      blocks[i] in l' && l'[blocks[i]] == l[blocks[i]] && blocks[i] != p
  }

  lemma KeptByMalloc(l: Contents, l': Contents, blocks: seq<int>, sizes: seq<int>, ids: Ids, index: int, p: int)
    requires Tracks(l, blocks, sizes, ids) && p !in l && p in l' && l' == l[p := l'[p]]
    ensures OthersKept(l, l', blocks, sizes, ids, index, p)
  {
  }

  lemma KeptOverwritten(l: Contents, l1: Contents, l2: Contents, blocks: seq<int>, sizes: seq<int>, ids: Ids,
                        index: int, p: int)
    requires Tracks(l, blocks, sizes, ids) && OthersKept(l, l1, blocks, sizes, ids, index, p)
    requires p in l2 && l2 == l1[p := l2[p]]
    ensures OthersKept(l, l2, blocks, sizes, ids, index, p)
  {
  }

  lemma KeptByRealloc(l: Contents, l': Contents, blocks: seq<int>, sizes: seq<int>, ids: Ids, index: int, r: int)
    requires Tracks(l, blocks, sizes, ids) && 0 <= index < |blocks| && index !in ids.freed && NULL !in l
    requires r in l' && (r == blocks[index] || r !in l) && l' == (l - {blocks[index]})[r := l'[r]]
    ensures OthersKept(l, l', blocks, sizes, ids, index, r)
  {
  }

  lemma HoldsPrefix(c: seq<Word>, c': seq<Word>, n: int, n': int, base: int, data: seq<Byte>)
    requires |data| == RANDOM_DATA_LEN && c <= c' && 0 <= n' <= n <= 4 * |c| && Holds(c, n, base, data)
    ensures Holds(c', n', base, data)
  {
    forall k {:trigger ByteAt(c', k)} | 0 <= k < n' ensures ByteAt(c', k) == DataAt(data, base, k) {
      assert ByteAt(c', k) == ByteAt(c, k);
    }
  }

  lemma HoldsFront(c: seq<Word>, c': seq<Word>, n: int, base: int, data: seq<Byte>)
    requires |data| == RANDOM_DATA_LEN && c <= c' && n <= 4 * |c|
    ensures Holds(c', n, base, data) <==> Holds(c, n, base, data)
  {
    forall k {:trigger ByteAt(c, k)} {:trigger ByteAt(c', k)} | 0 <= k < n ensures ByteAt(c', k) == ByteAt(c, k) {
    }
  }

  /** Id `index` now has payload `p`. */
  lemma PlacedTracks(l: Contents, l': Contents, blocks: seq<int>, sizes: seq<int>, ids: Ids, index: int, p: int,
                     size: int)
    requires Tracks(l, blocks, sizes, ids) && 0 <= index < |blocks| && OthersKept(l, l', blocks, sizes, ids, index, p)
    requires p in l' && 0 < size <= 4 * |l'[p]|
    ensures Tracks(l', blocks[index := p], sizes[index := size], Ids(ids.live + {index}, ids.freed - {index}))
  {
    var blocks', sizes', ids' := blocks[index := p], sizes[index := size], Ids(ids.live + {index}, ids.freed - {index});
    forall i | 0 <= i < |blocks| && i != index
      ensures blocks'[i] == blocks[i] && sizes'[i] == sizes[i]
      ensures (i in ids'.live <==> i in ids.live) && (i in ids'.freed <==> i in ids.freed)
    {
    }
    assert forall i :: i in ids'.live ==> i == index || i in ids.live;
    assert forall i, j {:trigger i in ids'.live, j in ids'.live} :: i in ids'.live && j in ids'.live && i != j ==>
        blocks'[i] != blocks'[j];
    assert Tracks(l', blocks', sizes', ids');
  }

  lemma PlacedIntact(l: Contents, l': Contents, blocks: seq<int>, sizes: seq<int>, bases: seq<int>, ids: Ids,
                     index: int, p: int, size: int, random: int, data: seq<Byte>)
    requires |data| == RANDOM_DATA_LEN && Tracks(l, blocks, sizes, ids) && Intact(l, blocks, sizes, bases, ids, data)
    requires 0 <= index < |blocks| && OthersKept(l, l', blocks, sizes, ids, index, p)
    requires p in l' && 0 < size <= 4 * |l'[p]| && Holds(l'[p], size, random, data)
    requires Tracks(l', blocks[index := p], sizes[index := size], Ids(ids.live + {index}, ids.freed - {index}))
    ensures Intact(l', blocks[index := p], sizes[index := size], bases[index := random],
                   Ids(ids.live + {index}, ids.freed - {index}), data)
  {
  }

  ghost predicate Unlisted(ranges: seq<Range>, index: int) {
    forall j {:trigger ranges[j]} :: 0 <= j < |ranges| ==> ranges[j].index != index
  }

  lemma PlacedListed(ranges: seq<Range>, origin: int, blocks: seq<int>, sizes: seq<int>, ids: Ids, index: int, p: int,
                     size: int)
    requires Listed(ranges, origin, blocks, sizes, ids) && 0 <= index < |blocks| && Unlisted(ranges, index)
    ensures Listed([RangeOf(origin, p, size, index)] + ranges, origin, blocks[index := p], sizes[index := size],
                   Ids(ids.live + {index}, ids.freed - {index}))
    ensures Listed(ranges, origin, blocks[index := p], sizes[index := size],
            Ids(ids.live + {index}, ids.freed - {index}))
  {
  }

  lemma AlignedAddress(origin: int, p: int)
    ensures origin % ALIGNMENT == 0 && p % 4 == 0 ==> (origin + 4 * p) % ALIGNMENT == 0
  {
  }

  /** The driver's test of the two ends suffices: a fresh payload's range touches no listed one. */
  lemma ClearOfRanges(l: Contents, l': Contents, end: int, ranges: seq<Range>, origin: int, blocks: seq<int>,
                      sizes: seq<int>, ids: Ids,
                      index: int, p: int, size: int)
    requires Tracks(l, blocks, sizes, ids) && Listed(ranges, origin, blocks, sizes, ids) && Unlisted(ranges, index)
    requires OthersKept(l, l', blocks, sizes, ids, index, p) && Spread(l', end)
    requires p in l' && 0 < size <= 4 * |l'[p]|
    ensures forall j :: 0 <= j < |ranges| ==> !Touches(origin + 4 * p, origin + 4 * p + size - 1, ranges[j])
    ensures origin <= origin + 4 * p && origin + 4 * p + size - 1 < origin + 4 * end
    ensures origin % ALIGNMENT == 0 ==> (origin + 4 * p) % ALIGNMENT == 0
  {
    AlignedAddress(origin, p);
    forall j | 0 <= j < |ranges| ensures !Touches(origin + 4 * p, origin + 4 * p + size - 1, ranges[j]) {
      var i := ranges[j].index;
      assert i in ids.live;
      var q := blocks[i];
      assert q in l';
    }
  }

  // ---------------------------------------------------------------- frees

  /** What a range list says once the range of id `index`, if listed, is gone. */
  ghost predicate Delisted(ranges: seq<Range>, ranges': seq<Range>, index: int) {
    && Unlisted(ranges', index)
    && (forall j {:trigger ranges'[j]} :: 0 <= j < |ranges'| ==> ranges'[j] in ranges)
    && (forall j, k {:trigger ranges'[j], ranges'[k]} :: 0 <= j < k < |ranges'| ==>
        ranges'[j].index != ranges'[k].index)
  }

  lemma DroppedRange(ranges: seq<Range>, j: int, origin: int, blocks: seq<int>, sizes: seq<int>, ids: Ids)
    requires Listed(ranges, origin, blocks, sizes, ids) && 0 <= j < |ranges|
    ensures Delisted(ranges, ranges[..j] + ranges[j + 1..], ranges[j].index)
  {
    var ranges' := ranges[..j] + ranges[j + 1..];
    forall i {:trigger ranges'[i]} | 0 <= i < |ranges'|
      ensures ranges'[i] in ranges && ranges'[i].index != ranges[j].index
    {
      assert ranges'[i] == ranges[if i < j then i else i + 1];
    }
    forall i, k {:trigger ranges'[i], ranges'[k]} | 0 <= i < k < |ranges'|
        ensures ranges'[i].index != ranges'[k].index {
      assert ranges'[i] == ranges[if i < j then i else i + 1] && ranges'[k] == ranges[if k < j then k else k + 1];
    }
  }

  lemma DelistedListed(ranges: seq<Range>, ranges': seq<Range>, origin: int, blocks: seq<int>, sizes: seq<int>,
                       ids: Ids,
                       index: int, ids': Ids, blocks': seq<int>, sizes': seq<int>)
    requires Listed(ranges, origin, blocks, sizes, ids) && Delisted(ranges, ranges', index)
    requires ids'.live + {index} == ids.live + {index} && |blocks'| == |blocks| && |sizes'| == |sizes|
    requires forall i :: 0 <= i < |blocks| && i != index ==> blocks'[i] == blocks[i] && sizes'[i] == sizes[i]
    ensures Listed(ranges', origin, blocks', sizes', ids')
  {
    forall j {:trigger ranges'[j]} | 0 <= j < |ranges'|
      ensures 0 <= ranges'[j].index < |blocks| && ranges'[j].index in ids'.live
      ensures ranges'[j] == RangeOf(origin, blocks'[ranges'[j].index], sizes'[ranges'[j].index], ranges'[j].index)
    {
      assert ranges'[j] in ranges;
      var k :| 0 <= k < |ranges| && ranges[k] == ranges'[j];
      assert ranges[k].index in ids'.live + {index};
    }
  }

  /** Id `index` no longer has a payload. */
  lemma DroppedTracks(l: Contents, l': Contents, blocks: seq<int>, sizes: seq<int>, ids: Ids, index: int)
    requires Tracks(l, blocks, sizes, ids) && index in ids.live && l' == l - {blocks[index]}
    ensures Tracks(l', blocks, sizes, Ids(ids.live - {index}, ids.freed + {index}))
  {
    var ids' := Ids(ids.live - {index}, ids.freed + {index});
    forall i {:trigger i in ids'.live} | i in ids'.live
      ensures 0 <= i < |blocks| && i !in ids'.freed && blocks[i] in l' && 0 < sizes[i] <= 4 * |l'[blocks[i]]|
    {
      assert i in ids.live && index in ids.live;
    }
    forall i {:trigger blocks[i]} | 0 <= i < |blocks| && i !in ids'.live && i !in ids'.freed
      ensures blocks[i] == NULL && sizes[i] == 0
    {
      assert i !in ids.live && i !in ids.freed;
    }
  }

  lemma DroppedIntact(l: Contents, l': Contents, blocks: seq<int>, sizes: seq<int>, bases: seq<int>, ids: Ids,
                      index: int, data: seq<Byte>)
    requires Tracks(l, blocks, sizes, ids) && index in ids.live && l' == l - {blocks[index]}
    requires |data| == RANDOM_DATA_LEN && Intact(l, blocks, sizes, bases, ids, data)
    ensures var ids' := Ids(ids.live - {index}, ids.freed + {index});
            Tracks(l', blocks, sizes, ids') && Intact(l', blocks, sizes, bases, ids', data)
  {
    hide Holds;
    DroppedTracks(l, l', blocks, sizes, ids, index);
    var live' := ids.live - {index};
    forall i {:trigger i in live'} | i in live'
      ensures i in ids.live && l'[blocks[i]] == l[blocks[i]]
    {
      assert i in ids.live && index in ids.live;
    }
  }

  /** Id `index` has neither a payload nor been freed. */
  lemma BlankedTracks(l: Contents, blocks: seq<int>, sizes: seq<int>, ids: Ids, index: int)
    requires Tracks(l, blocks, sizes, ids) && index in ids.freed && 0 <= index < |blocks|
    ensures Tracks(l, blocks[index := NULL], sizes[index := 0], Ids(ids.live, ids.freed - {index}))
  {
    var blocks', sizes', ids' := blocks[index := NULL], sizes[index := 0], Ids(ids.live, ids.freed - {index});
    forall i | 0 <= i < |blocks| && i != index
      ensures blocks'[i] == blocks[i] && sizes'[i] == sizes[i] && (i in ids'.freed <==> i in ids.freed)
    {
    }
    assert forall i, j {:trigger i in ids.live, j in ids.live} :: i in ids.live && j in ids.live && i != j ==>
        blocks'[i] != blocks'[j];
    assert Tracks(l, blocks', sizes', ids');
  }

  lemma ReleasedTracks(l: Contents, l': Contents, blocks: seq<int>, sizes: seq<int>, ids: Ids, index: int)
    requires Tracks(l, blocks, sizes, ids) && 0 <= index < |blocks| && index !in ids.freed
    requires l' == if index in ids.live then l - {blocks[index]} else l
    ensures Tracks(l', blocks[index := NULL], sizes[index := 0], Ids(ids.live - {index}, ids.freed))
  {
    if index in ids.live {
      DroppedTracks(l, l', blocks, sizes, ids, index);
      assert ids.freed + {index} - {index} == ids.freed;
      BlankedTracks(l', blocks, sizes, Ids(ids.live - {index}, ids.freed + {index}), index);
    } else {
      assert blocks[index] == NULL && sizes[index] == 0;
      assert blocks[index := NULL] == blocks && sizes[index := 0] == sizes && ids.live - {index} == ids.live;
    }
  }

  // ---------------------------------------------------------------- utilisation

  /** The id below `n` whose payload lies highest, or -1 if no id below `n` is live. */
  lemma {:induction false} Highest(blocks: seq<int>, live: set<int>, n: nat) returns (m: int)
    requires n <= |blocks|
    ensures m == -1 || 0 <= m < n
    ensures m == -1 ==> forall i {:trigger i in live} :: 0 <= i < n ==> i !in live
    ensures m >= 0 ==> m in live && forall i {:trigger i in live} :: i in live && 0 <= i < n ==> blocks[i] <= blocks[m]
  {
    m := -1;
    if n > 0 {
      m := Highest(blocks, live, n - 1);
      if n - 1 in live && (m < 0 || blocks[n - 1] > blocks[m]) {
        m := n - 1;
      }
    }
  }

  /** Payloads that lie apart below `bound` hold no more bytes than there are below it. */
  lemma {:induction false} PayloadsFit(l: Contents, end: int, blocks: seq<int>, sizes: seq<int>, live: set<int>,
                                       bound: int)
    requires Spread(l, end) && |sizes| == |blocks| && FIRST <= bound
    requires forall i {:trigger i in live} :: i in live ==>
               0 <= i < |blocks| && blocks[i] in l && sizes[i] <= 4 * |l[blocks[i]]|
                   && blocks[i] + |l[blocks[i]]| <= bound
    requires forall i, j {:trigger i in live, j in live} :: i in live && j in live && i != j ==> blocks[i] != blocks[j]
    ensures LiveBytes(sizes, live, |sizes|) <= 4 * (bound - FIRST)
    decreases |live|
  {
    var m := Highest(blocks, live, |blocks|);
    if m < 0 {
      NoLiveBytes(sizes, live, |sizes|);
    } else {
      forall i {:trigger i in live} | i in live && i != m ensures blocks[i] + |l[blocks[i]]| <= blocks[m] {
        assert blocks[i] <= blocks[m];
      }
      PayloadsFit(l, end, blocks, sizes, live - {m}, blocks[m]);
      LiveBytesUnset(sizes, live, m, |sizes|);
    }
  }

  /** What is requested at any time is live in the heap, so it fits the heap. */
  lemma RequestedFits(l: Contents, end: int, blocks: seq<int>, sizes: seq<int>, ids: Ids)
    requires Spread(l, end) && FIRST <= end && Tracks(l, blocks, sizes, ids)
    ensures LiveBytes(sizes, ids.live, |sizes|) <= 4 * end
  {
    PayloadsFit(l, end, blocks, sizes, ids.live, end);
  }

  lemma ReplayStep(ops: seq<Op>, n: nat, i: int)
    requires 0 <= i < |ops|
    ensures Replay(ops[..i + 1], n) ==
            var (ids, sizes) := Replay(ops[..i], n);
            var op := ops[i];
            (After(ids, op), if op.Free? || !(0 <= op.index < n) then sizes else sizes[op.index := op.size])
  {
    assert ops[..i + 1][..|ops[..i + 1]| - 1] == ops[..i];
  }

  // ---------------------------------------------------------------- the checker

  class Checker {
    const heap: Heap
    /** Byte address of the heap's first word. */
    const origin: int
    const data: seq<Byte>
    const mode: Mode
    const ignoreRanges: bool

    var blocks: seq<int>
    var sizes: seq<int>
    var bases: seq<int>
    var ranges: seq<Range>
    var errors: int
    ghost var ids: Ids

    constructor (heap: Heap, origin: int, data: seq<Byte>, mode: Mode, ignoreRanges: bool, numIds: nat)
      requires origin % ALIGNMENT == 0 && |data| == RANDOM_DATA_LEN
      ensures this.heap == heap && this.origin == origin && this.data == data && this.mode == mode
      ensures this.ignoreRanges == ignoreRanges && |blocks| == |sizes| == |bases| == numIds && errors == 0
    {
      this.heap, this.origin, this.data, this.mode, this.ignoreRanges := heap, origin, data, mode, ignoreRanges;
      blocks, sizes, bases := seq(numIds, i => NULL), seq(numIds, i => 0), seq(numIds, i => 0);
      ranges, errors, ids := [], 0, Ids({}, {});
    }

    ghost predicate Ready()
      reads this`blocks, this`sizes, this`bases
    {
      origin % ALIGNMENT == 0 && |data| == RANDOM_DATA_LEN && |bases| == |sizes| == |blocks|
    }

    method MallocError()
      modifies this`errors
      ensures errors == old(errors) + 1
    {
      errors := errors + 1;
    }

    /** `add_range` */
    method AddRange(p: int, size: int, index: int) returns (ok: bool)
      requires Ready() && size > 0
      modifies this`ranges, this`errors
      ensures var lo, hi := origin + 4 * p, origin + 4 * p + size - 1;
              && (ok <==>
                && lo % 16 == 0 && origin <= lo && hi < origin + 4 * heap.memBrk
                && (ignoreRanges || mode == DbgNone || forall j :: 0 <= j < |old(ranges)| ==>
                    && !(old(ranges)[j].lo <= lo <= old(ranges)[j].hi)
                    && !(old(ranges)[j].lo <= hi <= old(ranges)[j].hi)))
              && ranges == (if ok && !ignoreRanges && mode != DbgNone then [Range(lo, hi, index)] else []) + old(ranges)
      ensures errors == old(errors) + if ok then 0 else 1
    {
      var lo := origin + 4 * p;
      var hi := lo + size - 1;
      if lo % ALIGNMENT != 0 {
        MallocError();
        return false;
      }
      var heapLo, heapHi := origin, origin + 4 * heap.memBrk - 1;
      if lo < heapLo || lo > heapHi || hi < heapLo || hi > heapHi {
        MallocError();
        return false;
      }
      if ignoreRanges || mode == DbgNone {
        return true;
      }
      var n := 0;
      while n < |ranges|
        invariant 0 <= n <= |ranges|
        invariant forall j :: 0 <= j < n ==> !Touches(lo, hi, ranges[j])
      {
        var r := ranges[n];
        if (lo >= r.lo && lo <= r.hi) || (hi >= r.lo && hi <= r.hi) {
          MallocError();
          return false;
        }
        n := n + 1;
      }
      ranges := [Range(lo, hi, index)] + ranges;
      return true;
    }

    /** `remove_range`: drops the first range that starts at payload `p`. */
    method RemoveRange(p: int)
      modifies this`ranges
      ensures (forall j :: 0 <= j < |old(ranges)| ==> old(ranges)[j].lo != origin + 4 * p) ==> ranges == old(ranges)
      ensures forall j :: 0 <= j < |old(ranges)| && old(ranges)[j].lo == origin + 4 * p
                && (forall i :: 0 <= i < j ==> old(ranges)[i].lo != origin + 4 * p)
                ==> ranges == old(ranges)[..j] + old(ranges)[j + 1..]
    {
      var lo := origin + 4 * p;
      var n := 0;
      while n < |ranges|
        invariant 0 <= n <= |ranges| && ranges == old(ranges)
        invariant forall j :: 0 <= j < n ==> ranges[j].lo != lo
      {
        if ranges[n].lo == lo {
          ranges := ranges[..n] + ranges[n + 1..];
          break;
        }
        n := n + 1;
      }
    }

    /** `check_index`: compares the payload of an id with the data written there. */
    method CheckIndex(index: int)
      requires Ready() && heap.Valid() && index < |blocks| && (index >= 0 ==> 0 <= sizes[index])
      requires index >= 0 && sizes[index] > 0 ==>
                 blocks[index] in heap.Payloads() && sizes[index] <= 4 * |heap.Payloads()[blocks[index]]|
      modifies this`errors
      ensures index < 0 || mode == DbgNone || sizes[index] <= 0 ==> errors == old(errors)
      ensures index >= 0 && mode != DbgNone && sizes[index] > 0 ==>
                var c := heap.Payloads()[blocks[index]];
                errors == old(errors) +
                  if forall k {:trigger ByteAt(c, k)} :: 0 <= k < sizes[index] ==>
                       ByteAt(c, k) == data[(bases[index] + k) % 65536] then 0 else 1
    {
      hide Allocator.Heap.Valid, Allocator.Heap.Payloads, Owned;
      if index < 0 || mode == DbgNone {
        return;
      }
      var p, size, base := blocks[index], sizes[index], bases[index];
      var garbled := 0;
      var i := 0;
      ghost var c := if size > 0 then heap.Payloads()[p] else [];
      while i < size
        invariant 0 <= i <= size && 0 <= garbled && errors == old(errors)
        invariant garbled == 0 <==> Holds(c, i, base, data)
      {
        var w := heap.Load(p, i / 4);
        HoldsOneMore(c, i, base, data);
        if ByteOf(w, i % 4) != DataAt(data, base, i) {
          garbled := garbled + 1;
        }
        i := i + 1;
      }
      if size > 0 {
        HoldsIs(c, size, base, data);
      }
      if garbled != 0 {
        MallocError();
      }
      assert size > 0 ==> c == heap.Payloads()[blocks[index]];
    }

    method PutByte(p: int, i: int, b: Byte)
      requires heap.Valid() && p in heap.Payloads() && 0 <= i < 4 * |heap.Payloads()[p]|
      modifies heap.mem
      ensures heap.Valid() && p in heap.Payloads() && heap.Payloads() == old(heap.Payloads())[p := heap.Payloads()[p]]
      ensures var c := old(heap.Payloads())[p];
              heap.Payloads()[p] == c[i / 4 := WithByte(c[i / 4], i % 4, b)]
    {
      hide Allocator.Heap.Valid, Allocator.Heap.Payloads, Owned;
      var w := heap.Load(p, i / 4);
      heap.Store(p, i / 4, WithByte(w, i % 4, b));
    }

    /** `randomize_block`: fills the payload of an id with data from a random offset on. */
    method RandomizeBlock(index: int, random: nat)
      requires Ready() && heap.Valid() && 0 <= index < |blocks| && 0 <= sizes[index]
      requires sizes[index] > 0 ==>
                 blocks[index] in heap.Payloads() && sizes[index] <= 4 * |heap.Payloads()[blocks[index]]|
      modifies this`bases, heap.mem
      ensures heap.Valid()
      ensures bases == if mode == DbgNone then old(bases) else old(bases)[index := random]
      ensures mode == DbgNone || sizes[index] == 0 ==> heap.Payloads() == old(heap.Payloads())
      ensures sizes[index] > 0 ==> blocks[index] in heap.Payloads()
      ensures sizes[index] > 0 ==>
              heap.Payloads() == old(heap.Payloads())[blocks[index] := heap.Payloads()[blocks[index]]]
      ensures sizes[index] > 0 ==> |heap.Payloads()[blocks[index]]| == |old(heap.Payloads())[blocks[index]]|
      ensures sizes[index] > 0 && mode != DbgNone ==>
                var c := heap.Payloads()[blocks[index]];
                forall k {:trigger ByteAt(c, k)} :: 0 <= k < sizes[index] ==>
                  ByteAt(c, k) == data[(random + k) % 65536]
    {
      hide Allocator.Heap.Valid, Allocator.Heap.Payloads, Owned;
      if mode == DbgNone {
        return;
      }
      bases := bases[index := random];
      var p, size := blocks[index], sizes[index];
      var i := 0;
      ghost var l0 := heap.Payloads();
      ghost var l := l0;
      while i < size
        invariant 0 <= i <= size && bases == old(bases)[index := random]
        invariant heap.Valid() && heap.Payloads() == l && (size == 0 ==> l == l0)
        invariant size > 0 ==> p in l && l == l0[p := l[p]] && |l[p]| == |l0[p]| && Holds(l[p], i, random, data)
      {
        PutByte(p, i, DataAt(data, random, i));
        ghost var l1 := heap.Payloads();
        HoldsStored(l[p], i, random, data, l1[p]);
        OverwrittenTwice(l0, l, l1, p);
        l := l1;
        i := i + 1;
      }
    }

    /** The driver's arrays describe the live payloads; whether these hold its data is left open. */
    ghost predicate Base()
      reads this`blocks, this`sizes, this`bases, this`ranges, this`ids, heap, heap.mem
    {
      && Ready() && heap.Valid()
      && Tracks(heap.Payloads(), blocks, sizes, ids) && Owned(heap.Payloads(), blocks, ids.live)
      && Listed(ranges, origin, blocks, sizes, ids)
    }

    ghost predicate Inv()
      reads this`blocks, this`sizes, this`bases, this`ranges, this`ids, heap, heap.mem
    {
      Base() && (mode != DbgNone ==> Intact(heap.Payloads(), blocks, sizes, bases, ids, data))
    }

    /** How often `check_index` complains when it looks at the first `n` bytes of an id. */
    ghost function Garbled(index: int, n: int): (k: int)
      requires Base()
      reads this`blocks, this`sizes, this`bases, this`ranges, this`ids, heap, heap.mem
    {
      if mode != DbgNone && index in ids.live && n <= sizes[index]
         && !Holds(heap.Payloads()[blocks[index]], n, bases[index], data) then 1 else 0
    }

    /** How often it complains about the payload of an id. */
    ghost function GarbledAll(index: int): (k: int)
      requires Base()
      ensures k >= 0
      reads this`blocks, this`sizes, this`bases, this`ranges, this`ids, heap, heap.mem
    {
      if index in ids.live then Garbled(index, sizes[index]) else 0
    }

    /** How often it complains about the first `n` listed payloads. */
    ghost function GarbledIn(n: nat): (k: int)
      requires Base() && n <= |ranges|
      reads this`blocks, this`sizes, this`bases, this`ranges, this`ids, heap, heap.mem
    {
      if n == 0 then 0 else GarbledIn(n - 1) + GarbledAll(ranges[n - 1].index)
    }

    /** How often the driver complains about an operation that the allocator gets through. */
    ghost function Complaints(op: Op): (k: int)
      requires Base()
      reads this`blocks, this`sizes, this`bases, this`ranges, this`ids, heap, heap.mem
    {
      (if mode == DbgExpensive then GarbledIn(|ranges|) else 0) +
      match op
      case Alloc(_, size) => if size == 0 then 1 else 0
      case Free(index) => GarbledAll(index)
      case Realloc(index, size) =>
        if size == 0 then GarbledAll(index) else GarbledAll(index) + GarbledTwice(index, size)
    }

    /** And again when as much of it as fits has moved. */
    ghost function GarbledTwice(index: int, size: int): (k: int)
      requires Base()
      reads this`blocks, this`sizes, this`bases, this`ranges, this`ids, heap, heap.mem
    {
      if index in ids.live then Garbled(index, if size < sizes[index] then size else sizes[index]) else 0
    }

    /** Payloads that hold the driver's data are nothing to complain about. */
    lemma NotGarbled(index: int, n: int)
      requires Inv() && (index in ids.live ==> 0 <= n)
      ensures Garbled(index, n) == 0
    {
      if mode != DbgNone && index in ids.live && n <= sizes[index] {
        var c := heap.Payloads()[blocks[index]];
        HoldsPrefix(c, c, sizes[index], n, bases[index], data);
      }
    }

    lemma {:induction false} NoneGarbled(n: nat)
      requires Inv() && n <= |ranges|
      ensures GarbledIn(n) == 0
    {
      hide Ready, Tracks, Intact, GarbledAll;
      if n > 0 {
        NoneGarbled(n - 1);
        NoneGarbledAt(ranges[n - 1].index);
      }
    }

    lemma NoneGarbledAt(index: int)
      requires Inv()
      ensures GarbledAll(index) == 0
    {
      if index in ids.live {
        NotGarbled(index, sizes[index]);
      }
    }

    /** An id is complained about exactly when some byte of its payload is not the one written there. */
    lemma GarbledExact(index: int)
      requires Base() && index in ids.live
      ensures 0 <= index < |blocks| && blocks[index] in heap.Payloads()
      ensures sizes[index] <= 4 * |heap.Payloads()[blocks[index]]|
      ensures GarbledAll(index) == 0 || GarbledAll(index) == 1
      ensures var c := heap.Payloads()[blocks[index]];
        GarbledAll(index) == 0 <==> mode == DbgNone || forall k {:trigger ByteAt(c, k)} :: 0 <= k < sizes[index] ==>
                                                         ByteAt(c, k) == data[(bases[index] + k) % 65536]
    {
      hide Allocator.Heap.Valid, Allocator.Heap.Payloads, Owned, Listed, Holds;
      HoldsIs(heap.Payloads()[blocks[index]], sizes[index], bases[index], data);
    }

    /** Of the listed payloads none is complained about exactly when all are as they were written. */
    lemma {:induction false} GarbledNone(n: nat)
      requires Base() && n <= |ranges|
      ensures GarbledIn(n) >= 0
      ensures GarbledIn(n) == 0 <==> forall j :: 0 <= j < n ==> GarbledAll(ranges[j].index) == 0
    {
      hide Garbled, Ready, Tracks, Listed, Intact;
      if n > 0 {
        GarbledNone(n - 1);
      }
    }

    lemma NoComplaints(op: Op)
      requires Inv() && (op.Free? || op.size >= 0)
      ensures Complaints(op) == if op.Alloc? && op.size == 0 then 1 else 0
    {
      hide Garbled;
      NoneGarbled(|ranges|);
      NoneGarbledAt(op.index);
      if op.Realloc? && op.index in ids.live {
        NotGarbled(op.index, if op.size < sizes[op.index] then op.size else sizes[op.index]);
      }
    }

    /** `add_range` on what the allocator returned for `index`: it never complains. */
    method Accept(index: int, p: int, size: int, ghost l: Contents) returns (ok: bool)
      requires Ready() && heap.Valid() && Tracks(l, blocks, sizes, ids) && Listed(ranges, origin, blocks, sizes, ids)
      requires 0 <= index < |blocks| && Unlisted(ranges, index)
      requires p in heap.Payloads() && 0 < size <= 4 * |heap.Payloads()[p]|
      requires OthersKept(l, heap.Payloads(), blocks, sizes, ids, index, p)
      modifies this`ranges, this`errors
      ensures ok && errors == old(errors)
      ensures Listed(ranges, origin, blocks[index := p], sizes[index := size],
              Ids(ids.live + {index}, ids.freed - {index}))
    {
      hide Allocator.Heap.Valid, Allocator.Heap.Payloads, Owned;
      HeapSpread(heap);
      ClearOfRanges(l, heap.Payloads(), heap.memBrk, ranges, origin, blocks, sizes, ids, index, p, size);
      PlacedListed(ranges, origin, blocks, sizes, ids, index, p, size);
      ok := AddRange(p, size, index);
    }

    /** `randomize_block` on the new payload of `index`, after which the driver knows what it holds. */
    method Fill(index: int, p: int, size: int, random: nat, ghost l: Contents, ghost intact: bool,
                ghost blocks0: seq<int>, ghost sizes0: seq<int>, ghost bases0: seq<int>)
      requires Ready() && heap.Valid() && Tracks(l, blocks0, sizes0, ids)
      requires intact ==> Intact(l, blocks0, sizes0, bases0, ids, data)
      requires 0 <= index < |blocks0| && p in heap.Payloads() && 0 < size <= 4 * |heap.Payloads()[p]|
      requires OthersKept(l, heap.Payloads(), blocks0, sizes0, ids, index, p)
      requires blocks == blocks0[index := p] && sizes == sizes0[index := size] && bases == bases0
      modifies this`bases, this`ids, heap.mem
      ensures Ready() && heap.Valid() && ids == Ids(old(ids).live + {index}, old(ids).freed - {index})
      ensures Tracks(heap.Payloads(), blocks, sizes, ids) && heap.Payloads().Keys == old(heap.Payloads()).Keys
      ensures mode != DbgNone && intact ==> Intact(heap.Payloads(), blocks, sizes, bases, ids, data)
    {
      hide Allocator.Heap.Valid, Allocator.Heap.Payloads, Owned;
      ghost var l1 := heap.Payloads();
      RandomizeBlock(index, random);
      ghost var l2 := heap.Payloads();
      KeptOverwritten(l, l1, l2, blocks0, sizes0, ids, index, p);
      PlacedTracks(l, l2, blocks0, sizes0, ids, index, p, size);
      if mode != DbgNone && intact {
        PlacedIntact(l, l2, blocks0, sizes0, bases0, ids, index, p, size, random, data);
      }
      ids := Ids(ids.live + {index}, ids.freed - {index});
    }

    /** The operation does not need more memory than there is. */
    ghost predicate Serves(op: Op)
      reads this`blocks, heap
    {
      match op
      case Alloc(_, size) => size == 0 || heap.CanServe(size)
      case Realloc(index, size) => size == 0 || (0 <= index < |blocks| && heap.CanResize(blocks[index], size))
      case Free(_) => true
    }

    /** The `ALLOC` case of `eval_mm_valid`. */
    method DoAlloc(index: int, size: int, random: nat) returns (ok: bool, alive: bool)
      requires Base() && Legal(ids, Alloc(index, size), |blocks|)
      modifies this, heap, heap.mem
      ensures alive <==> old(Serves(Alloc(index, size)))
      ensures !alive ==> Base() && !Serves(Alloc(index, size)) && errors == old(errors)
      ensures alive ==> (ok <==> size > 0) && errors == old(errors) + if ok then 0 else 1
      ensures alive && ok ==> Base() && ids == After(old(ids), Alloc(index, size)) && |blocks| == |old(blocks)|
      ensures alive && ok ==> sizes == old(sizes)[index := size]
      ensures old(Inv()) && (alive ==> ok) ==> Inv()
      ensures alive && ok ==> heap.memBrk <= old(heap.memBrk) + Need(Alloc(index, size))
    {
      hide Allocator.Heap.Valid, Allocator.Heap.Payloads, Owned, Tracks, Intact, OthersKept;
      ghost var l, intact, blocks0, sizes0 := heap.Payloads(), mode != DbgNone && Inv(), blocks, sizes;
      var p;
      p, alive := heap.Malloc(size);
      if !alive {
        return false, false;
      }
      HeapSpread(heap);
      if p == NULL {
        MallocError();
        return false, true;
      }
      KeptByMalloc(l, heap.Payloads(), blocks, sizes, ids, index, p);
      ok := Accept(index, p, size, l);
      if !ok {
        return;
      }
      blocks := blocks[index := p];
      sizes := sizes[index := size];
      Fill(index, p, size, random, l, intact, blocks0, sizes0, bases);
      OwnedPlaced(l, heap.Payloads(), blocks0, sizes0, old(ids), index, p);
    }

    /** `remove_range` on the old payload of `index`. */
    method Delist(index: int, ghost l: Contents)
      requires Ready() && Tracks(l, blocks, sizes, ids) && Listed(ranges, origin, blocks, sizes, ids)
      requires NULL !in l && 0 <= index < |blocks| && index !in ids.freed
      modifies this`ranges
      ensures Delisted(old(ranges), ranges, index)
    {
      hide Allocator.Heap.Valid, Allocator.Heap.Payloads, Owned;
      var p := blocks[index];
      var lo := origin + 4 * p;
      if j :| 0 <= j < |ranges| && ranges[j].index == index {
        assert ranges[j].lo == lo;
        forall i | 0 <= i < j ensures ranges[i].lo != lo {
          assert ranges[i].index in ids.live;
        }
        DroppedRange(ranges, j, origin, blocks, sizes, ids);
      } else {
        forall i | 0 <= i < |ranges| ensures ranges[i].lo != lo {
          assert ranges[i].index in ids.live;
        }
      }
      RemoveRange(p);
    }

    /** `check_index` on an id and the payload it has, if any. */
    method Recheck(index: int)
      requires Base() && index < |blocks| && (index >= 0 ==> index !in ids.freed)
      modifies this`errors
      ensures Base() && (old(Inv()) ==> Inv()) && errors == old(errors) + GarbledAll(index)
    {
      hide Allocator.Heap.Valid, Allocator.Heap.Payloads, Owned, Listed;
      assert index >= 0 && index !in ids.live ==> blocks[index] == NULL && sizes[index] == 0;
      CheckIndex(index);
      if index in ids.live {
        HoldsIs(heap.Payloads()[blocks[index]], sizes[index], bases[index], data);
      }
    }

    /** The `FREE` case of `eval_mm_valid`. */
    method DoFree(index: int)
      requires Base() && Legal(ids, Free(index), |blocks|)
      modifies this, heap, heap.mem
      ensures Base() && errors == old(errors) + old(GarbledAll(index)) && heap.memBrk == old(heap.memBrk)
      ensures ids == After(old(ids), Free(index)) && blocks == old(blocks) && sizes == old(sizes)
      ensures old(Inv()) ==> Inv()
    {
      hide Allocator.Heap.Valid, Allocator.Heap.Payloads, Owned, Intact, Tracks, Listed, GarbledAll;
      ghost var intact := mode != DbgNone && Inv();
      Recheck(index);
      var p := NULL;
      ghost var l, ranges0 := heap.Payloads(), ranges;
      HeapSpread(heap);
      if index != -1 {
        p := blocks[index];
        TracksAt(l, blocks, sizes, ids, index);
        Delist(index, l);
      }
      heap.Free(p);
      if index in ids.live {
        LiveId(l, blocks, sizes, ids, index);
        DroppedTracks(l, heap.Payloads(), blocks, sizes, ids, index);
        if intact {
          DroppedIntact(l, heap.Payloads(), blocks, sizes, bases, ids, index, data);
        }
        OwnedDropped(l, heap.Payloads(), blocks, sizes, ids, index, blocks);
        ids := Ids(ids.live - {index}, ids.freed + {index});
      } else {
        assert heap.Payloads() == l;
      }
      if index != -1 {
        DelistedListed(ranges0, ranges, origin, blocks, sizes, old(ids), index, ids, blocks, sizes);
      }
    }

    /** The `REALLOC` case with a size of 0, up to `remove_range`: the allocator frees. */
    method Release(index: int) returns (newp: int)
      requires Base() && 0 <= index < |blocks| && index !in ids.freed
      modifies this`errors, this`ranges, heap, heap.mem
      ensures newp == NULL && Ready() && heap.Valid() && heap.memBrk == old(heap.memBrk)
      ensures errors == old(errors) + old(GarbledAll(index))
      ensures heap.Payloads() == old(heap.Payloads()) - {blocks[index]}
      ensures index !in ids.live ==> heap.Payloads() == old(heap.Payloads())
      ensures Delisted(old(ranges), ranges, index)
    {
      hide Allocator.Heap.Valid, Allocator.Heap.Payloads, Owned;
      Recheck(index);
      HeapSpread(heap);
      assert index !in ids.live ==> blocks[index] == NULL;
      ghost var l := heap.Payloads();
      var alive;
      newp, alive := heap.Realloc(blocks[index], 0);
      Delist(index, l);
    }

    /** The `REALLOC` case with a size of 0. */
    method DoReallocZero(index: int, random: nat) returns (ok: bool)
      requires Base() && 0 <= index < |blocks| && index !in ids.freed
      modifies this, heap, heap.mem
      ensures ok && Base() && errors == old(errors) + old(GarbledAll(index)) && heap.memBrk == old(heap.memBrk)
      ensures ids == After(old(ids), Realloc(index, 0)) && |blocks| == |old(blocks)| && sizes == old(sizes)[index := 0]
      ensures old(Inv()) ==> Inv()
    {
      hide Allocator.Heap.Valid, Allocator.Heap.Payloads, Owned;
      ghost var l, ranges0, blocks0, sizes0, ids0 := heap.Payloads(), ranges, blocks, sizes, ids;
      assert index !in ids.live ==> blocks[index] == NULL && sizes[index] == 0;
      var newp := Release(index);
      if newp != NULL {
        assert false;
      }
      blocks := blocks[index := newp];
      if 0 < sizes[index] {
        sizes := sizes[index := 0];
      }
      CheckIndex(index);
      sizes := sizes[index := 0];
      RandomizeBlock(index, random);
      ids := Ids(ids.live - {index}, ids.freed);
      ReleasedTracks(l, heap.Payloads(), blocks0, sizes0, ids0, index);
      OwnedDropped(l, heap.Payloads(), blocks0, sizes0, ids0, index, blocks);
      DelistedListed(ranges0, ranges, origin, blocks0, sizes0, ids0, index, ids, blocks, sizes);
      return true;
    }

    /** The call of `mm_realloc` in the `REALLOC` case of `eval_mm_valid`. */
    method Reallocate(index: int, size: int) returns (newp: int, alive: bool)
      requires heap.Valid() && Tracks(heap.Payloads(), blocks, sizes, ids)
      requires 0 <= index < |blocks| && index !in ids.freed && 0 < size <= SIZE_MAX - 23
      modifies heap, heap.mem
      ensures heap.Valid() && (alive <==> old(Serves(Realloc(index, size))))
      ensures !alive ==> heap.Payloads() == old(heap.Payloads()) && !Serves(Realloc(index, size))
      ensures alive ==> heap.memBrk <= old(heap.memBrk) + Need(Realloc(index, size))
      ensures alive ==> newp in heap.Payloads() && size <= 4 * |heap.Payloads()[newp]|
      ensures alive ==> OthersKept(old(heap.Payloads()), heap.Payloads(), blocks, sizes, ids, index, newp)
      ensures alive && index in ids.live ==> old(heap.Payloads())[blocks[index]] <= heap.Payloads()[newp]
      ensures alive ==> heap.Payloads().Keys ==
                        (if index in ids.live then old(heap.Payloads()).Keys - {blocks[index]}
                         else old(heap.Payloads()).Keys) + {newp}
    {
      hide Allocator.Heap.Valid, Allocator.Heap.Payloads, Owned, HasFit, FitsInPlace;
      ghost var l, oldp := heap.Payloads(), blocks[index];
      HeapSpread(heap);
      assert index !in ids.live ==> oldp == NULL;
      if index in ids.live {
        heap.PayloadBlock(oldp);
      }
      newp, alive := heap.Realloc(blocks[index], size);
      if alive {
        KeptByRealloc(l, heap.Payloads(), blocks, sizes, ids, index, newp);
      }
    }

    /** The `REALLOC` case of `eval_mm_valid` up to the range check. */
    method Resize(index: int, size: int) returns (newp: int, alive: bool)
      requires Base() && 0 <= index < |blocks| && index !in ids.freed && 0 < size <= SIZE_MAX - 23
      modifies this`ranges, this`errors, heap, heap.mem
      ensures Ready() && heap.Valid() && (alive <==> old(Serves(Realloc(index, size))))
      ensures errors == old(errors) + old(GarbledAll(index))
      ensures !alive ==> Base() && (old(Inv()) ==> Inv()) && !Serves(Realloc(index, size))
      ensures alive ==> heap.memBrk <= old(heap.memBrk) + Need(Realloc(index, size))
      ensures alive ==> newp in heap.Payloads() && size <= 4 * |heap.Payloads()[newp]|
      ensures alive ==> OthersKept(old(heap.Payloads()), heap.Payloads(), blocks, sizes, ids, index, newp)
      ensures alive ==> Listed(ranges, origin, blocks, sizes, ids) && Unlisted(ranges, index)
      ensures alive && index in ids.live ==> old(heap.Payloads())[blocks[index]] <= heap.Payloads()[newp]
      ensures alive ==> heap.Payloads().Keys ==
                        (if index in ids.live then old(heap.Payloads()).Keys - {blocks[index]}
                         else old(heap.Payloads()).Keys) + {newp}
    {
      hide Allocator.Heap.Valid, Allocator.Heap.Payloads, Allocator.Heap.CanResize, Intact, OthersKept, Owned;
      Recheck(index);
      ghost var l, ranges0 := heap.Payloads(), ranges;
      HeapSpread(heap);
      newp, alive := Reallocate(index, size);
      if !alive {
        return;
      }
      Delist(index, l);
      DelistedListed(ranges0, ranges, origin, blocks, sizes, ids, index, ids, blocks, sizes);
    }

    /** The `REALLOC` case of `eval_mm_valid`. */
    method DoRealloc(index: int, size: int, random: nat) returns (ok: bool, alive: bool)
      requires Base() && Legal(ids, Realloc(index, size), |blocks|)
      modifies this, heap, heap.mem
      ensures Base() && (alive <==> old(Serves(Realloc(index, size))))
      ensures old(Inv()) ==> Inv()
      ensures errors == old(errors) + old(GarbledAll(index)) +
                        if alive && size > 0 then old(GarbledTwice(index, size)) else 0
      ensures !alive ==> !Serves(Realloc(index, size))
      ensures alive ==> ok && ids == After(old(ids), Realloc(index, size)) && |blocks| == |old(blocks)|
      ensures alive ==> sizes == old(sizes)[index := size]
      ensures alive ==> heap.memBrk <= old(heap.memBrk) + Need(Realloc(index, size))
    {
      hide Allocator.Heap.Valid, Allocator.Heap.Payloads, Allocator.Heap.CanResize, Owned, Tracks, Listed, Intact,
        OthersKept;
      alive := true;
      if size == 0 {
        ok := DoReallocZero(index, random);
        return;
      }
      ghost var l, intact, blocks0, sizes0 := heap.Payloads(), mode != DbgNone && Inv(), blocks, sizes;
      var newp;
      newp, alive := Resize(index, size);
      if !alive {
        return false, false;
      }
      ok := Accept(index, newp, size, l);
      MoveRegion(index, newp, size, l);
      sizes := sizes[index := size];
      Fill(index, newp, size, random, l, intact, blocks0, sizes0, bases);
      OwnedPlaced(l, heap.Payloads(), blocks0, sizes0, old(ids), index, newp);
      assert index !in old(ids.freed);
    }

    /** `REALLOC` recording the new address and checking that as much of the old data as fits is there. */
    method MoveRegion(index: int, newp: int, size: int, ghost l: Contents)
      requires Ready() && heap.Valid() && Tracks(l, blocks, sizes, ids) && 0 <= index < |blocks| && index !in ids.freed
      requires newp in heap.Payloads() && 0 < size <= 4 * |heap.Payloads()[newp]|
      requires index in ids.live ==> l[blocks[index]] <= heap.Payloads()[newp]
      modifies this`blocks, this`sizes, this`errors
      ensures errors == old(errors) +
                if mode != DbgNone && index in ids.live &&
                   !Holds(l[old(blocks)[index]], if size < old(sizes)[index] then size else old(sizes)[index],
                          bases[index], data) then 1 else 0
      ensures blocks == old(blocks)[index := newp] && |sizes| == |old(sizes)|
      ensures forall i :: 0 <= i < |sizes| && i != index ==> sizes[i] == old(sizes)[i]
    {
      hide Allocator.Heap.Valid, Allocator.Heap.Payloads, Owned;
      ghost var blocks0, sizes0 := blocks, sizes;
      assert index !in ids.live ==> blocks[index] == NULL && sizes[index] == 0;
      blocks := blocks[index := newp];
      if size < sizes[index] {
        sizes := sizes[index := size];
      }
      CheckIndex(index);
      ghost var c := heap.Payloads()[newp];
      assert c == heap.Payloads()[blocks[index]];
      if index in ids.live {
        HoldsIs(c, sizes[index], bases[index], data);
        HoldsFront(l[blocks0[index]], c, sizes[index], bases[index], data);
      }
    }

    /** The checks of `DBG_EXPENSIVE` before each operation. */
    method CheckEverything()
      requires Base()
      modifies this`errors
      ensures Base() && (old(Inv()) ==> Inv()) && errors == old(errors) + GarbledIn(|ranges|)
    {
      hide Base, Inv, GarbledAll;
      Checkable();
      var error := heap.CheckHeap();
      assert error == -1;
      var j := 0;
      while j < |ranges|
        invariant 0 <= j <= |ranges| && Base() && (old(Inv()) ==> Inv()) && errors == old(errors) + GarbledIn(j)
      {
        ListedId(j);
        Recheck(ranges[j].index);
        j := j + 1;
      }
    }

    lemma Checkable()
      requires Base()
      ensures heap.Valid() && heap.Walkable()
    {
      hide Allocator.Heap.Valid;
      heap.ValidWalkable();
    }

    lemma ListedId(j: nat)
      requires Base() && j < |ranges|
      ensures 0 <= ranges[j].index < |blocks| && ranges[j].index !in ids.freed
    {
      hide Allocator.Heap.Valid, Allocator.Heap.Payloads, Owned;
      assert ranges[j].index in ids.live;
    }

    lemma FreeServes(op: Op)
      ensures op.Free? ==> Serves(op)
    {
    }

    /** One turn of the loop of `eval_mm_valid`. */
    method DoOp(op: Op, random: nat) returns (ok: bool, alive: bool)
      requires Base() && Legal(ids, op, |blocks|)
      modifies this, heap, heap.mem
      ensures alive <==> old(Serves(op))
      ensures !alive ==> Base() && !Serves(op) && (old(Inv()) ==> Inv() && errors == old(errors))
      ensures alive ==> (ok <==> !(op.Alloc? && op.size == 0)) && errors == old(errors) + old(Complaints(op))
      ensures alive && ok ==> Base() && ids == After(old(ids), op) && |blocks| == |old(blocks)|
      ensures alive && ok ==> sizes == if op.Free? then old(sizes) else old(sizes)[op.index := op.size]
      ensures alive && ok && old(Inv()) ==> Inv()
      ensures alive && ok ==> heap.memBrk <= old(heap.memBrk) + Need(op)
    {
      hide Base, Inv, Serves, GarbledAll, GarbledIn, GarbledTwice;
      ghost var clean := Inv();
      FreeServes(op);
      if clean {
        NoComplaints(op);
        NoneGarbled(|ranges|);
      }
      if mode == DbgExpensive {
        CheckEverything();
      }
      if clean {
        NoneGarbledAt(op.index);
      }
      match op
      case Alloc(index, size) => ok, alive := DoAlloc(index, size, random);
      case Realloc(index, size) => ok, alive := DoRealloc(index, size, random);
      case Free(index) =>
        DoFree(index);
        ok, alive := true, true;
    }

    /** As much room as an operation can take is enough. */
    lemma RoomServes(op: Op)
      requires heap.memBrk + Need(op) <= MAX_WORDS && (op.Free? || 0 <= op.size)
      requires op.Realloc? ==> 0 <= op.index < |blocks|
      ensures Serves(op)
    {
    }

    /** The start of `eval_mm_valid`: a fresh heap, no ranges, no blocks. */
    method Restart()
      requires Ready() && heap.Valid()
      modifies this`blocks, this`sizes, this`ranges, this`ids, heap
      ensures Inv() && ids == Ids({}, {}) && heap.memBrk == FIRST && |blocks| == |old(blocks)|
      ensures sizes == seq(|blocks|, i => 0)
    {
      heap.Init();
      ranges := [];
      blocks := seq(|blocks|, i => NULL);
      sizes := seq(|sizes|, i => 0);
      ids := Ids({}, {});
    }

    /** `eval_mm_valid`: on a legal trace the only thing it can object to is a request for no bytes.  It gets
        through the trace (`alive`) unless it comes to an operation, number `at`, that finds neither a free block nor
        room for one. */
    method EvalMmValid(ops: seq<Op>, random: seq<nat>) returns (ok: bool, alive: bool, at: nat)
      requires Ready() && heap.Valid() && |random| == |ops|
      requires LegalTrace(Ids({}, {}), ops, |blocks|)
      modifies this, heap, heap.mem
      ensures alive ==> (ok <==> forall i :: 0 <= i < |ops| ==> !(ops[i].Alloc? && ops[i].size == 0))
      ensures alive ==> errors == old(errors) + if ok then 0 else 1
      ensures alive && ok ==> Inv() && (ids, sizes) == Replay(ops, |blocks|) && |blocks| == |old(blocks)|
      ensures !alive ==> Inv() && at < |ops| && !Serves(ops[at]) && errors == old(errors)
      ensures FIRST + TotalNeed(ops) <= MAX_WORDS ==> alive
    {
      hide Allocator.Heap.Valid, Allocator.Heap.Payloads, Owned, Serves, LegalTrace, TotalNeed, HighWater, LiveBytes,
        Tracks;
      Restart();
      at := 0;
      while at < |ops|
        invariant 0 <= at <= |ops| && Inv() && errors == old(errors) && |blocks| == |old(blocks)|
        invariant LegalTrace(ids, ops[at..], |blocks|) && (ids, sizes) == Replay(ops[..at], |blocks|)
        invariant FIRST + TotalNeed(ops) <= MAX_WORDS ==> heap.memBrk + TotalNeed(ops[at..]) <= MAX_WORDS
        invariant forall j :: 0 <= j < at ==> !(ops[j].Alloc? && ops[j].size == 0)
      {
        NextOp(ops, at, ids, |blocks|);
        if heap.memBrk + Need(ops[at]) <= MAX_WORDS {
          RoomServes(ops[at]);
        }
        NoComplaints(ops[at]);
        ReplayStep(ops, |blocks|, at);
        ok, alive := DoOp(ops[at], random[at]);
        if !alive || !ok {
          return;
        }
        at := at + 1;
      }
      assert ops[..at] == ops;
      ok, alive := true, true;
    }

    ghost predicate UtilInv()
      reads this, heap, heap.mem
    {
      Ready() && heap.Valid() && Tracks(heap.Payloads(), blocks, sizes, ids) && Owned(heap.Payloads(), blocks, ids.live)
    }

    /** One turn of the loop of `eval_mm_util`; `delta` is what it adds to `total_size`. */
    method UtilOp(op: Op) returns (delta: int, ok: bool, alive: bool)
      requires UtilInv() && Legal(ids, op, |blocks|)
      modifies this`blocks, this`sizes, this`ids, heap, heap.mem
      ensures UtilInv() && |blocks| == |old(blocks)| && (alive <==> old(Serves(op))) && (!alive ==> !Serves(op))
      ensures alive ==> (ok <==> !(op.Alloc? && op.size == 0))
      ensures alive && ok ==> ids == After(old(ids), op)
      ensures alive && ok ==> sizes == if op.Free? then old(sizes) else old(sizes)[op.index := op.size]
      ensures alive && ok ==>
                LiveBytes(sizes, ids.live, |sizes|) == LiveBytes(old(sizes), old(ids).live, |sizes|) + delta
      ensures alive && ok ==> old(heap.memBrk) <= heap.memBrk <= old(heap.memBrk) + Need(op)
    {
      hide Allocator.Heap.Valid, Allocator.Heap.Payloads, Owned, Allocator.Heap.CanResize, Allocator.Heap.CanServe;
      match op {
        case Alloc(index, size) => delta, ok, alive := UtilAlloc(index, size);
        case Realloc(index, size) =>
          delta, alive := UtilRealloc(index, size);
          ok := true;
        case Free(index) =>
          delta := UtilFree(index);
          ok, alive := true, true;
      }
    }

    lemma Fits()
      requires UtilInv()
      ensures LiveBytes(sizes, ids.live, |sizes|) <= 4 * heap.memBrk
    {
      HeapSpread(heap);
      RequestedFits(heap.Payloads(), heap.memBrk, blocks, sizes, ids);
    }

    method UtilAlloc(index: int, size: int) returns (delta: int, ok: bool, alive: bool)
      requires UtilInv() && Legal(ids, Alloc(index, size), |blocks|)
      modifies this`blocks, this`sizes, this`ids, heap, heap.mem
      ensures UtilInv() && |blocks| == |old(blocks)|
      ensures (alive <==> old(Serves(Alloc(index, size)))) && (!alive ==> !Serves(Alloc(index, size)))
      ensures alive ==> (ok <==> size > 0)
      ensures alive && ok ==> ids == After(old(ids), Alloc(index, size)) && sizes == old(sizes)[index := size]
      ensures alive && ok ==>
                LiveBytes(sizes, ids.live, |sizes|) == LiveBytes(old(sizes), old(ids).live, |sizes|) + delta
      ensures alive && ok ==> old(heap.memBrk) <= heap.memBrk <= old(heap.memBrk) + Need(Alloc(index, size))
    {
      hide Allocator.Heap.Valid, Allocator.Heap.Payloads, Owned;
      ghost var l := heap.Payloads();
      var p;
      p, alive := heap.Malloc(size);
      heap.NullIsNoPayload();
      ok, delta := p != NULL, 0;
      if !alive || !ok {
        return;
      }
      KeptByMalloc(l, heap.Payloads(), blocks, sizes, ids, index, p);
      PlacedTracks(l, heap.Payloads(), blocks, sizes, ids, index, p, size);
      OwnedPlaced(l, heap.Payloads(), blocks, sizes, ids, index, p);
      LiveBytesSet(sizes, ids.live, index, size, |sizes|);
      blocks := blocks[index := p];
      sizes := sizes[index := size];
      ids := Ids(ids.live + {index}, ids.freed - {index});
      delta := size;
    }

    method UtilRealloc(index: int, size: int) returns (delta: int, alive: bool)
      requires UtilInv() && Legal(ids, Realloc(index, size), |blocks|)
      modifies this`blocks, this`sizes, this`ids, heap, heap.mem
      ensures UtilInv() && |blocks| == |old(blocks)|
      ensures (alive <==> old(Serves(Realloc(index, size)))) && (!alive ==> !Serves(Realloc(index, size)))
      ensures alive ==> ids == After(old(ids), Realloc(index, size)) && sizes == old(sizes)[index := size]
      ensures alive ==> LiveBytes(sizes, ids.live, |sizes|) == LiveBytes(old(sizes), old(ids).live, |sizes|) + delta
      ensures alive ==> old(heap.memBrk) <= heap.memBrk <= old(heap.memBrk) + Need(Realloc(index, size))
    {
      hide Allocator.Heap.Valid, Allocator.Heap.Payloads, Owned, Tracks, HasFit, FitsInPlace, OthersKept,
        NormalizeSize, LiveBytes;
      ghost var l := heap.Payloads();
      heap.NullIsNoPayload();
      TracksAt(l, blocks, sizes, ids, index);
      var oldsize := sizes[index];
      var oldp := blocks[index];
      if index in ids.live {
        heap.PayloadBlock(oldp);
      }
      var newp;
      newp, alive := heap.Realloc(oldp, size);
      if !alive {
        delta := 0;
        return;
      }
      if size > 0 {
        var words := NormalizedWords(size);
      }
      Unmoved(l, oldp);
      LiveBytesSet(sizes, ids.live, index, size, |sizes|);
      if size > 0 {
        KeptByRealloc(l, heap.Payloads(), blocks, sizes, ids, index, newp);
        PlacedTracks(l, heap.Payloads(), blocks, sizes, ids, index, newp, size);
        OwnedPlaced(l, heap.Payloads(), blocks, sizes, ids, index, newp);
        ids := Ids(ids.live + {index}, ids.freed - {index});
        assert ids.freed == old(ids).freed;
      } else {
        ReleasedTracks(l, heap.Payloads(), blocks, sizes, ids, index);
        OwnedDropped(l, heap.Payloads(), blocks, sizes, ids, index, blocks[index := newp]);
        LiveBytesUnset(sizes[index := size], ids.live + {index}, index, |sizes|);
        assert ids.live + {index} - {index} == ids.live - {index};
        ids := Ids(ids.live - {index}, ids.freed);
      }
      blocks := blocks[index := newp];
      sizes := sizes[index := size];
      delta := size - oldsize;
    }

    method UtilFree(index: int) returns (delta: int)
      requires UtilInv() && Legal(ids, Free(index), |blocks|)
      modifies this`ids, heap, heap.mem
      ensures UtilInv() && ids == After(old(ids), Free(index))
      ensures LiveBytes(sizes, ids.live, |sizes|) == LiveBytes(sizes, old(ids).live, |sizes|) + delta
      ensures heap.memBrk == old(heap.memBrk)
    {
      hide Allocator.Heap.Valid, Allocator.Heap.Payloads, Owned;
      ghost var l := heap.Payloads();
      HeapSpread(heap);
      var size, p := 0, NULL;
      if index >= 0 {
        size := sizes[index];
        p := blocks[index];
        assert index !in ids.live ==> p == NULL && size == 0;
        LiveBytesUnset(sizes, ids.live, index, |sizes|);
      }
      heap.Free(p);
      if index in ids.live {
        DroppedTracks(l, heap.Payloads(), blocks, sizes, ids, index);
        OwnedDropped(l, heap.Payloads(), blocks, sizes, ids, index, blocks);
        ids := Ids(ids.live - {index}, ids.freed + {index});
      } else {
        assert heap.Payloads() == l;
      }
      delta := -size;
    }

    /** `eval_mm_util`: the high-water mark of the bytes requested and the final size of the heap.  The first never
        exceeds the second.  The driver exits (`!ok`) at a request for no bytes, and crashes (`!alive`) at an operation,
        number `at`, that needs more memory than there is. */
    method EvalMmUtil(ops: seq<Op>) returns (used: int, total: int, ok: bool, alive: bool, at: nat)
      requires Ready() && heap.Valid()
      requires LegalTrace(Ids({}, {}), ops, |blocks|)
      modifies this`blocks, this`sizes, this`ranges, this`ids, heap, heap.mem
      ensures alive ==> (ok <==> forall i :: 0 <= i < |ops| ==> !(ops[i].Alloc? && ops[i].size == 0))
      ensures alive && ok ==> HighWater(ops, |ops|, |old(blocks)|, used)
      ensures alive && ok ==> total == 4 * heap.memBrk && used <= total
      ensures alive && ok ==> UtilInv() && (ids, sizes) == Replay(ops, |blocks|) && |blocks| == |old(blocks)|
      ensures !alive ==> at < |ops| && !Serves(ops[at])
      ensures FIRST + TotalNeed(ops) <= MAX_WORDS ==> alive
    {
      hide Allocator.Heap.Valid, Allocator.Heap.Payloads, Owned, Serves, LegalTrace, TotalNeed, HighWater, LiveBytes,
        Tracks;
      Restart();
      ghost var n := |blocks|;
      var totalSize := 0;
      used, total, at := 0, 0, 0;
      NoLiveBytes(sizes, {}, n);
      HighWaterStart(ops, n);
      while at < |ops|
        invariant 0 <= at <= |ops| && UtilInv() && |blocks| == n
        invariant LegalTrace(ids, ops[at..], n)
        invariant FIRST + TotalNeed(ops) <= MAX_WORDS ==> heap.memBrk + TotalNeed(ops[at..]) <= MAX_WORDS
        invariant Replay(ops[..at], n) == (ids, sizes) && totalSize == LiveBytes(sizes, ids.live, n)
        invariant used <= 4 * heap.memBrk && HighWater(ops, at, n, used)
        invariant forall j :: 0 <= j < at ==> !(ops[j].Alloc? && ops[j].size == 0)
      {
        NextOp(ops, at, ids, |blocks|);
        if heap.memBrk + Need(ops[at]) <= MAX_WORDS {
          RoomServes(ops[at]);
        }
        var delta;
        delta, ok, alive := UtilOp(ops[at]);
        if !alive || !ok {
          return;
        }
        Fits();
        ReplayStep(ops, n, at);
        HighWaterStep(ops, at, n, used, ids, sizes);
        totalSize := totalSize + delta;
        used := if totalSize > used then totalSize else used;
        at := at + 1;
      }
      total := 4 * heap.memBrk;
      assert ops[..at] == ops;
      ok, alive := true, true;
    }
  }
}
