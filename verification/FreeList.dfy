/** The explicit free list of `malloc/mm.c`: free blocks chained through word offsets, relative to the
    first block, stored in the second (previous) and third (next) word of each block; -1 ends the
    chain at both sides. */
module FreeList {
  import opened HeapLayout
  import opened Sequences

  function Offset(fl: seq<int>, i: int): int {
    if 0 <= i < |fl| then fl[i] - FIRST else -1
  }

  function Head(fl: seq<int>): int {
    if fl == [] then NULL else fl[0]
  }

  ghost predicate LinkAt(m: seq<Word>, fl: seq<int>, i: int)
    requires 0 <= i < |fl| && 0 <= fl[i] && fl[i] + 2 < |m|
  {
    m[fl[i] + 1] == Offset(fl, i - 1) && m[fl[i] + 2] == Offset(fl, i + 1)
  }

  /** `fl` lists, without repetition, blocks tagged as free ... */
  ghost predicate FreeBlocks(blk: Tiles, fl: seq<int>) {
    && (forall i {:trigger fl[i]} :: 0 <= i < |fl| ==> fl[i] in blk && !blk[fl[i]].used)
    && (forall i, j {:trigger fl[i], fl[j]} :: 0 <= i < j < |fl| ==> fl[i] != fl[j])
  }

  /** ... and memory chains them in both directions. */
  ghost predicate Linked(m: seq<Word>, blk: Tiles, fl: seq<int>)
    requires Tagged(m, blk)
  {
    && FreeBlocks(blk, fl)
    && (forall i {:trigger LinkAt(m, fl, i)} :: 0 <= i < |fl| ==> LinkAt(m, fl, i))
  }

  /** Every free block is on the list. */
  ghost predicate ListsAll(blk: Tiles, fl: seq<int>) {
    forall b {:trigger b in fl} {:trigger b in blk} :: b in blk && !blk[b].used ==> b in fl
  }

  /** No listed block is larger than `hint` bytes. */
  ghost predicate Bounds(hint: int, blk: Tiles, fl: seq<int>)
    requires FreeBlocks(blk, fl)
  {
    forall i {:trigger fl[i]} :: 0 <= i < |fl| ==> 4 * blk[fl[i]].words <= hint
  }

  lemma {:induction false} WithoutAt(fl: seq<int>, k: int)
    requires 0 <= k < |fl| && forall i :: 0 <= i < k ==> fl[i] != fl[k]
    ensures Without(fl, fl[k]) == fl[..k] + fl[k + 1..]
  {
    if k > 0 {
      assert fl[1..][k - 1] == fl[k];
      WithoutAt(fl[1..], k - 1);
      assert fl[1..][..k - 1] == fl[1..k];
      assert fl[1..][k..] == fl[k + 1..];
    }
  }

  /** `rest` lists the blocks of `fl` other than `b`. */
  ghost predicate Drops(blk: Tiles, fl: seq<int>, b: int, rest: seq<int>) {
    && FreeBlocks(blk, fl) && FreeBlocks(blk, rest) && b in fl
    && forall c {:trigger c in fl} {:trigger c in rest} :: c in rest <==> c in fl && c != b
  }

  /** Removing a listed block keeps the order of the others. */
  lemma WithoutFree(blk: Tiles, fl: seq<int>, b: int)
    requires FreeBlocks(blk, fl) && b in fl
    ensures FreeBlocks(blk, Without(fl, b))
    ensures |Without(fl, b)| == |fl| - 1
    ensures Drops(blk, fl, b, Without(fl, b))
  {
    hide Without;
    var k :| 0 <= k < |fl| && fl[k] == b;
    WithoutAt(fl, k);
    var fl' := fl[..k] + fl[k + 1..];
    forall c {:trigger c in fl} {:trigger c in fl'} | c in fl && c != b ensures c in fl' {
      var i :| 0 <= i < |fl| && fl[i] == c;
      assert fl'[if i < k then i else i - 1] == c;
    }
  }

  /** The two words in which a block keeps its links are its own. */
  lemma LinkWords(blk: Tiles, end: int, b: int, c: int)
    requires Tiling(blk, end) && b in blk && c in blk && b != c
    ensures c + 2 < b || b + 2 < c + 1
  {
    Beside(blk, end, b);
  }

  /** Memory with the list neighbours of `fl[k]` joined to each other, as `remove_fb` leaves it. */
  function Unlinked(m: seq<Word>, fl: seq<int>, k: int): seq<Word>
    requires 0 <= k < |fl| && |m| == MAX_WORDS && forall i :: 0 <= i < |fl| ==> FIRST <= fl[i] <= MAX_WORDS - 3
  {
    var m1 := if k > 0 then m[fl[k - 1] + 2 := Offset(fl, k + 1)] else m;
    if k + 1 < |fl| then m1[fl[k + 1] + 1 := Offset(fl, k - 1)] else m1
  }

  ghost predicate Chained(m: seq<Word>, blk: Tiles, end: int, fl: seq<int>) {
    |m| == MAX_WORDS && Tiling(blk, end) && Tagged(m, blk) && Linked(m, blk, fl)
  }

  lemma UnlinkTags(m: seq<Word>, blk: Tiles, end: int, fl: seq<int>, k: int)
    requires Chained(m, blk, end, fl) && 0 <= k < |fl|
    ensures Tagged(Unlinked(m, fl, k), blk) && KeepsLive(m, blk, Unlinked(m, fl, k), blk, {})
  {
    var m1 := m;
    if k > 0 {
      m1 := m[fl[k - 1] + 2 := Offset(fl, k + 1)];
      WriteInFree(m, blk, end, fl[k - 1], 2, Offset(fl, k + 1));
    }
    if k + 1 < |fl| {
      WriteInFreeToo(m, m1, blk, end, fl[k + 1], 1, Offset(fl, k - 1));
    }
  }

  lemma SlotsApart(blk: Tiles, end: int, fl: seq<int>, i: int, j: int)
    requires Tiling(blk, end) && FreeBlocks(blk, fl) && 0 <= i < |fl| && 0 <= j < |fl| && i != j
    ensures fl[i] + 2 < fl[j] || fl[j] + 2 < fl[i] + 1
  {
    LinkWords(blk, end, fl[i], fl[j]);
    LinkWords(blk, end, fl[j], fl[i]);
  }

  /** The links of the blocks that stay, after the removal. */
  lemma UnlinkedWords(m: seq<Word>, blk: Tiles, end: int, fl: seq<int>, k: int, j: int)
    requires Chained(m, blk, end, fl) && 0 <= k < |fl| && 0 <= j < |fl| && j != k
    ensures var m' := Unlinked(m, fl, k);
            && m'[fl[j] + 1] == (if j == k + 1 then Offset(fl, k - 1) else m[fl[j] + 1])
            && m'[fl[j] + 2] == (if j == k - 1 then Offset(fl, k + 1) else m[fl[j] + 2])
  {
    hide Tagged, Coalesced, Aligned, LinkAt;
    if 0 < k && k - 1 != j {
      SlotsApart(blk, end, fl, k - 1, j);
    }
    if k + 1 < |fl| && k + 1 != j {
      SlotsApart(blk, end, fl, k + 1, j);
    }
    if 0 < k && k + 1 < |fl| {
      SlotsApart(blk, end, fl, k - 1, k + 1);
    }
  }

  lemma UnlinkLinks(m: seq<Word>, blk: Tiles, end: int, fl: seq<int>, k: int, i: int)
    requires Chained(m, blk, end, fl) && 0 <= k < |fl| && 0 <= i < |fl| - 1
    ensures var fl' := fl[..k] + fl[k + 1..]; LinkAt(Unlinked(m, fl, k), fl', i)
  {
    hide Tagged, Coalesced, Aligned, Unlinked;
    var fl' := fl[..k] + fl[k + 1..];
    var j := if i < k then i else i + 1;
    assert fl'[i] == fl[j] && LinkAt(m, fl, j);
    UnlinkedWords(m, blk, end, fl, k, j);
    assert Offset(fl', i - 1) == if i == k then Offset(fl, k - 1) else Offset(fl, j - 1);
    assert Offset(fl', i + 1) == if i == k - 1 then Offset(fl, k + 1) else Offset(fl, j + 1);
  }

  /** Unlinking leaves the rest of the list linked, and touches neither tags nor payloads. */
  lemma Unlink(m: seq<Word>, blk: Tiles, end: int, fl: seq<int>, k: int)
    requires Chained(m, blk, end, fl) && 0 <= k < |fl|
    ensures var m' := Unlinked(m, fl, k);
            Chained(m', blk, end, Without(fl, fl[k])) && KeepsLive(m, blk, m', blk, {})
  {
    var m' := Unlinked(m, fl, k);
    var fl' := Without(fl, fl[k]);
    UnlinkTags(m, blk, end, fl, k);
    WithoutFree(blk, fl, fl[k]);
    WithoutAt(fl, k);
    forall i {:trigger LinkAt(m', fl', i)} | 0 <= i < |fl'| ensures LinkAt(m', fl', i) {
      UnlinkLinks(m, blk, end, fl, k, i);
    }
  }

  /** Memory after `add_new_fb` put block `b` at the head of the list. */
  function Pushed(m: seq<Word>, fl: seq<int>, b: int): seq<Word>
    requires |m| == MAX_WORDS && FIRST <= b <= MAX_WORDS - 3
    requires fl != [] ==> FIRST <= fl[0] <= MAX_WORDS - 3
  {
    var m1 := m[b + 1 := -1][b + 2 := Offset(fl, 0)];
    if fl == [] then m1 else m1[fl[0] + 1 := b - FIRST]
  }

  lemma PushLinks(m: seq<Word>, blk: Tiles, end: int, fl: seq<int>, b: int, i: int)
    requires Chained(m, blk, end, fl) && b in blk && !blk[b].used && b !in fl && 0 <= i <= |fl|
    ensures LinkAt(Pushed(m, fl, b), [b] + fl, i)
  {
    hide Tagged, Coalesced, Aligned;
    if fl != [] {
      LinkWords(blk, end, b, fl[0]);
      LinkWords(blk, end, fl[0], b);
    }
    if i > 0 {
      assert LinkAt(m, fl, i - 1);
      LinkWords(blk, end, b, fl[i - 1]);
      LinkWords(blk, end, fl[i - 1], b);
      if i > 1 {
        LinkWords(blk, end, fl[0], fl[i - 1]);
        LinkWords(blk, end, fl[i - 1], fl[0]);
      }
    }
  }

  lemma PushTags(m: seq<Word>, blk: Tiles, end: int, fl: seq<int>, b: int)
    requires Chained(m, blk, end, fl) && b in blk && !blk[b].used && b !in fl
    ensures Tagged(Pushed(m, fl, b), blk) && KeepsLive(m, blk, Pushed(m, fl, b), blk, {})
  {
    hide Tagged, KeepsLive, Coalesced, Aligned, LinkAt;
    var m1 := m[b + 1 := -1];
    var m2 := m1[b + 2 := Offset(fl, 0)];
    WriteInFree(m, blk, end, b, 1, -1);
    WriteInFreeToo(m, m1, blk, end, b, 2, Offset(fl, 0));
    if fl != [] {
      WriteInFreeToo(m, m2, blk, end, fl[0], 1, b - FIRST);
    }
  }

  /** Pushing a free block that is not on the list links it in at the head. */
  lemma Push(m: seq<Word>, blk: Tiles, end: int, fl: seq<int>, b: int)
    requires Chained(m, blk, end, fl) && b in blk && !blk[b].used && b !in fl
    ensures var m' := Pushed(m, fl, b);
            Chained(m', blk, end, [b] + fl) && KeepsLive(m, blk, m', blk, {})
  {
    var m', fl' := Pushed(m, fl, b), [b] + fl;
    PushTags(m, blk, end, fl, b);
    forall i {:trigger LinkAt(m', fl', i)} | 0 <= i < |fl'| ensures LinkAt(m', fl', i) {
      PushLinks(m, blk, end, fl, b, i);
    }
  }

  /** A change of memory and tiling confined to `lo..hi`, where no listed block lies, keeps the list. */
  lemma LinksOutside(m: seq<Word>, blk: Tiles, m': seq<Word>, blk': Tiles, lo: int, hi: int, fl: seq<int>)
    requires Tagged(m, blk) && Tagged(m', blk') && |m'| == |m| && Linked(m, blk, fl)
    requires SameOutside(blk, blk', lo, hi)
    requires forall i {:trigger fl[i]} :: 0 <= i < |fl| ==> !(lo <= fl[i] < hi)
    requires forall i :: 0 <= i < |m| && !(lo <= i < hi) ==> m'[i] == m[i]
    ensures Linked(m', blk', fl)
  {
    forall i {:trigger LinkAt(m', fl, i)} | 0 <= i < |fl| ensures LinkAt(m', fl, i) {
      assert LinkAt(m, fl, i);
    }
  }

  lemma RetagChained(m: seq<Word>, blk: Tiles, end: int, fl: seq<int>, b: int, used: bool)
    requires Chained(m, blk, end, fl) && b in blk && b !in fl
    ensures var block := Block(blk[b].words, used);
            var m', blk' := MakeTags(m, b, block), blk[b := block];
            Chained(m', blk', end, fl) && KeepsLive(m, blk, m', blk', {b})
            && SameWords(m, m', b, b + block.words - 1)
  {
    var block := Block(blk[b].words, used);
    RetaggedTiling(blk, end, b, used);
    RetagTags(m, blk, end, b, block);
    Beside(blk, end, b);
    LinksOutside(m, blk, MakeTags(m, b, block), blk[b := block], b, Next(blk, b), fl);
  }

  /** Memory may change freely inside a run of unlisted blocks that becomes one block. */
  lemma JoinChained(m: seq<Word>, blk: Tiles, end: int, fl: seq<int>, s: int, e: int, used: bool, but: set<int>,
                    m': seq<Word>)
    requires Chained(m, blk, end, fl) && Run(blk, end, s, e)
    requires forall i {:trigger fl[i]} :: 0 <= i < |fl| ==> !(s <= fl[i] < e)
    requires s in but && forall c {:trigger c in blk} :: c in blk && s <= c < e && blk[c].used ==> c in but
    requires 4 <= e - s && e <= MAX_WORDS
    requires |m'| == |m| && m'[s] == m'[e - 1] == Tag(Block(e - s, used))
    requires forall i :: 0 <= i < |m| && !(s <= i < e) ==> m'[i] == m[i]
    ensures Chained(m', Joined(blk, s, e, used), end, fl)
    ensures KeepsLive(m, blk, m', Joined(blk, s, e, used), but)
  {
    JoinedTiling(blk, end, s, e, used);
    JoinTags(m, blk, end, s, e, used, but, m');
    BesideRun(blk, end, s, e);
    LinksOutside(m, blk, m', Joined(blk, s, e, used), s, e, fl);
  }

  lemma WritePayloadChained(m: seq<Word>, blk: Tiles, end: int, fl: seq<int>, b: int, m': seq<Word>)
    requires Chained(m, blk, end, fl) && b in blk && blk[b].used && |m'| == |m|
    requires forall i :: 0 <= i < |m| && !(b < i < Next(blk, b) - 1) ==> m'[i] == m[i]
    ensures Chained(m', blk, end, fl) && KeepsLive(m, blk, m', blk, {b})
  {
    WritePayload(m, blk, end, b, m');
    Beside(blk, end, b);
    LinksOutside(m, blk, m', blk, b, Next(blk, b), fl);
  }

  lemma SplitChained(m: seq<Word>, blk: Tiles, end: int, fl: seq<int>, b: int, words: int, m': seq<Word>)
    requires Chained(m, blk, end, fl) && b in blk && b !in fl && 4 <= words <= blk[b].words - 4
    requires m' == MakeTags(MakeTags(m, b, Block(words, true)), b + words, Block(blk[b].words - words, false))
    ensures var blk' := Split(blk, b, words);
            Chained(m', blk', end, fl) && KeepsLive(m, blk, m', blk', {b})
  {
    var blk' := Split(blk, b, words);
    SplitTiling(blk, end, b, words);
    SplitTags(m, blk, end, b, words, m', blk');
    SplitOutside(blk, end, b, words);
    TwoTags(m, b, Block(words, true), Block(blk[b].words - words, false));
    LinksOutside(m, blk, m', blk', b, Next(blk, b), fl);
  }

  lemma ExtendChained(m: seq<Word>, blk: Tiles, end: int, fl: seq<int>, block: Block)
    requires Chained(m, blk, end, fl) && block.used && 4 <= block.words && end + block.words <= MAX_WORDS
    ensures end !in blk
    ensures var m', blk' := MakeTags(m, end, block), blk[end := block];
            Chained(m', blk', end + block.words, fl) && KeepsLive(m, blk, m', blk', {end})
  {
    ExtendedTiling(blk, end, block.words);
    ExtendTags(m, blk, end, block);
    LinksOutside(m, blk, MakeTags(m, end, block), blk[end := block], end, end + block.words, fl);
  }

  // ---------------------------------------------------------------- list, sizes and neighbours

  /** Everything about the tiling that holds between calls, beyond its being one. */
  ghost predicate Tidy(blk: Tiles, end: int, fl: seq<int>) {
    Tiling(blk, end) && Aligned(blk) && Coalesced(blk) && FreeBlocks(blk, fl) && ListsAll(blk, fl)
  }

  lemma UsedAligned(blk: Tiles, b: int)
    requires Aligned(blk) && b in blk
    ensures Aligned(blk[b := Block(blk[b].words, true)])
  {
    var blk' := blk[b := Block(blk[b].words, true)];
    forall c {:trigger AlignedAt(blk', c)} | c in blk' ensures AlignedAt(blk', c) {
      assert AlignedAt(blk, c);
    }
  }

  lemma UsedTidy(blk: Tiles, end: int, fl: seq<int>, b: int, fl': seq<int>)
    requires Tidy(blk, end, fl) && Drops(blk, fl, b, fl')
    ensures Tidy(blk[b := Block(blk[b].words, true)], end, fl')
  {
    var blk' := blk[b := Block(blk[b].words, true)];
    RetaggedTiling(blk, end, b, true);
    UsedAligned(blk, b);
    forall i {:trigger fl'[i]} | 0 <= i < |fl'| ensures fl'[i] in blk' && !blk'[fl'[i]].used {
      assert fl'[i] in fl';
    }
    forall c {:trigger FreeApart(blk', c)} | c in blk' ensures FreeApart(blk', c) {
      assert FreeApart(blk, c);
    }
  }

  lemma SplitAligned(blk: Tiles, b: int, words: int)
    requires Aligned(blk) && b in blk && words % 4 == 0
    ensures Aligned(Split(blk, b, words))
  {
    hide AlignedAt;
    var blk' := Split(blk, b, words);
    forall c {:trigger AlignedAt(blk', c)} | c in blk' ensures AlignedAt(blk', c) {
      var d := if c == b + words then b else c;
      assert AlignedAt(blk, d);
      AlignedPart(blk, d, blk', c, words);
    }
  }

  lemma AlignedPart(blk: Tiles, d: int, blk': Tiles, c: int, words: int)
    requires d in blk && c in blk' && AlignedAt(blk, d) && words % 4 == 0
    requires (c, blk'[c].words) in {(d, blk[d].words), (d, words), (d + words, blk[d].words - words)}
    ensures AlignedAt(blk', c)
  {
  }

  lemma SplitTidy(blk: Tiles, end: int, fl: seq<int>, b: int, words: int, fl': seq<int>)
    requires Tidy(blk, end, fl) && Drops(blk, fl, b, fl')
    requires 4 <= words <= blk[b].words - 4 && words % 4 == 0
    ensures b + words !in fl'
    ensures Tidy(Split(blk, b, words), end, [b + words] + fl')
  {
    var blk' := Split(blk, b, words);
    SplitTiling(blk, end, b, words);
    SplitAligned(blk, b, words);
    SplitCoalesced(blk, end, b, words);
    forall i {:trigger fl'[i]} | 0 <= i < |fl'| ensures fl'[i] in blk && fl'[i] != b && !blk[fl'[i]].used {
      assert fl'[i] in fl';
    }
  }

  lemma SplitCoalesced(blk: Tiles, end: int, b: int, words: int)
    requires Tiling(blk, end) && Coalesced(blk) && b in blk && !blk[b].used && 4 <= words <= blk[b].words - 4
    ensures Coalesced(Split(blk, b, words))
  {
    var blk' := Split(blk, b, words);
    Beside(blk, end, b);
    forall c {:trigger FreeApart(blk', c)} | c in blk' ensures FreeApart(blk', c) {
      assert FreeApart(blk, if c == b + words then b else c);
    }
  }

  lemma ExtendedAligned(blk: Tiles, end: int, words: int)
    requires Aligned(blk) && words % 4 == 0 && end % 4 == 3
    ensures Aligned(blk[end := Block(words, true)])
  {
    var blk' := blk[end := Block(words, true)];
    forall c {:trigger AlignedAt(blk', c)} | c in blk' ensures AlignedAt(blk', c) {
      assert c in blk ==> AlignedAt(blk, c);
    }
  }

  lemma ExtendedTidy(blk: Tiles, end: int, fl: seq<int>, words: int)
    requires Tidy(blk, end, fl) && 4 <= words && words % 4 == 0 && end + words <= MAX_WORDS
    ensures Tidy(blk[end := Block(words, true)], end + words, fl)
  {
    var blk' := blk[end := Block(words, true)];
    ExtendedTiling(blk, end, words);
    AlignedEnd(blk, end);
    ExtendedAligned(blk, end, words);
    forall c {:trigger FreeApart(blk', c)} | c in blk' ensures FreeApart(blk', c) {
      assert c in blk ==> FreeApart(blk, c);
    }
  }

  /** The break is aligned like the blocks. */
  lemma AlignedEnd(blk: Tiles, end: int)
    requires Tiling(blk, end) && Aligned(blk)
    ensures end % 4 == 3
  {
    if FIRST < end {
      var b := LastBlock(blk, end);
      assert AlignedAt(blk, b);
    }
  }

  /** `s..e` is block `b` together with those of its two neighbours that are free. */
  ghost predicate FreeSpan(blk: Tiles, b: int, s: int, e: int) {
    && b in blk && s in blk
    && (if s == b then forall p {:trigger p in blk} :: p in blk && p + blk[p].words == b ==> blk[p].used
        else !blk[s].used && Next(blk, s) == b)
    && (if e == Next(blk, b) then e in blk ==> blk[e].used
        else Next(blk, b) in blk && !blk[Next(blk, b)].used && e == Next(blk, Next(blk, b)))
  }

  lemma SpanRun(blk: Tiles, end: int, b: int, s: int, e: int)
    requires Tiling(blk, end) && FreeSpan(blk, b, s, e)
    ensures Run(blk, end, s, e)
    ensures forall c {:trigger c in blk} :: c in blk && s <= c < e ==> c == s || c == b || c == Next(blk, b)
  {
    assert HasNext(blk, end, b);
    assert Next(blk, b) in blk ==> HasNext(blk, end, Next(blk, b));
    Beside(blk, end, b);
    Beside(blk, end, s);
    if Next(blk, b) in blk {
      Beside(blk, end, Next(blk, b));
    }
  }

  /** Joining a freed block with its free neighbours leaves no two free blocks side by side. */
  lemma FreedTidy(blk: Tiles, end: int, fl: seq<int>, b: int, s: int, e: int, rest: seq<int>)
    requires Tidy(blk, end, fl) && FreeSpan(blk, b, s, e)
    requires FreeBlocks(blk, rest)
    requires forall c {:trigger c in fl} {:trigger c in rest} :: c in rest <==> c in fl && !(s <= c < e)
    ensures Tidy(Joined(blk, s, e, false), end, [s] + rest)
  {
    var blk' := Joined(blk, s, e, false);
    SpanRun(blk, end, b, s, e);
    JoinedTiling(blk, end, s, e, false);
    FreedAligned(blk, end, b, s, e);
    FreedCoalesced(blk, end, b, s, e);
    forall i {:trigger rest[i]} | 0 <= i < |rest| ensures rest[i] in blk' && !blk'[rest[i]].used && rest[i] != s {
      assert rest[i] in rest;
    }
  }

  lemma FreedAligned(blk: Tiles, end: int, b: int, s: int, e: int)
    requires Tiling(blk, end) && Aligned(blk) && FreeSpan(blk, b, s, e)
    ensures Aligned(Joined(blk, s, e, false))
  {
    var blk' := Joined(blk, s, e, false);
    assert (e - s) % 4 == 0 by {
      assert AlignedAt(blk, s) && AlignedAt(blk, b);
      assert Next(blk, b) in blk ==> AlignedAt(blk, Next(blk, b));
    }
    forall c {:trigger AlignedAt(blk', c)} | c in blk' ensures AlignedAt(blk', c) {
      assert AlignedAt(blk, if c == s then s else c);
    }
  }

  lemma FreedCoalesced(blk: Tiles, end: int, b: int, s: int, e: int)
    requires Tiling(blk, end) && Coalesced(blk) && FreeSpan(blk, b, s, e) && Run(blk, end, s, e)
    ensures Coalesced(Joined(blk, s, e, false))
  {
    var blk' := Joined(blk, s, e, false);
    BesideRun(blk, end, s, e);
    forall c {:trigger FreeApart(blk', c)} | c in blk' ensures FreeApart(blk', c) {
      assert FreeApart(blk, c);
      assert Next(blk, b) in blk ==> FreeApart(blk, Next(blk, b));
    }
  }

  lemma RunOfTwo(blk: Tiles, end: int, b: int)
    requires Tiling(blk, end) && b in blk && Next(blk, b) in blk
    ensures Run(blk, end, b, Next(blk, Next(blk, b))) && Next(blk, Next(blk, b)) <= end
    ensures forall c {:trigger c in blk} :: c in blk && b <= c < Next(blk, Next(blk, b)) ==> c == b || c == Next(blk, b)
  {
    assert HasNext(blk, end, Next(blk, b));
    Beside(blk, end, b);
    Beside(blk, end, Next(blk, b));
  }

  /** `s..e` is made up of the listed block `x` and one neighbour of it that is in use. */
  ghost predicate Absorbs(blk: Tiles, fl: seq<int>, x: int, s: int, e: int) {
    && x in fl && s in blk && Next(blk, s) in blk && e == Next(blk, Next(blk, s))
    && ((x == s && blk[Next(blk, s)].used) || (x == Next(blk, s) && blk[s].used))
  }

  lemma UnlistedRun(blk: Tiles, end: int, fl: seq<int>, x: int, s: int, e: int, rest: seq<int>)
    requires Tiling(blk, end) && Absorbs(blk, fl, x, s, e) && Drops(blk, fl, x, rest)
    ensures forall i {:trigger rest[i]} :: 0 <= i < |rest| ==> !(s <= rest[i] < e)
  {
    RunOfTwo(blk, end, s);
    forall i {:trigger rest[i]} | 0 <= i < |rest| ensures !(s <= rest[i] < e) {
      assert rest[i] in rest;
    }
  }

  /** A block in use that absorbs the free block `x` beside it leaves the rest as it was. */
  lemma AbsorbedTidy(blk: Tiles, end: int, fl: seq<int>, x: int, s: int, e: int, rest: seq<int>)
    requires Tidy(blk, end, fl) && Absorbs(blk, fl, x, s, e) && Drops(blk, fl, x, rest)
    ensures Tidy(Joined(blk, s, e, true), end, rest)
  {
    var blk' := Joined(blk, s, e, true);
    RunOfTwo(blk, end, s);
    JoinedTiling(blk, end, s, e, true);
    BesideRun(blk, end, s, e);
    UnlistedRun(blk, end, fl, x, s, e, rest);
    AbsorbedAligned(blk, s);
    forall c {:trigger FreeApart(blk', c)} | c in blk' ensures FreeApart(blk', c) {
      assert FreeApart(blk, c);
    }
    forall i {:trigger rest[i]} | 0 <= i < |rest| ensures rest[i] in blk' && !blk'[rest[i]].used {
      assert !(s <= rest[i] < e);
    }
  }

  lemma AbsorbedAligned(blk: Tiles, s: int)
    requires Aligned(blk) && s in blk && Next(blk, s) in blk
    ensures Aligned(Joined(blk, s, Next(blk, Next(blk, s)), true))
  {
    var blk' := Joined(blk, s, Next(blk, Next(blk, s)), true);
    assert AlignedAt(blk, s) && AlignedAt(blk, Next(blk, s));
    forall c {:trigger AlignedAt(blk', c)} | c in blk' ensures AlignedAt(blk', c) {
      assert c in blk && AlignedAt(blk, c);
    }
  }

  /** The free blocks that start below `bound`. */
  ghost function FreeBelow(blk: Tiles, bound: int): set<int> {
    set b | b in blk && !blk[b].used && b < bound
  }

  /** Walking over block `b` meets the free blocks below its end: those below `b`, and `b` if it is free. */
  lemma FreeBelowNext(blk: Tiles, end: int, b: int)
    requires Tiling(blk, end) && b in blk
    ensures FreeBelow(blk, Next(blk, b)) == FreeBelow(blk, b) + if blk[b].used then {} else {b}
    ensures |FreeBelow(blk, Next(blk, b))| == |FreeBelow(blk, b)| + if blk[b].used then 0 else 1
  {
    Beside(blk, end, b);
    assert FreeBelow(blk, Next(blk, b)) == FreeBelow(blk, b) + if blk[b].used then {} else {b};
  }

  lemma {:induction false} DistinctCount(fl: seq<int>)
    requires forall i, j {:trigger fl[i], fl[j]} :: 0 <= i < j < |fl| ==> fl[i] != fl[j]
    ensures |set b | b in fl| == |fl|
  {
    if fl != [] {
      var rest := fl[..|fl| - 1];
      DistinctCount(rest);
      assert (set b | b in fl) == (set b | b in rest) + {fl[|fl| - 1]};
    }
  }

  lemma SubsetCount(a: set<int>, b: set<int>)
    requires a <= b
    ensures |a| <= |b| && (|a| == |b| <==> a == b)
  {
    var rest := b - a;
    assert b == a + rest;
    assert rest == {} ==> a == b;
  }

  /** A list of free blocks has as many elements as there are free blocks exactly when it has all of them. */
  lemma FreeCount(blk: Tiles, end: int, fl: seq<int>)
    requires Tiling(blk, end) && FreeBlocks(blk, fl)
    ensures |FreeBelow(blk, end)| == |fl| <==> ListsAll(blk, fl)
  {
    DistinctCount(fl);
    var listed := set b | b in fl;
    var free := FreeBelow(blk, end);
    forall b | b in blk && !blk[b].used
      ensures b in free
    {
      assert Shaped(blk, end, b);
    }
    SubsetCount(listed, free);
    if ListsAll(blk, fl) {
      assert listed == free;
    }
    if listed == free {
      forall b {:trigger b in fl} {:trigger b in blk} | b in blk && !blk[b].used
        ensures b in fl
      {
        assert b in free;
      }
    }
  }
}
