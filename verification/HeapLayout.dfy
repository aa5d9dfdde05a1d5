/** The heap as `malloc/mm.c` lays it out in memory, described on values.

    Memory is a sequence of 4-byte words.  A block occupies `words` consecutive words; its first and
    last word are the boundary tags, which hold the block's size in bytes and, in bit 0, whether it is
    in use.  `Tiles` records, for every block start, what its tags say.  The three pad words below
    `FIRST` make the payload (one word past the start of a block) 16-byte aligned.

    All allocator steps are compositions of four changes of the tiling: retagging a block, splitting
    one in two, merging two neighbours and appending a block at the break.  Each has a lemma here.
 */
module HeapLayout {

  /** `word_t`, a 32-bit two's complement integer. */
  type Word = w: int | -0x8000_0000 <= w < 0x8000_0000

  /** Word index of the null pointer: it is below every block, as in C. */
  const NULL: int := 0
  /** Index of the first block: `ALIGNMENT - sizeof(word_t)` pad bytes precede it. */
  const FIRST: int := 3
  /** `MAX_HEAP` in words. */
  const MAX_WORDS: int := 26214400

  datatype Block = Block(words: int, used: bool)

  type Tiles = map<int, Block>

  /** `*bt & ~USED` in two's complement. */
  function BtSize(w: Word): int {
    w - w % 2
  }

  /** `*bt & USED`. */
  predicate BtUsed(w: Word) {
    w % 2 == 1
  }

  /** The tag word of a block: its size in bytes, which is even, with the flag in bit 0. */
  function Tag(b: Block): int {
    4 * b.words + if b.used then 1 else 0
  }

  /** Where the block starting at `b` ends. */
  function Next(blk: Tiles, b: int): int
    requires b in blk
  {
    b + blk[b].words
  }

  ghost predicate HasPrev(blk: Tiles, b: int) {
    b == FIRST || exists p :: p in blk && p + blk[p].words == b
  }

  ghost predicate HasNext(blk: Tiles, end: int, b: int)
    requires b in blk
  {
    Next(blk, b) == end || Next(blk, b) in blk
  }

  /** If `b` lies left of `c` it ends before `c` starts. */
  ghost predicate Apart(blk: Tiles, b: int, c: int)
    requires b in blk
  {
    b < c ==> b + blk[b].words <= c
  }

  ghost predicate Shaped(blk: Tiles, end: int, b: int)
    requires b in blk
  {
    FIRST <= b && blk[b].words >= 4 && b + blk[b].words <= end
  }

  /** The blocks of `blk` tile the words `FIRST..end` without gap or overlap. */
  ghost predicate Tiling(blk: Tiles, end: int) {
    && FIRST <= end <= MAX_WORDS
    && (FIRST < end ==> FIRST in blk)
    && (forall b {:trigger b in blk} :: b in blk ==> Shaped(blk, end, b))
    && (forall b {:trigger HasNext(blk, end, b)} :: b in blk ==> HasNext(blk, end, b))
    && (forall b {:trigger HasPrev(blk, b)} :: b in blk ==> HasPrev(blk, b))
    && (forall b, c {:trigger Apart(blk, b, c)} :: b in blk && c in blk ==> Apart(blk, b, c))
  }

  /** Block sizes are multiples of 16 bytes, and payloads, which start one word into their block, are
      16-byte aligned. */
  ghost predicate Aligned(blk: Tiles) {
    forall b {:trigger AlignedAt(blk, b)} :: b in blk ==> AlignedAt(blk, b)
  }

  ghost predicate AlignedAt(blk: Tiles, b: int)
    requires b in blk
  {
    b % 4 == 3 && blk[b].words % 4 == 0
  }

  /** Not both `b` and the block that follows it are free. */
  ghost predicate FreeApart(blk: Tiles, b: int)
    requires b in blk
  {
    !blk[b].used && Next(blk, b) in blk ==> blk[Next(blk, b)].used
  }

  /** No two neighbouring blocks are both free. */
  ghost predicate Coalesced(blk: Tiles) {
    forall b {:trigger FreeApart(blk, b)} :: b in blk ==> FreeApart(blk, b)
  }

  /** Header and footer of every block carry its tag. */
  ghost predicate Tagged(m: seq<Word>, blk: Tiles) {
    forall b {:trigger b in blk} :: b in blk ==>
      && 0 <= b && 4 <= blk[b].words && b + blk[b].words <= |m|
      && m[b] == Tag(blk[b]) && m[b + blk[b].words - 1] == Tag(blk[b])
  }

  /** The words between the tags of a block. */
  ghost function Payload(m: seq<Word>, blk: Tiles, b: int): seq<Word>
    requires b in blk && Tagged(m, blk)
  {
    m[b + 1 .. b + blk[b].words - 1]
  }

  /** `m` and `m'` agree strictly between `lo` and `hi`. */
  ghost predicate SameWords(m: seq<Word>, m': seq<Word>, lo: int, hi: int)
    requires -1 <= lo && hi <= |m| && |m| == |m'|
  {
    forall i {:trigger WordAt(m, i)} {:trigger WordAt(m', i)} :: lo < i < hi ==> WordAt(m', i) == WordAt(m, i)
  }

  function WordAt(m: seq<Word>, i: int): Word
    requires 0 <= i < |m|
  {
    m[i]
  }

  /** Every block in use in `blk`, except those in `but`, is also in use in `blk'`, with the same
      extent and contents; and nothing else but `but` is in use in `blk'`. */
  ghost predicate KeepsLive(m: seq<Word>, blk: Tiles, m': seq<Word>, blk': Tiles, but: set<int>)
    requires Tagged(m, blk) && Tagged(m', blk')
  {
    && |m'| == |m|
    && (forall b {:trigger b in blk} {:trigger b in blk'} :: b in blk && blk[b].used && b !in but ==>
          b in blk' && blk'[b] == blk[b] && SameWords(m, m', b, b + blk[b].words - 1))
    && (forall b {:trigger b in blk'} :: b in blk' && blk'[b].used && b !in but ==> b in blk && blk[b] == blk'[b])
  }

  lemma SamePayload(m: seq<Word>, blk: Tiles, m': seq<Word>, blk': Tiles, b: int)
    requires Tagged(m, blk) && Tagged(m', blk') && |m| == |m'|
    requires b in blk && b in blk' && blk[b] == blk'[b] && SameWords(m, m', b, b + blk[b].words - 1)
    ensures Payload(m', blk', b) == Payload(m, blk, b)
  {
    var c, c' := Payload(m, blk, b), Payload(m', blk', b);
    forall k | 0 <= k < |c| ensures c'[k] == c[k] {
      assert WordAt(m', b + 1 + k) == WordAt(m, b + 1 + k);
    }
  }

  /** The `n` words of `m'` from `dst` on are those of `m` from `src` on. */
  ghost predicate CopiedWords(m: seq<Word>, src: int, m': seq<Word>, dst: int, n: int)
    requires 0 <= src && src + n <= |m| && 0 <= dst && dst + n <= |m'|
  {
    forall i {:trigger WordAt(m', i)} :: dst <= i < dst + n ==> WordAt(m', i) == m[i - dst + src]
  }

  lemma CopiedFewer(m: seq<Word>, src: int, m': seq<Word>, dst: int, n: int, n': int)
    requires 0 <= src && src + n <= |m| && 0 <= dst && dst + n <= |m'| && n' <= n
    requires CopiedWords(m, src, m', dst, n)
    ensures CopiedWords(m, src, m', dst, n')
  {
  }

  lemma CopiedPayload(m: seq<Word>, blk: Tiles, b: int, m': seq<Word>, blk': Tiles, b': int)
    requires Tagged(m, blk) && Tagged(m', blk') && b in blk && b' in blk' && blk[b].words <= blk'[b'].words
    requires CopiedWords(m, b + 1, m', b' + 1, blk[b].words - 2)
    ensures Payload(m, blk, b) <= Payload(m', blk', b')
  {
    var c, c' := Payload(m, blk, b), Payload(m', blk', b');
    forall k | 0 <= k < |c| ensures c'[k] == c[k] {
      assert WordAt(m', b' + 1 + k) == c[k];
    }
  }

  lemma CopiedAfter(m: seq<Word>, m1: seq<Word>, src: int, m': seq<Word>, dst: int, n: int)
    requires 0 < src && src + n < |m| == |m1| && 0 <= dst && dst + n <= |m'|
    requires SameWords(m, m1, src - 1, src + n) && CopiedWords(m1, src, m', dst, n)
    ensures CopiedWords(m, src, m', dst, n)
  {
    forall i {:trigger WordAt(m', i)} | dst <= i < dst + n ensures WordAt(m', i) == m[i - dst + src] {
      assert WordAt(m1, i - dst + src) == WordAt(m, i - dst + src);
    }
  }

  /** Memory after `bt_make(b, size, flags)`. */
  function MakeTags(m: seq<Word>, b: int, block: Block): seq<Word>
    requires 0 <= b && 4 <= block.words <= MAX_WORDS && b + block.words <= |m|
  {
    m[b := Tag(block)][b + block.words - 1 := Tag(block)]
  }

  // ---------------------------------------------------------------- tiling

  lemma PrevOf(blk: Tiles, end: int, b: int) returns (p: int)
    requires Tiling(blk, end) && b in blk && b != FIRST
    ensures p in blk && p + blk[p].words == b
  {
    assert HasPrev(blk, b);
    p :| p in blk && p + blk[p].words == b;
  }

  /** The tiling covers the heap exactly: every word between the pad and the break belongs to one
      block and to one only. */
  lemma {:induction false} CoversExactly(blk: Tiles, end: int, i: int)
    requires Tiling(blk, end) && FIRST <= i < end
    ensures exists b :: b in blk && b <= i < b + blk[b].words
    ensures forall b, c :: b in blk && c in blk && b <= i < b + blk[b].words && c <= i < c + blk[c].words ==> b == c
    decreases i
  {
    if i !in blk {
      CoversExactly(blk, end, i - 1);
      var b :| b in blk && b <= i - 1 < b + blk[b].words;
      assert HasNext(blk, end, b);
      assert b <= i < b + blk[b].words;
    } else {
      assert i <= i < i + blk[i].words;
    }
    forall b, c | b in blk && c in blk && b <= i < b + blk[b].words && c <= i < c + blk[c].words ensures b == c {
      assert Apart(blk, b, c) && Apart(blk, c, b);
    }
  }

  /** A block other than `b` lies on one side of it. */
  lemma Beside(blk: Tiles, end: int, b: int)
    requires Tiling(blk, end) && b in blk
    ensures forall c {:trigger c in blk} :: c in blk && c != b ==> c + blk[c].words <= b || b + blk[b].words <= c
  {
    forall c {:trigger c in blk} | c in blk && c != b ensures c + blk[c].words <= b || b + blk[b].words <= c {
      assert Apart(blk, b, c) && Apart(blk, c, b);
    }
  }

  lemma LastBlock(blk: Tiles, end: int) returns (b: int)
    requires Tiling(blk, end) && FIRST < end
    ensures b in blk && b + blk[b].words == end
  {
    CoversExactly(blk, end, end - 1);
    b :| b in blk && b <= end - 1 < b + blk[b].words;
  }

  lemma TagFields(b: Block)
    ensures 2 * (Tag(b) / 2) == 4 * b.words && (Tag(b) % 2 == 1) == b.used
    ensures (Tag(b) - Tag(b) % 2) / 4 == b.words
  {
  }

  /** The word before a block is the footer of its left neighbour, which therefore starts where the
      allocator looks for it. */
  lemma PrevFromFooter(m: seq<Word>, blk: Tiles, end: int, b: int)
    requires Tiling(blk, end) && Tagged(m, blk) && b in blk && b != FIRST
    ensures 0 < b <= |m|
    ensures var p := b - BtSize(m[b - 1]) / 4;
            p in blk && p + blk[p].words == b && BtUsed(m[b - 1]) == blk[p].used
  {
    var p := PrevOf(blk, end, b);
    TagFields(blk[p]);
    var w := m[p + blk[p].words - 1];
    assert w == Tag(blk[p]);
  }

  /** `blk` with the blocks that start in `s..e` made one. */
  function Joined(blk: Tiles, s: int, e: int, used: bool): Tiles {
    (map c | c in blk && !(s <= c < e) :: blk[c])[s := Block(e - s, used)]
  }

  /** `s..e` is a run of whole blocks. */
  ghost predicate Run(blk: Tiles, end: int, s: int, e: int) {
    s in blk && s < e && (e == end || e in blk)
  }

  /** `blk` with block `b` cut after `words` words, the left part in use and the right part free. */
  function Split(blk: Tiles, b: int, words: int): Tiles
    requires b in blk
  {
    blk[b := Block(words, true)][b + words := Block(blk[b].words - words, false)]
  }

  /** A block outside a run lies on one side of it; one inside does not stick out of it. */
  lemma BesideRun(blk: Tiles, end: int, s: int, e: int)
    requires Tiling(blk, end) && Run(blk, end, s, e)
    ensures e <= end
    ensures forall c {:trigger c in blk} :: c in blk ==>
              c + blk[c].words <= s || e <= c || (s <= c && c + blk[c].words <= e)
  {
    forall c {:trigger c in blk} | c in blk
      ensures c + blk[c].words <= s || e <= c || (s <= c && c + blk[c].words <= e)
    {
      assert Apart(blk, c, s);
      assert e in blk ==> Apart(blk, c, e);
    }
    assert e in blk ==> Shaped(blk, end, e);
  }

  lemma JoinedTiling(blk: Tiles, end: int, s: int, e: int, used: bool)
    requires Tiling(blk, end) && Run(blk, end, s, e)
    ensures Tiling(Joined(blk, s, e, used), end)
  {
    var blk' := Joined(blk, s, e, used);
    BesideRun(blk, end, s, e);
    forall c {:trigger HasPrev(blk', c)} | c in blk' ensures HasPrev(blk', c) {
      if c != FIRST {
        var q := PrevOf(blk, end, c);
        var q' := if s <= q < e then s else q;
        assert q' in blk' && q' + blk'[q'].words == c;
      }
    }
    forall c {:trigger HasNext(blk', end, c)} | c in blk' ensures HasNext(blk', end, c) {
      assert HasNext(blk, end, c);
    }
    forall c, d {:trigger Apart(blk', c, d)} | c in blk' && d in blk' ensures Apart(blk', c, d) {
      assert Apart(blk, c, d);
    }
  }

  lemma SplitTiling(blk: Tiles, end: int, b: int, words: int)
    requires Tiling(blk, end) && b in blk && 4 <= words <= blk[b].words - 4
    ensures b + words !in blk && Tiling(Split(blk, b, words), end)
  {
    var n, blk' := b + words, Split(blk, b, words);
    Beside(blk, end, b);
    forall c {:trigger HasPrev(blk', c)} | c in blk' ensures HasPrev(blk', c) {
      if c == n {
        assert b in blk' && b + blk'[b].words == c;
      } else if c != FIRST {
        var q := PrevOf(blk, end, c);
        var q' := if q == b then n else q;
        assert q' in blk' && q' + blk'[q'].words == c;
      }
    }
    forall c {:trigger HasNext(blk', end, c)} | c in blk' ensures HasNext(blk', end, c) {
      assert HasNext(blk, end, if c == n then b else c);
    }
    forall c, d {:trigger Apart(blk', c, d)} | c in blk' && d in blk' ensures Apart(blk', c, d) {
      assert c in blk && d in blk ==> Apart(blk, c, d);
    }
  }

  lemma ExtendedTiling(blk: Tiles, end: int, words: int)
    requires Tiling(blk, end) && 4 <= words && end + words <= MAX_WORDS
    ensures end !in blk && Tiling(blk[end := Block(words, true)], end + words)
  {
    var blk' := blk[end := Block(words, true)];
    forall c {:trigger HasPrev(blk', c)} | c in blk' ensures HasPrev(blk', c) {
      if c != FIRST {
        var q;
        if c == end {
          q := LastBlock(blk, end);
        } else {
          q := PrevOf(blk, end, c);
        }
        assert q in blk' && q + blk'[q].words == c;
      }
    }
    forall c {:trigger HasNext(blk', end + words, c)} | c in blk' ensures HasNext(blk', end + words, c) {
      assert c != end ==> HasNext(blk, end, c);
    }
    forall c, d {:trigger Apart(blk', c, d)} | c in blk' && d in blk' ensures Apart(blk', c, d) {
      assert c in blk && d in blk ==> Apart(blk, c, d);
    }
  }

  lemma RetaggedTiling(blk: Tiles, end: int, b: int, used: bool)
    requires Tiling(blk, end) && b in blk
    ensures Tiling(blk[b := Block(blk[b].words, used)], end)
  {
    var blk' := blk[b := Block(blk[b].words, used)];
    forall c {:trigger HasPrev(blk', c)} | c in blk' ensures HasPrev(blk', c) {
      if c != FIRST {
        var q := PrevOf(blk, end, c);
        assert q in blk' && q + blk'[q].words == c;
      }
    }
    forall c {:trigger HasNext(blk', end, c)} | c in blk' ensures HasNext(blk', end, c) {
      assert HasNext(blk, end, c);
    }
    forall c, d {:trigger Apart(blk', c, d)} | c in blk' && d in blk' ensures Apart(blk', c, d) {
      assert Apart(blk, c, d);
    }
  }

  // ---------------------------------------------------------------- tags and payloads

  /** `blk'` has the same blocks as `blk` outside the words `lo..hi`, and every block of either lies
      on one side of `lo` and on one side of `hi`. */
  ghost predicate SameOutside(blk: Tiles, blk': Tiles, lo: int, hi: int) {
    && (forall b {:trigger b in blk} {:trigger b in blk'} :: b in blk && !(lo <= b < hi) ==>
        b in blk' && blk'[b] == blk[b] && (b + blk[b].words <= lo || hi <= b))
    && (forall b {:trigger b in blk'} :: b in blk' && !(lo <= b < hi) ==> b in blk)
  }

  /** A change of memory and tiling confined to `lo..hi` leaves the tags and payloads of all other
      blocks alone; only the blocks inside need to be looked at. */
  lemma LocalChange(m: seq<Word>, blk: Tiles, m': seq<Word>, blk': Tiles, lo: int, hi: int, but: set<int>)
    requires Tagged(m, blk) && |m'| == |m| && SameOutside(blk, blk', lo, hi)
    requires forall i :: 0 <= i < |m| && !(lo <= i < hi) ==> m'[i] == m[i]
    requires forall b {:trigger b in blk'} :: b in blk' && lo <= b < hi ==>
               && 0 <= b && 4 <= blk'[b].words && b + blk'[b].words <= |m|
               && m'[b] == Tag(blk'[b]) && m'[b + blk'[b].words - 1] == Tag(blk'[b])
    requires forall b {:trigger b in blk} {:trigger b in blk'} ::
            ((b in blk && blk[b].used) || (b in blk' && blk'[b].used)) && lo <= b < hi ==> b in but
    ensures Tagged(m', blk')
    ensures KeepsLive(m, blk, m', blk', but)
  {
    assert forall b {:trigger b in blk'} :: b in blk' && !(lo <= b < hi) ==> b in blk && blk[b] == blk'[b];
    assert Tagged(m', blk');
  }

  lemma SplitOutside(blk: Tiles, end: int, b: int, words: int)
    requires Tiling(blk, end) && b in blk && 4 <= words <= blk[b].words - 4
    ensures b + words !in blk
    ensures var blk', hi := Split(blk, b, words), Next(blk, b);
            SameOutside(blk, blk', b, hi)
            && forall c {:trigger c in blk'} :: c in blk' && b <= c < hi ==> c == b || c == b + words
    ensures forall c {:trigger c in blk} :: c in blk && b <= c < Next(blk, b) ==> c == b
  {
    Beside(blk, end, b);
  }

  lemma RetagTags(m: seq<Word>, blk: Tiles, end: int, b: int, block: Block)
    requires Tiling(blk, end) && end <= |m| && Tagged(m, blk) && b in blk && block.words == blk[b].words
    ensures Tagged(MakeTags(m, b, block), blk[b := block])
    ensures KeepsLive(m, blk, MakeTags(m, b, block), blk[b := block], {b})
    ensures SameWords(m, MakeTags(m, b, block), b, b + block.words - 1)
  {
    Beside(blk, end, b);
    LocalChange(m, blk, MakeTags(m, b, block), blk[b := block], b, b + block.words, {b});
  }

  lemma JoinTags(m: seq<Word>, blk: Tiles, end: int, s: int, e: int, used: bool, but: set<int>, m': seq<Word>)
    requires Tiling(blk, end) && end <= |m| && Tagged(m, blk) && Run(blk, end, s, e)
    requires 4 <= e - s && e <= |m|
    requires s in but && forall c {:trigger c in blk} :: c in blk && s <= c < e && blk[c].used ==> c in but
    requires |m'| == |m| && m'[s] == m'[e - 1] == Tag(Block(e - s, used))
    requires forall i :: 0 <= i < |m| && !(s <= i < e) ==> m'[i] == m[i]
    ensures Tagged(m', Joined(blk, s, e, used))
    ensures KeepsLive(m, blk, m', Joined(blk, s, e, used), but)
  {
    BesideRun(blk, end, s, e);
    LocalChange(m, blk, m', Joined(blk, s, e, used), s, e, but);
  }

  lemma SplitTags(m: seq<Word>, blk: Tiles, end: int, b: int, words: int, m': seq<Word>, blk': Tiles)
    requires Tiling(blk, end) && end <= |m| && Tagged(m, blk) && b in blk && 4 <= words <= blk[b].words - 4
    requires blk' == Split(blk, b, words)
    requires m' == MakeTags(MakeTags(m, b, Block(words, true)), b + words, Block(blk[b].words - words, false))
    ensures Tagged(m', blk')
    ensures KeepsLive(m, blk, m', blk', {b})
  {
    SplitOutside(blk, end, b, words);
    TwoTags(m, b, Block(words, true), Block(blk[b].words - words, false));
    SplitLocal(m, blk, m', blk', b, words);
  }

  lemma TwoTags(m: seq<Word>, b: int, left: Block, right: Block)
    requires 0 <= b && 4 <= left.words <= MAX_WORDS && 4 <= right.words <= MAX_WORDS
    requires b + left.words + right.words <= |m|
    ensures var n := b + left.words;
            var m' := MakeTags(MakeTags(m, b, left), n, right);
            && |m'| == |m|
            && m'[b] == m'[n - 1] == Tag(left) && m'[n] == m'[n + right.words - 1] == Tag(right)
            && forall i :: 0 <= i < |m| && !(b <= i < n + right.words) ==> m'[i] == m[i]
  {
  }

  lemma SplitLocal(m: seq<Word>, blk: Tiles, m': seq<Word>, blk': Tiles, b: int, words: int)
    requires Tagged(m, blk) && b in blk && 4 <= words <= blk[b].words - 4
    requires blk' == Split(blk, b, words) && SameOutside(blk, blk', b, Next(blk, b))
    requires forall c {:trigger c in blk'} :: c in blk' && b <= c < Next(blk, b) ==> c == b || c == b + words
    requires forall c {:trigger c in blk} :: c in blk && b <= c < Next(blk, b) ==> c == b
    requires |m'| == |m| && m'[b] == m'[b + words - 1] == Tag(blk'[b])
    requires m'[b + words] == m'[Next(blk, b) - 1] == Tag(blk'[b + words])
    requires forall i :: 0 <= i < |m| && !(b <= i < Next(blk, b)) ==> m'[i] == m[i]
    ensures Tagged(m', blk') && KeepsLive(m, blk, m', blk', {b})
  {
    LocalChange(m, blk, m', blk', b, Next(blk, b), {b});
  }

  lemma ExtendTags(m: seq<Word>, blk: Tiles, end: int, block: Block)
    requires Tiling(blk, end) && Tagged(m, blk)
    requires 4 <= block.words && end + block.words <= MAX_WORDS <= |m|
    ensures Tagged(MakeTags(m, end, block), blk[end := block])
    ensures KeepsLive(m, blk, MakeTags(m, end, block), blk[end := block], {end})
  {
    LocalChange(m, blk, MakeTags(m, end, block), blk[end := block], end, end + block.words, {end});
  }

  /** Words strictly inside a free block may be overwritten. */
  lemma WriteInFree(m: seq<Word>, blk: Tiles, end: int, b: int, k: int, w: Word)
    requires Tiling(blk, end) && end <= |m| && Tagged(m, blk) && b in blk && !blk[b].used
    requires 0 < k < blk[b].words - 1
    ensures Tagged(m[b + k := w], blk)
    ensures KeepsLive(m, blk, m[b + k := w], blk, {})
  {
    Beside(blk, end, b);
    LocalChange(m, blk, m[b + k := w], blk, b, b + blk[b].words, {});
  }

  lemma KeepsLiveTrans(m: seq<Word>, blk: Tiles, m': seq<Word>, blk': Tiles, m'': seq<Word>, blk'': Tiles,
                       but: set<int>, but': set<int>, all: set<int>)
    requires Tagged(m, blk) && Tagged(m', blk') && Tagged(m'', blk'')
    requires KeepsLive(m, blk, m', blk', but) && KeepsLive(m', blk', m'', blk'', but')
    requires forall b {:trigger b in but} {:trigger b in but'} :: b in but || b in but' ==> b in all
    ensures KeepsLive(m, blk, m'', blk'', all)
  {
  }

  lemma WriteInFreeToo(m0: seq<Word>, m: seq<Word>, blk: Tiles, end: int, b: int, k: int, w: Word)
    requires Tiling(blk, end) && end <= |m| && Tagged(m0, blk) && Tagged(m, blk) && b in blk && !blk[b].used
    requires 0 < k < blk[b].words - 1 && KeepsLive(m0, blk, m, blk, {})
    ensures Tagged(m[b + k := w], blk)
    ensures KeepsLive(m0, blk, m[b + k := w], blk, {})
  {
    WriteInFree(m, blk, end, b, k, w);
    KeepsLiveTrans(m0, blk, m, blk, m[b + k := w], blk, {}, {}, {});
  }

  /** Words strictly inside a block may be overwritten; only that block's payload changes. */
  lemma WritePayload(m: seq<Word>, blk: Tiles, end: int, b: int, m': seq<Word>)
    requires Tiling(blk, end) && end <= |m| && Tagged(m, blk) && b in blk && |m'| == |m|
    requires forall i :: 0 <= i < |m| && !(b < i < Next(blk, b) - 1) ==> m'[i] == m[i]
    ensures Tagged(m', blk) && KeepsLive(m, blk, m', blk, {b})
  {
    Beside(blk, end, b);
    LocalChange(m, blk, m', blk, b, Next(blk, b), {b});
  }

  /** Tagging the block that was copied into only overwrites what lies outside its payload. */
  lemma CopiedThenTagged(m: seq<Word>, src: int, m1: seq<Word>, b: int, block: Block, n: int)
    requires 0 <= src && src + n <= |m| && 0 <= b && 4 <= block.words <= MAX_WORDS && b + block.words <= |m1|
    requires n <= block.words - 2 && CopiedWords(m, src, m1, b + 1, n)
    ensures CopiedWords(m, src, MakeTags(m1, b, block), b + 1, n)
  {
    var m' := MakeTags(m1, b, block);
    forall i {:trigger WordAt(m', i)} | b + 1 <= i < b + 1 + n ensures WordAt(m', i) == m[i - (b + 1) + src] {
      assert WordAt(m1, i) == m[i - (b + 1) + src];
    }
  }
}
