/** `malloc/mm.c` on the bump heap of `malloc/memlib.c`: a boundary-tag allocator with an explicit
    free list, best fit with splitting, immediate coalescing and a four-way `realloc`.

    Pointers are word indices into `mem`.  Sizes are in bytes, as in the source. */
module Allocator {
  import opened HeapLayout
  import opened Sequences
  import opened FreeList

  /** `ALIGNMENT` */
  const ALIGNMENT: int := 16
  /** The largest `size_t`, which is also what `maybe_max_fb = -1` stores. */
  const SIZE_MAX: int := 0xFFFF_FFFF_FFFF_FFFF

  /** `normalize_size`, with the two additions wrapping around as `size_t` does. */
  function NormalizeSize(size: int): int {
    var withTags := (size + 8) % (SIZE_MAX + 1);
    var padded := (withTags + (ALIGNMENT - 1)) % (SIZE_MAX + 1);
    padded - padded % ALIGNMENT
  }

  lemma NormalizedWords(size: int) returns (words: int)
    requires 0 < size <= SIZE_MAX - 23
    ensures NormalizeSize(size) == 4 * words && words % 4 == 0 && 4 <= words
    ensures size + 8 <= 4 * words <= size + 23
    ensures NormalizeSize(size) / 4 == words
  {
    var padded := size + 23;
    words := 4 * (padded / 16);
  }

  /** Rounding leaves room for the payload and both tags exactly when the additions do not wrap, and then it yields the
      least multiple of 16 that does. */
  lemma NormalizeSizeRoom(size: int)
    requires 0 <= size <= 0xFFFF_FFFF_FFFF_FFFF
    ensures NormalizeSize(size) % 16 == 0
    ensures NormalizeSize(size) >= size + 8 <==> size <= 0xFFFF_FFFF_FFFF_FFE8
    ensures size <= 0xFFFF_FFFF_FFFF_FFE8 ==> NormalizeSize(size) < size + 24
    ensures size > 0xFFFF_FFFF_FFFF_FFE8 ==> NormalizeSize(size) <= 16
  {
    if size <= 0xFFFF_FFFF_FFFF_FFE8 && size > 0 {
      var words := NormalizedWords(size);
    }
  }

  /** A block that must move grows by at least 16 bytes, so the copy `mm_realloc` makes of it, which is
      as long as the whole old block, fits the new payload. */
  lemma MoveFits(oldSize: int, size: int)
    requires 16 <= oldSize && oldSize % 16 == 0 && oldSize - 8 < size <= SIZE_MAX - 23
    ensures NormalizeSize(size) >= oldSize + 16
  {
  }

  ghost predicate InUse(blk: Tiles, b: int) {
    b in blk && blk[b].used
  }

  /** The payloads in use, by payload address. */
  ghost function Live(m: seq<Word>, blk: Tiles): map<int, seq<Word>>
    requires Tagged(m, blk)
  {
    map p {:trigger InUse(blk, p - 1)} | 0 < p <= |m| && InUse(blk, p - 1) :: Payload(m, blk, p - 1)
  }

  lemma LiveAt(m: seq<Word>, blk: Tiles, p: int)
    requires Tagged(m, blk)
    ensures p in Live(m, blk) <==> InUse(blk, p - 1)
    ensures p in Live(m, blk) ==> Live(m, blk)[p] == Payload(m, blk, p - 1)
  {
  }

  /** `KeepsLive` in the user's terms: contents survive, whatever happens to the tiling. */
  lemma LiveElsewhere(m: seq<Word>, blk: Tiles, m': seq<Word>, blk': Tiles, but: set<int>, p: int)
    requires Tagged(m, blk) && Tagged(m', blk') && KeepsLive(m, blk, m', blk', but)
    requires p - 1 in but ==> !InUse(blk, p - 1) && !InUse(blk', p - 1)
    ensures p in Live(m, blk) <==> p in Live(m', blk')
    ensures p in Live(m, blk) ==> Live(m, blk)[p] == Live(m', blk')[p]
  {
    LiveAt(m, blk, p);
    LiveAt(m', blk', p);
    if p in Live(m, blk) {
      SamePayload(m, blk, m', blk', p - 1);
    }
  }

  ghost predicate SameAt(l: map<int, seq<Word>>, l': map<int, seq<Word>>, p: int) {
    (p in l <==> p in l') && (p in l ==> l[p] == l'[p])
  }

  lemma MapReplaced(l: map<int, seq<Word>>, l': map<int, seq<Word>>, p: int, p': int)
    requires p' in l' && (p != p' ==> p !in l')
    requires forall q {:trigger SameAt(l, l', q)} :: q != p && q != p' ==> SameAt(l, l', q)
    ensures l' == (l - {p})[p' := l'[p']]
  {
    forall q {:trigger q in l} {:trigger q in l'} | q != p && q != p' ensures SameAt(l, l', q) {
    }
  }

  lemma MapRemoved(l: map<int, seq<Word>>, l': map<int, seq<Word>>, p: int)
    requires p !in l'
    requires forall q {:trigger SameAt(l, l', q)} :: q != p ==> SameAt(l, l', q)
    ensures l' == l - {p}
  {
    forall q {:trigger q in l} {:trigger q in l'} | q != p ensures SameAt(l, l', q) {
    }
  }

  lemma LiveAdded(m: seq<Word>, blk: Tiles, m': seq<Word>, blk': Tiles, b: int)
    requires Tagged(m, blk) && Tagged(m', blk') && KeepsLive(m, blk, m', blk', {b})
    requires !InUse(blk, b) && InUse(blk', b)
    ensures b + 1 !in Live(m, blk)
    ensures Live(m', blk') == Live(m, blk)[b + 1 := Payload(m', blk', b)]
  {
    hide KeepsLive, Tagged, Live, Payload;
    var l, l' := Live(m, blk), Live(m', blk');
    LiveAt(m, blk, b + 1);
    LiveAt(m', blk', b + 1);
    forall q {:trigger SameAt(l, l', q)} | q != b + 1 ensures SameAt(l, l', q) {
      LiveElsewhere(m, blk, m', blk', {b}, q);
    }
    MapReplaced(l, l', b + 1, b + 1);
    assert l - {b + 1} == l;
  }

  lemma LiveRemoved(m: seq<Word>, blk: Tiles, m': seq<Word>, blk': Tiles, but: set<int>, b: int)
    requires Tagged(m, blk) && Tagged(m', blk') && KeepsLive(m, blk, m', blk', but)
    requires InUse(blk, b) && b in but
    requires forall c {:trigger c in but} :: c in but ==> (c == b || !InUse(blk, c)) && !InUse(blk', c)
    ensures Live(m', blk') == Live(m, blk) - {b + 1}
  {
    hide KeepsLive, Tagged, Live, Payload;
    var l, l' := Live(m, blk), Live(m', blk');
    LiveAt(m', blk', b + 1);
    forall q {:trigger SameAt(l, l', q)} | q != b + 1 ensures SameAt(l, l', q) {
      LiveElsewhere(m, blk, m', blk', but, q);
    }
    MapRemoved(l, l', b + 1);
  }

  lemma LiveReplaced(m: seq<Word>, blk: Tiles, m': seq<Word>, blk': Tiles, but: set<int>, b: int, b': int)
    requires Tagged(m, blk) && Tagged(m', blk') && KeepsLive(m, blk, m', blk', but)
    requires InUse(blk, b) && b in but && InUse(blk', b') && b' in but
    requires forall c {:trigger c in but} :: c in but ==> (c == b || !InUse(blk, c)) && (c == b' || !InUse(blk', c))
    ensures b' + 1 !in Live(m, blk) - {b + 1}
    ensures Live(m', blk') == (Live(m, blk) - {b + 1})[b' + 1 := Payload(m', blk', b')]
  {
    hide KeepsLive, Tagged, Live, Payload;
    var l, l' := Live(m, blk), Live(m', blk');
    LiveAt(m, blk, b' + 1);
    LiveAt(m', blk', b + 1);
    LiveAt(m', blk', b' + 1);
    forall q {:trigger SameAt(l, l', q)} | q != b + 1 && q != b' + 1 ensures SameAt(l, l', q) {
      LiveElsewhere(m, blk, m', blk', but, q);
    }
    MapReplaced(l, l', b + 1, b' + 1);
  }

  lemma LiveUpdated(m: seq<Word>, m': seq<Word>, blk: Tiles, p: int)
    requires Tagged(m, blk) && Tagged(m', blk) && KeepsLive(m, blk, m', blk, {p - 1}) && InUse(blk, p - 1)
    ensures p in Live(m, blk) && p in Live(m', blk) && Live(m', blk) == Live(m, blk)[p := Live(m', blk)[p]]
  {
    LiveReplaced(m, blk, m', blk, {p - 1}, p - 1, p - 1);
    LiveAt(m, blk, p);
    LiveAt(m', blk, p);
    var l, c := Live(m, blk), Live(m', blk)[p];
    assert (l - {p})[p := c] == l[p := c];
  }

  lemma LiveCopied(m: seq<Word>, m': seq<Word>, blk: Tiles, p: int, r: int, n: int)
    requires Tagged(m, blk) && Tagged(m', blk) && KeepsLive(m, blk, m', blk, {r - 1}) && InUse(blk, p - 1)
            && InUse(blk, r - 1)
    requires n == blk[p - 1].words && n <= blk[r - 1].words && 0 <= p && p + n <= |m| && 0 <= r && r + n <= |m'|
    requires CopiedWords(m, p, m', r, n)
    ensures p in Live(m, blk) && r in Live(m, blk) && r in Live(m', blk)
    ensures Live(m', blk) == Live(m, blk)[r := Live(m', blk)[r]]
    ensures Live(m, blk)[p] <= Live(m', blk)[r] && |Live(m', blk)[r]| == |Live(m, blk)[r]|
  {
    CopiedFewer(m, p, m', r, n, n - 2);
    CopiedPayload(m, blk, p - 1, m', blk, r - 1);
    LiveUpdated(m, m', blk, r);
    LiveAt(m, blk, p);
    LiveAt(m, blk, r);
    LiveAt(m', blk, r);
  }

  lemma Unmoved(l: map<int, seq<Word>>, p: int)
    ensures p in l ==> (l - {p})[p := l[p]] == l
    ensures p !in l ==> l - {p} == l
  {
  }

  /** Adding `r`, overwriting it and dropping `p` amounts to moving `p` to `r`. */
  lemma MoveMaps(l0: map<int, seq<Word>>, l1: map<int, seq<Word>>, l2: map<int, seq<Word>>, p: int, r: int)
    requires p in l0 && r !in l0 && r in l1 && l1 == l0[r := l1[r]]
    requires r in l2 && l2 == l1[r := l2[r]]
    ensures r in l2 - {p} && (l2 - {p})[r] == l2[r] && l2 - {p} == (l0 - {p})[r := l2[r]]
  {
  }

  /** Block `b` became block `b'`, which overlaps no other live block and starts with `b`'s contents. */
  lemma LiveMoved(m: seq<Word>, blk: Tiles, m': seq<Word>, blk': Tiles, b: int, b': int)
    requires Tagged(m, blk) && Tagged(m', blk') && KeepsLive(m, blk, m', blk', {b', b})
    requires InUse(blk, b) && InUse(blk', b') && (b' != b ==> !InUse(blk, b') && !InUse(blk', b))
    requires Payload(m, blk, b) <= Payload(m', blk', b')
    ensures b + 1 in Live(m, blk) && b' + 1 in Live(m', blk') && (b' != b ==> b' + 1 !in Live(m, blk))
    ensures Live(m', blk') == (Live(m, blk) - {b + 1})[b' + 1 := Live(m', blk')[b' + 1]]
    ensures Live(m, blk)[b + 1] <= Live(m', blk')[b' + 1]
    ensures |Live(m', blk')[b' + 1]| == blk'[b'].words - 2
  {
    hide KeepsLive, Live;
    LiveReplaced(m, blk, m', blk', {b', b}, b, b');
    LiveAt(m, blk, b + 1);
    LiveAt(m, blk, b' + 1);
    LiveAt(m', blk', b' + 1);
  }

  /** The pad below the first block, which `mm_realloc` reads as the footer of a block of size 0. */
  ghost predicate PadZero(m: seq<Word>) {
    |m| > FIRST && m[0] == 0 && m[1] == 0 && m[2] == 0
  }

  /** What the source maintains between calls.  `end` is the break, in words. */
  ghost predicate Quiescent(m: seq<Word>, end: int, heapStart: int, heapEnd: int, freeBlocks: int, hint: int,
                            blk: Tiles, fl: seq<int>)
  {
    && Chained(m, blk, end, fl) && Tidy(blk, end, fl)
    && freeBlocks == Head(fl)
    && 0 <= hint <= SIZE_MAX && Bounds(hint, blk, fl)
    && PadZero(m)
    && (if heapStart == NULL then end == FIRST && heapEnd == NULL else heapStart == FIRST < end && heapEnd == end)
  }

  /** The hint after `remove_fb` took a block of `size` bytes and left `fl` on the list. */
  function HintAfterRemove(hint: int, fl: seq<int>, size: int): int {
    var hint' := if fl == [] then 0 else hint;
    if hint' == size then SIZE_MAX else hint'
  }

  /** None of the first `n` listed blocks has `words` words. */
  ghost predicate NoneFits(blk: Tiles, fl: seq<int>, words: int, n: int)
    requires FreeBlocks(blk, fl) && n <= |fl|
  {
    forall i {:trigger fl[i]} :: 0 <= i < n ==> blk[fl[i]].words < words
  }

  /** Among the first `n` listed blocks, `fl[j]` is the first of the smallest that have `words` words. */
  ghost predicate BestBelow(blk: Tiles, fl: seq<int>, words: int, n: int, j: int)
    requires FreeBlocks(blk, fl) && n <= |fl|
  {
    && 0 <= j < n && words <= blk[fl[j]].words
    && forall i {:trigger fl[i]} :: 0 <= i < n && words <= blk[fl[i]].words ==>
         blk[fl[j]].words <= blk[fl[i]].words && (i < j ==> blk[fl[j]].words < blk[fl[i]].words)
  }

  ghost predicate BestFit(blk: Tiles, fl: seq<int>, words: int, j: int)
    requires FreeBlocks(blk, fl)
  {
    BestBelow(blk, fl, words, |fl|, j)
  }

  /** One step of the search: the next block becomes the best one, or an exact fit ends the search, or
      nothing changes. */
  lemma SearchStep(blk: Tiles, fl: seq<int>, words: int, n: int, found: bool, j: int)
    requires FreeBlocks(blk, fl) && 0 <= n < |fl|
    requires if found then BestBelow(blk, fl, words, n, j) && words < blk[fl[j]].words else NoneFits(blk, fl, words, n)
    ensures words == blk[fl[n]].words ==> BestFit(blk, fl, words, n)
    ensures words < blk[fl[n]].words && (found ==> blk[fl[n]].words < blk[fl[j]].words) ==>
            BestBelow(blk, fl, words, n + 1, n)
    ensures words > blk[fl[n]].words || (words < blk[fl[n]].words && found && blk[fl[n]].words >= blk[fl[j]].words) ==>
              if found then BestBelow(blk, fl, words, n + 1, j) else NoneFits(blk, fl, words, n + 1)
  {
  }

  ghost predicate HasFit(blk: Tiles, words: int) {
    exists b :: b in blk && !blk[b].used && words <= blk[b].words
  }

  /** The words from `lo` to `hi` lie below the break, and no block in use reaches into them. */
  ghost predicate Unused(blk: Tiles, end: int, lo: int, hi: int) {
    FIRST <= lo < hi <= end && forall b {:trigger b in blk} :: b in blk && blk[b].used ==> Next(blk, b) <= lo || hi <= b
  }

  /** Unused words that follow one another lie in one free block. */
  lemma Stretch(blk: Tiles, end: int, lo: int, hi: int) returns (f: int)
    requires Tiling(blk, end) && Coalesced(blk) && Unused(blk, end, lo, hi)
    ensures f in blk && !blk[f].used && f <= lo && hi <= Next(blk, f)
  {
    CoversExactly(blk, end, lo);
    f :| f in blk && f <= lo < f + blk[f].words;
    assert HasNext(blk, end, f) && FreeApart(blk, f);
  }

  lemma FreeUnused(blk: Tiles, end: int, f: int)
    requires Tiling(blk, end) && f in blk && !blk[f].used
    ensures Unused(blk, end, f, Next(blk, f))
  {
    Beside(blk, end, f);
  }

  /** Some free block fits exactly when that many words in a row are unused anywhere below the break. */
  lemma FitExact(blk: Tiles, end: int, words: int)
    requires Tiling(blk, end) && Coalesced(blk) && words > 0
    ensures HasFit(blk, words) <==> exists lo, hi :: Unused(blk, end, lo, hi) && words <= hi - lo
  {
    if HasFit(blk, words) {
      var f :| f in blk && !blk[f].used && words <= blk[f].words;
      FreeUnused(blk, end, f);
    }
    if lo, hi :| Unused(blk, end, lo, hi) && words <= hi - lo {
      var f := Stretch(blk, end, lo, hi);
    }
  }

  /** The words of a listed block name its list neighbours, and what is left of the list starts with
      the right one exactly when there is no left one. */
  lemma Neighbours(m: seq<Word>, blk: Tiles, end: int, fl: seq<int>, k: int)
    requires Chained(m, blk, end, fl) && 0 <= k < |fl|
    ensures forall i :: 0 <= i < |fl| ==> FIRST <= fl[i] <= MAX_WORDS - 4
    ensures m[fl[k] + 1] == Offset(fl, k - 1) && m[fl[k] + 2] == Offset(fl, k + 1)
    ensures Head(Without(fl, fl[k])) == if k > 0 then fl[0] else if |fl| > 1 then fl[1] else NULL
    ensures Without(fl, fl[k]) == [] <==> |fl| == 1
  {
    assert LinkAt(m, fl, k);
    WithoutAt(fl, k);
  }

  /** Taking a block off the list keeps the hint a bound on the others. */
  lemma BoundsAfterRemove(hint: int, blk: Tiles, fl: seq<int>, b: int)
    requires FreeBlocks(blk, fl) && b in fl && 0 <= hint <= SIZE_MAX && Bounds(hint, blk, fl)
    requires 4 * blk[b].words <= SIZE_MAX
    ensures FreeBlocks(blk, Without(fl, b)) && b !in Without(fl, b)
    ensures var hint' := HintAfterRemove(hint, Without(fl, b), 4 * blk[b].words);
            Bounds(hint', blk, Without(fl, b)) && (Without(fl, b) != [] ==> 4 * blk[b].words <= hint')
  {
    WithoutFree(blk, fl, b);
    var fl' := Without(fl, b);
    forall i {:trigger fl'[i]} | 0 <= i < |fl'| ensures 4 * blk[fl'[i]].words <= hint {
      assert fl'[i] in fl';
      assert fl'[i] in fl;
    }
  }

  /** After `coalasce` raised the hint to the new block's size if needed, it bounds the whole list. */
  lemma BoundsJoined(hint: int, blk: Tiles, rest: seq<int>, s: int, e: int)
    requires FreeBlocks(blk, rest) && Bounds(hint, blk, rest) && FreeBlocks(Joined(blk, s, e, false), [s] + rest)
    ensures Bounds(if 4 * (e - s) > hint then 4 * (e - s) else hint, Joined(blk, s, e, false), [s] + rest)
  {
    var fl' := [s] + rest;
    forall i {:trigger fl'[i]} | 0 <= i < |fl'|
      ensures 4 * Joined(blk, s, e, false)[fl'[i]].words <= if 4 * (e - s) > hint then 4 * (e - s) else hint
    {
      if i > 0 {
        assert fl'[i] == rest[i - 1];
        assert fl'[i] != fl'[0];
      }
    }
  }

  lemma BoundsAbsorbed(hint: int, blk: Tiles, fl: seq<int>, s: int, e: int)
    requires FreeBlocks(blk, fl) && Bounds(hint, blk, fl) && s < e
    requires forall i {:trigger fl[i]} :: 0 <= i < |fl| ==> !(s <= fl[i] < e)
    ensures FreeBlocks(Joined(blk, s, e, true), fl) && Bounds(hint, Joined(blk, s, e, true), fl)
  {
  }

  /** All that holds once the run `s..e`, of a block in use and the free block `x`, is one block in use. */
  lemma AbsorbedQuiescent(m: seq<Word>, end: int, hint: int, blk: Tiles, fl: seq<int>, x: int, s: int, e: int,
                          rest: seq<int>)
    requires Tidy(blk, end, fl) && Absorbs(blk, fl, x, s, e) && Drops(blk, fl, x, rest)
    requires Chained(m, Joined(blk, s, e, true), end, rest)
    requires 0 <= hint <= SIZE_MAX && Bounds(hint, blk, rest) && PadZero(m)
    ensures Quiescent(m, end, FIRST, end, Head(rest), hint, Joined(blk, s, e, true), rest)
  {
    RunOfTwo(blk, end, s);
    AbsorbedTidy(blk, end, fl, x, s, e, rest);
    UnlistedRun(blk, end, fl, x, s, e, rest);
    BoundsAbsorbed(hint, blk, rest, s, e);
    BesideRun(blk, end, s, e);
  }

  lemma SameWordsTrans(m: seq<Word>, m1: seq<Word>, m2: seq<Word>, lo: int, hi: int, hi1: int)
    requires -1 <= lo && hi <= hi1 <= |m| == |m1| == |m2| && SameWords(m, m1, lo, hi) && SameWords(m1, m2, lo, hi1)
    ensures SameWords(m, m2, lo, hi)
  {
    forall i {:trigger WordAt(m, i)} {:trigger WordAt(m2, i)} | lo < i < hi ensures WordAt(m2, i) == WordAt(m, i) {
      assert WordAt(m1, i) == WordAt(m, i);
    }
  }

  lemma KeptWords(m: seq<Word>, m': seq<Word>, blk: Tiles, b: int)
    requires Tagged(m, blk) && Tagged(m', blk) && KeepsLive(m, blk, m', blk, {}) && InUse(blk, b)
    ensures |m'| == |m| && SameWords(m, m', b, b + blk[b].words - 1)
  {
  }

  lemma PayloadGrows(m: seq<Word>, blk: Tiles, m': seq<Word>, blk': Tiles, b: int)
    requires Tagged(m, blk) && Tagged(m', blk') && b in blk && b in blk' && blk[b].words < blk'[b].words
    requires |m| == |m'| && SameWords(m, m', b, b + blk[b].words - 1)
    ensures Payload(m, blk, b) <= Payload(m', blk', b)
  {
    var c, c' := Payload(m, blk, b), Payload(m', blk', b);
    forall k | 0 <= k < |c| ensures c'[k] == c[k] {
      assert WordAt(m', b + 1 + k) == WordAt(m, b + 1 + k);
    }
  }

  lemma StoredPayload(m: seq<Word>, blk: Tiles, end: int, p: int, k: int, w: Word)
    requires Tiling(blk, end) && end <= |m| && Tagged(m, blk) && p in Live(m, blk) && 0 <= k < |Live(m, blk)[p]|
    ensures Tagged(m[p + k := w], blk) && p in Live(m[p + k := w], blk)
    ensures Live(m[p + k := w], blk)[p] == Live(m, blk)[p][k := w]
  {
    LiveAt(m, blk, p);
    WritePayload(m, blk, end, p - 1, m[p + k := w]);
    LiveAt(m[p + k := w], blk, p);
  }

  lemma SixteenBytes(words: int)
    requires words % 4 == 0
    ensures (4 * words) % 16 == 0
  {
  }

  lemma PayloadAligned(m: seq<Word>, blk: Tiles, p: int)
    requires Aligned(blk) && Tagged(m, blk) && p in Live(m, blk)
    ensures p % 4 == 0 && (4 * p) % ALIGNMENT == 0
  {
    hide Tagged, Payload;
    LiveAt(m, blk, p);
    assert AlignedAt(blk, p - 1);
    SixteenBytes(p);
  }

  /** Live payloads lie between the pad and the break and keep the distance of two tags from each other. */
  lemma PayloadsApart(m: seq<Word>, blk: Tiles, end: int, p: int, q: int)
    requires Tiling(blk, end) && Tagged(m, blk) && p in Live(m, blk) && q in Live(m, blk)
    ensures FIRST < p && p + |Live(m, blk)[p]| < end
    ensures p < q ==> p + |Live(m, blk)[p]| < q - 1
  {
    LiveAt(m, blk, p);
    LiveAt(m, blk, q);
    assert Apart(blk, p - 1, q - 1);
  }

  /** A live payload is 8 bytes short of a positive multiple of 16. */
  lemma PayloadSize(m: seq<Word>, blk: Tiles, end: int, p: int)
    requires Tiling(blk, end) && Aligned(blk) && Tagged(m, blk) && p in Live(m, blk)
    ensures (|Live(m, blk)[p]| + 2) % 4 == 0 && 2 <= |Live(m, blk)[p]|
  {
    LiveAt(m, blk, p);
    assert AlignedAt(blk, p - 1);
  }

  lemma NoFit(blk: Tiles, end: int, fl: seq<int>, words: int)
    requires Tidy(blk, end, fl)
    requires NoneFits(blk, fl, words, |fl|)
    ensures !HasFit(blk, words)
  {
  }

  /** `b` is a smallest free block of the heap that has `words` words. */
  ghost predicate SmallestFit(blk: Tiles, words: int, b: int) {
    && b in blk && !blk[b].used && words <= blk[b].words
    && forall c {:trigger c in blk} :: c in blk && !blk[c].used && words <= blk[c].words ==>
        blk[b].words <= blk[c].words
  }

  /** The best of the list is the best of the heap. */
  lemma BestOfAll(blk: Tiles, end: int, fl: seq<int>, words: int, j: int)
    requires Tidy(blk, end, fl) && BestFit(blk, fl, words, j)
    ensures SmallestFit(blk, words, fl[j]) && HasFit(blk, words)
  {
    forall c {:trigger c in blk} | c in blk && !blk[c].used && words <= blk[c].words
      ensures blk[fl[j]].words <= blk[c].words
    {
      assert c in fl;
    }
  }

  /** What `find_fit` makes of the tiling and the list when it hands out block `r`. */
  ghost predicate Handed(r: int, words: int, blk: Tiles, fl: seq<int>, blk': Tiles, fl': seq<int>)
    requires r in blk
  {
    if blk[r].words > words + 4 then
      blk' == Split(blk, r, words) && fl' == [r + words] + Without(fl, r)
    else
      blk' == blk && fl' == Without(fl, r)
  }

  lemma GrownQuiescent(m: seq<Word>, end: int, hs: int, he: int, fb: int, hint: int, blk: Tiles, fl: seq<int>,
                       words: int)
    requires Quiescent(m, end, hs, he, fb, hint, blk, fl)
    requires 4 <= words && words % 4 == 0 && end + words <= MAX_WORDS
    ensures end !in blk && FIRST <= end
    ensures var block := Block(words, true);
            var m', blk' := MakeTags(m, end, block), blk[end := block];
            Quiescent(m', end + words, FIRST, end + words, fb, hint, blk', fl) && KeepsLive(m, blk, m', blk', {end})
  {
    ExtendedTidy(blk, end, fl, words);
    ExtendChained(m, blk, end, fl, Block(words, true));
  }

  lemma HandedTidy(r: int, words: int, blk: Tiles, end: int, fl: seq<int>, blk': Tiles, fl': seq<int>)
    requires Tidy(blk, end, fl) && r in fl && 4 <= words <= blk[r].words && words % 4 == 0
    requires Handed(r, words, blk, fl, blk', fl')
    ensures r in blk' && words <= blk'[r].words
    ensures Tidy(blk'[r := Block(blk'[r].words, true)], end, fl')
  {
    WithoutFree(blk, fl, r);
    if blk[r].words > words + 4 {
      SplitTidy(blk, end, fl, r, words, Without(fl, r));
      assert blk'[r := Block(blk'[r].words, true)] == blk';
    } else {
      UsedTidy(blk, end, fl, r, Without(fl, r));
    }
  }

  /** Retagging the block that `find_fit` handed out completes the allocation. */
  lemma ClaimedQuiescent(m: seq<Word>, end: int, hs: int, he: int, hint: int, r: int, words: int,
                         blk0: Tiles, fl0: seq<int>, blk: Tiles, fl: seq<int>)
    requires Tidy(blk0, end, fl0) && r in fl0 && 4 <= words <= blk0[r].words && words % 4 == 0
    requires Handed(r, words, blk0, fl0, blk, fl)
    requires Chained(m, blk, end, fl) && r in blk && r !in fl && 0 <= hint <= SIZE_MAX && Bounds(hint, blk, fl)
    requires PadZero(m) && hs == FIRST < end && he == end
    ensures words <= blk[r].words
    ensures var block := Block(blk[r].words, true);
            var m', blk' := MakeTags(m, r, block), blk[r := block];
            Quiescent(m', end, hs, he, Head(fl), hint, blk', fl) && KeepsLive(m, blk, m', blk', {r})
  {
    HandedTidy(r, words, blk0, end, fl0, blk, fl);
    RetagChained(m, blk, end, fl, r, true);
  }

  ghost predicate FitsRight(blk: Tiles, b: int, size: int)
    requires b in blk
  {
    Next(blk, b) in blk && !blk[Next(blk, b)].used && size <= 4 * (blk[b].words + blk[Next(blk, b)].words) - 8
  }

  /** `mm_realloc` can serve the request without a new block: the block is large enough already, or is
      together with the free block on its right, or with the one on its left. */
  ghost predicate FitsInPlace(blk: Tiles, b: int, size: int)
    requires b in blk
  {
    || size <= 4 * blk[b].words - 8
    || FitsRight(blk, b, size)
    || (exists p :: p in blk && !blk[p].used && p + blk[p].words == b && size <= 4 * (blk[p].words + blk[b].words) - 8)
  }

  /** A block can take in the one on its right exactly when enough words right of it are unused. */
  lemma FitsRightExact(blk: Tiles, end: int, b: int, e: int, size: int)
    requires Tiling(blk, end) && Coalesced(blk) && b in blk && e == Next(blk, b)
    ensures FitsRight(blk, b, size) <==> exists hi :: Unused(blk, end, e, hi) && size <= 4 * (hi - b) - 8
  {
    if FitsRight(blk, b, size) {
      FreeUnused(blk, end, e);
    }
    if hi :| Unused(blk, end, e, hi) && size <= 4 * (hi - b) - 8 {
      var f := Stretch(blk, end, e, hi);
      assert HasNext(blk, end, b) && Apart(blk, f, e);
    }
  }

  /** `mm_realloc` gets by without a new block exactly when the block is large enough, or there are enough unused words
      on its right alone or on its left alone. */
  lemma FitsInPlaceExact(blk: Tiles, end: int, b: int, e: int, size: int)
    requires Tiling(blk, end) && Coalesced(blk) && b in blk && e == Next(blk, b)
    ensures FitsInPlace(blk, b, size) <==>
            || size <= 4 * (e - b) - 8
            || (exists hi :: Unused(blk, end, e, hi) && size <= 4 * (hi - b) - 8)
            || (exists lo :: Unused(blk, end, lo, b) && size <= 4 * (e - lo) - 8)
  {
    FitsRightExact(blk, end, b, e, size);
    if p :| p in blk && !blk[p].used && p + blk[p].words == b && size <= 4 * (blk[p].words + blk[b].words) - 8 {
      FreeUnused(blk, end, p);
      assert Unused(blk, end, p, b);
    }
    if lo :| Unused(blk, end, lo, b) && size <= 4 * (e - lo) - 8 {
      var f := Stretch(blk, end, lo, b);
      assert Apart(blk, f, b);
      assert f in blk && !blk[f].used && f + blk[f].words == b;
    }
  }

  lemma FitsInPlaceCases(blk: Tiles, end: int, b: int, size: int, prev: int, prevFree: bool)
    requires Tiling(blk, end) && b in blk
    requires prevFree ==> prev in blk && !blk[prev].used && Next(blk, prev) == b
    requires !prevFree ==> forall p {:trigger p in blk} :: p in blk && p + blk[p].words == b ==> blk[p].used
    requires size > 4 * blk[b].words - 8
    requires !FitsRight(blk, b, size)
    ensures FitsInPlace(blk, b, size) <==> prevFree && size <= 4 * (blk[prev].words + blk[b].words) - 8
  {
    if prevFree {
      Beside(blk, end, prev);
      assert prev in blk && !blk[prev].used && prev + blk[prev].words == b;
    }
  }

  class Heap {
    /** The mapped region. */
    const mem: array<Word>
    /** `mem_brk`, in words from the start of the heap. */
    var memBrk: int
    var heapStart: int
    var heapEnd: int
    var freeBlocks: int
    /** `maybe_max_fb`: an upper bound on the sizes of free blocks that saves fruitless searches. */
    var maybeMaxFb: int

    /** The tiling that the boundary tags spell out. */
    ghost var blk: Tiles
    /** The free list, in list order. */
    ghost var fl: seq<int>

    ghost predicate Valid()
      reads this, mem
    {
      Quiescent(mem[..], memBrk, heapStart, heapEnd, freeBlocks, maybeMaxFb, blk, fl)
    }

    ghost predicate ChainedHere()
      reads this, mem
    {
      Chained(mem[..], blk, memBrk, fl)
    }

    /** The user's view of the heap: the contents of every live payload, by address. */
    ghost function Payloads(): map<int, seq<Word>>
      requires Valid()
      reads this, mem
    {
      Live(mem[..], blk)
    }

    /** What a method may rely on when there is a block `b`. */
    lemma Opened(b: int)
      requires Valid() && b in blk
      ensures ChainedHere() && Tidy(blk, memBrk, fl) && freeBlocks == Head(fl) && (!blk[b].used ==> b in fl)
      ensures 0 <= maybeMaxFb <= SIZE_MAX && Bounds(maybeMaxFb, blk, fl) && PadZero(mem[..])
      ensures heapStart == FIRST < memBrk && heapEnd == memBrk && FIRST <= b && 4 <= blk[b].words
              && Next(blk, b) <= memBrk <= MAX_WORDS
    {
    }

    /** The break is never the end of the mapping, so a read one or two words past the last block stays inside. */
    lemma InMapping()
      requires Valid()
      ensures memBrk < MAX_WORDS == mem.Length
    {
      AlignedEnd(blk, memBrk);
    }

    lemma TagHere(b: int)
      requires ChainedHere() && b in blk
      ensures 0 <= b < mem.Length && BtSize(mem[b]) == 4 * blk[b].words && BtUsed(mem[b]) == blk[b].used
    {
      TagFields(blk[b]);
    }

    /** What the walk over the list finds at its element `n`. */
    lemma ListHere(n: int)
      requires ChainedHere() && 0 <= n < |fl|
      ensures FreeBlocks(blk, fl) && FIRST <= fl[n] && fl[n] + 2 < mem.Length
              && BtSize(mem[fl[n]]) == 4 * blk[fl[n]].words
      ensures mem[fl[n] + 2] == Offset(fl, n + 1) && (n + 1 < |fl| ==> FIRST <= fl[n + 1])
    {
      TagFields(blk[fl[n]]);
      assert LinkAt(mem[..], fl, n);
    }

    lemma NullIsNoPayload()
      requires Valid()
      ensures NULL !in Payloads()
    {
      LiveAt(mem[..], blk, NULL);
    }

    lemma PayloadBlock(p: int)
      requires Valid() && p in Payloads()
      ensures p != NULL && InUse(blk, p - 1) && blk[p - 1].words == |Payloads()[p]| + 2
      ensures (|Payloads()[p]| + 2) % 4 == 0 && 2 <= |Payloads()[p]|
    {
      LiveAt(mem[..], blk, p);
      PayloadSize(mem[..], blk, memBrk, p);
    }

    /** `bt_make` */
    method BtMake(bt: int, size: int, used: bool, ghost words: int)
      requires mem.Length == MAX_WORDS
      requires 0 <= bt && 4 <= words && size == 4 * words && bt + words <= MAX_WORDS
      modifies mem
      ensures mem[..] == MakeTags(old(mem[..]), bt, Block(words, used))
    {
      var tag := size + if used then 1 else 0;
      TagFields(Block(words, used));
      mem[bt] := tag;
      var footer := bt + BtSize(mem[bt]) / 4 - 1;
      mem[footer] := tag;
    }

    method SetNextFb(bt: int, offset: int)
      requires 0 <= bt && bt + 2 < mem.Length && -1 <= offset <= MAX_WORDS
      modifies mem
      ensures mem[..] == old(mem[..])[bt + 2 := offset]
    {
      mem[bt + 2] := offset;
    }

    method SetPrevFb(bt: int, offset: int)
      requires 0 <= bt && bt + 1 < mem.Length && -1 <= offset <= MAX_WORDS
      modifies mem
      ensures mem[..] == old(mem[..])[bt + 1 := offset]
    {
      mem[bt + 1] := offset;
    }

    /** `next_fb` */
    method NextFb(bt: int) returns (r: int)
      requires 0 <= bt && bt + 2 < mem.Length
      ensures r == if mem[bt + 2] == -1 then NULL else heapStart + mem[bt + 2]
    {
      var offset := mem[bt + 2];
      if offset == -1 {
        return NULL;
      }
      return heapStart + offset;
    }

    /** `prev_fb` */
    method PrevFb(bt: int) returns (r: int)
      requires 0 <= bt && bt + 1 < mem.Length
      ensures r == if mem[bt + 1] == -1 then NULL else heapStart + mem[bt + 1]
    {
      var offset := mem[bt + 1];
      if offset == -1 {
        return NULL;
      }
      return heapStart + offset;
    }

    /** `add_new_fb`: the block goes to the head of the list. */
    method AddNewFb(bt: int)
      requires ChainedHere() && heapStart == FIRST && freeBlocks == Head(fl)
      requires bt in blk && !blk[bt].used && bt !in fl
      modifies mem, this`freeBlocks, this`maybeMaxFb, this`fl
      ensures ChainedHere() && fl == [bt] + old(fl) && freeBlocks == bt
      ensures KeepsLive(old(mem[..]), blk, mem[..], blk, {})
      ensures old(PadZero(mem[..])) ==> PadZero(mem[..])
      ensures maybeMaxFb == if old(fl) == [] then 4 * blk[bt].words else old(maybeMaxFb)
    {
      ghost var m0 := mem[..];
      if freeBlocks == NULL {
        SetNextFb(bt, -1);
        SetPrevFb(bt, -1);
        TagFields(blk[bt]);
        maybeMaxFb := BtSize(mem[bt]);
        freeBlocks := bt;
      } else {
        SetPrevFb(bt, -1);
        SetNextFb(bt, freeBlocks - heapStart);
        SetPrevFb(freeBlocks, bt - heapStart);
        freeBlocks := bt;
      }
      assert mem[..] == Pushed(m0, fl, bt);
      Push(m0, blk, memBrk, fl, bt);
      fl := [bt] + fl;
    }

    /** The list surgery of `remove_fb`, where `bt` is element `k` of the list. */
    method UnlinkFb(bt: int, ghost k: int)
      requires mem.Length == MAX_WORDS && heapStart == FIRST && 0 <= k < |fl| && fl[k] == bt
      requires forall i :: 0 <= i < |fl| ==> FIRST <= fl[i] <= MAX_WORDS - 4
      requires mem[bt + 1] == Offset(fl, k - 1) && mem[bt + 2] == Offset(fl, k + 1)
      modifies mem, this`freeBlocks, this`maybeMaxFb
      ensures mem[..] == Unlinked(old(mem[..]), fl, k)
      ensures freeBlocks == if k > 0 then old(freeBlocks) else if |fl| > 1 then fl[1] else NULL
      ensures maybeMaxFb == if |fl| == 1 then 0 else old(maybeMaxFb)
    {
      var prev := PrevFb(bt);
      var next := NextFb(bt);
      if prev == NULL && next == NULL {
        freeBlocks := NULL;
        maybeMaxFb := 0;
      } else if prev == NULL {
        freeBlocks := next;
        SetPrevFb(next, -1);
      } else if next == NULL {
        SetNextFb(prev, -1);
      } else {
        SetNextFb(prev, next - heapStart);
        SetPrevFb(next, prev - heapStart);
      }
    }

    /** `remove_fb`: unlinks the block; its tags still say it is free. */
    method RemoveFb(bt: int)
      requires ChainedHere() && heapStart == FIRST && freeBlocks == Head(fl) && bt in fl
      modifies mem, this`freeBlocks, this`maybeMaxFb, this`fl
      ensures ChainedHere() && fl == Without(old(fl), bt) && freeBlocks == Head(fl)
      ensures KeepsLive(old(mem[..]), blk, mem[..], blk, {})
      ensures maybeMaxFb == HintAfterRemove(old(maybeMaxFb), fl, 4 * blk[bt].words)
      ensures old(PadZero(mem[..])) ==> PadZero(mem[..])
    {
      hide KeepsLive, Tagged, Tiling, Linked;
      ghost var k :| 0 <= k < |fl| && fl[k] == bt;
      ListHere(k);
      ghost var m0 := mem[..];
      Neighbours(m0, blk, memBrk, fl, k);
      UnlinkFb(bt, k);
      Unlink(m0, blk, memBrk, fl, k);
      fl := Without(fl, bt);
      TagHere(bt);
      if maybeMaxFb == BtSize(mem[bt]) {
        maybeMaxFb := SIZE_MAX;
      }
    }

    /** The search loop of `find_fit`. */
    method SearchFit(reqsz: int, ghost words: int) returns (bestfit: int, bestsize: int, ghost j: int)
      requires ChainedHere() && heapStart == FIRST && freeBlocks == Head(fl) && fl != []
      requires reqsz == 4 * words && 4 <= words
      ensures bestfit == NULL ==> NoneFits(blk, fl, words, |fl|)
      ensures bestfit != NULL ==> BestFit(blk, fl, words, j) && bestfit == fl[j] && bestsize == 4 * blk[bestfit].words
    {
      hide Tagged, Tiling, Linked, BestBelow;
      ListHere(0);
      var fb := freeBlocks;
      var size := BtSize(mem[fb]);
      bestfit, bestsize, j := NULL, 0, 0;
      ghost var n := 0;
      while fb != NULL
        invariant 0 <= n <= |fl| && fb == if n < |fl| then fl[n] else NULL
        invariant (fb == NULL <==> n == |fl|) && (n < |fl| ==> size == 4 * blk[fl[n]].words)
        invariant bestfit == NULL ==> bestsize == 0
        invariant bestfit == NULL ==> NoneFits(blk, fl, words, n)
        invariant bestfit != NULL ==> 0 <= j < n && BestBelow(blk, fl, words, n, j) && bestfit == fl[j]
        invariant bestfit != NULL ==> bestsize == 4 * blk[fl[j]].words && words < blk[fl[j]].words
        decreases |fl| - n
      {
        ListHere(n);
        SearchStep(blk, fl, words, n, bestfit != NULL, j);
        if reqsz < size {
          if bestsize != 0 {
            if size < bestsize {
              bestfit, bestsize, j := fb, size, n;
            }
          } else {
            bestfit, bestsize, j := fb, size, n;
          }
        }
        if reqsz == size {
          bestfit, bestsize, j := fb, size, n;
          break;
        }
        fb := NextFb(fb);
        n := n + 1;
        if fb != NULL {
          ListHere(n);
          size := BtSize(mem[fb]);
        }
      }
    }

    /** `find_fit`: best fit, split when more than 16 bytes would be left over. */
    method FindFit(reqsz: int, ghost words: int) returns (r: int, ghost j: int)
      requires Valid() && heapStart == FIRST && fl != []
      requires reqsz == 4 * words && 4 <= words && words % 4 == 0
      modifies mem, this`freeBlocks, this`maybeMaxFb, this`fl, this`blk
      ensures r == NULL ==> !HasFit(old(blk), words)
      ensures r == NULL ==> mem[..] == old(mem[..]) && blk == old(blk) && fl == old(fl)
                            && freeBlocks == old(freeBlocks) && maybeMaxFb == old(maybeMaxFb)
      ensures r != NULL ==> BestFit(old(blk), old(fl), words, j) && r == old(fl)[j]
      ensures r != NULL ==> Handed(r, words, old(blk), old(fl), blk, fl)
      ensures r != NULL ==> ChainedHere() && freeBlocks == Head(fl) && r in blk && r !in fl
      ensures r != NULL ==> KeepsLive(old(mem[..]), old(blk), mem[..], blk, {r})
      ensures 0 <= maybeMaxFb <= SIZE_MAX && Bounds(maybeMaxFb, blk, fl)
      ensures old(PadZero(mem[..])) ==> PadZero(mem[..])
    {
      if maybeMaxFb < reqsz {
        NoFit(blk, memBrk, fl, words);
        return NULL, 0;
      }
      var bestfit, bestsize;
      bestfit, bestsize, j := SearchFit(reqsz, words);
      if bestfit == NULL {
        NoFit(blk, memBrk, fl, words);
        return NULL, j;
      }
      if words + 4 < blk[bestfit].words {
        SplitTiling(blk, memBrk, bestfit, words);
      }
      TakeFit(bestfit, bestsize, reqsz, words);
      return bestfit, j;
    }

    /** The two `bt_make` calls of `find_fit`. */
    method CutBlock(bt: int, reqsz: int, sizeDiff: int, ghost words: int)
      requires ChainedHere() && bt in blk && bt !in fl
      requires 4 <= words <= blk[bt].words - 4 && reqsz == 4 * words && sizeDiff == 4 * (blk[bt].words - words)
      modifies mem, this`blk
      ensures ChainedHere() && blk == Split(old(blk), bt, words)
      ensures KeepsLive(old(mem[..]), old(blk), mem[..], blk, {bt})
      ensures old(PadZero(mem[..])) ==> PadZero(mem[..])
    {
      ghost var m0 := mem[..];
      var newFb := bt + reqsz / 4;
      BtMake(bt, reqsz, true, words);
      BtMake(newFb, sizeDiff, false, blk[bt].words - words);
      SplitChained(m0, blk, memBrk, fl, bt, words, mem[..]);
      blk := Split(blk, bt, words);
    }

    /** `find_fit` splitting `bt`, which is off the list already. */
    method SplitFit(bt: int, reqsz: int, sizeDiff: int, ghost words: int)
      requires ChainedHere() && heapStart == FIRST && freeBlocks == Head(fl) && bt in blk && bt !in fl
      requires 4 <= words <= blk[bt].words - 4 && reqsz == 4 * words && sizeDiff == 4 * (blk[bt].words - words)
      requires bt + words !in fl
      modifies mem, this`freeBlocks, this`maybeMaxFb, this`fl, this`blk
      ensures ChainedHere() && blk == Split(old(blk), bt, words) && fl == [bt + words] + old(fl)
      ensures freeBlocks == Head(fl) && KeepsLive(old(mem[..]), old(blk), mem[..], blk, {bt})
      ensures maybeMaxFb == if old(fl) == [] then sizeDiff else old(maybeMaxFb)
      ensures old(PadZero(mem[..])) ==> PadZero(mem[..])
    {
      hide Tagged, Tiling, KeepsLive, Linked, PadZero;
      CutBlock(bt, reqsz, sizeDiff, words);
      ghost var m1 := mem[..];
      AddNewFb(bt + reqsz / 4);
      KeepsLiveTrans(old(mem[..]), old(blk), m1, blk, mem[..], blk, {bt}, {}, {bt});
    }

    /** The end of `find_fit`, once the block to hand out is known. */
    method TakeFit(bestfit: int, bestsize: int, reqsz: int, ghost words: int)
      requires ChainedHere() && heapStart == FIRST && freeBlocks == Head(fl) && bestfit in fl
      requires 0 <= maybeMaxFb <= SIZE_MAX && Bounds(maybeMaxFb, blk, fl)
      requires bestsize == 4 * blk[bestfit].words && reqsz == 4 * words && 4 <= words <= blk[bestfit].words
      requires words + 4 < blk[bestfit].words ==> bestfit + words !in blk
      modifies mem, this`freeBlocks, this`maybeMaxFb, this`fl, this`blk
      ensures Handed(bestfit, words, old(blk), old(fl), blk, fl)
      ensures ChainedHere() && freeBlocks == Head(fl) && bestfit in blk && bestfit !in fl
      ensures KeepsLive(old(mem[..]), old(blk), mem[..], blk, {bestfit})
      ensures 0 <= maybeMaxFb <= SIZE_MAX && Bounds(maybeMaxFb, blk, fl)
      ensures old(PadZero(mem[..])) ==> PadZero(mem[..])
    {
      BoundsAfterRemove(maybeMaxFb, blk, fl, bestfit);
      RemoveFb(bestfit);
      var sizeDiff := bestsize - reqsz;
      if sizeDiff > 16 {
        ghost var m1 := mem[..];
        SplitFit(bestfit, reqsz, sizeDiff, words);
        KeepsLiveTrans(old(mem[..]), old(blk), m1, old(blk), mem[..], blk, {}, {bestfit}, {bestfit});
      }
    }

    /** `morecore` on `mem_sbrk`, which fails when the region is too small. */
    method Morecore(size: int, ghost words: int) returns (p: int)
      requires size == 4 * words && 0 <= words
      modifies this`memBrk
      ensures if old(memBrk) + words > MAX_WORDS then p == NULL && memBrk == old(memBrk)
              else p == old(memBrk) && memBrk == p + words
    {
      if memBrk + size / 4 > MAX_WORDS {
        return NULL;
      }
      p := memBrk;
      memBrk := memBrk + size / 4;
    }

    /** The request can be met: by a free block, or by the rest of the region. */
    ghost predicate CanServe(size: int)
      reads this
    {
      HasFit(blk, NormalizeSize(size) / 4) || memBrk + NormalizeSize(size) / 4 <= MAX_WORDS
    }

    /** No live payload, with its two tags, reaches into the words from `lo` to `hi`. */
    ghost predicate Vacant(lo: int, hi: int)
      requires Valid()
      reads this, mem
    {
      FIRST <= lo < hi <= memBrk &&
      forall p {:trigger p in Payloads()} :: p in Payloads() ==> p + |Payloads()[p]| + 1 <= lo || hi <= p - 1
    }

    lemma VacantUnused(lo: int, hi: int)
      requires Valid()
      ensures Vacant(lo, hi) <==> Unused(blk, memBrk, lo, hi)
    {
      if Vacant(lo, hi) {
        forall b {:trigger b in blk} | b in blk && blk[b].used
          ensures Next(blk, b) <= lo || hi <= b
        {
          LiveAt(mem[..], blk, b + 1);
          assert b + 1 in Payloads();
        }
      }
      if Unused(blk, memBrk, lo, hi) {
        forall p {:trigger p in Payloads()} | p in Payloads()
          ensures p + |Payloads()[p]| + 1 <= lo || hi <= p - 1
        {
          LiveAt(mem[..], blk, p);
          assert p - 1 in blk;
        }
      }
    }

    lemma HasFitExact(words: int)
      requires Valid() && words > 0
      ensures HasFit(blk, words) <==> exists lo, hi :: Vacant(lo, hi) && words <= hi - lo
    {
      hide Live;
      FitExact(blk, memBrk, words);
      forall lo, hi {:trigger Vacant(lo, hi)} {:trigger Unused(blk, memBrk, lo, hi)}
        ensures Vacant(lo, hi) <==> Unused(blk, memBrk, lo, hi)
      {
        VacantUnused(lo, hi);
      }
    }

    /** A request can be met exactly when the region has room for it, or as many words in a row are vacant anywhere
        below the break: no memory is lost. */
    lemma CanServeExact(size: int)
      requires Valid() && 0 < size <= 0xFFFF_FFFF_FFFF_FFE8
      ensures CanServe(size) <==>
              || memBrk + NormalizeSize(size) / 4 <= 26214400
              || exists lo, hi :: Vacant(lo, hi) && NormalizeSize(size) / 4 <= hi - lo
    {
      hide NormalizeSize, Valid;
      var words := NormalizedWords(size);
      HasFitExact(words);
    }

    /** `mm_malloc` growing the heap.  When there is no more memory the source goes on to write the tags of a block
        at NULL, and the model stops. */
    method Grow(size: int, ghost words: int) returns (newBlock: int)
      requires Valid() && size == 4 * words && 4 <= words && words % 4 == 0
      modifies mem, this`memBrk, this`heapStart, this`heapEnd, this`blk
      ensures Valid() && (newBlock == NULL <==> old(memBrk) + words > MAX_WORDS)
      ensures newBlock == NULL ==> mem[..] == old(mem[..]) && blk == old(blk) && memBrk == old(memBrk)
      ensures newBlock != NULL ==> newBlock == old(memBrk) && memBrk == newBlock + words
      ensures newBlock != NULL ==> newBlock !in old(blk) && blk == old(blk)[newBlock := Block(words, true)]
      ensures newBlock != NULL ==> KeepsLive(old(mem[..]), old(blk), mem[..], blk, {newBlock})
    {
      hide KeepsLive, Coalesced, Aligned, FreeBlocks, ListsAll, Linked, Bounds, Drops;
      ghost var m0, hs, he := mem[..], heapStart, heapEnd;
      newBlock := Morecore(size, words);
      if newBlock == NULL {
        return;
      }
      heapEnd := newBlock + size / 4;
      if heapStart == NULL {
        heapStart := newBlock;
      }
      BtMake(newBlock, size, true, words);
      assert heapStart == FIRST && heapEnd == memBrk == newBlock + words;
      GrownQuiescent(m0, newBlock, hs, he, freeBlocks, maybeMaxFb, blk, fl, words);
      blk := blk[newBlock := Block(words, true)];
    }

    /** `mm_malloc` on the block that `find_fit` chose. */
    method Claim(r: int, ghost words: int, ghost blk0: Tiles, ghost fl0: seq<int>)
      requires Tidy(blk0, memBrk, fl0) && r in fl0 && 4 <= words <= blk0[r].words && words % 4 == 0
      requires Handed(r, words, blk0, fl0, blk, fl)
      requires ChainedHere() && freeBlocks == Head(fl) && r in blk && r !in fl
      requires 0 <= maybeMaxFb <= SIZE_MAX && Bounds(maybeMaxFb, blk, fl)
      requires PadZero(mem[..]) && heapStart == FIRST < memBrk && heapEnd == memBrk
      modifies mem, this`blk
      ensures Valid() && r in old(blk) && words <= old(blk)[r].words
      ensures blk == old(blk)[r := Block(old(blk)[r].words, true)]
      ensures KeepsLive(old(mem[..]), old(blk), mem[..], blk, {r})
    {
      ghost var m0 := mem[..];
      TagFields(blk[r]);
      var size := BtSize(mem[r]);
      BtMake(r, size, true, blk[r].words);
      ClaimedQuiescent(m0, memBrk, heapStart, heapEnd, maybeMaxFb, r, words, blk0, fl0, blk, fl);
      blk := blk[r := Block(blk[r].words, true)];
    }

    /** `mm_malloc` from the free list. */
    method Reuse(size: int, ghost words: int) returns (newBlock: int)
      requires Valid() && heapStart == FIRST && fl != []
      requires size == 4 * words && 4 <= words && words % 4 == 0
      modifies mem, this`freeBlocks, this`maybeMaxFb, this`fl, this`blk
      ensures Valid()
      ensures newBlock == NULL <==> !HasFit(old(blk), words)
      ensures newBlock == NULL ==> mem[..] == old(mem[..]) && blk == old(blk) && fl == old(fl)
      ensures newBlock != NULL ==> SmallestFit(old(blk), words, newBlock)
      ensures newBlock != NULL ==> newBlock in blk && blk[newBlock].used && words <= blk[newBlock].words <= words + 4
      ensures newBlock != NULL ==> KeepsLive(old(mem[..]), old(blk), mem[..], blk, {newBlock})
    {
      ghost var j;
      newBlock, j := FindFit(size, words);
      if newBlock != NULL {
        BestOfAll(old(blk), memBrk, old(fl), words, j);
        ghost var m1, blk1 := mem[..], blk;
        Claim(newBlock, words, old(blk), old(fl));
        KeepsLiveTrans(old(mem[..]), old(blk), m1, blk1, mem[..], blk, {newBlock}, {newBlock}, {newBlock});
      }
    }

    /** `mm_malloc` on a rounded size, up to the block that is handed out: from the list or from more memory. */
    method Obtain(size: int, ghost words: int) returns (newBlock: int)
      requires Valid() && size == 4 * words && 4 <= words && words % 4 == 0
      modifies this, mem
      ensures Valid() && (newBlock == NULL <==> !old(HasFit(blk, words)) && old(memBrk) + words > MAX_WORDS)
      ensures newBlock == NULL ==> mem[..] == old(mem[..]) && blk == old(blk) && memBrk == old(memBrk)
      ensures newBlock != NULL ==> newBlock in blk && blk[newBlock].used && words <= blk[newBlock].words
      ensures newBlock != NULL && newBlock in old(blk) ==> !old(blk)[newBlock].used
      ensures newBlock != NULL ==> KeepsLive(old(mem[..]), old(blk), mem[..], blk, {newBlock})
      ensures newBlock != NULL && old(HasFit(blk, words)) ==>
              SmallestFit(old(blk), words, newBlock) && memBrk == old(memBrk)
      ensures newBlock != NULL && !old(HasFit(blk, words)) ==> newBlock == old(memBrk) && memBrk == newBlock + words
    {
      hide KeepsLive, Coalesced, Aligned, Linked, HasFit;
      if freeBlocks == NULL {
        NoFit(blk, memBrk, fl, words);
        newBlock := Grow(size, words);
      } else {
        newBlock := Reuse(size, words);
        if newBlock == NULL {
          newBlock := Grow(size, words);
        }
      }
    }

    /** `mm_malloc`.  The program survives unless the request needs more memory than there is. */
    method Malloc(size: int) returns (p: int, alive: bool)
      requires Valid() && 0 <= size <= SIZE_MAX - 23
      modifies this, mem
      ensures Valid() && (alive <==> size == 0 || old(CanServe(size)))
      ensures !alive || size == 0 ==>
              p == NULL && Payloads() == old(Payloads()) && memBrk == old(memBrk) && blk == old(blk)
      ensures alive && size > 0 ==>
                && p !in old(Payloads()) && p in Payloads()
                && Payloads() == old(Payloads())[p := Payloads()[p]]
                && size <= NormalizeSize(size) - 8 <= 4 * |Payloads()[p]|
      ensures alive && size > 0 ==>
                memBrk == old(memBrk) + if old(HasFit(blk, NormalizeSize(size) / 4)) then 0 else NormalizeSize(size) / 4
      ensures alive && size > 0 ==>
                if old(HasFit(blk, NormalizeSize(size) / 4)) then SmallestFit(old(blk), NormalizeSize(size) / 4, p - 1)
                else p == old(memBrk) + 1
    {
      hide KeepsLive, Coalesced, Aligned, Linked, SmallestFit, HasFit, Tiling, FreeBlocks, ListsAll, Bounds, PadZero;
      if size == 0 {
        return NULL, true;
      }
      var sz := NormalizeSize(size);
      ghost var words := NormalizedWords(size);
      var newBlock := Obtain(sz, words);
      if newBlock == NULL {
        return NULL, false;
      }
      LiveAdded(old(mem[..]), old(blk), mem[..], blk, newBlock);
      p, alive := newBlock + 1, true;
    }

    /** The first half of `coalasce`: what lies on either side of `bt`. */
    method LookAround(bt: int) returns (prev: int, prevFree: bool, next: int, nextFree: bool)
      requires Valid() && bt in blk
      ensures prevFree ==> prev in blk && !blk[prev].used && Next(blk, prev) == bt
      ensures !prevFree ==> forall p {:trigger p in blk} :: p in blk && p + blk[p].words == bt ==> blk[p].used
      ensures next == Next(blk, bt) && (nextFree <==> next in blk && !blk[next].used)
    {
      prev := NULL;
      if bt != heapStart {
        PrevFromFooter(mem[..], blk, memBrk, bt);
        var footer := bt - 1;
        prevFree := !BtUsed(mem[footer]);
        prev := bt - BtSize(mem[footer]) / 4;
        Beside(blk, memBrk, prev);
      } else {
        prevFree := false;
      }
      TagFields(blk[bt]);
      assert HasNext(blk, memBrk, bt);
      next := bt + BtSize(mem[bt]) / 4;
      if next < heapEnd {
        TagFields(blk[next]);
        nextFree := !BtUsed(mem[next]);
      } else {
        nextFree := false;
      }
    }

    /** `bt_make` over the run `bt..e`, none of whose blocks is on the list. */
    method JoinBlocks(bt: int, size: int, used: bool, ghost e: int, ghost but: set<int>)
      requires ChainedHere() && Run(blk, memBrk, bt, e) && size == 4 * (e - bt)
      requires forall i {:trigger fl[i]} :: 0 <= i < |fl| ==> !(bt <= fl[i] < e)
      requires bt in but && forall c {:trigger c in blk} :: c in blk && bt <= c < e && blk[c].used ==> c in but
      modifies mem, this`blk
      ensures ChainedHere() && blk == Joined(old(blk), bt, e, used)
      ensures |mem[..]| == |old(mem[..])| && 0 <= bt && e <= mem.Length && SameWords(old(mem[..]), mem[..], bt, e - 1)
      ensures KeepsLive(old(mem[..]), old(blk), mem[..], blk, but)
      ensures old(PadZero(mem[..])) ==> PadZero(mem[..])
    {
      hide KeepsLive, Linked, FreeBlocks, Tagged;
      ghost var m0 := mem[..];
      BesideRun(blk, memBrk, bt, e);
      BtMake(bt, size, used, e - bt);
      JoinChained(m0, blk, memBrk, fl, bt, e, used, but, mem[..]);
      blk := Joined(blk, bt, e, used);
    }

    /** The end of each branch of `coalasce`: the words `bt..e` become one free block. */
    method MakeFree(bt: int, size: int, ghost e: int, ghost but: set<int>)
      requires ChainedHere() && heapStart == FIRST && freeBlocks == Head(fl)
      requires Run(blk, memBrk, bt, e) && size == 4 * (e - bt)
      requires forall i {:trigger fl[i]} :: 0 <= i < |fl| ==> !(bt <= fl[i] < e)
      requires bt in but && forall c {:trigger c in blk} :: c in blk && bt <= c < e && blk[c].used ==> c in but
      modifies mem, this`freeBlocks, this`maybeMaxFb, this`fl, this`blk
      ensures ChainedHere() && blk == Joined(old(blk), bt, e, false) && fl == [bt] + old(fl) && freeBlocks == bt
      ensures KeepsLive(old(mem[..]), old(blk), mem[..], blk, but)
      ensures maybeMaxFb == if old(fl) == [] then size else old(maybeMaxFb)
      ensures old(PadZero(mem[..])) ==> PadZero(mem[..])
    {
      hide Tagged, Tiling, KeepsLive, Linked, PadZero;
      JoinBlocks(bt, size, false, e, but);
      ghost var m1 := mem[..];
      AddNewFb(bt);
      KeepsLiveTrans(old(mem[..]), old(blk), m1, blk, mem[..], blk, but, {}, but);
    }

    /** `remove_fb` with what it means for the hint and for membership of the list. */
    method Remove(b: int)
      requires ChainedHere() && heapStart == FIRST && freeBlocks == Head(fl) && b in fl
      requires 0 <= maybeMaxFb <= SIZE_MAX && Bounds(maybeMaxFb, blk, fl)
      modifies mem, this`freeBlocks, this`maybeMaxFb, this`fl
      ensures ChainedHere() && fl == Without(old(fl), b) && freeBlocks == Head(fl)
      ensures KeepsLive(old(mem[..]), blk, mem[..], blk, {})
      ensures 0 <= maybeMaxFb <= SIZE_MAX && Bounds(maybeMaxFb, blk, fl)
      ensures Drops(blk, old(fl), b, fl)
      ensures old(PadZero(mem[..])) ==> PadZero(mem[..])
    {
      BoundsAfterRemove(maybeMaxFb, blk, fl, b);
      WithoutFree(blk, fl, b);
      RemoveFb(b);
    }

    /** The common tail of `coalasce`: `r..e` becomes a listed free block and the hint is raised to its
        size.  `fl0` is the list from before its blocks were taken off. */
    method Finish(r: int, size: int, ghost bt: int, ghost e: int, ghost fl0: seq<int>)
      requires ChainedHere() && heapStart == FIRST < memBrk && heapEnd == memBrk && freeBlocks == Head(fl)
      requires 0 <= maybeMaxFb <= SIZE_MAX && Bounds(maybeMaxFb, blk, fl) && PadZero(mem[..])
      requires Tidy(blk, memBrk, fl0) && FreeSpan(blk, bt, r, e) && InUse(blk, bt)
      requires forall c {:trigger c in fl} {:trigger c in fl0} :: c in fl <==> c in fl0 && !(r <= c < e)
      requires size == 4 * (e - r)
      modifies mem, this`freeBlocks, this`maybeMaxFb, this`fl, this`blk
      ensures Valid() && blk == Joined(old(blk), r, e, false) && fl == [r] + old(fl)
      ensures KeepsLive(old(mem[..]), old(blk), mem[..], blk, {r, bt})
    {
      hide Tagged, KeepsLive, Coalesced, ListsAll, PadZero;
      ghost var blk0, rest, hint := blk, fl, maybeMaxFb;
      SpanRun(blk0, memBrk, bt, r, e);
      assert e <= MAX_WORDS by { BesideRun(blk0, memBrk, r, e); }
      forall i {:trigger rest[i]} | 0 <= i < |rest| ensures !(r <= rest[i] < e) {
        assert rest[i] in rest;
      }
      MakeFree(r, size, e, {r, bt});
      if size > maybeMaxFb {
        maybeMaxFb := size;
      }
      FreedTidy(blk0, memBrk, fl0, bt, r, e, rest);
      BoundsJoined(if rest == [] then 0 else hint, blk0, rest, r, e);
    }

    /** The four branches of `coalasce`, up to retagging: free neighbours leave the list and the new
        block's start and size are computed. */
    method Detach(bt: int, prev: int, prevFree: bool, next: int, nextFree: bool)
      returns (r: int, size: int, ghost e: int)
      requires ChainedHere() && heapStart == FIRST && freeBlocks == Head(fl)
      requires 0 <= maybeMaxFb <= SIZE_MAX && Bounds(maybeMaxFb, blk, fl)
      requires InUse(blk, bt) && next == Next(blk, bt)
      requires prevFree ==> prev in fl && Next(blk, prev) == bt
      requires nextFree ==> next in fl
      modifies mem, this`freeBlocks, this`maybeMaxFb, this`fl
      ensures ChainedHere() && freeBlocks == Head(fl)
      ensures 0 <= maybeMaxFb <= SIZE_MAX && Bounds(maybeMaxFb, blk, fl)
      ensures r == (if prevFree then prev else bt) && e == (if nextFree then Next(blk, next) else next)
      ensures size == 4 * (e - r)
      ensures forall c {:trigger c in fl} {:trigger c in old(fl)} ::
                c in fl <==> c in old(fl) && !(prevFree && c == prev) && !(nextFree && c == next)
      ensures KeepsLive(old(mem[..]), blk, mem[..], blk, {})
      ensures old(PadZero(mem[..])) ==> PadZero(mem[..])
    {
      r, e := bt, next;
      TagFields(blk[bt]);
      if nextFree && prevFree {
        Remove(prev);
        ghost var m1 := mem[..];
        Remove(next);
        KeepsLiveTrans(old(mem[..]), blk, m1, blk, mem[..], blk, {}, {}, {});
        TagFields(blk[prev]);
        TagFields(blk[next]);
        size := BtSize(mem[prev]) + BtSize(mem[bt]) + BtSize(mem[next]);
        r, e := prev, Next(blk, next);
      } else if prevFree && !nextFree {
        Remove(prev);
        TagFields(blk[prev]);
        size := BtSize(mem[prev]) + BtSize(mem[bt]);
        r := prev;
      } else if !prevFree && nextFree {
        Remove(next);
        TagFields(blk[next]);
        size := BtSize(mem[bt]) + BtSize(mem[next]);
        e := Next(blk, next);
      } else {
        size := BtSize(mem[bt]);
      }
    }

    /** `coalasce`: frees the block `bt`, together with its free neighbours, as one block. */
    method Coalesce(bt: int) returns (r: int)
      requires Valid() && InUse(blk, bt)
      modifies mem, this`freeBlocks, this`maybeMaxFb, this`fl, this`blk
      ensures Valid()
      ensures r in blk && FreeSpan(old(blk), bt, r, Next(blk, r)) && blk == Joined(old(blk), r, Next(blk, r), false)
      ensures fl != [] && fl[0] == r
      ensures KeepsLive(old(mem[..]), old(blk), mem[..], blk, {r, bt})
    {
      hide Quiescent, KeepsLive, Linked, Bounds, Coalesced, Aligned, PadZero, Tagged, Tiling;
      Opened(bt);
      var prev, prevFree, next, nextFree := LookAround(bt);
      if prevFree {
        Opened(prev);
      }
      if nextFree {
        Opened(next);
      }
      var size;
      ghost var e;
      r, size, e := Detach(bt, prev, prevFree, next, nextFree);
      ghost var m1 := mem[..];
      SpanRun(blk, memBrk, bt, r, e);
      Finish(r, size, bt, e, old(fl));
      Opened(r);
      KeepsLiveTrans(old(mem[..]), old(blk), m1, old(blk), mem[..], blk, {}, {r, bt}, {r, bt});
    }

    /** `mm_free` */
    method Free(p: int)
      requires Valid() && (p == NULL || p in Payloads())
      modifies mem, this`freeBlocks, this`maybeMaxFb, this`fl, this`blk
      ensures Valid() && Payloads() == old(Payloads()) - {p}
    {
      hide Quiescent, Tagged, KeepsLive, Linked, FreeBlocks, Bounds, Coalesced, Aligned, PadZero;
      NullIsNoPayload();
      if p != NULL {
        PayloadBlock(p);
        var bt := p - 1;
        Opened(bt);
        var r := Coalesce(bt);
        Opened(r);
        SpanRun(old(blk), memBrk, bt, r, Next(blk, r));
        LiveRemoved(old(mem[..]), old(blk), mem[..], blk, {r, bt}, bt);
      }
    }

    /** `memcpy`, copying upwards one word at a time. */
    method MemCopy(dst: int, src: int, n: int)
      requires 0 <= n && 0 <= dst && dst + n <= mem.Length && 0 <= src && src + n <= mem.Length
      requires dst <= src || src + n <= dst
      modifies mem
      ensures CopiedWords(old(mem[..]), src, mem[..], dst, n)
      ensures forall j :: 0 <= j < mem.Length && !(dst <= j < dst + n) ==> mem[j] == old(mem[j])
    {
      var i := 0;
      while i < n
        invariant 0 <= i <= n
        invariant forall j {:trigger mem[j]} :: 0 <= j < mem.Length ==>
                  mem[j] == if dst <= j < dst + i then old(mem[j - dst + src]) else old(mem[j])
      {
        mem[dst + i] := mem[src + i];
        i := i + 1;
      }
    }

    /** `mm_realloc` taking over the free block to the right of `bt`. */
    method AbsorbNext(bt: int, next: int, size: int)
      requires Valid() && InUse(blk, bt) && next == Next(blk, bt) && next in blk && !blk[next].used
      requires size == 4 * (blk[bt].words + blk[next].words)
      modifies mem, this`freeBlocks, this`maybeMaxFb, this`fl, this`blk
      ensures Valid() && blk == Joined(old(blk), bt, old(Next(blk, next)), true)
      ensures KeepsLive(old(mem[..]), old(blk), mem[..], blk, {bt})
      ensures SameWords(old(mem[..]), mem[..], bt, old(Next(blk, bt)) - 1)
    {
      hide Quiescent, Tidy, Tagged, Tiling, KeepsLive, FreeBlocks, Linked, Bounds, Drops, SameWords, PadZero;
      ghost var m0, blk0, fl0, e := mem[..], blk, fl, Next(blk, next);
      Opened(next);
      RunOfTwo(blk, memBrk, bt);
      Remove(next);
      UnlistedRun(blk, memBrk, fl0, next, bt, e, fl);
      ghost var m1 := mem[..];
      KeptWords(m0, m1, blk, bt);
      JoinBlocks(bt, size, true, e, {bt});
      SameWordsTrans(m0, m1, mem[..], bt, next - 1, e - 1);
      KeepsLiveTrans(m0, blk0, m1, blk0, mem[..], blk, {}, {bt}, {bt});
      AbsorbedQuiescent(mem[..], memBrk, maybeMaxFb, blk0, fl0, next, bt, e, fl);
    }

    /** `memcpy` down from the payload of block `bt` to that of block `prev` below it, and `bt_make` over
        both.  The copy takes two words more than the payload, which hold nothing of the user's. */
    method CopyDown(prev: int, bt: int, sizeBt: int, size: int, ghost words: int, ghost total: int)
      requires mem.Length == MAX_WORDS && 0 <= prev && prev + 4 <= bt && bt + words == prev + total < MAX_WORDS
      requires 4 <= words && sizeBt == 4 * words && size == 4 * total
      modifies mem
      ensures mem[prev] == mem[prev + total - 1] == Tag(Block(total, true))
      ensures forall i :: 0 <= i < mem.Length && !(prev <= i < prev + total) ==> mem[i] == old(mem[i])
      ensures CopiedWords(old(mem[..]), bt + 1, mem[..], prev + 1, words - 2)
    {
      ghost var m0 := mem[..];
      MemCopy(prev + 1, bt + 1, sizeBt / 4);
      ghost var m1 := mem[..];
      CopiedFewer(m0, bt + 1, m1, prev + 1, words, words - 2);
      BtMake(prev, size, true, total);
      CopiedThenTagged(m0, bt + 1, m1, prev, Block(total, true), words - 2);
    }

    /** The copy and the new tags, seen as one change of the tiling.  `prev` is off the list already. */
    method ShiftDown(prev: int, bt: int, sizeBt: int, size: int)
      requires ChainedHere() && InUse(blk, bt) && prev in blk && prev !in fl && Next(blk, prev) == bt
      requires memBrk < MAX_WORDS
      requires sizeBt == 4 * blk[bt].words && size == 4 * (blk[prev].words + blk[bt].words)
      modifies mem, this`blk
      ensures ChainedHere() && blk == Joined(old(blk), prev, old(Next(blk, bt)), true)
      ensures KeepsLive(old(mem[..]), old(blk), mem[..], blk, {prev, bt})
      ensures CopiedWords(old(mem[..]), bt + 1, mem[..], prev + 1, old(blk)[bt].words - 2)
      ensures old(PadZero(mem[..])) ==> PadZero(mem[..])
    {
      ghost var m0, e := mem[..], Next(blk, bt);
      RunOfTwo(blk, memBrk, prev);
      assert bt !in fl;
      CopyDown(prev, bt, sizeBt, size, blk[bt].words, e - prev);
      JoinChained(m0, blk, memBrk, fl, prev, e, true, {prev, bt}, mem[..]);
      blk := Joined(blk, prev, e, true);
    }

    /** `mm_realloc` taking over the free block to the left of `bt`. */
    method AbsorbPrev(prev: int, bt: int, sizeBt: int, size: int)
      requires Valid() && InUse(blk, bt) && prev in blk && !blk[prev].used && Next(blk, prev) == bt
      requires sizeBt == 4 * blk[bt].words && size == 4 * (blk[prev].words + blk[bt].words)
      modifies mem, this`freeBlocks, this`maybeMaxFb, this`fl, this`blk
      ensures Valid() && blk == Joined(old(blk), prev, old(Next(blk, bt)), true)
      ensures KeepsLive(old(mem[..]), old(blk), mem[..], blk, {prev, bt})
      ensures CopiedWords(old(mem[..]), bt + 1, mem[..], prev + 1, old(blk)[bt].words - 2)
    {
      hide Quiescent, Tidy, Tagged, Tiling, KeepsLive, FreeBlocks, Linked, Bounds, Drops, SameWords, PadZero;
      ghost var m0, blk0, fl0, e := mem[..], blk, fl, Next(blk, bt);
      Opened(prev);
      InMapping();
      RunOfTwo(blk, memBrk, prev);
      Remove(prev);
      ghost var m1 := mem[..];
      ShiftDown(prev, bt, sizeBt, size);
      CopiedAfter(m0, m1, bt + 1, mem[..], prev + 1, e - bt - 2);
      KeepsLiveTrans(m0, blk0, m1, blk0, mem[..], blk, {}, {prev, bt}, {prev, bt});
      AbsorbedQuiescent(mem[..], memBrk, maybeMaxFb, blk0, fl0, prev, prev, e, fl);
    }

    /** `memcpy` of the `n` words from `src` to the payload at `r`, which lies elsewhere. */
    method CopyInto(r: int, src: int, n: int)
      requires Valid() && InUse(blk, r - 1) && 0 <= n <= blk[r - 1].words - 2
      requires 0 <= src && src + n <= mem.Length && (r <= src || src + n <= r)
      modifies mem
      ensures Valid() && KeepsLive(old(mem[..]), blk, mem[..], blk, {r - 1})
      ensures CopiedWords(old(mem[..]), src, mem[..], r, n)
    {
      ghost var m0 := mem[..];
      MemCopy(r, src, n);
      WritePayloadChained(m0, blk, memBrk, fl, r - 1, mem[..]);
    }

    lemma CopyRoom(p: int, r: int)
      requires Valid() && InUse(blk, p - 1) && InUse(blk, r - 1) && p != r
      ensures 0 < p && p + blk[p - 1].words <= mem.Length && 0 < r && r + blk[r - 1].words <= mem.Length
      ensures r <= p || p + blk[p - 1].words <= r
    {
      InMapping();
      Beside(blk, memBrk, p - 1);
    }

    /** The `memcpy` of `mm_realloc`'s last resort: the whole old block but its header. */
    method CopyPayload(r: int, p: int, sizeBt: int)
      requires Valid() && p in Payloads() && r in Payloads() && p != r
      requires sizeBt == 4 * (|Payloads()[p]| + 2) && sizeBt <= 4 * |Payloads()[r]|
      modifies mem
      ensures Valid() && r in Payloads() && Payloads() == old(Payloads())[r := Payloads()[r]]
      ensures old(Payloads())[p] <= Payloads()[r] && |Payloads()[r]| == |old(Payloads())[r]|
    {
      hide Tidy, Tiling, KeepsLive, Linked, Bounds, PadZero;
      ghost var m0 := mem[..];
      PayloadBlock(p);
      PayloadBlock(r);
      CopyRoom(p, r);
      CopyInto(r, p, sizeBt / 4);
      LiveCopied(m0, mem[..], blk, p, r, sizeBt / 4);
    }

    /** `mm_realloc` moving the payload to a new block. */
    method Move(p: int, sizeBt: int, size: int) returns (r: int, alive: bool)
      requires Valid() && p in Payloads() && sizeBt == 4 * (|Payloads()[p]| + 2)
      requires sizeBt - 8 < size <= SIZE_MAX - 23
      modifies this, mem
      ensures Valid() && (alive <==> old(CanServe(size)))
      ensures !alive ==> Payloads() == old(Payloads()) && memBrk == old(memBrk) && blk == old(blk)
      ensures alive ==> r !in old(Payloads()) && r in Payloads()
      ensures alive ==> Payloads() == (old(Payloads()) - {p})[r := Payloads()[r]]
      ensures alive ==> old(Payloads())[p] <= Payloads()[r] && size <= 4 * |Payloads()[r]|
      ensures alive ==> memBrk == old(memBrk) + if old(HasFit(blk, NormalizeSize(size) / 4)) then 0
              else NormalizeSize(size) / 4
    {
      hide Heap.Valid, Heap.Payloads, HasFit;
      PayloadBlock(p);
      SixteenBytes(|Payloads()[p]| + 2);
      MoveFits(sizeBt, size);
      ghost var l0 := Payloads();
      r, alive := Malloc(size);
      if !alive {
        return;
      }
      ghost var l1 := Payloads();
      CopyPayload(r, p, sizeBt);
      ghost var l2 := Payloads();
      MoveMaps(l0, l1, l2, p, r);
      Free(p);
    }

    /** `mm_realloc` growing to the right: the payload stays where it is. */
    method GrowRight(p: int, next: int, size: int)
      requires Valid() && p in Payloads() && p - 1 in blk && next == Next(blk, p - 1) && next in blk && !blk[next].used
      requires size == 4 * (blk[p - 1].words + blk[next].words)
      modifies mem, this`freeBlocks, this`maybeMaxFb, this`fl, this`blk
      ensures Valid() && p in Payloads() && Payloads() == (old(Payloads()) - {p})[p := Payloads()[p]]
      ensures old(Payloads())[p] <= Payloads()[p] && 4 * |Payloads()[p]| == size - 8
    {
      hide KeepsLive, Tiling, Tagged, Linked, Coalesced, Aligned, FreeBlocks, ListsAll, Bounds, PadZero, SameWords;
      PayloadBlock(p);
      Opened(next);
      ghost var m0, blk0, bt := mem[..], blk, p - 1;
      AbsorbNext(p - 1, next, size);
      assert {bt, bt} == {bt};
      PayloadGrows(m0, blk0, mem[..], blk, bt);
      LiveMoved(m0, blk0, mem[..], blk, bt, bt);
    }

    /** `mm_realloc` growing to the left: the payload moves down. */
    method GrowLeft(p: int, prev: int, sizeBt: int, size: int)
      requires Valid() && p in Payloads() && p - 1 in blk
      requires prev in blk && !blk[prev].used && Next(blk, prev) == p - 1
      requires sizeBt == 4 * blk[p - 1].words && size == 4 * (blk[prev].words + blk[p - 1].words)
      modifies mem, this`freeBlocks, this`maybeMaxFb, this`fl, this`blk
      ensures Valid() && prev + 1 !in old(Payloads()) && prev + 1 in Payloads()
      ensures Payloads() == (old(Payloads()) - {p})[prev + 1 := Payloads()[prev + 1]]
      ensures old(Payloads())[p] <= Payloads()[prev + 1] && 4 * |Payloads()[prev + 1]| == size - 8
    {
      hide KeepsLive, Tiling, Tagged, Linked, Coalesced, Aligned, FreeBlocks, ListsAll, Bounds, PadZero, CopiedWords;
      PayloadBlock(p);
      Opened(prev);
      ghost var m0, blk0, bt := mem[..], blk, p - 1;
      AbsorbPrev(prev, p - 1, sizeBt, size);
      CopiedPayload(m0, blk0, bt, mem[..], blk, prev);
      LiveMoved(m0, blk0, mem[..], blk, bt, prev);
    }

    method LookRight(bt: int) returns (next: int, nextFree: bool)
      requires Valid() && bt in blk
      ensures next == Next(blk, bt) && (nextFree <==> next in blk && !blk[next].used)
    {
      TagFields(blk[bt]);
      assert HasNext(blk, memBrk, bt);
      next := bt + BtSize(mem[bt]) / 4;
      nextFree := false;
      if next < heapEnd {
        TagFields(blk[next]);
        nextFree := !BtUsed(mem[next]);
      }
    }

    /** The left neighbour as `mm_realloc` finds it: for the first block the pad stands in for a footer
        and leads back to the block itself, which is in use. */
    method LookLeft(bt: int) returns (prev: int, prevFree: bool)
      requires Valid() && InUse(blk, bt)
      ensures prevFree ==> prev in blk && !blk[prev].used && Next(blk, prev) == bt
      ensures !prevFree ==> forall p {:trigger p in blk} :: p in blk && p + blk[p].words == bt ==> blk[p].used
    {
      if bt != FIRST {
        PrevFromFooter(mem[..], blk, memBrk, bt);
        ghost var q := PrevOf(blk, memBrk, bt);
        Beside(blk, memBrk, q);
        TagFields(blk[q]);
      } else {
        TagFields(blk[bt]);
      }
      prev := bt - BtSize(mem[bt - 1]) / 4;
      prevFree := false;
      if prev >= heapStart {
        prevFree := !BtUsed(mem[prev]);
      }
    }

    /** `mm_realloc` when the block is too small: absorb the right neighbour, or else the left one, or
        else move. */
    method Enlarge(p: int, sizeBt: int, size: int) returns (r: int, alive: bool)
      requires Valid() && InUse(blk, p - 1) && p in Payloads() && sizeBt == 4 * blk[p - 1].words
      requires sizeBt - 8 < size <= SIZE_MAX - 23
      modifies this, mem
      ensures Valid() && (alive <==> old(FitsInPlace(blk, p - 1, size) || CanServe(size)))
      ensures !alive ==> Payloads() == old(Payloads()) && memBrk == old(memBrk) && blk == old(blk)
      ensures alive ==> r in Payloads() && (r == p || r !in old(Payloads()))
      ensures alive ==> Payloads() == (old(Payloads()) - {p})[r := Payloads()[r]]
      ensures alive ==> old(Payloads())[p] <= Payloads()[r] && size <= 4 * |Payloads()[r]|
      ensures alive ==>
                memBrk == old(memBrk) + if old(FitsInPlace(blk, p - 1, size)
                    || HasFit(blk, NormalizeSize(size) / 4)) then 0
                                        else NormalizeSize(size) / 4
      ensures old(FitsRight(blk, p - 1, size)) ==> r == p
      ensures old(FitsInPlace(blk, p - 1, size)) ==> r <= p
    {
      var bt := p - 1;
      var next, nextFree := LookRight(bt);
      if nextFree {
        TagFields(blk[next]);
        var sizeNext := BtSize(mem[next]);
        if sizeNext + sizeBt - 8 >= size {
          GrowRight(p, next, sizeNext + sizeBt);
          return p, true;
        }
      }
      r, alive := EnlargeLeft(p, sizeBt, size);
    }

    method EnlargeLeft(p: int, sizeBt: int, size: int) returns (r: int, alive: bool)
      requires p - 1 in blk && blk[p - 1].used
      requires Valid() && p in Payloads() && sizeBt == 4 * blk[p - 1].words
      requires sizeBt - 8 < size <= SIZE_MAX - 23 && !FitsRight(blk, p - 1, size)
      modifies this, mem
      ensures Valid() && (alive <==> old(FitsInPlace(blk, p - 1, size) || CanServe(size)))
      ensures !alive ==> Payloads() == old(Payloads()) && memBrk == old(memBrk) && blk == old(blk)
      ensures alive ==> r in Payloads() && r !in old(Payloads())
      ensures alive ==> Payloads() == (old(Payloads()) - {p})[r := Payloads()[r]]
      ensures alive ==> old(Payloads())[p] <= Payloads()[r] && size <= 4 * |Payloads()[r]|
      ensures alive ==>
                memBrk == old(memBrk) + if old(FitsInPlace(blk, p - 1, size)
                    || HasFit(blk, NormalizeSize(size) / 4)) then 0
                                        else NormalizeSize(size) / 4
      ensures old(FitsInPlace(blk, p - 1, size)) ==> r < p
    {
      hide Quiescent, Tidy, Tagged, Tiling, FreeBlocks, Linked, Bounds, PadZero, FitsInPlace, HasFit;
      var prev, prevFree := LookLeft(p - 1);
      Opened(p - 1);
      FitsInPlaceCases(blk, memBrk, p - 1, size, prev, prevFree);
      if prevFree {
        TagHere(prev);
        var prevSize := BtSize(mem[prev]);
        if prevSize + sizeBt - 8 >= size {
          Opened(prev);
          GrowLeft(p, prev, sizeBt, prevSize + sizeBt);
          return prev + 1, true;
        }
      }
      PayloadBlock(p);
      r, alive := Move(p, sizeBt, size);
    }

    /** Whether `mm_realloc` can do without more memory than there is. */
    ghost predicate CanResize(p: int, size: int)
      reads this
    {
      (p != NULL && p - 1 in blk && FitsInPlace(blk, p - 1, size)) || CanServe(size)
    }

    /** The payload in the words from `b` to `e` can be enlarged without a new block exactly when there are enough
        vacant words on one side of it. */
    lemma InPlaceExact(b: int, e: int, size: int)
      requires Valid() && b + 1 in Payloads() && e == b + |Payloads()[b + 1]| + 2
      ensures b in blk
      ensures FitsInPlace(blk, b, size) <==>
              || size <= 4 * |Payloads()[b + 1]|
              || (exists hi :: Vacant(e, hi) && size <= 4 * (hi - b) - 8)
              || (exists lo :: Vacant(lo, b) && size <= 4 * (e - lo) - 8)
    {
      hide Live, FitsInPlace, Vacant, Unused;
      PayloadBlock(b + 1);
      FitsInPlaceExact(blk, memBrk, b, e, size);
      forall lo, hi {:trigger Vacant(lo, hi)} {:trigger Unused(blk, memBrk, lo, hi)}
        ensures Vacant(lo, hi) <==> Unused(blk, memBrk, lo, hi)
      {
        VacantUnused(lo, hi);
      }
    }

    /** `mm_realloc` */
    method Realloc(p: int, size: int) returns (r: int, alive: bool)
      requires Valid() && (p == NULL || p in Payloads()) && 0 <= size <= SIZE_MAX - 23
      modifies this, mem
      ensures Valid() && (alive <==> size == 0 || old(CanResize(p, size))) && (p != NULL ==> p - 1 in old(blk))
      ensures !alive ==> Payloads() == old(Payloads()) && memBrk == old(memBrk) && blk == old(blk)
      ensures size == 0 ==> r == NULL && Payloads() == old(Payloads()) - {p} && memBrk == old(memBrk)
      ensures alive && size > 0 ==> r in Payloads() && (r == p || r !in old(Payloads())) && size <= 4 * |Payloads()[r]|
      ensures alive && size > 0 ==> Payloads() == (old(Payloads()) - {p})[r := Payloads()[r]]
      ensures alive && size > 0 && p != NULL ==> old(Payloads())[p] <= Payloads()[r]
      ensures alive && size > 0 && p != NULL && size <= 4 * |old(Payloads())[p]| ==>
              r == p && Payloads() == old(Payloads())
      ensures alive && size > 0 ==>
                memBrk == old(memBrk) + if old((p != NULL && FitsInPlace(blk, p - 1, size))
                    || HasFit(blk, NormalizeSize(size) / 4)) then 0
                                        else NormalizeSize(size) / 4
      ensures size > 0 && p != NULL && old(FitsInPlace(blk, p - 1, size)) ==> r <= p
      ensures size > 0 && p != NULL && old(FitsRight(blk, p - 1, size)) ==> r == p
    {
      LiveAt(mem[..], blk, p);
      Unmoved(Payloads(), p);
      if p == NULL {
        r, alive := Malloc(size);
        return;
      }
      if size == 0 {
        Free(p);
        return NULL, true;
      }
      TagFields(blk[p - 1]);
      var sizeBt := BtSize(mem[p - 1]);
      if sizeBt - 8 >= size {
        return p, true;
      }
      r, alive := Enlarge(p, sizeBt, size);
    }

    /** What `mm_checkheap` relies on: the tags lead from block to block, and the links from one listed block to the
        next.  Whether a listed block is free, and whether every free block is listed, is not among it. */
    ghost predicate Walkable()
      reads this, mem
    {
      && mem.Length == MAX_WORDS && Tiling(blk, memBrk) && Tagged(mem[..], blk) && memBrk < MAX_WORDS
      && (forall i {:trigger fl[i]} :: 0 <= i < |fl| ==> fl[i] in blk)
      && (forall i, j {:trigger fl[i], fl[j]} :: 0 <= i < j < |fl| ==> fl[i] != fl[j])
      && (forall i {:trigger LinkAt(mem[..], fl, i)} :: 0 <= i < |fl| ==> LinkAt(mem[..], fl, i))
      && freeBlocks == Head(fl)
      && if heapStart == NULL then memBrk == FIRST && heapEnd == NULL
         else heapStart == FIRST < memBrk && heapEnd == memBrk
    }

    /** Some of the first `n` listed blocks is in use. */
    ghost predicate UsedListed(n: int)
      requires 0 <= n <= |fl| && forall i {:trigger fl[i]} :: 0 <= i < |fl| ==> fl[i] in blk
      reads this
    {
      exists i {:trigger fl[i]} :: 0 <= i < n && blk[fl[i]].used
    }

    /** Some free block that starts below `bound` is followed by another. */
    ghost predicate FreePair(bound: int)
      reads this
    {
      exists b {:trigger FreeApart(blk, b)} :: b in blk && b < bound && !FreeApart(blk, b)
    }

    /** `mm_checkheap`, quiet: the number of the last error it met, or -1.  It walks the free list, then
        the whole heap, and finds nothing wrong exactly when the list has exactly the free blocks and none of them are
        neighbours. */
    method CheckHeap() returns (errorNum: int)
      requires Walkable()
      ensures errorNum == if |FreeBelow(blk, memBrk)| != |fl| then 4 else if FreePair(memBrk) then 3
                          else if UsedListed(|fl|) then 1 else -1
      ensures errorNum == -1 <==> FreeBlocks(blk, fl) && ListsAll(blk, fl) && Coalesced(blk)
      ensures Valid() ==> errorNum == -1
    {
      hide Valid, FreeBlocks, KeepsLive, ListsAll, Linked, Bounds, Aligned, PadZero, Coalesced, UsedListed, FreePair;
      var count;
      count, errorNum := CheckFreeList();
      ghost var first := errorNum;
      var block := heapStart;
      StartWalk();
      while block != heapEnd
        invariant heapStart == NULL ==> block == NULL
        invariant heapStart != NULL ==> block == memBrk || block in blk
        invariant ghost var at := if block == NULL then FIRST else block;
          && errorNum == (if FreePair(at) then 3 else first) && count == |fl| - |FreeBelow(blk, at)|
        decreases memBrk - block
      {
        StepWalk(block);
        var next := block + BtSize(mem[block]) / 4;
        if !BtUsed(mem[block]) {
          if !BtUsed(mem[next]) && next != heapEnd {
            errorNum := 3;
          }
          count := count - 1;
        }
        block := next;
      }
      if count != 0 {
        errorNum := 4;
      }
      Diagnosed();
      if Valid() {
        ValidWalkable();
      }
    }

    lemma StartWalk()
      requires Walkable()
      ensures FreeBelow(blk, FIRST) == {} && !FreePair(FIRST)
      ensures heapStart != NULL ==> heapStart in blk
    {
    }

    /** What the walk finds at a block. */
    lemma StepWalk(b: int)
      requires Walkable() && b in blk
      ensures var next := Next(blk, b);
        && 0 <= b < next <= memBrk < mem.Length && (next == memBrk || next in blk)
        && BtSize(mem[b]) == 4 * (next - b) && BtUsed(mem[b]) == blk[b].used
        && (FreePair(next) <==> FreePair(b) || (!BtUsed(mem[b]) && next != memBrk && !BtUsed(mem[next])))
        && |FreeBelow(blk, next)| == |FreeBelow(blk, b)| + if blk[b].used then 0 else 1
    {
      var next := Next(blk, b);
      TagFields(blk[b]);
      assert Shaped(blk, memBrk, b) && HasNext(blk, memBrk, b);
      FreeBelowNext(blk, memBrk, b);
      if next in blk {
        TagFields(blk[next]);
        assert Shaped(blk, memBrk, next);
      }
      Beside(blk, memBrk, b);
      assert FreeApart(blk, b) <==> blk[b].used || next !in blk || blk[next].used;
    }

    /** What the number says about the heap. */
    lemma Diagnosed()
      requires Walkable()
      ensures |FreeBelow(blk, memBrk)| == |fl| && !FreePair(memBrk) && !UsedListed(|fl|) <==>
              FreeBlocks(blk, fl) && ListsAll(blk, fl) && Coalesced(blk)
    {
      forall b | b in blk ensures b < memBrk {
        assert Shaped(blk, memBrk, b);
      }
      assert FreePair(memBrk) <==> !Coalesced(blk);
      assert !UsedListed(|fl|) <==> FreeBlocks(blk, fl);
      if FreeBlocks(blk, fl) {
        FreeCount(blk, memBrk, fl);
      }
    }

    /** A heap that the other operations can produce has nothing wrong with it. */
    lemma ValidWalkable()
      requires Valid()
      ensures Walkable() && FreeBlocks(blk, fl) && ListsAll(blk, fl) && Coalesced(blk)
    {
      AlignedEnd(blk, memBrk);
    }

    /** The first loop of `mm_checkheap`, which counts the listed blocks. */
    method CheckFreeList() returns (count: int, errorNum: int)
      requires Walkable()
      ensures count == |fl| && errorNum == if UsedListed(|fl|) then 1 else -1
    {
      count, errorNum := 0, -1;
      var block := freeBlocks;
      while block != NULL
        invariant 0 <= count <= |fl| && errorNum == if UsedListed(count) then 1 else -1
        invariant block == if count < |fl| then fl[count] else NULL
        decreases |fl| - count
      {
        ListedBlock(count);
        count := count + 1;
        if BtUsed(mem[block]) {
          errorNum := 1;
        }
        var next := NextFb(block);
        var prev := PrevFb(block);
        if !(next == NULL || next < heapEnd) {
          errorNum := 2;
        }
        if !(prev == NULL || prev >= heapStart) {
          errorNum := 2;
        }
        block := next;
      }
    }

    lemma ListedBlock(k: int)
      requires Walkable() && 0 <= k < |fl|
      ensures heapStart == FIRST && heapEnd == memBrk && FIRST <= fl[k] && fl[k] + 2 < mem.Length
      ensures BtUsed(mem[fl[k]]) == blk[fl[k]].used && (UsedListed(k + 1) <==> UsedListed(k) || blk[fl[k]].used)
      ensures mem[fl[k] + 2] == if k + 1 < |fl| then fl[k + 1] - FIRST else -1
      ensures k + 1 < |fl| ==> FIRST <= fl[k + 1] < memBrk
      ensures mem[fl[k] + 1] == if k > 0 then fl[k - 1] - FIRST else -1
      ensures k > 0 ==> FIRST <= fl[k - 1] < memBrk
    {
      TagFields(blk[fl[k]]);
      assert LinkAt(mem[..], fl, k) && Shaped(blk, memBrk, fl[k]);
      if k + 1 < |fl| {
        assert Shaped(blk, memBrk, fl[k + 1]);
      }
      if k > 0 {
        assert Shaped(blk, memBrk, fl[k - 1]);
      }
    }

    constructor ()
      ensures mem.Length == MAX_WORDS && fresh(mem)
      ensures Valid() && Payloads() == map[] && memBrk == FIRST
    {
      mem := new Word[MAX_WORDS](i => 0);
      memBrk, heapStart, heapEnd, freeBlocks, maybeMaxFb := FIRST, NULL, NULL, NULL, 0;
      blk, fl := map[], [];
    }

    /** `mem_reset_brk` followed by `mm_init`.  The pad is below every block, so nothing ever wrote it. */
    method Init()
      requires mem.Length == MAX_WORDS && PadZero(mem[..])
      modifies this
      ensures Valid() && Payloads() == map[] && memBrk == FIRST
    {
      memBrk := 0;
      var pad := Morecore(ALIGNMENT - 4, 3);
      heapStart, heapEnd, freeBlocks, maybeMaxFb := NULL, NULL, NULL, 0;
      blk, fl := map[], [];
    }

    /** The user reading word `k` of a payload. */
    method Load(p: int, k: int) returns (w: Word)
      requires Valid() && p in Payloads() && 0 <= k < |Payloads()[p]|
      ensures w == Payloads()[p][k]
    {
      w := mem[p + k];
    }

    /** The user writing word `k` of a payload. */
    method Store(p: int, k: int, w: Word)
      requires Valid() && p in Payloads() && 0 <= k < |Payloads()[p]|
      modifies mem
      ensures Valid() && p in Payloads() && Payloads() == old(Payloads())[p := Payloads()[p]]
      ensures Payloads()[p] == old(Payloads())[p][k := w]
    {
      hide KeepsLive, Tiling, Tagged, Linked, Coalesced, Aligned, FreeBlocks, ListsAll, Bounds;
      PayloadBlock(p);
      Opened(p - 1);
      ghost var m0 := mem[..];
      mem[p + k] := w;
      assert mem[..] == m0[p + k := w];
      StoredPayload(m0, blk, memBrk, p, k, w);
      WritePayloadChained(m0, blk, memBrk, fl, p - 1, mem[..]);
      LiveUpdated(m0, mem[..], blk, p);
    }
  }
}
