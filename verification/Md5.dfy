/** `ext2/md5c.c`: the streaming form of the digest. */
module Md5 {
  import opened Sequences
  import opened Bytes
  import opened DivMod
  import opened Md5Spec

  const WRAP32: int := 0x1_0000_0000
  const PADDING: seq<Byte> := [0x80] + seq(63, i => 0)

  function FF(a: bv32, b: bv32, c: bv32, d: bv32, x: bv32, s: nat, ac: bv32): bv32
    requires 0 < s < 32
  {
    Mixed(a, b, F(b, c, d), x, s, ac)
  }

  function GG(a: bv32, b: bv32, c: bv32, d: bv32, x: bv32, s: nat, ac: bv32): bv32
    requires 0 < s < 32
  {
    Mixed(a, b, G(b, c, d), x, s, ac)
  }

  function HH(a: bv32, b: bv32, c: bv32, d: bv32, x: bv32, s: nat, ac: bv32): bv32
    requires 0 < s < 32
  {
    Mixed(a, b, H(b, c, d), x, s, ac)
  }

  function II(a: bv32, b: bv32, c: bv32, d: bv32, x: bv32, s: nat, ac: bv32): bv32
    requires 0 < s < 32
  {
    Mixed(a, b, I(b, c, d), x, s, ac)
  }

  /** Lines 1 to 4 of `MD5Transform`, round 1. */
  method Lines1To4(r: Regs, x: seq<bv32>) returns (r': Regs)
    requires |x| == 16
    ensures r' == Steps(0, 4, r, x)
  {
    hide Mixed, F, G, H, I, Steps;
    FourSteps(0, r, x);
    var a, b, c, d := r.a, r.b, r.c, r.d;
    a := FF(a, b, c, d, x[0], 7, 0xd76aa478);
    d := FF(d, a, b, c, x[1], 12, 0xe8c7b756);
    c := FF(c, d, a, b, x[2], 17, 0x242070db);
    b := FF(b, c, d, a, x[3], 22, 0xc1bdceee);
    r' := Regs(a, b, c, d);
  }

  /** Lines 5 to 8 of `MD5Transform`. */
  method Lines5To8(r: Regs, x: seq<bv32>) returns (r': Regs)
    requires |x| == 16
    ensures r' == Steps(4, 4, r, x)
  {
    hide Mixed, F, G, H, I, Steps;
    FourSteps(4, r, x);
    var a, b, c, d := r.a, r.b, r.c, r.d;
    a := FF(a, b, c, d, x[4], 7, 0xf57c0faf);
    d := FF(d, a, b, c, x[5], 12, 0x4787c62a);
    c := FF(c, d, a, b, x[6], 17, 0xa8304613);
    b := FF(b, c, d, a, x[7], 22, 0xfd469501);
    r' := Regs(a, b, c, d);
  }

  /** Lines 9 to 12 of `MD5Transform`. */
  method Lines9To12(r: Regs, x: seq<bv32>) returns (r': Regs)
    requires |x| == 16
    ensures r' == Steps(8, 4, r, x)
  {
    hide Mixed, F, G, H, I, Steps;
    FourSteps(8, r, x);
    var a, b, c, d := r.a, r.b, r.c, r.d;
    a := FF(a, b, c, d, x[8], 7, 0x698098d8);
    d := FF(d, a, b, c, x[9], 12, 0x8b44f7af);
    c := FF(c, d, a, b, x[10], 17, 0xffff5bb1);
    b := FF(b, c, d, a, x[11], 22, 0x895cd7be);
    r' := Regs(a, b, c, d);
  }

  /** Lines 13 to 16 of `MD5Transform`. */
  method Lines13To16(r: Regs, x: seq<bv32>) returns (r': Regs)
    requires |x| == 16
    ensures r' == Steps(12, 4, r, x)
  {
    hide Mixed, F, G, H, I, Steps;
    FourSteps(12, r, x);
    var a, b, c, d := r.a, r.b, r.c, r.d;
    a := FF(a, b, c, d, x[12], 7, 0x6b901122);
    d := FF(d, a, b, c, x[13], 12, 0xfd987193);
    c := FF(c, d, a, b, x[14], 17, 0xa679438e);
    b := FF(b, c, d, a, x[15], 22, 0x49b40821);
    r' := Regs(a, b, c, d);
  }

  /** Lines 17 to 20 of `MD5Transform`, round 2. */
  method Lines17To20(r: Regs, x: seq<bv32>) returns (r': Regs)
    requires |x| == 16
    ensures r' == Steps(16, 4, r, x)
  {
    hide Mixed, F, G, H, I, Steps;
    FourSteps(16, r, x);
    var a, b, c, d := r.a, r.b, r.c, r.d;
    a := GG(a, b, c, d, x[1], 5, 0xf61e2562);
    d := GG(d, a, b, c, x[6], 9, 0xc040b340);
    c := GG(c, d, a, b, x[11], 14, 0x265e5a51);
    b := GG(b, c, d, a, x[0], 20, 0xe9b6c7aa);
    r' := Regs(a, b, c, d);
  }

  /** Lines 21 to 24 of `MD5Transform`. */
  method Lines21To24(r: Regs, x: seq<bv32>) returns (r': Regs)
    requires |x| == 16
    ensures r' == Steps(20, 4, r, x)
  {
    hide Mixed, F, G, H, I, Steps;
    FourSteps(20, r, x);
    var a, b, c, d := r.a, r.b, r.c, r.d;
    a := GG(a, b, c, d, x[5], 5, 0xd62f105d);
    d := GG(d, a, b, c, x[10], 9, 0x2441453);
    c := GG(c, d, a, b, x[15], 14, 0xd8a1e681);
    b := GG(b, c, d, a, x[4], 20, 0xe7d3fbc8);
    r' := Regs(a, b, c, d);
  }

  /** Lines 25 to 28 of `MD5Transform`. */
  method Lines25To28(r: Regs, x: seq<bv32>) returns (r': Regs)
    requires |x| == 16
    ensures r' == Steps(24, 4, r, x)
  {
    hide Mixed, F, G, H, I, Steps;
    FourSteps(24, r, x);
    var a, b, c, d := r.a, r.b, r.c, r.d;
    a := GG(a, b, c, d, x[9], 5, 0x21e1cde6);
    d := GG(d, a, b, c, x[14], 9, 0xc33707d6);
    c := GG(c, d, a, b, x[3], 14, 0xf4d50d87);
    b := GG(b, c, d, a, x[8], 20, 0x455a14ed);
    r' := Regs(a, b, c, d);
  }

  /** Lines 29 to 32 of `MD5Transform`. */
  method Lines29To32(r: Regs, x: seq<bv32>) returns (r': Regs)
    requires |x| == 16
    ensures r' == Steps(28, 4, r, x)
  {
    hide Mixed, F, G, H, I, Steps;
    FourSteps(28, r, x);
    var a, b, c, d := r.a, r.b, r.c, r.d;
    a := GG(a, b, c, d, x[13], 5, 0xa9e3e905);
    d := GG(d, a, b, c, x[2], 9, 0xfcefa3f8);
    c := GG(c, d, a, b, x[7], 14, 0x676f02d9);
    b := GG(b, c, d, a, x[12], 20, 0x8d2a4c8a);
    r' := Regs(a, b, c, d);
  }

  /** Lines 33 to 36 of `MD5Transform`, round 3. */
  method Lines33To36(r: Regs, x: seq<bv32>) returns (r': Regs)
    requires |x| == 16
    ensures r' == Steps(32, 4, r, x)
  {
    hide Mixed, F, G, H, I, Steps;
    FourSteps(32, r, x);
    var a, b, c, d := r.a, r.b, r.c, r.d;
    a := HH(a, b, c, d, x[5], 4, 0xfffa3942);
    d := HH(d, a, b, c, x[8], 11, 0x8771f681);
    c := HH(c, d, a, b, x[11], 16, 0x6d9d6122);
    b := HH(b, c, d, a, x[14], 23, 0xfde5380c);
    r' := Regs(a, b, c, d);
  }

  /** Lines 37 to 40 of `MD5Transform`. */
  method Lines37To40(r: Regs, x: seq<bv32>) returns (r': Regs)
    requires |x| == 16
    ensures r' == Steps(36, 4, r, x)
  {
    hide Mixed, F, G, H, I, Steps;
    FourSteps(36, r, x);
    var a, b, c, d := r.a, r.b, r.c, r.d;
    a := HH(a, b, c, d, x[1], 4, 0xa4beea44);
    d := HH(d, a, b, c, x[4], 11, 0x4bdecfa9);
    c := HH(c, d, a, b, x[7], 16, 0xf6bb4b60);
    b := HH(b, c, d, a, x[10], 23, 0xbebfbc70);
    r' := Regs(a, b, c, d);
  }

  /** Lines 41 to 44 of `MD5Transform`. */
  method Lines41To44(r: Regs, x: seq<bv32>) returns (r': Regs)
    requires |x| == 16
    ensures r' == Steps(40, 4, r, x)
  {
    hide Mixed, F, G, H, I, Steps;
    FourSteps(40, r, x);
    var a, b, c, d := r.a, r.b, r.c, r.d;
    a := HH(a, b, c, d, x[13], 4, 0x289b7ec6);
    d := HH(d, a, b, c, x[0], 11, 0xeaa127fa);
    c := HH(c, d, a, b, x[3], 16, 0xd4ef3085);
    b := HH(b, c, d, a, x[6], 23, 0x4881d05);
    r' := Regs(a, b, c, d);
  }

  /** Lines 45 to 48 of `MD5Transform`. */
  method Lines45To48(r: Regs, x: seq<bv32>) returns (r': Regs)
    requires |x| == 16
    ensures r' == Steps(44, 4, r, x)
  {
    hide Mixed, F, G, H, I, Steps;
    FourSteps(44, r, x);
    var a, b, c, d := r.a, r.b, r.c, r.d;
    a := HH(a, b, c, d, x[9], 4, 0xd9d4d039);
    d := HH(d, a, b, c, x[12], 11, 0xe6db99e5);
    c := HH(c, d, a, b, x[15], 16, 0x1fa27cf8);
    b := HH(b, c, d, a, x[2], 23, 0xc4ac5665);
    r' := Regs(a, b, c, d);
  }

  /** Lines 49 to 52 of `MD5Transform`, round 4. */
  method Lines49To52(r: Regs, x: seq<bv32>) returns (r': Regs)
    requires |x| == 16
    ensures r' == Steps(48, 4, r, x)
  {
    hide Mixed, F, G, H, I, Steps;
    FourSteps(48, r, x);
    var a, b, c, d := r.a, r.b, r.c, r.d;
    a := II(a, b, c, d, x[0], 6, 0xf4292244);
    d := II(d, a, b, c, x[7], 10, 0x432aff97);
    c := II(c, d, a, b, x[14], 15, 0xab9423a7);
    b := II(b, c, d, a, x[5], 21, 0xfc93a039);
    r' := Regs(a, b, c, d);
  }

  /** Lines 53 to 56 of `MD5Transform`. */
  method Lines53To56(r: Regs, x: seq<bv32>) returns (r': Regs)
    requires |x| == 16
    ensures r' == Steps(52, 4, r, x)
  {
    hide Mixed, F, G, H, I, Steps;
    FourSteps(52, r, x);
    var a, b, c, d := r.a, r.b, r.c, r.d;
    a := II(a, b, c, d, x[12], 6, 0x655b59c3);
    d := II(d, a, b, c, x[3], 10, 0x8f0ccc92);
    c := II(c, d, a, b, x[10], 15, 0xffeff47d);
    b := II(b, c, d, a, x[1], 21, 0x85845dd1);
    r' := Regs(a, b, c, d);
  }

  /** Lines 57 to 60 of `MD5Transform`. */
  method Lines57To60(r: Regs, x: seq<bv32>) returns (r': Regs)
    requires |x| == 16
    ensures r' == Steps(56, 4, r, x)
  {
    hide Mixed, F, G, H, I, Steps;
    FourSteps(56, r, x);
    var a, b, c, d := r.a, r.b, r.c, r.d;
    a := II(a, b, c, d, x[8], 6, 0x6fa87e4f);
    d := II(d, a, b, c, x[15], 10, 0xfe2ce6e0);
    c := II(c, d, a, b, x[6], 15, 0xa3014314);
    b := II(b, c, d, a, x[13], 21, 0x4e0811a1);
    r' := Regs(a, b, c, d);
  }

  /** Lines 61 to 64 of `MD5Transform`. */
  method Lines61To64(r: Regs, x: seq<bv32>) returns (r': Regs)
    requires |x| == 16
    ensures r' == Steps(60, 4, r, x)
  {
    hide Mixed, F, G, H, I, Steps;
    FourSteps(60, r, x);
    var a, b, c, d := r.a, r.b, r.c, r.d;
    a := II(a, b, c, d, x[4], 6, 0xf7537e82);
    d := II(d, a, b, c, x[11], 10, 0xbd3af235);
    c := II(c, d, a, b, x[2], 15, 0x2ad7d2bb);
    b := II(b, c, d, a, x[9], 21, 0xeb86d391);
    r' := Regs(a, b, c, d);
  }

  /** Round 1. */
  method Round1(r: Regs, x: seq<bv32>) returns (r': Regs)
    requires |x| == 16
    ensures r' == Steps(0, 16, r, x)
  {
    hide Steps;
    r' := Lines1To4(r, x);
    r' := Lines5To8(r', x);
    StepsJoin(0, 4, 4, r, x);
    r' := Lines9To12(r', x);
    StepsJoin(0, 8, 4, r, x);
    r' := Lines13To16(r', x);
    StepsJoin(0, 12, 4, r, x);
  }

  /** Round 2. */
  method Round2(r: Regs, x: seq<bv32>) returns (r': Regs)
    requires |x| == 16
    ensures r' == Steps(16, 16, r, x)
  {
    hide Steps;
    r' := Lines17To20(r, x);
    r' := Lines21To24(r', x);
    StepsJoin(16, 4, 4, r, x);
    r' := Lines25To28(r', x);
    StepsJoin(16, 8, 4, r, x);
    r' := Lines29To32(r', x);
    StepsJoin(16, 12, 4, r, x);
  }

  /** Round 3. */
  method Round3(r: Regs, x: seq<bv32>) returns (r': Regs)
    requires |x| == 16
    ensures r' == Steps(32, 16, r, x)
  {
    hide Steps;
    r' := Lines33To36(r, x);
    r' := Lines37To40(r', x);
    StepsJoin(32, 4, 4, r, x);
    r' := Lines41To44(r', x);
    StepsJoin(32, 8, 4, r, x);
    r' := Lines45To48(r', x);
    StepsJoin(32, 12, 4, r, x);
  }

  /** Round 4. */
  method Round4(r: Regs, x: seq<bv32>) returns (r': Regs)
    requires |x| == 16
    ensures r' == Steps(48, 16, r, x)
  {
    hide Steps;
    r' := Lines49To52(r, x);
    r' := Lines53To56(r', x);
    StepsJoin(48, 4, 4, r, x);
    r' := Lines57To60(r', x);
    StepsJoin(48, 8, 4, r, x);
    r' := Lines61To64(r', x);
    StepsJoin(48, 12, 4, r, x);
  }

  /** The number that two 32-bit words stand for, after the carry of `MD5Update`. */
  lemma CountSum(c0: int, c1: int, n: int)
    requires 0 <= n < WRAP32 && 0 <= c0 < WRAP32 && 0 <= c1 < WRAP32
    ensures var added := n * 8 % WRAP32; var lo := (c0 + added) % WRAP32;
            var hi := if lo < added then (c1 + 1) % WRAP32 else c1;
            (hi + n / 0x2000_0000) % WRAP32 * WRAP32 + lo == (c1 * WRAP32 + c0 + 8 * n) % WRAP64
  {
    var added, q := n * 8 % WRAP32, n / 0x2000_0000;
    assert n * 8 == q * WRAP32 + added;
    var carry := if c0 + added >= WRAP32 then 1 else 0;
    var lo := c0 + added - carry * WRAP32;
    assert lo == (c0 + added) % WRAP32 && (lo < added <==> carry == 1);
    var hi := c1 + carry + q;
    assert c1 * WRAP32 + c0 + 8 * n == hi * WRAP32 + lo;
    LowWord(hi, lo);
    TwoAdditions(c1 + carry, q);
  }

  lemma TwoAdditions(a: int, b: int)
    ensures (a % WRAP32 + b) % WRAP32 == (a + b) % WRAP32
  {
  }

  lemma LowWord(hi: int, lo: int)
    requires 0 <= hi && 0 <= lo < WRAP32
    ensures (hi * WRAP32 + lo) % WRAP64 == hi % WRAP32 * WRAP32 + lo
  {
    var k, r := hi / WRAP32, hi % WRAP32;
    assert hi * WRAP32 + lo == k * WRAP64 + (r * WRAP32 + lo);
  }

  /** The loop of `MD5Update` on `n` bytes, when `idx` are in the buffer, does not run its index past 2^32. */
  predicate NoWrap(idx: int, n: int)
    requires 0 <= idx < BLOCK
  {
    n < BLOCK - idx || n - (n - (BLOCK - idx)) % BLOCK + 63 < WRAP32
  }

  lemma ShortEnough(idx: int, n: int)
    requires 0 <= idx < BLOCK && 0 <= n <= WRAP32 - 64
    ensures NoWrap(idx, n)
  {
  }

  /** The guard of the loop of `MD5Update` on `n` bytes. */
  predicate Goes(i: int, n: int) {
    (i + 63) % WRAP32 < n
  }

  /** The index after `k` turns from `i`. */
  function Turned(i: int, k: nat): int {
    if k == 0 then i else (Turned(i, k - 1) + 64) % WRAP32
  }

  lemma {:induction false} TurnedCongruent(i: int, k: nat)
    requires 0 <= i < WRAP32
    ensures 0 <= Turned(i, k) < WRAP32 && Turned(i, k) % BLOCK == i % BLOCK
  {
    if k > 0 {
      TurnedCongruent(i, k - 1);
    }
  }

  lemma {:induction false} TurnedSum(i: int, k: nat)
    requires 0 <= i && i + 64 * k < WRAP32
    ensures Turned(i, k) == i + 64 * k
  {
    if k > 0 {
      TurnedSum(i, k - 1);
    }
  }

  /** If the index runs past 2^32 the guard holds for ever, whatever lies behind the input. */
  lemma GoesOn(idx: int, n: int, k: nat)
    requires 0 <= idx < BLOCK && BLOCK - idx <= n < WRAP32 && !NoWrap(idx, n)
    ensures Goes(Turned(BLOCK - idx, k), n)
  {
    var start := BLOCK - idx;
    var last, i := n - (n - start) % BLOCK, Turned(start, k);
    TurnedCongruent(start, k);
    var q, r := (n - start) / BLOCK, i / BLOCK - start / BLOCK;
    assert last == start + BLOCK * q && i == start + BLOCK * r;
    if i + 63 < WRAP32 {
      assert r < q;
    } else {
      assert (i + 63) % WRAP32 == i + 63 - WRAP32;
    }
  }

  /** The loop of `MD5Update` ends exactly when its index does not run past 2^32. */
  lemma LoopExact(idx: int, n: int)
    requires 0 <= idx < BLOCK && BLOCK - idx <= n < WRAP32
    ensures (exists k: nat {:trigger Turned(BLOCK - idx, k)} :: !Goes(Turned(BLOCK - idx, k), n)) <==> NoWrap(idx, n)
  {
    var start := BLOCK - idx;
    if NoWrap(idx, n) {
      var last := n - (n - start) % BLOCK;
      var k := (last - start) / 64;
      assert (last - start) % 64 == 0;
      TurnedSum(start, k);
      assert !Goes(Turned(start, k), n);
    } else {
      forall k: nat
        ensures Goes(Turned(start, k), n)
      {
        GoesOn(idx, n, k);
      }
    }
  }

  /** For instance it never ends on 2^32 - 1 bytes that follow a single one. */
  lemma LoopForEver(k: nat)
    ensures !NoWrap(1, WRAP32 - 1) && Goes(Turned(BLOCK - 1, k), WRAP32 - 1)
  {
    GoesOn(1, WRAP32 - 1, k);
  }

  /** When it ends, it ends at the last index that is a whole number of blocks on. */
  lemma LastIndex(idx: int, n: int) returns (last: int)
    requires 0 <= idx < BLOCK && BLOCK - idx <= n && NoWrap(idx, n)
    ensures BLOCK - idx <= last <= n < last + BLOCK && (last - (BLOCK - idx)) % BLOCK == 0 && last + 63 < WRAP32
  {
    last := n - (n - (BLOCK - idx)) % BLOCK;
  }

  lemma TailGrows(m: seq<Byte>, t: seq<Byte>)
    requires |m| % BLOCK + |t| < BLOCK
    ensures Tail(m + t) == Tail(m) + t && |m + t| % BLOCK == |m| % BLOCK + |t|
    ensures Fold(INITIAL, m + t) == Fold(INITIAL, m)
  {
    hide Fold, Tail;
    var k := |m| - |m| % BLOCK;
    RemainderGrows(|m|, |t|);
    CutAt(m, t, k);
    TailFrom(m, k);
    TailFrom(m + t, k);
  }

  lemma TailFrom(m: seq<Byte>, k: nat)
    requires |m| - |m| % BLOCK == k
    ensures Tail(m) == m[k..] && Fold(INITIAL, m) == Fold(INITIAL, m[..k])
  {
    hide Fold;
    FoldWhole(INITIAL, m);
  }

  lemma RemainderGrows(n: nat, more: nat)
    requires n % BLOCK + more < BLOCK
    ensures (n + more) % BLOCK == n % BLOCK + more
    ensures n + more - (n + more) % BLOCK == n - n % BLOCK
  {
    QuotientOf(n + more, BLOCK, n / BLOCK, n % BLOCK + more);
  }

  lemma CutAt(m: seq<Byte>, t: seq<Byte>, k: nat)
    requires k <= |m|
    ensures (m + t)[k..] == m[k..] + t && (m + t)[..k] == m[..k]
  {
  }

  /** Filling up the block that waits in the buffer. */
  lemma BlockFilled(m: seq<Byte>, part: seq<Byte>)
    requires |m| % BLOCK + |part| == BLOCK
    ensures |m + part| % BLOCK == 0 && |Tail(m) + part| == BLOCK
    ensures Fold(INITIAL, m + part) == Compress(Fold(INITIAL, m), Tail(m) + part)
  {
    hide Fold, Compress;
    var k := |m| - |m| % BLOCK;
    assert m + part == m[..k] + (Tail(m) + part);
    FoldWhole(INITIAL, m);
    FoldOne(INITIAL, m[..k], Tail(m) + part);
  }

  /** `MD5_CTX`, with the four words of `state` as one record. */
  class Context {
    var state: Regs
    var count0: int
    var count1: int
    const buffer: array<Byte>

    constructor ()
      ensures buffer.Length == BLOCK && fresh(buffer)
    {
      state := Regs(0, 0, 0, 0);
      buffer := new Byte[BLOCK](i => 0);
      count0, count1 := 0, 0;
    }

    /** The message `m` has been fed in: its whole blocks are folded into the state, the rest waits in the
        buffer, and the count is its length in bits modulo 2^64. */
    ghost predicate Holds(m: seq<Byte>)
      reads this, buffer
    {
      && buffer.Length == BLOCK && 0 <= count0 < WRAP32 && 0 <= count1 < WRAP32
      && state == Fold(INITIAL, m)
      && buffer[..|m| % BLOCK] == Tail(m)
      && count1 * WRAP32 + count0 == 8 * |m| % WRAP64
    }

    /** `MD5Init` */
    method Init()
      requires buffer.Length == BLOCK
      modifies this
      ensures Holds([])
    {
      hide Tail;
      count0, count1 := 0, 0;
      state := Regs(0x67452301, 0xefcdab89, 0x98badcfe, 0x10325476);
    }

    /** `MD5Transform` */
    method Transform(block: seq<Byte>)
      requires |block| == BLOCK
      modifies this`state
      ensures state == Compress(old(state), block)
    {
      hide Steps, Words, Sum;
      var x := Words(block);
      ghost var r0 := state;
      var r := Round1(state, x);
      r := Round2(r, x);
      StepsJoin(0, 16, 16, r0, x);
      r := Round3(r, x);
      StepsJoin(0, 32, 16, r0, x);
      r := Round4(r, x);
      StepsJoin(0, 48, 16, r0, x);
      state := Sum(state, r);
    }

    /** The count after `MD5Update` has added a length to it. */
    method Count(inputLen: int)
      requires 0 <= inputLen < WRAP32 && 0 <= count0 < WRAP32 && 0 <= count1 < WRAP32
      modifies this`count0, this`count1
      ensures 0 <= count0 < WRAP32 && 0 <= count1 < WRAP32
      ensures count1 * WRAP32 + count0 == (old(count1) * WRAP32 + old(count0) + 8 * inputLen) % WRAP64
    {
      CountSum(count0, count1, inputLen);
      var added := inputLen * 8 % WRAP32;
      count0 := (count0 + added) % WRAP32;
      if count0 < added {
        count1 := (count1 + 1) % WRAP32;
      }
      count1 := (count1 + inputLen / 0x2000_0000) % WRAP32;
    }

    /** `memcpy` into the buffer. */
    method Store(idx: int, bytes: seq<Byte>)
      requires 0 <= idx && idx + |bytes| <= buffer.Length
      modifies buffer
      ensures buffer[..idx + |bytes|] == old(buffer[..idx]) + bytes
    {
      var j := 0;
      while j < |bytes|
        invariant 0 <= j <= |bytes| && buffer[..idx] == old(buffer[..idx]) && buffer[idx..idx + j] == bytes[..j]
      {
        buffer[idx + j] := bytes[j];
        j := j + 1;
      }
      assert buffer[..idx + j] == buffer[..idx] + buffer[idx..idx + j];
    }

    /** The first bytes of the input complete the block that is waiting in the buffer. */
    method FillBlock(idx: int, part: seq<Byte>, ghost m: seq<Byte>)
      requires buffer.Length == BLOCK && idx == |m| % BLOCK && idx + |part| == BLOCK
      requires state == Fold(INITIAL, m) && buffer[..idx] == Tail(m)
      modifies this`state, buffer
      ensures state == Fold(INITIAL, m + part) && |m + part| % BLOCK == 0
    {
      hide Fold, Compress, Tail;
      Store(idx, part);
      BlockFilled(m, part);
      assert buffer[..] == buffer[..idx + |part|];
      Transform(buffer[..]);
    }

    /** `MD5Update`: what has been fed in is what came before followed by the input, however it was cut. */
    method Update(input: seq<Byte>, ghost m: seq<Byte>)
      requires Holds(m) && |input| < WRAP32 && NoWrap(|m| % BLOCK, |input|)
      modifies this, buffer
      ensures Holds(m + input)
    {
      hide Fold, Compress, Tail, NoWrap;
      var inputLen := |input|;
      BufferedCount(count1, count0, |m|);
      var idx := count0 / 8 % 64;
      Count(inputLen);
      BitCount(|m|, inputLen);
      var partLen := 64 - idx;
      var i := 0;
      if inputLen >= partLen {
        FillBlock(idx, input[..partLen], m);
        i := Blocks(input, partLen, m);
        idx := 0;
        Remainder(m, input, i);
      } else {
        TailGrows(m, input);
      }
      Store(idx, input[i..]);
    }

    /** The loop of `MD5Update`. */
    method Blocks(input: seq<Byte>, partLen: int, ghost m: seq<Byte>) returns (i: int)
      requires 0 < partLen <= |input| < WRAP32 && (|m| + partLen) % BLOCK == 0 && partLen <= 64
      requires NoWrap(BLOCK - partLen, |input|)
      requires state == Fold(INITIAL, m + input[..partLen])
      modifies this`state
      ensures 0 <= i <= |input| < i + BLOCK && (|m| + i) % BLOCK == 0 && state == Fold(INITIAL, m + input[..i])
    {
      hide Fold, Compress, NoWrap;
      i := partLen;
      ghost var last := LastIndex(BLOCK - partLen, |input|);
      while (i + 63) % WRAP32 < |input|
        invariant partLen <= i <= last && (|m| + i) % BLOCK == 0 && (last - i) % BLOCK == 0
        invariant state == Fold(INITIAL, m + input[..i])
        decreases |input| - i
      {
        Advance(m, input, i, last);
        Transform(input[i..i + 64]);
        i := (i + 64) % WRAP32;
      }
      Stopped(i, last, |input|);
    }

    /** `MD5Pad` */
    method Pad(ghost m: seq<Byte>)
      requires Holds(m)
      modifies this, buffer
      ensures Holds(Padded(m))
    {
      hide Fold, Tail, NoWrap;
      BufferedCount(count1, count0, |m|);
      var bits := LittleEndianBytes(count0) + LittleEndianBytes(count1);
      CountBytes(count1, count0, 8 * |m| % WRAP64);
      var idx := count0 / 8 % 64;
      var padLen := if idx < 56 then 56 - idx else 120 - idx;
      PaddingLength(|m|);
      var padding := PADDING[..padLen];
      assert padding == [0x80] + seq((55 - |m|) % BLOCK, i => 0);
      ShortEnough(|m| % BLOCK, padLen);
      Update(padding, m);
      ShortEnough(|m + padding| % BLOCK, 8);
      Update(bits, m + padding);
      assert m + padding + bits == Padded(m);
    }

    /** `MD5Final` */
    method Final(ghost m: seq<Byte>) returns (digest: seq<Byte>)
      requires Holds(m)
      modifies this, buffer
      ensures digest == Digest(m)
      ensures count0 == 0 && count1 == 0 && state == Regs(0, 0, 0, 0) && forall j :: 0 <= j < buffer.Length ==>
              buffer[j] == 0
    {
      hide Fold, Padded, LittleEndianBytes;
      Pad(m);
      digest := Output(state);
      count0, count1, state := 0, 0, Regs(0, 0, 0, 0);
      Store(0, seq(buffer.Length, j => 0));
    }
  }

  /** The loop of `MD5File`, and of the checksum in `ext2/ext2list.c`: however the reads cut the file, the
      digest is that of the whole. */
  method DigestChunks(pieces: seq<seq<Byte>>) returns (digest: seq<Byte>)
    requires forall k :: 0 <= k < |pieces| ==> |pieces[k]| <= WRAP32 - 64
    ensures digest == Digest(Concat(pieces))
  {
    hide Digest, Concat;
    ConcatNone(pieces);
    var context := new Context();
    context.Init();
    var k := 0;
    while k < |pieces|
      invariant 0 <= k <= |pieces| && context.Holds(Concat(pieces[..k])) && fresh(context) && fresh(context.buffer)
    {
      ShortEnough(|Concat(pieces[..k])| % BLOCK, |pieces[k]|);
      ConcatUpTo(pieces, k);
      context.Update(pieces[k], Concat(pieces[..k]));
      k := k + 1;
    }
    digest := context.Final(Concat(pieces));
  }

  lemma CountBytes(high: int, low: int, bits: int)
    requires 0 <= low < WRAP32 && 0 <= high < WRAP32 && high * WRAP32 + low == bits
    ensures 0 <= bits < WRAP64 && LengthBytes(bits) == LittleEndianBytes(low) + LittleEndianBytes(high)
  {
    hide LittleEndianBytes;
    QuotientOf(bits, WRAP32, high, low);
  }

  lemma PaddingLength(n: nat)
    ensures var idx := n % BLOCK; (if idx < 56 then 56 - idx else 120 - idx) == 1 + (55 - n) % BLOCK
  {
    var idx, q := n % BLOCK, n / BLOCK;
    assert 55 - n == 55 - idx - BLOCK * q;
    if idx < 56 {
      Multiple(55 - idx, -q);
    } else {
      Multiple(119 - idx, -q - 1);
    }
  }

  lemma Multiple(r: int, q: int)
    requires 0 <= r < BLOCK
    ensures (r + BLOCK * q) % BLOCK == r
  {
  }

  lemma BufferedCount(high: int, low: int, n: int)
    requires high * WRAP32 + low == 8 * n % WRAP64 && 0 <= n
    ensures low / 8 % 64 == n % BLOCK
  {
    var k := 8 * n / WRAP64;
    var j := k * 0x80_0000_0000_0000 + high * 0x80_0000;
    assert low == 8 * (n - 64 * j);
    QuotientOf(n - 64 * j, 64, n / 64 - j, n % 64);
  }

  lemma Further(fed: int, n: int, i: int, last: int)
    requires 0 <= i <= last <= n < last + BLOCK && (fed + i) % BLOCK == 0 && (last - i) % BLOCK == 0
    requires last + 63 < WRAP32 && (i + 63) % WRAP32 < n
    ensures i + 64 <= last && (i + 64) % WRAP32 == i + 64 && (fed + i + 64) % BLOCK == 0
            && (last - (i + 64)) % BLOCK == 0
  {
    assert (i + 63) % WRAP32 == i + 63;
  }

  lemma Advance(m: seq<Byte>, input: seq<Byte>, i: int, last: int)
    requires 0 <= i <= last <= |input| < last + BLOCK && (|m| + i) % BLOCK == 0 && (last - i) % BLOCK == 0
    requires last + 63 < WRAP32 && (i + 63) % WRAP32 < |input|
    ensures i + 64 <= last && (i + 64) % WRAP32 == i + 64 && (|m| + i + 64) % BLOCK == 0
            && (last - (i + 64)) % BLOCK == 0
    ensures Fold(INITIAL, m + input[..i + 64]) == Compress(Fold(INITIAL, m + input[..i]), input[i..i + 64])
  {
    hide Fold, Compress;
    Further(|m|, |input|, i, last);
    FoldOne(INITIAL, m + input[..i], input[i..i + 64]);
    assert m + input[..i] + input[i..i + 64] == m + input[..i + 64];
  }

  lemma Stopped(i: int, last: int, n: int)
    requires 0 <= i <= last <= n < last + BLOCK && last + 63 < WRAP32 && (last - i) % BLOCK == 0
            && (i + 63) % WRAP32 >= n
    ensures n < i + BLOCK
  {
  }

  lemma BitCount(n: int, added: int)
    ensures (8 * n % WRAP64 + 8 * added) % WRAP64 == 8 * (n + added) % WRAP64
  {
  }

  lemma Remainder(m: seq<Byte>, input: seq<Byte>, i: int)
    requires 0 <= i <= |input| < i + BLOCK && (|m| + i) % BLOCK == 0
    ensures Tail(m + input) == input[i..] && |m + input| % BLOCK == |input| - i
    ensures Fold(INITIAL, m + input) == Fold(INITIAL, m + input[..i])
  {
    hide Fold;
    assert m + input == (m + input[..i]) + input[i..];
    TailGrows(m + input[..i], input[i..]);
  }
}
