/** `shell/libcsapp/jenkins_hash.c`: lookup3, on a little-endian machine. */
module Jenkins {

  import opened Bytes
  import opened DivMod

  const WRAP: int := 0x1_0000_0000

  /** `uint32_t` */
  type U32 = x: int | 0 <= x < 0x1_0000_0000

  datatype Abc = Abc(a: U32, b: U32, c: U32)

  /** `+`, `-` and `^` of `uint32_t`. */
  function Plus(x: U32, y: U32): U32 {
    (x + y) % WRAP
  }

  function Minus(x: U32, y: U32): U32 {
    (x - y) % WRAP
  }

  function Xor(x: U32, y: U32): U32 {
    ThirtyTwo();
    XorBits(x, y, 32)
  }

  /** Exclusive or of two numbers of `n` bits. */
  function XorBits(x: int, y: int, n: nat): (z: int)
    requires 0 <= x < Pow2(n) && 0 <= y < Pow2(n)
    ensures 0 <= z < Pow2(n)
  {
    if n == 0 then 0 else 2 * XorBits(x / 2, y / 2, n - 1) + if x % 2 != y % 2 then 1 else 0
  }

  lemma {:induction false} XorBitsTwice(x: int, y: int, n: nat)
    requires 0 <= x < Pow2(n) && 0 <= y < Pow2(n)
    ensures XorBits(XorBits(x, y, n), y, n) == x
  {
    if n > 0 {
      XorBitsTwice(x / 2, y / 2, n - 1);
    }
  }

  /** Bit `i` of a number. */
  predicate Bit(x: int, i: nat) {
    x / Pow2(i) % 2 == 1
  }

  /** The bits of the exclusive or are those in which the two numbers differ. */
  lemma {:induction false} XorBit(x: nat, y: nat, n: nat, i: nat)
    requires x < Pow2(n) && y < Pow2(n) && i < n
    ensures Bit(XorBits(x, y, n), i) <==> Bit(x, i) != Bit(y, i)
  {
    hide Bit;
    var z := XorBits(x, y, n);
    if i > 0 {
      assert z / 2 == XorBits(x / 2, y / 2, n - 1);
      XorBit(x / 2, y / 2, n - 1, i - 1);
      HalfBit(x, i);
      HalfBit(y, i);
      HalfBit(z, i);
    } else {
      LowestBit(x);
      LowestBit(y);
      LowestBit(z);
    }
  }

  lemma LowestBit(x: nat)
    ensures Bit(x, 0) <==> x % 2 == 1
  {
  }

  lemma HalfBit(x: nat, i: nat)
    requires i > 0
    ensures Bit(x, i) <==> Bit(x / 2, i - 1)
  {
    DivTwice(x, 2, Pow2(i - 1));
  }

  lemma XorIs(x: U32, y: U32, i: nat)
    requires i < 32
    ensures Bit(Xor(x, y), i) <==> Bit(x, i) != Bit(y, i)
  {
    ThirtyTwo();
    XorBit(x, y, 32, i);
  }

  /** Rotating by `k` moves bit `i` to place `i + k`, modulo 32. */
  lemma RotIs(x: U32, k: nat, i: nat)
    requires 0 < k < 32 && i < 32
    ensures Bit(Rot(x, k), (i + k) % 32) <==> Bit(x, i)
  {
    hide Bit, Pow2;
    var m := 32 - k;
    var low, high := x % Pow2(m), x / Pow2(m);
    HighFits(x, k);
    if i < m {
      LowBit(x, m, i);
      AboveBit(low, high, k, i);
    } else {
      HighBit(x, m, i - m);
      BelowBit(low, high, k, i - m);
    }
  }

  lemma HighFits(x: U32, k: nat)
    requires 0 < k < 32
    ensures 0 <= x / Pow2(32 - k) < Pow2(k) && 0 <= x % Pow2(32 - k)
  {
    hide Pow2;
    var p, q := Pow2(k), Pow2(32 - k);
    Pow2Sum(k, 32 - k);
    ThirtyTwo();
    if x / q >= p {
      MulMonotone(p, x / q, q);
    }
  }

  /** The bits below `m` are those of the remainder ... */
  lemma LowBit(x: nat, m: nat, i: nat)
    requires i < m
    ensures Bit(x % Pow2(m), i) <==> Bit(x, i)
  {
    hide Pow2;
    TwiceProduct(i, m);
    var p, q := Pow2(i), Pow2(m - i - 1);
    ModDiv(x, p, 2 * q);
    ModEven(x / p, q);
  }

  lemma TwiceProduct(i: nat, m: nat)
    requires i < m
    ensures Pow2(m) == Pow2(i) * (2 * Pow2(m - i - 1))
  {
    Pow2Sum(i, m - i);
  }

  /** ... and those from `m` on are those of the quotient. */
  lemma HighBit(x: nat, m: nat, j: nat)
    ensures Bit(x / Pow2(m), j) <==> Bit(x, m + j)
  {
    Pow2Sum(m, j);
    DivTwice(x, Pow2(m), Pow2(j));
  }

  /** The same for a number put together from `low`, shifted by `k`, and `high`. */
  lemma AboveBit(low: nat, high: nat, k: nat, i: nat)
    requires high < Pow2(k)
    ensures Bit(low * Pow2(k) + high, i + k) <==> Bit(low, i)
  {
    hide Bit, Pow2;
    QuotientOf(low * Pow2(k) + high, Pow2(k), low, high);
    HighBit(low * Pow2(k) + high, k, i);
  }

  lemma BelowBit(low: nat, high: nat, k: nat, j: nat)
    requires high < Pow2(k) && j < k
    ensures Bit(low * Pow2(k) + high, j) <==> Bit(high, j)
  {
    hide Bit, Pow2;
    QuotientOf(low * Pow2(k) + high, Pow2(k), low, high);
    LowBit(low * Pow2(k) + high, k, j);
  }

  /** `rot`: the top `k` bits come in at the bottom. */
  function Rot(x: U32, k: nat): U32
    requires 0 < k < 32
  {
    RotFits(x, k);
    x % Pow2(32 - k) * Pow2(k) + x / Pow2(32 - k)
  }

  lemma RotFits(x: U32, k: nat)
    requires 0 < k < 32
    ensures 0 <= x % Pow2(32 - k) * Pow2(k) + x / Pow2(32 - k) < WRAP
  {
    Pow2Sum(k, 32 - k);
    ThirtyTwo();
    Swapped(x, Pow2(k), Pow2(32 - k));
  }

  lemma ThirtyTwo()
    ensures Pow2(32) == WRAP
  {
    assert Pow2(8) == 256;
    Pow2Sum(8, 8);
    Pow2Sum(16, 16);
  }

  lemma PlusMinus(x: U32, y: U32)
    ensures Minus(Plus(x, y), y) == x && Plus(Minus(x, y), y) == x
  {
  }

  lemma XorXor(x: U32, y: U32)
    ensures Xor(Xor(x, y), y) == x
  {
    ThirtyTwo();
    XorBitsTwice(x, y, 32);
  }

  // ---------------------------------------------------------------- the two mixers

  /** One third of `mix`, after which the registers change roles. */
  function MixStep(t: Abc, k: nat): Abc
    requires 0 < k < 32
  {
    Abc(t.b, Plus(t.c, t.b), Xor(Minus(t.a, t.c), Rot(t.c, k)))
  }

  function UnmixStep(t: Abc, k: nat): Abc
    requires 0 < k < 32
  {
    var c := Minus(t.b, t.a);
    Abc(Plus(Xor(t.c, Rot(c, k)), c), t.a, c)
  }

  lemma MixStepInverse(t: Abc, k: nat)
    requires 0 < k < 32
    ensures UnmixStep(MixStep(t, k), k) == t && MixStep(UnmixStep(t, k), k) == t
  {
    hide Plus, Minus, Xor, Rot;
    PlusMinus(t.c, t.b);
    XorXor(Minus(t.a, t.c), Rot(t.c, k));
    PlusMinus(t.a, t.c);
    var c := Minus(t.b, t.a);
    PlusMinus(t.b, t.a);
    PlusMinus(Xor(t.c, Rot(c, k)), c);
    XorXor(t.c, Rot(c, k));
  }

  /** `mix` */
  function Mix(t: Abc): Abc {
    MixStep(MixStep(MixStep(MixStep(MixStep(MixStep(t, 4), 6), 8), 16), 19), 4)
  }

  function Unmix(t: Abc): Abc {
    UnmixStep(UnmixStep(UnmixStep(UnmixStep(UnmixStep(UnmixStep(t, 4), 19), 16), 8), 6), 4)
  }

  /** `mix` is reversible. */
  lemma MixInverse(t: Abc)
    ensures Unmix(Mix(t)) == t && Mix(Unmix(t)) == t
  {
    hide MixStep, UnmixStep;
    var t1 := MixStep(t, 4);
    var t2 := MixStep(t1, 6);
    var t3 := MixStep(t2, 8);
    var t4 := MixStep(t3, 16);
    var t5 := MixStep(t4, 19);
    MixStepInverse(t, 4);
    MixStepInverse(t1, 6);
    MixStepInverse(t2, 8);
    MixStepInverse(t3, 16);
    MixStepInverse(t4, 19);
    MixStepInverse(t5, 4);
    var u1 := UnmixStep(t, 4);
    var u2 := UnmixStep(u1, 19);
    var u3 := UnmixStep(u2, 16);
    var u4 := UnmixStep(u3, 8);
    var u5 := UnmixStep(u4, 6);
    MixStepInverse(u1, 19);
    MixStepInverse(u2, 16);
    MixStepInverse(u3, 8);
    MixStepInverse(u4, 6);
    MixStepInverse(u5, 4);
  }

  /** One seventh of `final`, after which the registers change roles. */
  function FinalStep(t: Abc, k: nat): Abc
    requires 0 < k < 32
  {
    Abc(t.b, Minus(Xor(t.c, t.b), Rot(t.b, k)), t.a)
  }

  function UnfinalStep(t: Abc, k: nat): Abc
    requires 0 < k < 32
  {
    Abc(t.c, t.a, Xor(Plus(t.b, Rot(t.a, k)), t.a))
  }

  lemma FinalStepInverse(t: Abc, k: nat)
    requires 0 < k < 32
    ensures UnfinalStep(FinalStep(t, k), k) == t && FinalStep(UnfinalStep(t, k), k) == t
  {
    hide Plus, Minus, Xor, Rot;
    PlusMinus(Xor(t.c, t.b), Rot(t.b, k));
    XorXor(t.c, t.b);
    PlusMinus(t.b, Rot(t.a, k));
    XorXor(Plus(t.b, Rot(t.a, k)), t.a);
  }

  /** `final`: seven steps, and the registers back in their places. */
  function Final(t: Abc): Abc {
    var u := FinalStep(FinalStep(FinalStep(FinalStep(FinalStep(FinalStep(FinalStep(t, 14), 11), 25), 16), 4), 14), 24);
    Abc(u.c, u.a, u.b)
  }

  function Unfinal(t: Abc): Abc {
    var u := Abc(t.b, t.c, t.a);
    UnfinalStep(UnfinalStep(UnfinalStep(UnfinalStep(UnfinalStep(UnfinalStep(UnfinalStep(u, 24), 14), 4), 16), 25), 11),
        14)
  }

  /** So is `final`. */
  lemma FinalInverse(t: Abc)
    ensures Unfinal(Final(t)) == t && Final(Unfinal(t)) == t
  {
    hide FinalStep, UnfinalStep;
    var t1 := FinalStep(t, 14);
    var t2 := FinalStep(t1, 11);
    var t3 := FinalStep(t2, 25);
    var t4 := FinalStep(t3, 16);
    var t5 := FinalStep(t4, 4);
    var t6 := FinalStep(t5, 14);
    FinalStepInverse(t, 14);
    FinalStepInverse(t1, 11);
    FinalStepInverse(t2, 25);
    FinalStepInverse(t3, 16);
    FinalStepInverse(t4, 4);
    FinalStepInverse(t5, 14);
    FinalStepInverse(t6, 24);
    var u := Abc(t.b, t.c, t.a);
    var u1 := UnfinalStep(u, 24);
    var u2 := UnfinalStep(u1, 14);
    var u3 := UnfinalStep(u2, 4);
    var u4 := UnfinalStep(u3, 16);
    var u5 := UnfinalStep(u4, 25);
    var u6 := UnfinalStep(u5, 11);
    FinalStepInverse(u, 24);
    FinalStepInverse(u1, 14);
    FinalStepInverse(u2, 4);
    FinalStepInverse(u3, 16);
    FinalStepInverse(u4, 25);
    FinalStepInverse(u5, 11);
    FinalStepInverse(u6, 14);
  }

  /** The macro `mix`, line by line. */
  method MixLines(t: Abc) returns (t': Abc)
    ensures t' == Mix(t)
  {
    hide Plus, Minus, Xor, Rot;
    var a, b, c := t.a, t.b, t.c;
    a := Minus(a, c);
    a := Xor(a, Rot(c, 4));
    c := Plus(c, b);
    b := Minus(b, a);
    b := Xor(b, Rot(a, 6));
    a := Plus(a, c);
    c := Minus(c, b);
    c := Xor(c, Rot(b, 8));
    b := Plus(b, a);
    a := Minus(a, c);
    a := Xor(a, Rot(c, 16));
    c := Plus(c, b);
    b := Minus(b, a);
    b := Xor(b, Rot(a, 19));
    a := Plus(a, c);
    c := Minus(c, b);
    c := Xor(c, Rot(b, 4));
    b := Plus(b, a);
    t' := Abc(a, b, c);
  }

  /** The macro `final`, line by line. */
  method FinalLines(t: Abc) returns (t': Abc)
    ensures t' == Final(t)
  {
    hide Plus, Minus, Xor, Rot;
    var a, b, c := t.a, t.b, t.c;
    c := Xor(c, b);
    c := Minus(c, Rot(b, 14));
    a := Xor(a, c);
    a := Minus(a, Rot(c, 11));
    b := Xor(b, a);
    b := Minus(b, Rot(a, 25));
    c := Xor(c, b);
    c := Minus(c, Rot(b, 16));
    a := Xor(a, c);
    a := Minus(a, Rot(c, 4));
    b := Xor(b, a);
    b := Minus(b, Rot(a, 14));
    c := Xor(c, b);
    c := Minus(c, Rot(b, 24));
    t' := Abc(a, b, c);
  }

  // ---------------------------------------------------------------- the hash

  /** Twelve bytes added to the registers. */
  function Feed(t: Abc, k: seq<Byte>): Abc
    requires |k| >= 12
  {
    Abc(Plus(t.a, LittleEndian(k, 0)), Plus(t.b, LittleEndian(k, 4)), Plus(t.c, LittleEndian(k, 8)))
  }

  function Padded(k: seq<Byte>): (p: seq<Byte>)
    requires |k| <= 12
    ensures |p| == 12
  {
    k + seq(12 - |k|, i => 0)
  }

  /** The registers after a key: twelve bytes at a time, the last one to twelve padded with zeros. */
  function Run(t: Abc, k: seq<Byte>): Abc
    decreases |k|
  {
    if |k| > 12 then Run(Mix(Feed(t, k)), k[12..])
    else if k == [] then t
    else Final(Feed(t, Padded(k)))
  }

  function Start(length: int, initval: U32): Abc {
    var v := Plus(Plus(0xdeadbeef, length % WRAP), initval);
    Abc(v, v, v)
  }

  /** The registers at the end; the hash is the last of them. */
  function Registers(key: seq<Byte>, initval: U32): Abc {
    Run(Start(|key|, initval), key)
  }

  function Hash(key: seq<Byte>, initval: U32): U32 {
    Registers(key, initval).c
  }

  // ---------------------------------------------------------------- chunks

  /** The registers before twelve bytes can be recovered from those after. */
  function Unfeed(t: Abc, k: seq<Byte>): Abc
    requires |k| >= 12
  {
    Abc(Minus(t.a, LittleEndian(k, 0)), Minus(t.b, LittleEndian(k, 4)), Minus(t.c, LittleEndian(k, 8)))
  }

  lemma FeedInverse(t: Abc, k: seq<Byte>)
    requires |k| >= 12
    ensures Unfeed(Feed(t, k), k) == t
  {
    hide Plus, Minus;
    PlusMinus(t.a, LittleEndian(k, 0));
    PlusMinus(t.b, LittleEndian(k, 4));
    PlusMinus(t.c, LittleEndian(k, 8));
  }

  lemma PlusInjective(x: U32, y: U32, z: U32)
    requires Plus(x, y) == Plus(x, z)
    ensures y == z
  {
  }

  /** Different bytes leave different registers. */
  lemma FeedDiffers(t: Abc, k: seq<Byte>, l: seq<Byte>)
    requires |k| >= 12 && |l| >= 12 && Feed(t, k) == Feed(t, l)
    ensures k[..12] == l[..12]
  {
    hide Plus;
    PlusInjective(t.a, LittleEndian(k, 0), LittleEndian(l, 0));
    PlusInjective(t.b, LittleEndian(k, 4), LittleEndian(l, 4));
    PlusInjective(t.c, LittleEndian(k, 8), LittleEndian(l, 8));
    SameBytes(k, l, 0);
    SameBytes(k, l, 4);
    SameBytes(k, l, 8);
  }

  lemma SameBytes(k: seq<Byte>, l: seq<Byte>, o: int)
    requires 0 <= o && o + 4 <= |k| && o + 4 <= |l| && LittleEndian(k, o) == LittleEndian(l, o)
    ensures k[o] == l[o] && k[o + 1] == l[o + 1] && k[o + 2] == l[o + 2] && k[o + 3] == l[o + 3]
  {
    Digits(k[o], k[o + 1], k[o + 2], k[o + 3], LittleEndian(k, o));
    Digits(l[o], l[o + 1], l[o + 2], l[o + 3], LittleEndian(l, o));
  }

  lemma Digits(b0: Byte, b1: Byte, b2: Byte, b3: Byte, w: int)
    requires w == b0 + 0x100 * b1 + 0x1_0000 * b2 + 0x100_0000 * b3
    ensures w % 0x100 == b0 && w / 0x100 % 0x100 == b1 && w / 0x1_0000 % 0x100 == b2 && w / 0x100_0000 == b3
    ensures w % 0x1_0000 == b0 + 0x100 * b1 && w % 0x100_0000 == b0 + 0x100 * b1 + 0x1_0000 * b2
  {
    assert w / 0x1_0000 == b2 + 0x100 * b3;
    assert w / 0x100 == b1 + 0x100 * (b2 + 0x100 * b3);
  }

  /** Running over the same bytes is injective. */
  lemma {:induction false} RunInjective(t: Abc, u: Abc, k: seq<Byte>)
    requires Run(t, k) == Run(u, k)
    ensures t == u
    decreases |k|
  {
    hide Feed, Mix, Final;
    if |k| > 12 {
      RunInjective(Mix(Feed(t, k)), Mix(Feed(u, k)), k[12..]);
      MixInverse(Feed(t, k));
      MixInverse(Feed(u, k));
      FeedInverse(t, k);
      FeedInverse(u, k);
    } else if k != [] {
      FinalInverse(Feed(t, Padded(k)));
      FinalInverse(Feed(u, Padded(k)));
      FeedInverse(t, Padded(k));
      FeedInverse(u, Padded(k));
    }
  }

  lemma {:induction false} RunDiffers(t: Abc, k: seq<Byte>, l: seq<Byte>, j: nat)
    requires |k| == |l| && 12 * j < |k| && k[..12 * j] == l[..12 * j]
    requires 12 * j + 12 < |k| ==> k[12 * j + 12..] == l[12 * j + 12..]
    requires Run(t, k) == Run(t, l)
    ensures k == l
    decreases |k|
  {
    hide Feed, Mix, Final;
    if |k| <= 12 {
      FinalInverse(Feed(t, Padded(k)));
      FinalInverse(Feed(t, Padded(l)));
      FeedDiffers(t, Padded(k), Padded(l));
      assert k == Padded(k)[..|k|] && l == Padded(l)[..|k|];
      assert Padded(k)[..12] == Padded(k) && Padded(l)[..12] == Padded(l);
    } else if j == 0 {
      assert k[12..] == l[12..];
      RunInjective(Mix(Feed(t, k)), Mix(Feed(t, l)), k[12..]);
      MixInverse(Feed(t, k));
      MixInverse(Feed(t, l));
      FeedDiffers(t, k, l);
      assert k == k[..12] + k[12..] && l == l[..12] + l[12..];
    } else {
      SameFeed(t, k, l);
      assert k[12..][..12 * (j - 1)] == k[..12 * j][12..] && l[12..][..12 * (j - 1)] == l[..12 * j][12..];
      assert 12 * j + 12 < |k| ==> k[12..][12 * j..] == k[12 * j + 12..] && l[12..][12 * j..] == l[12 * j + 12..];
      RunDiffers(Mix(Feed(t, k)), k[12..], l[12..], j - 1);
      assert k == k[..12 * j][..12] + k[12..] && l == l[..12 * j][..12] + l[12..];
    }
  }

  lemma SameFeed(t: Abc, k: seq<Byte>, l: seq<Byte>)
    requires |k| >= 12 && |l| >= 12 && forall i :: 0 <= i < 12 ==> k[i] == l[i]
    ensures Feed(t, k) == Feed(t, l)
  {
  }

  /** Keys of the same length that differ, but only within one twelve-byte chunk, end in different
      registers. */
  lemma OneChunk(k: seq<Byte>, l: seq<Byte>, j: nat, initval: U32)
    requires |k| == |l| && k != l && 12 * j < |k| && k[..12 * j] == l[..12 * j]
    requires 12 * j + 12 < |k| ==> k[12 * j + 12..] == l[12 * j + 12..]
    ensures Registers(k, initval) != Registers(l, initval)
  {
    if Registers(k, initval) == Registers(l, initval) {
      RunDiffers(Start(|k|, initval), k, l, j);
    }
  }

  // ---------------------------------------------------------------- words and padding

  lemma PlusZero(x: U32)
    ensures Plus(x, 0) == x
  {
  }

  /** Two additions of parts of a word amount to adding the word. */
  lemma PlusTwo(x: U32, y: U32, z: U32)
    requires y + z < WRAP
    ensures Plus(Plus(x, y), z) == Plus(x, y + z)
  {
  }

  /** The word at `o` of the last bytes of a key, padded with zeros, made of the bytes that are there. */
  lemma LastBytes(k: seq<Byte>, o: int)
    requires 0 < |k| <= 12 && (o == 0 || o == 4 || o == 8)
    ensures var w := LittleEndian(Padded(k), o);
            && (|k| <= o ==> w == 0)
            && (|k| == o + 1 ==> w == k[o])
            && (|k| == o + 2 ==> w == k[o] as int + 0x100 * k[o + 1] as int)
            && (|k| == o + 3 ==> w == k[o] as int + 0x100 * k[o + 1] as int + 0x1_0000 * k[o + 2] as int)
            && (|k| >= o + 4 ==> w == LittleEndian(k, o))
  {
  }

  /** The bytes of the words that `n` bytes take up. */
  function WholeWords(n: int): (m: int)
    ensures n <= m < n + 4 && m % 4 == 0
  {
    (n + 3) / 4 * 4
  }

  /** The same word, cut out of a whole word of memory. */
  lemma LastWord(mem: seq<Byte>, off: int, n: int, o: int)
    requires 0 <= off && 0 < n <= 12 && off + WholeWords(n) <= |mem| && (o == 0 || o == 4 || o == 8)
    ensures var w := LittleEndian(Padded(mem[off..off + n]), o);
            && (n <= o ==> w == 0)
            && (n > o ==> off + o + 4 <= |mem|)
            && (n == o + 1 ==> w == LittleEndian(mem, off + o) % 0x100)
            && (n == o + 2 ==> w == LittleEndian(mem, off + o) % 0x1_0000)
            && (n == o + 3 ==> w == LittleEndian(mem, off + o) % 0x100_0000)
            && (n >= o + 4 ==> w == LittleEndian(mem, off + o))
  {
    LastBytes(mem[off..off + n], o);
    if n > o {
      Digits(mem[off + o], mem[off + o + 1], mem[off + o + 2], mem[off + o + 3], LittleEndian(mem, off + o));
    }
  }

  /** The bytes from `off` on in memory, as the first twelve of the rest of the key. */
  lemma ChunkFed(mem: seq<Byte>, off: int, length: int, t: Abc)
    requires 0 <= off && off + 12 < length <= |mem|
    ensures Feed(t, mem[off..length]) == Abc(Plus(t.a, LittleEndian(mem, off)), Plus(t.b, LittleEndian(mem, off + 4)),
            Plus(t.c, LittleEndian(mem, off + 8)))
  {
    hide Plus;
  }

  lemma WholeChunk(mem: seq<Byte>, off: int, length: int, t: Abc)
    requires 0 <= off && off + 12 < length <= |mem|
    ensures Run(t, mem[off..length]) ==
            Run(Mix(Abc(Plus(t.a, LittleEndian(mem, off)), Plus(t.b, LittleEndian(mem, off + 4)),
                    Plus(t.c, LittleEndian(mem, off + 8)))), mem[off + 12..length])
  {
    hide Plus, Mix, Final, Feed, Padded, LittleEndian;
    ChunkFed(mem, off, length, t);
    assert mem[off..length][12..] == mem[off + 12..length];
  }

  lemma WholeLess(n: int)
    ensures WholeWords(n - 12) == WholeWords(n) - 12
  {
  }

  lemma LastChunk(mem: seq<Byte>, off: int, length: int, t: Abc)
    requires 0 <= off <= length <= |mem| && length - off <= 12
    ensures Run(t, mem[off..length]) == if off == length then t else Final(Feed(t, Padded(mem[off..length])))
  {
    hide Feed, Final, Padded, Mix;
  }

  // ---------------------------------------------------------------- jenkins_hash on aligned keys

  /** `jenkins_hash` on a key that starts at a multiple of four.  It reads whole words, the last of which may reach
      up to three bytes past the key, but not past its own end. */
  method HashAligned(mem: seq<Byte>, length: nat, initval: U32) returns (h: U32)
    requires WholeWords(length) <= |mem|
    ensures h == Hash(mem[..length], initval)
  {
    hide Plus, Mix, Final, Feed, Run, Start, WholeWords, LittleEndian, Padded;
    ghost var key := mem[..length];
    var t := Start(length, initval);
    ghost var t0 := t;
    var off, n := 0, length;
    assert mem[0..length] == key;
    while n > 12
      invariant 0 <= off && 0 <= n && off + n == length && off + WholeWords(n) == WholeWords(length)
      invariant Run(t, mem[off..length]) == Run(t0, key) && (length > 0 ==> n > 0)
    {
      WholeChunk(mem, off, length, t);
      WholeLess(n);
      t := Abc(Plus(t.a, LittleEndian(mem, off)), Plus(t.b, LittleEndian(mem, off + 4)),
          Plus(t.c, LittleEndian(mem, off + 8)));
      t := MixLines(t);
      n := n - 12;
      off := off + 12;
    }
    LastChunk(mem, off, length, t);
    if n == 0 {
      return t.c;
    }
    t := TailAligned(t, mem, off, n);
    t := FinalLines(t);
    h := t.c;
  }

  method TailAligned(t: Abc, mem: seq<Byte>, off: nat, n: nat) returns (t': Abc)
    requires 0 < n <= 12 && off + WholeWords(n) <= |mem|
    ensures t' == Feed(t, Padded(mem[off..off + n]))
  {
    hide Plus, LittleEndian, Padded;
    LastWord(mem, off, n, 0);
    LastWord(mem, off, n, 4);
    LastWord(mem, off, n, 8);
    PlusZero(t.b);
    PlusZero(t.c);
    var a, b, c := t.a, t.b, t.c;
    if n == 12 {
      c := Plus(c, LittleEndian(mem, off + 8));
      b := Plus(b, LittleEndian(mem, off + 4));
      a := Plus(a, LittleEndian(mem, off));
    } else if n == 11 {
      c := Plus(c, LittleEndian(mem, off + 8) % 0x100_0000);
      b := Plus(b, LittleEndian(mem, off + 4));
      a := Plus(a, LittleEndian(mem, off));
    } else if n == 10 {
      c := Plus(c, LittleEndian(mem, off + 8) % 0x1_0000);
      b := Plus(b, LittleEndian(mem, off + 4));
      a := Plus(a, LittleEndian(mem, off));
    } else if n == 9 {
      c := Plus(c, LittleEndian(mem, off + 8) % 0x100);
      b := Plus(b, LittleEndian(mem, off + 4));
      a := Plus(a, LittleEndian(mem, off));
    } else if n == 8 {
      b := Plus(b, LittleEndian(mem, off + 4));
      a := Plus(a, LittleEndian(mem, off));
    } else if n == 7 {
      b := Plus(b, LittleEndian(mem, off + 4) % 0x100_0000);
      a := Plus(a, LittleEndian(mem, off));
    } else if n == 6 {
      b := Plus(b, LittleEndian(mem, off + 4) % 0x1_0000);
      a := Plus(a, LittleEndian(mem, off));
    } else if n == 5 {
      b := Plus(b, LittleEndian(mem, off + 4) % 0x100);
      a := Plus(a, LittleEndian(mem, off));
    } else if n == 4 {
      a := Plus(a, LittleEndian(mem, off));
    } else if n == 3 {
      a := Plus(a, LittleEndian(mem, off) % 0x100_0000);
    } else if n == 2 {
      a := Plus(a, LittleEndian(mem, off) % 0x1_0000);
    } else if n == 1 {
      a := Plus(a, LittleEndian(mem, off) % 0x100);
    }
    t' := Abc(a, b, c);
  }

  // ---------------------------------------------------------------- keys at even addresses

  /** A 16-bit word. */
  function Half(mem: seq<Byte>, o: int): (w: int)
    requires 0 <= o <= |mem| - 2
    ensures 0 <= w < 0x1_0000
  {
    mem[o] as int + 0x100 * mem[o + 1] as int
  }

  lemma TwoHalves(mem: seq<Byte>, o: int)
    requires 0 <= o <= |mem| - 4
    ensures LittleEndian(mem, o) == Half(mem, o) + 0x1_0000 * Half(mem, o + 2)
  {
  }

  /** `jenkins_hash` on a key that starts at an even address: 16 bits at a time. */
  method HashEven(key: seq<Byte>, initval: U32) returns (h: U32)
    ensures h == Hash(key, initval)
  {
    hide Plus, Mix, Final, Feed, Run, Start, Padded, LittleEndian, Half;
    var t := Start(|key|, initval);
    ghost var t0 := t;
    var off, n := 0, |key|;
    assert key[0..|key|] == key;
    while n > 12
      invariant 0 <= off && 0 <= n && off + n == |key| && Run(t, key[off..|key|]) == Run(t0, key)
                && (|key| > 0 ==> n > 0)
    {
      WholeChunk(key, off, |key|, t);
      TwoHalves(key, off);
      TwoHalves(key, off + 4);
      TwoHalves(key, off + 8);
      t := Abc(Plus(t.a, Half(key, off) + 0x1_0000 * Half(key, off + 2)),
               Plus(t.b, Half(key, off + 4) + 0x1_0000 * Half(key, off + 6)),
               Plus(t.c, Half(key, off + 8) + 0x1_0000 * Half(key, off + 10)));
      t := MixLines(t);
      n := n - 12;
      off := off + 12;
    }
    LastChunk(key, off, |key|, t);
    if n == 0 {
      return t.c;
    }
    t := TailEven(t, key[off..]);
    t := FinalLines(t);
    h := t.c;
  }

  /** The cases fall through as in the source. */
  method TailEven(t: Abc, k: seq<Byte>) returns (t': Abc)
    requires 0 < |k| <= 12
    ensures t' == Feed(t, Padded(k))
  {
    var c := LaneEven(t.c, k, 8);
    var b := LaneEven(t.b, k, 4);
    var a := LaneEven(t.a, k, 0);
    t' := Abc(a, b, c);
  }

  /** What the cases do to one register. */
  method LaneEven(x: U32, k: seq<Byte>, o: int) returns (y: U32)
    requires 0 < |k| <= 12 && (o == 0 || o == 4 || o == 8)
    ensures y == Plus(x, LittleEndian(Padded(k), o))
  {
    hide Plus, Padded, LittleEndian;
    LastBytes(k, o);
    PlusZero(x);
    y := x;
    if |k| >= o + 4 {
      TwoHalves(k, o);
      y := Plus(y, Half(k, o) + 0x1_0000 * Half(k, o + 2));
    } else if |k| == o + 1 {
      y := Plus(y, k[o]);
    } else if |k| > o {
      if |k| == o + 3 {
        PlusTwo(x, 0x1_0000 * k[o + 2] as int, Half(k, o));
        y := Plus(y, 0x1_0000 * k[o + 2] as int);
      }
      y := Plus(y, Half(k, o));
    }
  }

  // ---------------------------------------------------------------- keys anywhere

  /** Four additions of the bytes of a word amount to adding the word. */
  lemma PlusFour(x: U32, b0: Byte, b1: Byte, b2: Byte, b3: Byte)
    ensures var y := Plus(Plus(Plus(Plus(x, b0), 0x100 * b1 as int), 0x1_0000 * b2 as int), 0x100_0000 * b3 as int);
            y == Plus(x, b0 as int + 0x100 * b1 as int + 0x1_0000 * b2 as int + 0x100_0000 * b3 as int)
    ensures var y := Plus(Plus(Plus(Plus(x, 0x100_0000 * b3 as int), 0x1_0000 * b2 as int), 0x100 * b1 as int), b0);
            y == Plus(x, b0 as int + 0x100 * b1 as int + 0x1_0000 * b2 as int + 0x100_0000 * b3 as int)
  {
    hide Plus;
    PlusTwo(x, b0, 0x100 * b1 as int);
    PlusTwo(x, b0 as int + 0x100 * b1 as int, 0x1_0000 * b2 as int);
    PlusTwo(x, b0 as int + 0x100 * b1 as int + 0x1_0000 * b2 as int, 0x100_0000 * b3 as int);
    PlusTwo(x, 0x100_0000 * b3 as int, 0x1_0000 * b2 as int);
    PlusTwo(x, 0x100_0000 * b3 as int + 0x1_0000 * b2 as int, 0x100 * b1 as int);
    PlusTwo(x, 0x100_0000 * b3 as int + 0x1_0000 * b2 as int + 0x100 * b1 as int, b0);
  }

  /** A register after four bytes were added to it one at a time. */
  method AddBytes(x: U32, k: seq<Byte>, o: int) returns (y: U32)
    requires 0 <= o <= |k| - 4
    ensures y == Plus(x, LittleEndian(k, o))
  {
    hide Plus;
    PlusFour(x, k[o], k[o + 1], k[o + 2], k[o + 3]);
    y := Plus(x, k[o]);
    y := Plus(y, 0x100 * k[o + 1] as int);
    y := Plus(y, 0x1_0000 * k[o + 2] as int);
    y := Plus(y, 0x100_0000 * k[o + 3] as int);
  }

  /** `jenkins_hash` on any other key: a byte at a time. */
  method HashBytes(key: seq<Byte>, initval: U32) returns (h: U32)
    ensures h == Hash(key, initval)
  {
    hide Plus, Mix, Final, Feed, Run, Start, Padded, LittleEndian;
    var t := Start(|key|, initval);
    ghost var t0 := t;
    var off, n := 0, |key|;
    assert key[0..|key|] == key;
    while n > 12
      invariant 0 <= off && 0 <= n && off + n == |key| && Run(t, key[off..|key|]) == Run(t0, key)
                && (|key| > 0 ==> n > 0)
    {
      WholeChunk(key, off, |key|, t);
      var a := AddBytes(t.a, key, off);
      var b := AddBytes(t.b, key, off + 4);
      var c := AddBytes(t.c, key, off + 8);
      t := MixLines(Abc(a, b, c));
      n := n - 12;
      off := off + 12;
    }
    LastChunk(key, off, |key|, t);
    if n == 0 {
      return t.c;
    }
    t := TailBytes(t, key[off..]);
    t := FinalLines(t);
    h := t.c;
  }

  /** The last bytes, highest first; the cases fall through. */
  method TailBytes(t: Abc, k: seq<Byte>) returns (t': Abc)
    requires 0 < |k| <= 12
    ensures t' == Feed(t, Padded(k))
  {
    var c := LaneBytes(t.c, k, 8);
    var b := LaneBytes(t.b, k, 4);
    var a := LaneBytes(t.a, k, 0);
    t' := Abc(a, b, c);
  }

  method LaneBytes(x: U32, k: seq<Byte>, o: int) returns (y: U32)
    requires 0 < |k| <= 12 && (o == 0 || o == 4 || o == 8)
    ensures y == Plus(x, LittleEndian(Padded(k), o))
  {
    hide Plus;
    ghost var p := Padded(k);
    PlusFour(x, p[o], p[o + 1], p[o + 2], p[o + 3]);
    y := x;
    PlusZero(y);
    if |k| >= o + 4 {
      y := Plus(y, 0x100_0000 * k[o + 3] as int);
    }
    PlusZero(y);
    if |k| >= o + 3 {
      y := Plus(y, 0x1_0000 * k[o + 2] as int);
    }
    PlusZero(y);
    if |k| >= o + 2 {
      y := Plus(y, 0x100 * k[o + 1] as int);
    }
    PlusZero(y);
    if |k| >= o + 1 {
      y := Plus(y, k[o]);
    }
  }

  /** `jenkins_hash`: the result does not depend on where the key lies, nor on what lies behind it. */
  method JenkinsHash(address: nat, mem: seq<Byte>, length: nat, initval: U32) returns (h: U32)
    requires if address % 4 == 0 then WholeWords(length) <= |mem| else length <= |mem|
    ensures h == Hash(mem[..length], initval)
  {
    if address % 4 == 0 {
      h := HashAligned(mem, length, initval);
    } else if address % 2 == 0 {
      h := HashEven(mem[..length], initval);
    } else {
      h := HashBytes(mem[..length], initval);
    }
  }

  // ---------------------------------------------------------------- jenkins_hash32

  /** The bytes of an array of words in memory. */
  function WordsBytes(k: seq<U32>): (b: seq<Byte>)
    ensures |b| == 4 * |k|
  {
    if k == [] then [] else LittleEndianBytes(k[0]) + WordsBytes(k[1..])
  }

  lemma {:induction false} WordsBytesAt(k: seq<U32>, j: nat)
    requires j < |k|
    ensures LittleEndian(WordsBytes(k), 4 * j) == k[j]
    decreases k
  {
    hide LittleEndianBytes;
    if j > 0 {
      WordsBytesAt(k[1..], j - 1);
      assert WordsBytes(k)[4..] == WordsBytes(k[1..]);
    }
  }

  lemma {:induction false} WordsBytesDrop(k: seq<U32>, j: nat)
    requires j <= |k|
    ensures WordsBytes(k[j..]) == WordsBytes(k)[4 * j..]
  {
    hide LittleEndianBytes;
    if j == 0 {
      assert k[0..] == k && WordsBytes(k)[0..] == WordsBytes(k);
    } else {
      WordsBytesDrop(k[1..], j - 1);
      assert k[1..][j - 1..] == k[j..];
      assert WordsBytes(k)[4..] == WordsBytes(k[1..]);
      assert WordsBytes(k)[4..][4 * (j - 1)..] == WordsBytes(k)[4 * j..];
    }
  }

  /** `jenkins_hash32` is `jenkins_hash` on the same memory. */
  method Hash32(k: seq<U32>, initval: U32) returns (h: U32)
    ensures h == Hash(WordsBytes(k), initval)
  {
    hide Plus, Mix, Final, Feed, Run, LittleEndian, WordsBytes;
    var v := Plus(Plus(0xdeadbeef, |k| % WRAP * 4 % WRAP), initval);
    BytesLength(|k|);
    var t := Abc(v, v, v);
    ghost var t0 := t;
    var off, length := 0, |k|;
    assert k[0..] == k;
    while length > 3
      invariant 0 <= off && 0 <= length && off + length == |k| && Run(t, WordsBytes(k[off..])) == Run(t0, WordsBytes(k))
      invariant |k| > 0 ==> length > 0
    {
      RunWords(k[off..], t);
      assert k[off..][3..] == k[off + 3..];
      t := Abc(Plus(t.a, k[off]), Plus(t.b, k[off + 1]), Plus(t.c, k[off + 2]));
      t := MixLines(t);
      length := length - 3;
      off := off + 3;
    }
    RunLastWords(k[off..], t);
    if length == 0 {
      return t.c;
    }
    var a, b, c := t.a, t.b, t.c;
    if length >= 3 {
      c := Plus(c, k[off + 2]);
    }
    if length >= 2 {
      b := Plus(b, k[off + 1]);
    }
    a := Plus(a, k[off]);
    t := FinalLines(Abc(a, b, c));
    h := t.c;
  }

  lemma BytesLength(n: nat)
    ensures n % WRAP * 4 % WRAP == 4 * n % WRAP
  {
  }

  lemma RunWords(k: seq<U32>, t: Abc)
    requires |k| > 3
    ensures Run(t, WordsBytes(k)) == Run(Mix(Abc(Plus(t.a, k[0]), Plus(t.b, k[1]), Plus(t.c, k[2]))),
            WordsBytes(k[3..]))
  {
    hide Plus, Mix, Final, Feed, LittleEndian, WordsBytes;
    WordsFeed(k, t);
    WordsBytesDrop(k, 3);
  }

  lemma RunLastWords(k: seq<U32>, t: Abc)
    requires |k| <= 3
    ensures k == [] ==> Run(t, WordsBytes(k)) == t
    ensures k != [] ==>
              Run(t, WordsBytes(k)) ==
              Final(Abc(Plus(t.a, k[0]), if |k| >= 2 then Plus(t.b, k[1]) else t.b, if |k| >= 3 then Plus(t.c, k[2])
                  else t.c))
  {
    hide Plus, Mix, Final, Feed, LittleEndian, WordsBytes;
    if k != [] {
      LastWords(k, t);
    }
  }

  lemma WordsFeed(k: seq<U32>, t: Abc)
    requires |k| >= 3
    ensures Feed(t, WordsBytes(k)) == Abc(Plus(t.a, k[0]), Plus(t.b, k[1]), Plus(t.c, k[2]))
  {
    hide Plus, LittleEndian, WordsBytes;
    WordsBytesAt(k, 0);
    WordsBytesAt(k, 1);
    WordsBytesAt(k, 2);
  }

  lemma LastWords(k: seq<U32>, t: Abc)
    requires 0 < |k| <= 3
    ensures Feed(t, Padded(WordsBytes(k))) ==
            Abc(Plus(t.a, k[0]), if |k| >= 2 then Plus(t.b, k[1]) else t.b, if |k| >= 3 then Plus(t.c, k[2]) else t.c)
  {
    hide Plus, LittleEndian, WordsBytes;
    PlusZero(t.b);
    PlusZero(t.c);
    PaddedWord(k, 0);
    PaddedWord(k, 1);
    PaddedWord(k, 2);
  }

  lemma PaddedWord(k: seq<U32>, j: int)
    requires 0 < |k| <= 3 && 0 <= j < 3
    ensures LittleEndian(Padded(WordsBytes(k)), 4 * j) == if j < |k| then k[j] else 0
  {
    hide WordsBytes;
    if j < |k| {
      WordsBytesAt(k, j);
    }
  }
}
