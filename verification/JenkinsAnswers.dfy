/** The known answer of lookup3, step by step: the hash of "Four score and seven years ago" with seed 0. */
module JenkinsAnswers {
  import opened Bytes
  import opened DivMod
  import opened Jenkins

  /** Exclusive or of numbers put together from a high part and `m` low bits. */
  lemma {:induction false} XorSplit(x: nat, x0: nat, y: nat, y0: nat, n: nat, m: nat)
    requires x < Pow2(n) && y < Pow2(n) && x0 < Pow2(m) && y0 < Pow2(m)
    ensures 0 <= x * Pow2(m) + x0 < Pow2(n + m) && 0 <= y * Pow2(m) + y0 < Pow2(n + m)
    ensures XorBits(x * Pow2(m) + x0, y * Pow2(m) + y0, n + m) == XorBits(x, y, n) * Pow2(m) + XorBits(x0, y0, m)
    decreases m, 1
  {
    Joined(x, x0, n, m);
    Joined(y, y0, n, m);
    if m > 0 {
      XorSplitMore(x, x0, y, y0, n, m);
    }
  }

  lemma {:induction false} XorSplitMore(x: nat, x0: nat, y: nat, y0: nat, n: nat, m: nat)
    requires m > 0 && x < Pow2(n) && y < Pow2(n) && x0 < Pow2(m) && y0 < Pow2(m)
    requires 0 <= x * Pow2(m) + x0 < Pow2(n + m) && 0 <= y * Pow2(m) + y0 < Pow2(n + m)
    ensures XorBits(x * Pow2(m) + x0, y * Pow2(m) + y0, n + m) == XorBits(x, y, n) * Pow2(m) + XorBits(x0, y0, m)
    decreases m, 0
  {
    hide Pow2, XorBits;
    var p := Pow2(m - 1);
    HalfFits(m, x0, y0);
    XorSplit(x, x0 / 2, y, y0 / 2, n, m - 1);
    HalfOf(x, x0, p);
    HalfOf(y, y0, p);
    BitMore(x * (2 * p) + x0, y * (2 * p) + y0, n + m);
    BitMore(x0, y0, m);
    Doubled(XorBits(x, y, n), p);
  }

  lemma HalfFits(m: nat, x: nat, y: nat)
    requires m > 0 && x < Pow2(m) && y < Pow2(m)
    ensures Pow2(m) == 2 * Pow2(m - 1) && x / 2 < Pow2(m - 1) && y / 2 < Pow2(m - 1)
  {
  }

  lemma Joined(x: nat, x0: nat, n: nat, m: nat)
    requires x < Pow2(n) && x0 < Pow2(m)
    ensures 0 <= x * Pow2(m) + x0 < Pow2(n + m)
  {
    hide Pow2;
    Pow2Sum(n, m);
    MulMonotone(x, Pow2(n) - 1, Pow2(m));
    MulMonotone(0, x, Pow2(m));
    Doubled(Pow2(n), Pow2(m));
  }

  lemma HalfOf(x: nat, x0: nat, p: nat)
    ensures (x * (2 * p) + x0) / 2 == x * p + x0 / 2 && (x * (2 * p) + x0) % 2 == x0 % 2
  {
    Doubled(x, p);
  }

  lemma Doubled(x: int, p: int)
    ensures x * (2 * p) == 2 * (x * p) && (x - 1) * p == x * p - p
  {
  }

  /** Exclusive or of the four lowest bits, and of two bytes. */
  function XorFour(x: int, y: int): int {
    (if x % 2 != y % 2 then 1 else 0) + (if x / 2 % 2 != y / 2 % 2 then 2 else 0)
    + (if x / 4 % 2 != y / 4 % 2 then 4 else 0) + (if x / 8 % 2 != y / 8 % 2 then 8 else 0)
  }

  function XorByte(x: Byte, y: Byte): int {
    (if x % 2 != y % 2 then 1 else 0) + (if x / 2 % 2 != y / 2 % 2 then 2 else 0)
    + (if x / 4 % 2 != y / 4 % 2 then 4 else 0) + (if x / 8 % 2 != y / 8 % 2 then 8 else 0)
    + (if x / 16 % 2 != y / 16 % 2 then 16 else 0) + (if x / 32 % 2 != y / 32 % 2 then 32 else 0)
    + (if x / 64 % 2 != y / 64 % 2 then 64 else 0) + (if x / 128 % 2 != y / 128 % 2 then 128 else 0)
  }

  lemma TwoFours(x: Byte, y: Byte)
    ensures XorByte(x, y) == 16 * XorFour(x / 16, y / 16) + XorFour(x, y)
  {
    assert x / 16 / 2 == x / 32 && x / 16 / 4 == x / 64 && x / 16 / 8 == x / 128;
    assert y / 16 / 2 == y / 32 && y / 16 / 4 == y / 64 && y / 16 / 8 == y / 128;
  }

  lemma XorByteIs(x: Byte, y: Byte)
    ensures Pow2(8) == 256 && XorBits(x, y, 8) == XorByte(x, y)
  {
    hide Pow2, XorBits, XorFour, XorByte;
    Powers();
    TwoFours(x, y);
    FourBits(x, y, 4);
    FourBits(x / 16, y / 16, 0);
    NoBits();
  }

  lemma NoBits()
    ensures Pow2(0) == 1 && XorBits(0, 0, 0) == 0
  {
  }

  lemma FourBits(x: nat, y: nat, n: nat)
    requires x < Pow2(n + 4) && y < Pow2(n + 4)
    ensures x / 16 < Pow2(n) && y / 16 < Pow2(n)
    ensures XorBits(x, y, n + 4) == 16 * XorBits(x / 16, y / 16, n) + XorFour(x, y)
  {
    hide Pow2, XorBits;
    BitMore(x, y, n + 4);
    BitMore(x / 2, y / 2, n + 3);
    BitMore(x / 2 / 2, y / 2 / 2, n + 2);
    BitMore(x / 2 / 2 / 2, y / 2 / 2 / 2, n + 1);
    Halves(x);
    Halves(y);
  }

  lemma Halves(x: nat)
    ensures x / 2 / 2 == x / 4 && x / 2 / 2 / 2 == x / 8 && x / 2 / 2 / 2 / 2 == x / 16
  {
  }

  lemma BitMore(x: nat, y: nat, n: nat)
    requires n > 0 && x < Pow2(n) && y < Pow2(n)
    ensures x / 2 < Pow2(n - 1) && y / 2 < Pow2(n - 1)
    ensures XorBits(x, y, n) == 2 * XorBits(x / 2, y / 2, n - 1) + if x % 2 != y % 2 then 1 else 0
  {
  }

  /** Exclusive or byte by byte. */
  lemma XorOf(x3: Byte, x2: Byte, x1: Byte, x0: Byte, y3: Byte, y2: Byte, y1: Byte, y0: Byte,
              z3: int, z2: int, z1: int, z0: int)
    requires z3 == XorByte(x3, y3) && z2 == XorByte(x2, y2) && z1 == XorByte(x1, y1) && z0 == XorByte(x0, y0)
    ensures Xor(((x3 * 256 + x2) * 256 + x1) * 256 + x0, ((y3 * 256 + y2) * 256 + y1) * 256 + y0)
            == ((z3 * 256 + z2) * 256 + z1) * 256 + z0
  {
    hide Pow2, XorBits, XorByte;
    ThirtyTwo();
    XorByteIs(x3, y3);
    XorByteIs(x2, y2);
    XorByteIs(x1, y1);
    XorByteIs(x0, y0);
    XorSplit(x3, x2, y3, y2, 8, 8);
    XorSplit(x3 * 256 + x2, x1, y3 * 256 + y2, y1, 16, 8);
    XorSplit((x3 * 256 + x2) * 256 + x1, x0, (y3 * 256 + y2) * 256 + y1, y0, 24, 8);
  }

  /** One third of `mix` in numbers, `p` being the `k`-th power of two and `q` the other factor of 2^32. */
  lemma MixStepIs(t: Abc, k: nat, p: nat, q: nat, u: Abc)
    requires 0 < k < 32 && p == Pow2(k) && q == Pow2(32 - k)
    requires u.a == t.b && u.b == (t.c + t.b) % WRAP
    requires 0 <= t.c % q * p + t.c / q < WRAP && Xor((t.a - t.c) % WRAP, t.c % q * p + t.c / q) == u.c
    ensures MixStep(t, k) == u
  {
    hide Xor, Pow2;
  }

  lemma FinalStepIs(t: Abc, k: nat, p: nat, q: nat, u: Abc)
    requires 0 < k < 32 && p == Pow2(k) && q == Pow2(32 - k)
    requires u.a == t.b && u.b == (Xor(t.c, t.b) - (t.b % q * p + t.b / q)) % WRAP && u.c == t.a
    ensures FinalStep(t, k) == u
  {
    hide Xor, Pow2;
  }

  lemma Powers()
    ensures Pow2(4) == 16 && Pow2(6) == 64 && Pow2(7) == 128 && Pow2(8) == 256 && Pow2(11) == 2048
    ensures Pow2(13) == 8192 && Pow2(14) == 16384 && Pow2(16) == 65536 && Pow2(18) == 262144 && Pow2(19) == 524288
    ensures Pow2(21) == 2097152 && Pow2(24) == 16777216 && Pow2(25) == 33554432 && Pow2(26) == 67108864
    ensures Pow2(28) == 268435456
  {
    assert Pow2(3) == 8 && Pow2(5) == 32;
    Pow2Sum(8, 8);
    Pow2Sum(16, 8);
    Pow2Sum(8, 3);
    Pow2Sum(8, 5);
    Pow2Sum(8, 6);
    Pow2Sum(16, 3);
    Pow2Sum(16, 5);
    Pow2Sum(24, 4);
    assert Pow2(18) == 4 * Pow2(16) && Pow2(25) == 2 * Pow2(24) && Pow2(26) == 4 * Pow2(24);
  }

  // ---------------------------------------------------------------- the 19 steps

  lemma Step1()
    ensures MixStep(Abc(0x51232e53, 0x4e11322d, 0x3fce247f), 4) == Abc(0x4e11322d, 0x8ddf56ac, 0xedb74e27)
  {
    hide Xor, XorBits, Pow2, Rot, MixStep;
    Powers();
    XorOf(0x11, 0x55, 0x09, 0xd4, 0xfc, 0xe2, 0x47, 0xf3, 0xed, 0xb7, 0x4e, 0x27);
    MixStepIs(Abc(0x51232e53, 0x4e11322d, 0x3fce247f), 4, 16, 268435456, Abc(0x4e11322d, 0x8ddf56ac, 0xedb74e27));
  }

  lemma Step2()
    ensures MixStep(Abc(0x4e11322d, 0x8ddf56ac, 0xedb74e27), 6) == Abc(0x8ddf56ac, 0x7b96a4d3, 0x0d8a6dfd)
  {
    hide Xor, XorBits, Pow2, Rot, MixStep;
    Powers();
    XorOf(0x60, 0x59, 0xe4, 0x06, 0x6d, 0xd3, 0x89, 0xfb, 0x0d, 0x8a, 0x6d, 0xfd);
    MixStepIs(Abc(0x4e11322d, 0x8ddf56ac, 0xedb74e27), 6, 64, 67108864, Abc(0x8ddf56ac, 0x7b96a4d3, 0x0d8a6dfd));
  }

  lemma Step3()
    ensures MixStep(Abc(0x8ddf56ac, 0x7b96a4d3, 0x0d8a6dfd), 8) == Abc(0x7b96a4d3, 0x892112d0, 0x0a3915a2)
  {
    hide Xor, XorBits, Pow2, Rot, MixStep;
    Powers();
    XorOf(0x80, 0x54, 0xe8, 0xaf, 0x8a, 0x6d, 0xfd, 0x0d, 0x0a, 0x39, 0x15, 0xa2);
    MixStepIs(Abc(0x8ddf56ac, 0x7b96a4d3, 0x0d8a6dfd), 8, 256, 16777216, Abc(0x7b96a4d3, 0x892112d0, 0x0a3915a2));
  }

  lemma Step4()
    ensures MixStep(Abc(0x7b96a4d3, 0x892112d0, 0x0a3915a2), 16) == Abc(0x892112d0, 0x935a2872, 0x64ff8508)
  {
    hide Xor, XorBits, Pow2, Rot, MixStep;
    Powers();
    XorOf(0x71, 0x5d, 0x8f, 0x31, 0x15, 0xa2, 0x0a, 0x39, 0x64, 0xff, 0x85, 0x08);
    MixStepIs(Abc(0x7b96a4d3, 0x892112d0, 0x0a3915a2), 16, 65536, 65536, Abc(0x892112d0, 0x935a2872, 0x64ff8508));
  }

  lemma Step5()
    ensures MixStep(Abc(0x892112d0, 0x935a2872, 0x64ff8508), 19) == Abc(0x935a2872, 0xf859ad7a, 0x0c62aa34)
  {
    hide Xor, XorBits, Pow2, Rot, MixStep;
    Powers();
    XorOf(0x24, 0x21, 0x8d, 0xc8, 0x28, 0x43, 0x27, 0xfc, 0x0c, 0x62, 0xaa, 0x34);
    MixStepIs(Abc(0x892112d0, 0x935a2872, 0x64ff8508), 19, 524288, 8192, Abc(0x935a2872, 0xf859ad7a, 0x0c62aa34));
  }

  lemma Step6()
    ensures MixStep(Abc(0x935a2872, 0xf859ad7a, 0x0c62aa34), 4) == Abc(0xf859ad7a, 0x04bc57ae, 0x40dddd7e)
  {
    hide Xor, XorBits, Pow2, Rot, MixStep;
    Powers();
    XorOf(0x86, 0xf7, 0x7e, 0x3e, 0xc6, 0x2a, 0xa3, 0x40, 0x40, 0xdd, 0xdd, 0x7e);
    MixStepIs(Abc(0x935a2872, 0xf859ad7a, 0x0c62aa34), 4, 16, 268435456, Abc(0xf859ad7a, 0x04bc57ae, 0x40dddd7e));
  }

  lemma Step7()
    ensures MixStep(Abc(0x6b7a11e8, 0x7321ce13, 0xa243569e), 4) == Abc(0x7321ce13, 0x156524b1, 0xed03d2a0)
  {
    hide Xor, XorBits, Pow2, Rot, MixStep;
    Powers();
    XorOf(0xc9, 0x36, 0xbb, 0x4a, 0x24, 0x35, 0x69, 0xea, 0xed, 0x03, 0xd2, 0xa0);
    MixStepIs(Abc(0x6b7a11e8, 0x7321ce13, 0xa243569e), 4, 16, 268435456, Abc(0x7321ce13, 0x156524b1, 0xed03d2a0));
  }

  lemma Step8()
    ensures MixStep(Abc(0x7321ce13, 0x156524b1, 0xed03d2a0), 6) == Abc(0x156524b1, 0x0268f751, 0xc6e95348)
  {
    hide Xor, XorBits, Pow2, Rot, MixStep;
    Powers();
    XorOf(0x86, 0x1d, 0xfb, 0x73, 0x40, 0xf4, 0xa8, 0x3b, 0xc6, 0xe9, 0x53, 0x48);
    MixStepIs(Abc(0x7321ce13, 0x156524b1, 0xed03d2a0), 6, 64, 67108864, Abc(0x156524b1, 0x0268f751, 0xc6e95348));
  }

  lemma Step9()
    ensures MixStep(Abc(0x156524b1, 0x0268f751, 0xc6e95348), 8) == Abc(0x0268f751, 0xc9524a99, 0xa72899af)
  {
    hide Xor, XorBits, Pow2, Rot, MixStep;
    Powers();
    XorOf(0x4e, 0x7b, 0xd1, 0x69, 0xe9, 0x53, 0x48, 0xc6, 0xa7, 0x28, 0x99, 0xaf);
    MixStepIs(Abc(0x156524b1, 0x0268f751, 0xc6e95348), 8, 256, 16777216, Abc(0x0268f751, 0xc9524a99, 0xa72899af));
  }

  lemma Step10()
    ensures MixStep(Abc(0x0268f751, 0xc9524a99, 0xa72899af), 16) == Abc(0xc9524a99, 0x707ae448, 0xc2effa8a)
  {
    hide Xor, XorBits, Pow2, Rot, MixStep;
    Powers();
    XorOf(0x5b, 0x40, 0x5d, 0xa2, 0x99, 0xaf, 0xa7, 0x28, 0xc2, 0xef, 0xfa, 0x8a);
    MixStepIs(Abc(0x0268f751, 0xc9524a99, 0xa72899af), 16, 65536, 65536, Abc(0xc9524a99, 0x707ae448, 0xc2effa8a));
  }

  lemma Step11()
    ensures MixStep(Abc(0xc9524a99, 0x707ae448, 0xc2effa8a), 19) == Abc(0x707ae448, 0x336aded2, 0xd2344770)
  {
    hide Xor, XorBits, Pow2, Rot, MixStep;
    Powers();
    XorOf(0x06, 0x62, 0x50, 0x0f, 0xd4, 0x56, 0x17, 0x7f, 0xd2, 0x34, 0x47, 0x70);
    MixStepIs(Abc(0xc9524a99, 0x707ae448, 0xc2effa8a), 19, 524288, 8192, Abc(0x707ae448, 0x336aded2, 0xd2344770));
  }

  lemma Step12()
    ensures MixStep(Abc(0x707ae448, 0x336aded2, 0xd2344770), 4) == Abc(0x336aded2, 0x059f2642, 0xbd02ebd5)
  {
    hide Xor, XorBits, Pow2, Rot, MixStep;
    Powers();
    XorOf(0x9e, 0x46, 0x9c, 0xd8, 0x23, 0x44, 0x77, 0x0d, 0xbd, 0x02, 0xeb, 0xd5);
    MixStepIs(Abc(0x707ae448, 0x336aded2, 0xd2344770), 4, 16, 268435456, Abc(0x336aded2, 0x059f2642, 0xbd02ebd5));
  }

  lemma Step13()
    ensures FinalStep(Abc(0x948b5244, 0x059f95a9, 0xbd02ebd5), 14) == Abc(0x059f95a9, 0xd3333d15, 0x948b5244)
  {
    hide Xor, XorBits, Pow2, Rot, FinalStep;
    Powers();
    XorOf(0xbd, 0x02, 0xeb, 0xd5, 0x05, 0x9f, 0x95, 0xa9, 0xb8, 0x9d, 0x7e, 0x7c);
    FinalStepIs(Abc(0x948b5244, 0x059f95a9, 0xbd02ebd5), 14, 16384, 262144, Abc(0x059f95a9, 0xd3333d15, 0x948b5244));
  }

  lemma Step14()
    ensures FinalStep(Abc(0x059f95a9, 0xd3333d15, 0x948b5244), 11) == Abc(0xd3333d15, 0xadcfc0b8, 0x059f95a9)
  {
    hide Xor, XorBits, Pow2, Rot, FinalStep;
    Powers();
    XorOf(0x94, 0x8b, 0x52, 0x44, 0xd3, 0x33, 0x3d, 0x15, 0x47, 0xb8, 0x6f, 0x51);
    FinalStepIs(Abc(0x059f95a9, 0xd3333d15, 0x948b5244), 11, 2048, 2097152, Abc(0xd3333d15, 0xadcfc0b8, 0x059f95a9));
  }

  lemma Step15()
    ensures FinalStep(Abc(0xd3333d15, 0xadcfc0b8, 0x059f95a9), 25) == Abc(0xadcfc0b8, 0x36f4b590, 0xd3333d15)
  {
    hide Xor, XorBits, Pow2, Rot, FinalStep;
    Powers();
    XorOf(0x05, 0x9f, 0x95, 0xa9, 0xad, 0xcf, 0xc0, 0xb8, 0xa8, 0x50, 0x55, 0x11);
    FinalStepIs(Abc(0xd3333d15, 0xadcfc0b8, 0x059f95a9), 25, 33554432, 128, Abc(0xadcfc0b8, 0x36f4b590, 0xd3333d15));
  }

  lemma Step16()
    ensures FinalStep(Abc(0xadcfc0b8, 0x36f4b590, 0xd3333d15), 16) == Abc(0x36f4b590, 0x30375191, 0xadcfc0b8)
  {
    hide Xor, XorBits, Pow2, Rot, FinalStep;
    Powers();
    XorOf(0xd3, 0x33, 0x3d, 0x15, 0x36, 0xf4, 0xb5, 0x90, 0xe5, 0xc7, 0x88, 0x85);
    FinalStepIs(Abc(0xadcfc0b8, 0x36f4b590, 0xd3333d15), 16, 65536, 65536, Abc(0x36f4b590, 0x30375191, 0xadcfc0b8));
  }

  lemma Step17()
    ensures FinalStep(Abc(0x36f4b590, 0x30375191, 0xadcfc0b8), 4) == Abc(0x30375191, 0x9a837816, 0x36f4b590)
  {
    hide Xor, XorBits, Pow2, Rot, FinalStep;
    Powers();
    XorOf(0xad, 0xcf, 0xc0, 0xb8, 0x30, 0x37, 0x51, 0x91, 0x9d, 0xf8, 0x91, 0x29);
    FinalStepIs(Abc(0x36f4b590, 0x30375191, 0xadcfc0b8), 4, 16, 268435456, Abc(0x30375191, 0x9a837816, 0x36f4b590));
  }

  lemma Step18()
    ensures FinalStep(Abc(0x30375191, 0x9a837816, 0x36f4b590), 14) == Abc(0x9a837816, 0xce7226e6, 0x30375191)
  {
    hide Xor, XorBits, Pow2, Rot, FinalStep;
    Powers();
    XorOf(0x36, 0xf4, 0xb5, 0x90, 0x9a, 0x83, 0x78, 0x16, 0xac, 0x77, 0xcd, 0x86);
    FinalStepIs(Abc(0x30375191, 0x9a837816, 0x36f4b590), 14, 16384, 262144, Abc(0x9a837816, 0xce7226e6, 0x30375191));
  }

  lemma Step19()
    ensures FinalStep(Abc(0x9a837816, 0xce7226e6, 0x30375191), 24) == Abc(0xce7226e6, 0x17770551, 0x9a837816)
  {
    hide Xor, XorBits, Pow2, Rot, FinalStep;
    Powers();
    XorOf(0x30, 0x37, 0x51, 0x91, 0xce, 0x72, 0x26, 0xe6, 0xfe, 0x45, 0x77, 0x77);
    FinalStepIs(Abc(0x9a837816, 0xce7226e6, 0x30375191), 24, 16777216, 256, Abc(0xce7226e6, 0x17770551, 0x9a837816));
  }

  lemma FirstChunk()
    ensures Mix(Abc(0x51232e53, 0x4e11322d, 0x3fce247f)) == Abc(0xf859ad7a, 0x04bc57ae, 0x40dddd7e)
  {
    hide MixStep;
    Step1();
    Step2();
    Step3();
    Step4();
    Step5();
    Step6();
  }

  lemma SecondChunk()
    ensures Mix(Abc(0x6b7a11e8, 0x7321ce13, 0xa243569e)) == Abc(0x336aded2, 0x059f2642, 0xbd02ebd5)
  {
    hide MixStep;
    Step7();
    Step8();
    Step9();
    Step10();
    Step11();
    Step12();
  }

  lemma LastChunk()
    ensures Final(Abc(0x948b5244, 0x059f95a9, 0xbd02ebd5)) == Abc(0x9a837816, 0xce7226e6, 0x17770551)
  {
    hide FinalStep;
    Step13();
    Step14();
    Step15();
    Step16();
    Step17();
    Step18();
    Step19();
  }

  // ---------------------------------------------------------------- the key

  /** "Four score and seven years ago" */
  const KEY: seq<Byte> := [
    70, 111, 117, 114, 32, 115, 99, 111, 114, 101, 32, 97, 110, 100, 32,
    115, 101, 118, 101, 110, 32, 121, 101, 97, 114, 115, 32, 97, 103, 111]

  lemma KeyParts()
    ensures |KEY| == 30 && KEY[12..][12..] == KEY[24..] && Start(30, 0) == Abc(0xdeadbf0d, 0xdeadbf0d, 0xdeadbf0d)
  {
  }

  lemma FirstFeed()
    ensures Feed(Abc(0xdeadbf0d, 0xdeadbf0d, 0xdeadbf0d), KEY) == Abc(0x51232e53, 0x4e11322d, 0x3fce247f)
  {
  }

  lemma SecondFeed()
    ensures Feed(Abc(0xf859ad7a, 0x04bc57ae, 0x40dddd7e), KEY[12..]) == Abc(0x6b7a11e8, 0x7321ce13, 0xa243569e)
  {
  }

  lemma LastFeed()
    ensures Feed(Abc(0x336aded2, 0x059f2642, 0xbd02ebd5), Padded(KEY[24..])) == Abc(0x948b5244, 0x059f95a9, 0xbd02ebd5)
  {
  }

  /** The hash that the authors of lookup3 publish for this key, and that of the empty key. */
  lemma KnownAnswer()
    ensures Hash(KEY, 0) == 0x17770551 && Hash([], 0) == 0xdeadbeef
  {
    hide Feed, Mix, Final, Padded;
    KeyParts();
    FirstFeed();
    FirstChunk();
    SecondFeed();
    SecondChunk();
    LastFeed();
    LastChunk();
    assert Run(Abc(0x336aded2, 0x059f2642, 0xbd02ebd5), KEY[24..]) == Abc(0x9a837816, 0xce7226e6, 0x17770551);
    assert Run(Abc(0xf859ad7a, 0x04bc57ae, 0x40dddd7e), KEY[12..]) == Abc(0x9a837816, 0xce7226e6, 0x17770551);
  }
}
