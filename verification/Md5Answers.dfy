/** The test suite of RFC 1321, appendix A.5: the digests of "abc" and of a message longer than a block, with the value
    of the registers after each of the 64 steps. */
module Md5Answers {
  import opened Bytes
  import opened Md5Spec

  lemma Next(i: nat, r: Regs, x: seq<bv32>)
    requires i < 64 && |x| == 16
    ensures Steps(0, i + 1, r, x) == Step(i, Steps(0, i, r, x), x)
  {
    hide Step;
  }

  lemma BytesAt(block: seq<Byte>, j: nat, b0: Byte, b1: Byte, b2: Byte, b3: Byte, n: int)
    requires |block| == BLOCK && j < 16 && block[4 * j] == b0 && block[4 * j + 1] == b1 && block[4 * j + 2] == b2
    requires block[4 * j + 3] == b3 && b0 + 0x100 * b1 + 0x1_0000 * b2 + 0x100_0000 * b3 == n
    ensures LittleEndian(block, 4 * j) == n
  {
  }

  lemma SameWord(n: int, w: bv32)
    requires w as int == n
    ensures 0 <= n < 0x1_0000_0000 && n as bv32 == w
  {
    assert (w as int) as bv32 == w;
  }

  lemma WordAt(block: seq<Byte>, j: nat, b0: Byte, b1: Byte, b2: Byte, b3: Byte, n: int, w: bv32)
    requires |block| == BLOCK && j < 16 && block[4 * j] == b0 && block[4 * j + 1] == b1 && block[4 * j + 2] == b2
    requires block[4 * j + 3] == b3 && b0 + 0x100 * b1 + 0x1_0000 * b2 + 0x100_0000 * b3 == n
    requires w as int == n
    ensures Words(block)[j] == w
  {
    hide LittleEndian;
    BytesAt(block, j, b0, b1, b2, b3, n);
    SameWord(LittleEndian(block, 4 * j), w);
  }

  lemma NoSteps(r: Regs, x: seq<bv32>)
    requires |x| == 16
    ensures Steps(0, 0, r, x) == r
  {
  }

  /** One step in numbers: the auxiliary function gives `m`, the word is `w`, rotated is by `k`, added is `c`, and the
      new register is `b`. */
  lemma StepIs(i: nat, s: Regs, x: seq<bv32>, m: bv32, w: bv32, k: nat, c: bv32, b: bv32)
    requires |x| == 16 && i < 64 && Mix(i, s.b, s.c, s.d) == m && x[WordIndex(i)] == w && Shift(i) == k && T(i) == c
    requires 0 < k < 32 && Mixed(s.a, s.b, m, w, k, c) == b
    ensures Step(i, s, x) == Regs(s.d, b, s.b, s.c)
  {
    hide Mix, Mixed, T, WordIndex, Shift;
  }

  lemma To(i: nat, r: Regs, x: seq<bv32>, s: Regs, m: bv32, w: bv32, k: nat, c: bv32, b: bv32)
    requires |x| == 16 && i < 64 && Steps(0, i, r, x) == s
    requires Mix(i, s.b, s.c, s.d) == m && x[WordIndex(i)] == w && Shift(i) == k && T(i) == c
    requires 0 < k < 32 && Mixed(s.a, s.b, m, w, k, c) == b
    ensures Steps(0, i + 1, r, x) == Regs(s.d, b, s.b, s.c)
  {
    hide Mix, Mixed, T, WordIndex, Shift, Steps, Step;
    Next(i, r, x);
    StepIs(i, s, x, m, w, k, c, b);
  }


  lemma Constants1a()
    ensures WordIndex(0) == 0 && Shift(0) == 7 && T(0) == 0xd76aa478
    ensures WordIndex(1) == 1 && Shift(1) == 12 && T(1) == 0xe8c7b756
    ensures WordIndex(2) == 2 && Shift(2) == 17 && T(2) == 0x242070db
    ensures WordIndex(3) == 3 && Shift(3) == 22 && T(3) == 0xc1bdceee
    ensures WordIndex(4) == 4 && Shift(4) == 7 && T(4) == 0xf57c0faf
    ensures WordIndex(5) == 5 && Shift(5) == 12 && T(5) == 0x4787c62a
    ensures WordIndex(6) == 6 && Shift(6) == 17 && T(6) == 0xa8304613
    ensures WordIndex(7) == 7 && Shift(7) == 22 && T(7) == 0xfd469501
  {
  }

  lemma Constants1b()
    ensures WordIndex(8) == 8 && Shift(8) == 7 && T(8) == 0x698098d8
    ensures WordIndex(9) == 9 && Shift(9) == 12 && T(9) == 0x8b44f7af
    ensures WordIndex(10) == 10 && Shift(10) == 17 && T(10) == 0xffff5bb1
    ensures WordIndex(11) == 11 && Shift(11) == 22 && T(11) == 0x895cd7be
    ensures WordIndex(12) == 12 && Shift(12) == 7 && T(12) == 0x6b901122
    ensures WordIndex(13) == 13 && Shift(13) == 12 && T(13) == 0xfd987193
    ensures WordIndex(14) == 14 && Shift(14) == 17 && T(14) == 0xa679438e
    ensures WordIndex(15) == 15 && Shift(15) == 22 && T(15) == 0x49b40821
  {
  }

  lemma Constants2a()
    ensures WordIndex(16) == 1 && Shift(16) == 5 && T(16) == 0xf61e2562
    ensures WordIndex(17) == 6 && Shift(17) == 9 && T(17) == 0xc040b340
    ensures WordIndex(18) == 11 && Shift(18) == 14 && T(18) == 0x265e5a51
    ensures WordIndex(19) == 0 && Shift(19) == 20 && T(19) == 0xe9b6c7aa
    ensures WordIndex(20) == 5 && Shift(20) == 5 && T(20) == 0xd62f105d
    ensures WordIndex(21) == 10 && Shift(21) == 9 && T(21) == 0x02441453
    ensures WordIndex(22) == 15 && Shift(22) == 14 && T(22) == 0xd8a1e681
    ensures WordIndex(23) == 4 && Shift(23) == 20 && T(23) == 0xe7d3fbc8
  {
  }

  lemma Constants2b()
    ensures WordIndex(24) == 9 && Shift(24) == 5 && T(24) == 0x21e1cde6
    ensures WordIndex(25) == 14 && Shift(25) == 9 && T(25) == 0xc33707d6
    ensures WordIndex(26) == 3 && Shift(26) == 14 && T(26) == 0xf4d50d87
    ensures WordIndex(27) == 8 && Shift(27) == 20 && T(27) == 0x455a14ed
    ensures WordIndex(28) == 13 && Shift(28) == 5 && T(28) == 0xa9e3e905
    ensures WordIndex(29) == 2 && Shift(29) == 9 && T(29) == 0xfcefa3f8
    ensures WordIndex(30) == 7 && Shift(30) == 14 && T(30) == 0x676f02d9
    ensures WordIndex(31) == 12 && Shift(31) == 20 && T(31) == 0x8d2a4c8a
  {
  }

  lemma Constants3a()
    ensures WordIndex(32) == 5 && Shift(32) == 4 && T(32) == 0xfffa3942
    ensures WordIndex(33) == 8 && Shift(33) == 11 && T(33) == 0x8771f681
    ensures WordIndex(34) == 11 && Shift(34) == 16 && T(34) == 0x6d9d6122
    ensures WordIndex(35) == 14 && Shift(35) == 23 && T(35) == 0xfde5380c
    ensures WordIndex(36) == 1 && Shift(36) == 4 && T(36) == 0xa4beea44
    ensures WordIndex(37) == 4 && Shift(37) == 11 && T(37) == 0x4bdecfa9
    ensures WordIndex(38) == 7 && Shift(38) == 16 && T(38) == 0xf6bb4b60
    ensures WordIndex(39) == 10 && Shift(39) == 23 && T(39) == 0xbebfbc70
  {
  }

  lemma Constants3b()
    ensures WordIndex(40) == 13 && Shift(40) == 4 && T(40) == 0x289b7ec6
    ensures WordIndex(41) == 0 && Shift(41) == 11 && T(41) == 0xeaa127fa
    ensures WordIndex(42) == 3 && Shift(42) == 16 && T(42) == 0xd4ef3085
    ensures WordIndex(43) == 6 && Shift(43) == 23 && T(43) == 0x04881d05
    ensures WordIndex(44) == 9 && Shift(44) == 4 && T(44) == 0xd9d4d039
    ensures WordIndex(45) == 12 && Shift(45) == 11 && T(45) == 0xe6db99e5
    ensures WordIndex(46) == 15 && Shift(46) == 16 && T(46) == 0x1fa27cf8
    ensures WordIndex(47) == 2 && Shift(47) == 23 && T(47) == 0xc4ac5665
  {
  }

  lemma Constants4a()
    ensures WordIndex(48) == 0 && Shift(48) == 6 && T(48) == 0xf4292244
    ensures WordIndex(49) == 7 && Shift(49) == 10 && T(49) == 0x432aff97
    ensures WordIndex(50) == 14 && Shift(50) == 15 && T(50) == 0xab9423a7
    ensures WordIndex(51) == 5 && Shift(51) == 21 && T(51) == 0xfc93a039
    ensures WordIndex(52) == 12 && Shift(52) == 6 && T(52) == 0x655b59c3
    ensures WordIndex(53) == 3 && Shift(53) == 10 && T(53) == 0x8f0ccc92
    ensures WordIndex(54) == 10 && Shift(54) == 15 && T(54) == 0xffeff47d
    ensures WordIndex(55) == 1 && Shift(55) == 21 && T(55) == 0x85845dd1
  {
  }

  lemma Constants4b()
    ensures WordIndex(56) == 8 && Shift(56) == 6 && T(56) == 0x6fa87e4f
    ensures WordIndex(57) == 15 && Shift(57) == 10 && T(57) == 0xfe2ce6e0
    ensures WordIndex(58) == 6 && Shift(58) == 15 && T(58) == 0xa3014314
    ensures WordIndex(59) == 13 && Shift(59) == 21 && T(59) == 0x4e0811a1
    ensures WordIndex(60) == 4 && Shift(60) == 6 && T(60) == 0xf7537e82
    ensures WordIndex(61) == 11 && Shift(61) == 10 && T(61) == 0xbd3af235
    ensures WordIndex(62) == 2 && Shift(62) == 15 && T(62) == 0x2ad7d2bb
    ensures WordIndex(63) == 9 && Shift(63) == 21 && T(63) == 0xeb86d391
  {
  }

  // ---------------------------------------------------------------- "abc"

  predicate AbcWords(x: seq<bv32>) {
    && |x| == 16
    && x[0] == 0x80636261 && x[1] == 0x00000000 && x[2] == 0x00000000 && x[3] == 0x00000000
    && x[4] == 0x00000000 && x[5] == 0x00000000 && x[6] == 0x00000000 && x[7] == 0x00000000
    && x[8] == 0x00000000 && x[9] == 0x00000000 && x[10] == 0x00000000 && x[11] == 0x00000000
    && x[12] == 0x00000000 && x[13] == 0x00000000 && x[14] == 0x00000018 && x[15] == 0x00000000
  }

  lemma AbcRound1(x: seq<bv32>)
    requires AbcWords(x)
    ensures Steps(0, 16, Regs(0x67452301, 0xefcdab89, 0x98badcfe, 0x10325476), x)
            == Regs(0xdda9b9a6, 0x72aff2e0, 0xe396856b, 0xa1051895)
  {
    hide Steps, T, WordIndex, Shift, Step;
    var r := Regs(0x67452301, 0xefcdab89, 0x98badcfe, 0x10325476);
    Constants1a();
    Constants1b();
    NoSteps(r, x);
    To(0, r, x, Regs(0x67452301, 0xefcdab89, 0x98badcfe, 0x10325476),
       0x98badcfe, 0x80636261, 7, 0xd76aa478, 0xd6d117b4);
    To(1, r, x, Regs(0x10325476, 0xd6d117b4, 0xefcdab89, 0x98badcfe),
       0xceebcbca, 0x00000000, 12, 0xe8c7b756, 0x344a8432);
    To(2, r, x, Regs(0x98badcfe, 0x344a8432, 0xd6d117b4, 0xefcdab89),
       0xdfc52fb9, 0x00000000, 17, 0x242070db, 0x2f6fbd72);
    To(3, r, x, Regs(0xefcdab89, 0x2f6fbd72, 0x344a8432, 0xd6d117b4),
       0xf4da86b6, 0x00000000, 22, 0xc1bdceee, 0x7ad956f2);
    To(4, r, x, Regs(0xd6d117b4, 0x7ad956f2, 0x2f6fbd72, 0x344a8432),
       0x2e4b9472, 0x00000000, 7, 0xf57c0faf, 0xc73741ef);
    To(5, r, x, Regs(0x344a8432, 0xc73741ef, 0x7ad956f2, 0x2f6fbd72),
       0x6a59fcf2, 0x00000000, 12, 0x4787c62a, 0x8bac3051);
    To(6, r, x, Regs(0x2f6fbd72, 0x8bac3051, 0xc73741ef, 0x7ad956f2),
       0xf37546e3, 0x00000000, 17, 0xa8304613, 0x207dc67b);
    To(7, r, x, Regs(0x7ad956f2, 0x207dc67b, 0x8bac3051, 0xc73741ef),
       0xc72e01d5, 0x00000000, 22, 0xfd469501, 0x928d99f6);
    To(8, r, x, Regs(0xc73741ef, 0x928d99f6, 0x207dc67b, 0x8bac3051),
       0x092da073, 0x00000000, 7, 0x698098d8, 0x854b3712);
    To(9, r, x, Regs(0x8bac3051, 0x854b3712, 0x928d99f6, 0x207dc67b),
       0xa03dd17b, 0x00000000, 12, 0x8b44f7af, 0x74e2f284);
    To(10, r, x, Regs(0x207dc67b, 0x74e2f284, 0x854b3712, 0x928d99f6),
       0x864f3b72, 0x00000000, 17, 0xffff5bb1, 0x3020401c);
    To(11, r, x, Regs(0x928d99f6, 0x3020401c, 0x74e2f284, 0x854b3712),
       0xb56b7706, 0x00000000, 22, 0x895cd7be, 0x5ed49596);
    To(12, r, x, Regs(0x854b3712, 0x5ed49596, 0x3020401c, 0x74e2f284),
       0x30226214, 0x00000000, 7, 0x6b901122, 0xdda9b9a6);
    To(13, r, x, Regs(0x74e2f284, 0xdda9b9a6, 0x5ed49596, 0x3020401c),
       0x7c80d19e, 0x00000000, 12, 0xfd987193, 0xa1051895);
    To(14, r, x, Regs(0x3020401c, 0xa1051895, 0xdda9b9a6, 0x5ed49596),
       0xdfd19d86, 0x00000018, 17, 0xa679438e, 0xe396856b);
    To(15, r, x, Regs(0x5ed49596, 0xe396856b, 0xa1051895, 0xdda9b9a6),
       0xbd2d3885, 0x00000000, 22, 0x49b40821, 0x72aff2e0);
  }

  lemma AbcRound2(x: seq<bv32>)
    requires AbcWords(x)
    requires Steps(0, 16, Regs(0x67452301, 0xefcdab89, 0x98badcfe, 0x10325476), x)
             == Regs(0xdda9b9a6, 0x72aff2e0, 0xe396856b, 0xa1051895)
    ensures Steps(0, 32, Regs(0x67452301, 0xefcdab89, 0x98badcfe, 0x10325476), x)
            == Regs(0x790a77fb, 0x726342d3, 0xa62884aa, 0x9f47e4f8)
  {
    hide Steps, T, WordIndex, Shift, Step;
    var r := Regs(0x67452301, 0xefcdab89, 0x98badcfe, 0x10325476);
    Constants2a();
    Constants2b();
    To(16, r, x, Regs(0xdda9b9a6, 0x72aff2e0, 0xe396856b, 0xa1051895),
       0x629795ea, 0x00000000, 5, 0xf61e2562, 0x3e9e9126);
    To(17, r, x, Regs(0xa1051895, 0x3e9e9126, 0x72aff2e0, 0xe396856b),
       0x32bff3a2, 0x00000000, 9, 0xc040b340, 0x4a1d804e);
    To(18, r, x, Regs(0xe396856b, 0x4a1d804e, 0x3e9e9126, 0x72aff2e0),
       0x4e1d8146, 0x00000000, 14, 0x265e5a51, 0xe25e1652);
    To(19, r, x, Regs(0x72aff2e0, 0xe25e1652, 0x4a1d804e, 0x3e9e9126),
       0x621f104a, 0x80636261, 20, 0xe9b6c7aa, 0xb5b204e4);
    To(20, r, x, Regs(0x3e9e9126, 0xb5b204e4, 0xe25e1652, 0x4a1d804e),
       0xa0521654, 0x00000000, 5, 0xd62f105d, 0x59a8ffda);
    To(21, r, x, Regs(0x4a1d804e, 0x59a8ffda, 0xb5b204e4, 0xe25e1652),
       0x55a816f6, 0x00000000, 9, 0x02441453, 0x6d002f1e);
    To(22, r, x, Regs(0xe25e1652, 0x6d002f1e, 0x59a8ffda, 0xb5b204e4),
       0x6d08ff1e, 0x00000000, 14, 0xd8a1e681, 0xabfc7920);
    To(23, r, x, Regs(0xb5b204e4, 0xabfc7920, 0x6d002f1e, 0x59a8ffda),
       0x2da87904, 0x00000000, 20, 0xe7d3fbc8, 0x47092c07);
    To(24, r, x, Regs(0x59a8ffda, 0x47092c07, 0xabfc7920, 0x6d002f1e),
       0xc7fc7c26, 0x00000000, 5, 0x21e1cde6, 0xb7f268cf);
    To(25, r, x, Regs(0x6d002f1e, 0xb7f268cf, 0x47092c07, 0xabfc7920),
       0xe7f16c07, 0x00000018, 9, 0xc33707d6, 0x09388eff);
    To(26, r, x, Regs(0xabfc7920, 0x09388eff, 0xb7f268cf, 0x47092c07),
       0xb1fa4ccf, 0x00000000, 14, 0xf4d50d87, 0xfe1623b1);
    To(27, r, x, Regs(0x47092c07, 0xfe1623b1, 0x09388eff, 0xb7f268cf),
       0xbe1aa6b1, 0x00000000, 20, 0x455a14ed, 0x786acb8f);
    To(28, r, x, Regs(0xb7f268cf, 0x786acb8f, 0xfe1623b1, 0x09388eff),
       0xfe2eab8f, 0x00000000, 5, 0xa9e3e905, 0x790a77fb);
    To(29, r, x, Regs(0x09388eff, 0x790a77fb, 0x786acb8f, 0xfe1623b1),
       0x786aebbf, 0x00000000, 9, 0xfcefa3f8, 0x9f47e4f8);
    To(30, r, x, Regs(0xfe1623b1, 0x9f47e4f8, 0x790a77fb, 0x786acb8f),
       0x1942f4f8, 0x00000000, 14, 0x676f02d9, 0xa62884aa);
    To(31, r, x, Regs(0x786acb8f, 0xa62884aa, 0x9f47e4f8, 0x790a77fb),
       0xa64d84aa, 0x00000000, 20, 0x8d2a4c8a, 0x726342d3);
  }

  lemma AbcRound3(x: seq<bv32>)
    requires AbcWords(x)
    requires Steps(0, 32, Regs(0x67452301, 0xefcdab89, 0x98badcfe, 0x10325476), x)
             == Regs(0x790a77fb, 0x726342d3, 0xa62884aa, 0x9f47e4f8)
    ensures Steps(0, 48, Regs(0x67452301, 0xefcdab89, 0x98badcfe, 0x10325476), x)
            == Regs(0x7f2e507b, 0x7beb9700, 0x8fae6399, 0x99d9679d)
  {
    hide Steps, T, WordIndex, Shift, Step;
    var r := Regs(0x67452301, 0xefcdab89, 0x98badcfe, 0x10325476);
    Constants3a();
    Constants3b();
    To(32, r, x, Regs(0x790a77fb, 0x726342d3, 0xa62884aa, 0x9f47e4f8),
       0x4b0c2281, 0x00000000, 4, 0xfffa3942, 0xb3707ebf);
    To(33, r, x, Regs(0x9f47e4f8, 0xb3707ebf, 0x726342d3, 0xa62884aa),
       0x673bb8c6, 0x00000000, 11, 0x8771f681, 0x60127b2e);
    To(34, r, x, Regs(0xa62884aa, 0x60127b2e, 0xb3707ebf, 0x726342d3),
       0xa1014742, 0x00000000, 16, 0x6d9d6122, 0x8d212ff5);
    To(35, r, x, Regs(0x726342d3, 0x8d212ff5, 0x60127b2e, 0xb3707ebf),
       0x5e432a64, 0x00000018, 23, 0xfde5380c, 0x3b0875c7);
    To(36, r, x, Regs(0xb3707ebf, 0x3b0875c7, 0x8d212ff5, 0x60127b2e),
       0xd63b211c, 0x00000000, 4, 0xa4beea44, 0x21b117b9);
    To(37, r, x, Regs(0x60127b2e, 0x21b117b9, 0x3b0875c7, 0x8d212ff5),
       0x97984d8b, 0x00000000, 11, 0x4bdecfa9, 0x6e7429d5);
    To(38, r, x, Regs(0x8d212ff5, 0x6e7429d5, 0x21b117b9, 0x3b0875c7),
       0x74cd4bab, 0x00000000, 16, 0xf6bb4b60, 0x3575227e);
    To(39, r, x, Regs(0x3b0875c7, 0x3575227e, 0x6e7429d5, 0x21b117b9),
       0x7ab01c12, 0x00000000, 23, 0xbebfbc70, 0x5a2f5ea5);
    To(40, r, x, Regs(0x21b117b9, 0x5a2f5ea5, 0x3575227e, 0x6e7429d5),
       0x012e550e, 0x00000000, 4, 0x289b7ec6, 0x11de1779);
    To(41, r, x, Regs(0x6e7429d5, 0x11de1779, 0x5a2f5ea5, 0x3575227e),
       0x7e846ba2, 0x80636261, 11, 0xeaa127fa, 0xfadcaa38);
    To(42, r, x, Regs(0x3575227e, 0xfadcaa38, 0x11de1779, 0x5a2f5ea5),
       0xb12de3e4, 0x00000000, 16, 0xd4ef3085, 0x31c465ca);
    To(43, r, x, Regs(0x5a2f5ea5, 0x31c465ca, 0xfadcaa38, 0x11de1779),
       0xdac6d88b, 0x00000000, 23, 0x04881d05, 0x4c6124f4);
    To(44, r, x, Regs(0x11de1779, 0x4c6124f4, 0x31c465ca, 0xfadcaa38),
       0x8779eb06, 0x00000000, 4, 0xd9d4d039, 0x7f2e507b);
    To(45, r, x, Regs(0xfadcaa38, 0x7f2e507b, 0x4c6124f4, 0x31c465ca),
       0x028b1145, 0x00000000, 11, 0xe6db99e5, 0x99d9679d);
    To(46, r, x, Regs(0x31c465ca, 0x99d9679d, 0x7f2e507b, 0x4c6124f4),
       0xaa961312, 0x00000000, 16, 0x1fa27cf8, 0x8fae6399);
    To(47, r, x, Regs(0x4c6124f4, 0x8fae6399, 0x99d9679d, 0x7f2e507b),
       0x6959547f, 0x00000000, 23, 0xc4ac5665, 0x7beb9700);
  }

  lemma AbcRound4(x: seq<bv32>)
    requires AbcWords(x)
    requires Steps(0, 48, Regs(0x67452301, 0xefcdab89, 0x98badcfe, 0x10325476), x)
             == Regs(0x7f2e507b, 0x7beb9700, 0x8fae6399, 0x99d9679d)
    ensures Steps(0, 64, Regs(0x67452301, 0xefcdab89, 0x98badcfe, 0x10325476), x)
            == Regs(0x310ade8f, 0xc08226b3, 0xe484b9d8, 0x624d8cb2)
  {
    hide Steps, T, WordIndex, Shift, Step;
    var r := Regs(0x67452301, 0xefcdab89, 0x98badcfe, 0x10325476);
    Constants4a();
    Constants4b();
    To(48, r, x, Regs(0x7f2e507b, 0x7beb9700, 0x8fae6399, 0x99d9679d),
       0xf041fcfb, 0x80636261, 6, 0xf4292244, 0x7b201df8);
    To(49, r, x, Regs(0x99d9679d, 0x7b201df8, 0x7beb9700, 0x8fae6399),
       0x009a0afe, 0x00000000, 10, 0x432aff97, 0xf4e8e96e);
    To(50, r, x, Regs(0x8fae6399, 0xf4e8e96e, 0x7b201df8, 0x7beb9700),
       0x8fdcf407, 0x00000018, 15, 0xab9423a7, 0xb298cefd);
    To(51, r, x, Regs(0x7beb9700, 0xb298cefd, 0xf4e8e96e, 0x7b201df8),
       0x42370791, 0x00000000, 21, 0xfc93a039, 0x8bf025c4);
    To(52, r, x, Regs(0x7b201df8, 0x8bf025c4, 0xb298cefd, 0xf4e8e96e),
       0x396ff928, 0x00000000, 6, 0x655b59c3, 0x06cc5e8a);
    To(53, r, x, Regs(0xf4e8e96e, 0x06cc5e8a, 0x8bf025c4, 0xb298cefd),
       0xc41f5a4e, 0x00000000, 10, 0x8f0ccc92, 0x5b0d97aa);
    To(54, r, x, Regs(0xb298cefd, 0x5b0d97aa, 0x06cc5e8a, 0x8bf025c4),
       0x79c38131, 0x00000000, 15, 0xffeff47d, 0x7d632dd0);
    To(55, r, x, Regs(0x8bf025c4, 0x7d632dd0, 0x5b0d97aa, 0x06cc5e8a),
       0xa67e3a5f, 0x00000000, 21, 0x85845dd1, 0x3bfa2c27);
    To(56, r, x, Regs(0x06cc5e8a, 0x3bfa2c27, 0x7d632dd0, 0x5b0d97aa),
       0xc29941a7, 0x00000000, 6, 0x6fa87e4f, 0x7f81cc35);
    To(57, r, x, Regs(0x5b0d97aa, 0x7f81cc35, 0x3bfa2c27, 0x7d632dd0),
       0xc467f218, 0x00000000, 10, 0xfe2ce6e0, 0x094454ab);
    To(58, r, x, Regs(0x7d632dd0, 0x094454ab, 0x7f81cc35, 0x3bfa2c27),
       0xb2c41bce, 0x00000000, 15, 0xa3014314, 0x4f9dbe3f);
    To(59, r, x, Regs(0x3bfa2c27, 0x4f9dbe3f, 0x094454ab, 0x7f81cc35),
       0xc6bbeb54, 0x00000000, 21, 0x4e0811a1, 0x7327d604);
    To(60, r, x, Regs(0x7f81cc35, 0x7327d604, 0x4f9dbe3f, 0x094454ab),
       0xb822416b, 0x00000000, 6, 0xf7537e82, 0x310ade8f);
    To(61, r, x, Regs(0x094454ab, 0x310ade8f, 0x7327d604, 0x4f9dbe3f),
       0xc24d09cb, 0x00000000, 10, 0xbd3af235, 0x624d8cb2);
    To(62, r, x, Regs(0x4f9dbe3f, 0x624d8cb2, 0x310ade8f, 0x7327d604),
       0xdfd77374, 0x00000000, 15, 0x2ad7d2bb, 0xe484b9d8);
    To(63, r, x, Regs(0x7327d604, 0xe484b9d8, 0x624d8cb2, 0x310ade8f),
       0x8cb8354a, 0x00000000, 21, 0xeb86d391, 0xc08226b3);
  }

  lemma AbcFolded(block: seq<Byte>)
    requires |block| == BLOCK && AbcWords(Words(block))
    ensures Compress(Regs(0x67452301, 0xefcdab89, 0x98badcfe, 0x10325476), block)
            == Regs(0x98500190, 0xb04fd23c, 0x7d3f96d6, 0x727fe128)
  {
    hide Steps, Words, AbcWords;
    var x := Words(block);
    AbcRound1(x);
    AbcRound2(x);
    AbcRound3(x);
    AbcRound4(x);
  }

  // ---------------------------------------------------------------- the first block of the digits

  predicate FirstWords(x: seq<bv32>) {
    && |x| == 16
    && x[0] == 0x34333231 && x[1] == 0x38373635 && x[2] == 0x32313039 && x[3] == 0x36353433
    && x[4] == 0x30393837 && x[5] == 0x34333231 && x[6] == 0x38373635 && x[7] == 0x32313039
    && x[8] == 0x36353433 && x[9] == 0x30393837 && x[10] == 0x34333231 && x[11] == 0x38373635
    && x[12] == 0x32313039 && x[13] == 0x36353433 && x[14] == 0x30393837 && x[15] == 0x34333231
  }

  lemma FirstRound1(x: seq<bv32>)
    requires FirstWords(x)
    ensures Steps(0, 16, Regs(0x67452301, 0xefcdab89, 0x98badcfe, 0x10325476), x)
            == Regs(0x5157e49e, 0xaf506a03, 0x27e983a0, 0xffac907e)
  {
    hide Steps, T, WordIndex, Shift, Step;
    var r := Regs(0x67452301, 0xefcdab89, 0x98badcfe, 0x10325476);
    Constants1a();
    Constants1b();
    NoSteps(r, x);
    To(0, r, x, Regs(0x67452301, 0xefcdab89, 0x98badcfe, 0x10325476),
       0x98badcfe, 0x34333231, 7, 0xd76aa478, 0xbeb8ff8e);
    To(1, r, x, Regs(0x10325476, 0xbeb8ff8e, 0xefcdab89, 0x98badcfe),
       0xae8aabf8, 0x38373635, 12, 0xe8c7b756, 0x7d989d89);
    To(2, r, x, Regs(0x98badcfe, 0x7d989d89, 0xbeb8ff8e, 0xefcdab89),
       0xbeddbf88, 0x32313039, 17, 0x242070db, 0xf8cdf95d);
    To(3, r, x, Regs(0xefcdab89, 0xf8cdf95d, 0x7d989d89, 0xbeb8ff8e),
       0x7eb89f8b, 0x36353433, 22, 0xc1bdceee, 0x862797b0);
    To(4, r, x, Regs(0xbeb8ff8e, 0x862797b0, 0xf8cdf95d, 0x7d989d89),
       0xf99d9919, 0x30393837, 7, 0xf57c0faf, 0x8c17de9f);
    To(5, r, x, Regs(0x7d989d89, 0x8c17de9f, 0x862797b0, 0xf8cdf95d),
       0xf4cfb7d0, 0x34333231, 12, 0x4787c62a, 0xc0f32d81);
    To(6, r, x, Regs(0xf8cdf95d, 0xc0f32d81, 0x8c17de9f, 0x862797b0),
       0x86179eb1, 0x38373635, 17, 0xa8304613, 0xe99fec1b);
    To(7, r, x, Regs(0x862797b0, 0xe99fec1b, 0xc0f32d81, 0x8c17de9f),
       0xc4933e85, 0x32313039, 22, 0xfd469501, 0xc57e78c1);
    To(8, r, x, Regs(0x8c17de9f, 0xc57e78c1, 0xe99fec1b, 0xc0f32d81),
       0xc19f6d01, 0x36353433, 7, 0x698098d8, 0x7c0aceb7);
    To(9, r, x, Regs(0xc0f32d81, 0x7c0aceb7, 0xc57e78c1, 0xe99fec1b),
       0xc59f6889, 0x30393837, 12, 0x8b44f7af, 0x8869d2d8);
    To(10, r, x, Regs(0xe99fec1b, 0x8869d2d8, 0x7c0aceb7, 0xc57e78c1),
       0x4d1eea91, 0x34333231, 17, 0xffff5bb1, 0x5186a8ba);
    To(11, r, x, Regs(0xc57e78c1, 0x5186a8ba, 0x8869d2d8, 0x7c0aceb7),
       0x2c08c69d, 0x38373635, 22, 0x895cd7be, 0xa5f36f8d);
    To(12, r, x, Regs(0x7c0aceb7, 0xa5f36f8d, 0x5186a8ba, 0x8869d2d8),
       0x098ab8d8, 0x32313039, 7, 0x6b901122, 0x5157e49e);
    To(13, r, x, Regs(0x8869d2d8, 0x5157e49e, 0xa5f36f8d, 0x5186a8ba),
       0x01d36cac, 0x36353433, 12, 0xfd987193, 0xffac907e);
    To(14, r, x, Regs(0x5186a8ba, 0xffac907e, 0x5157e49e, 0xa5f36f8d),
       0x5157ef9f, 0x30393837, 17, 0xa679438e, 0x27e983a0);
    To(15, r, x, Regs(0xa5f36f8d, 0x27e983a0, 0xffac907e, 0x5157e49e),
       0x77bee43e, 0x34333231, 22, 0x49b40821, 0xaf506a03);
  }

  lemma FirstRound2(x: seq<bv32>)
    requires FirstWords(x)
    requires Steps(0, 16, Regs(0x67452301, 0xefcdab89, 0x98badcfe, 0x10325476), x)
             == Regs(0x5157e49e, 0xaf506a03, 0x27e983a0, 0xffac907e)
    ensures Steps(0, 32, Regs(0x67452301, 0xefcdab89, 0x98badcfe, 0x10325476), x)
            == Regs(0xf8bcfbb0, 0x1bf25662, 0x99a0f1b8, 0xd760ed39)
  {
    hide Steps, T, WordIndex, Shift, Step;
    var r := Regs(0x67452301, 0xefcdab89, 0x98badcfe, 0x10325476);
    Constants2a();
    Constants2b();
    To(16, r, x, Regs(0x5157e49e, 0xaf506a03, 0x27e983a0, 0xffac907e),
       0xaf410382, 0x38373635, 5, 0xf61e2562, 0x8d18e0e8);
    To(17, r, x, Regs(0xffac907e, 0x8d18e0e8, 0xaf506a03, 0x27e983a0),
       0x8d18e8a3, 0x38373635, 9, 0xc040b340, 0x07de0df2);
    To(18, r, x, Regs(0x27e983a0, 0x07de0df2, 0x8d18e0e8, 0xaf506a03),
       0x075888ea, 0x38373635, 14, 0x265e5a51, 0xef223167);
    To(19, r, x, Regs(0xaf506a03, 0xef223167, 0x07de0df2, 0x8d18e0e8),
       0x8fc62d72, 0x34333231, 20, 0xe9b6c7aa, 0x04280170);
    To(20, r, x, Regs(0x8d18e0e8, 0x04280170, 0xef223167, 0x07de0df2),
       0xec283175, 0x34333231, 5, 0xd62f105d, 0x78929ee0);
    To(21, r, x, Regs(0x07de0df2, 0x78929ee0, 0x04280170, 0xef223167),
       0x680a1070, 0x34333231, 9, 0x02441453, 0x375c6c2c);
    To(22, r, x, Regs(0xef223167, 0x375c6c2c, 0x78929ee0, 0x04280170),
       0x7c9a9ea0, 0x34333231, 14, 0xd8a1e681, 0xb18aca50);
    To(23, r, x, Regs(0x04280170, 0xb18aca50, 0x375c6c2c, 0x78929ee0),
       0x37ceea4c, 0x30393837, 20, 0xe7d3fbc8, 0xad400a91);
    To(24, r, x, Regs(0x78929ee0, 0xad400a91, 0xb18aca50, 0x375c6c2c),
       0xa5c28a50, 0x30393837, 5, 0x21e1cde6, 0xbb45f43f);
    To(25, r, x, Regs(0x375c6c2c, 0xbb45f43f, 0xad400a91, 0xb18aca50),
       0xbd40c091, 0x30393837, 9, 0xc33707d6, 0xd61f8a0f);
    To(26, r, x, Regs(0xb18aca50, 0xd61f8a0f, 0xbb45f43f, 0xad400a91),
       0x9605fe2f, 0x36353433, 14, 0xf4d50d87, 0x98ade6b5);
    To(27, r, x, Regs(0xad400a91, 0x98ade6b5, 0xd61f8a0f, 0xbb45f43f),
       0xdc1fee35, 0x36353433, 20, 0x455a14ed, 0xb70e35a9);
    To(28, r, x, Regs(0xbb45f43f, 0xb70e35a9, 0x98ade6b5, 0xd61f8a0f),
       0x9eae64b9, 0x36353433, 5, 0xa9e3e905, 0xf8bcfbb0);
    To(29, r, x, Regs(0xd61f8a0f, 0xf8bcfbb0, 0xb70e35a9, 0x98ade6b5),
       0xbfaef3b8, 0x32313039, 9, 0xfcefa3f8, 0xd760ed39);
    To(30, r, x, Regs(0x98ade6b5, 0xd760ed39, 0xf8bcfbb0, 0xb70e35a9),
       0xdfb0ef39, 0x32313039, 14, 0x676f02d9, 0x99a0f1b8);
    To(31, r, x, Regs(0xb70e35a9, 0x99a0f1b8, 0xd760ed39, 0xf8bcfbb0),
       0x9fe0f5b9, 0x32313039, 20, 0x8d2a4c8a, 0x1bf25662);
  }

  lemma FirstRound3(x: seq<bv32>)
    requires FirstWords(x)
    requires Steps(0, 32, Regs(0x67452301, 0xefcdab89, 0x98badcfe, 0x10325476), x)
             == Regs(0xf8bcfbb0, 0x1bf25662, 0x99a0f1b8, 0xd760ed39)
    ensures Steps(0, 48, Regs(0x67452301, 0xefcdab89, 0x98badcfe, 0x10325476), x)
            == Regs(0x697032ec, 0xdb4197da, 0xefc2c171, 0xfa597bfc)
  {
    hide Steps, T, WordIndex, Shift, Step;
    var r := Regs(0x67452301, 0xefcdab89, 0x98badcfe, 0x10325476);
    Constants3a();
    Constants3b();
    To(32, r, x, Regs(0xf8bcfbb0, 0x1bf25662, 0x99a0f1b8, 0xd760ed39),
       0x55324ae3, 0x34333231, 4, 0xfffa3942, 0x3dbd76ca);
    To(33, r, x, Regs(0xd760ed39, 0x3dbd76ca, 0x1bf25662, 0x99a0f1b8),
       0xbfefd110, 0x36353433, 11, 0x8771f681, 0xfd056171);
    To(34, r, x, Regs(0x99a0f1b8, 0xfd056171, 0x3dbd76ca, 0x1bf25662),
       0xdb4a41d9, 0x38373635, 16, 0x6d9d6122, 0xc7ed7c30);
    To(35, r, x, Regs(0x1bf25662, 0xc7ed7c30, 0xfd056171, 0x3dbd76ca),
       0x07556b8b, 0x30393837, 23, 0xfde5380c, 0xe0162f49);
    To(36, r, x, Regs(0x3dbd76ca, 0xe0162f49, 0xc7ed7c30, 0xfd056171),
       0xdafe3208, 0x38373635, 4, 0xa4beea44, 0x3b32c408);
    To(37, r, x, Regs(0xfd056171, 0x3b32c408, 0xe0162f49, 0xc7ed7c30),
       0x1cc99771, 0x30393837, 11, 0x4bdecfa9, 0x7338d8b7);
    To(38, r, x, Regs(0xc7ed7c30, 0x7338d8b7, 0x3b32c408, 0xe0162f49),
       0xa81c33f6, 0x32313039, 16, 0xf6bb4b60, 0x9ef871ad);
    To(39, r, x, Regs(0xe0162f49, 0x9ef871ad, 0x7338d8b7, 0x3b32c408),
       0xd6f26d12, 0x34333231, 23, 0xbebfbc70, 0x1d4d6f72);
    To(40, r, x, Regs(0x3b32c408, 0x1d4d6f72, 0x9ef871ad, 0x7338d8b7),
       0xf08dc668, 0x36353433, 4, 0x289b7ec6, 0xc661460a);
    To(41, r, x, Regs(0x7338d8b7, 0xc661460a, 0x1d4d6f72, 0x9ef871ad),
       0x45d458d5, 0x34333231, 11, 0xeaa127fa, 0xd2bf04c9);
    To(42, r, x, Regs(0x9ef871ad, 0xd2bf04c9, 0xc661460a, 0x1d4d6f72),
       0x09932db1, 0x36353433, 16, 0xd4ef3085, 0xd6d5b879);
    To(43, r, x, Regs(0x1d4d6f72, 0xd6d5b879, 0xd2bf04c9, 0xc661460a),
       0xc20bfaba, 0x38373635, 23, 0x04881d05, 0x89e3c4d7);
    To(44, r, x, Regs(0xc661460a, 0x89e3c4d7, 0xd6d5b879, 0xd2bf04c9),
       0x8d897867, 0x30393837, 4, 0xd9d4d039, 0x697032ec);
    To(45, r, x, Regs(0xd2bf04c9, 0x697032ec, 0x89e3c4d7, 0xd6d5b879),
       0x36464e42, 0x32313039, 11, 0xe6db99e5, 0xfa597bfc);
    To(46, r, x, Regs(0xd6d5b879, 0xfa597bfc, 0x697032ec, 0x89e3c4d7),
       0x1aca8dc7, 0x34333231, 16, 0x1fa27cf8, 0xefc2c171);
    To(47, r, x, Regs(0x89e3c4d7, 0xefc2c171, 0xfa597bfc, 0x697032ec),
       0x7ceb8861, 0x32313039, 23, 0xc4ac5665, 0xdb4197da);
  }

  lemma FirstRound4(x: seq<bv32>)
    requires FirstWords(x)
    requires Steps(0, 48, Regs(0x67452301, 0xefcdab89, 0x98badcfe, 0x10325476), x)
             == Regs(0x697032ec, 0xdb4197da, 0xefc2c171, 0xfa597bfc)
    ensures Steps(0, 64, Regs(0x67452301, 0xefcdab89, 0x98badcfe, 0x10325476), x)
            == Regs(0x614868eb, 0xb4d33102, 0x5133129b, 0xa09f38a7)
  {
    hide Steps, T, WordIndex, Shift, Step;
    var r := Regs(0x67452301, 0xefcdab89, 0x98badcfe, 0x10325476);
    Constants4a();
    Constants4b();
    To(48, r, x, Regs(0x697032ec, 0xdb4197da, 0xefc2c171, 0xfa597bfc),
       0x302556aa, 0x34333231, 6, 0xf4292244, 0x57b91aca);
    To(49, r, x, Regs(0xfa597bfc, 0x57b91aca, 0xdb4197da, 0xefc2c171),
       0x8cfca914, 0x32313039, 10, 0x432aff97, 0x210c9ebc);
    To(50, r, x, Regs(0xefc2c171, 0x210c9ebc, 0x57b91aca, 0xdb4197da),
       0x7207e477, 0x30393837, 15, 0xab9423a7, 0x21efbd88);
    To(51, r, x, Regs(0xdb4197da, 0x21efbd88, 0x210c9ebc, 0x57b91aca),
       0x88e36301, 0x34333231, 21, 0xfc93a039, 0xcaa25b01);
    To(52, r, x, Regs(0x57b91aca, 0xcaa25b01, 0x21efbd88, 0x210c9ebc),
       0xff1cc6cb, 0x32313039, 6, 0x655b59c3, 0x633d3f7c);
    To(53, r, x, Regs(0x210c9ebc, 0x633d3f7c, 0xcaa25b01, 0x21efbd88),
       0x359f247e, 0x36353433, 10, 0x8f0ccc92, 0x1a4d3beb);
    To(54, r, x, Regs(0x21efbd88, 0x1a4d3beb, 0x633d3f7c, 0xcaa25b01),
       0x5c608083, 0x34333231, 15, 0xffeff47d, 0xccaa1524);
    To(55, r, x, Regs(0xcaa25b01, 0xccaa1524, 0x1a4d3beb, 0x633d3f7c),
       0xc6a7ee4c, 0x38373635, 21, 0x85845dd1, 0x7713f5df);
    To(56, r, x, Regs(0x633d3f7c, 0x7713f5df, 0xccaa1524, 0x1a4d3beb),
       0x3b19e0fb, 0x36353433, 6, 0x6fa87e4f, 0x8448b430);
    To(57, r, x, Regs(0x1a4d3beb, 0x8448b430, 0x7713f5df, 0xccaa1524),
       0xc04e0b24, 0x34333231, 10, 0xfe2ce6e0, 0x71c93463);
    To(58, r, x, Regs(0xccaa1524, 0x71c93463, 0x8448b430, 0x7713f5df),
       0x7da58a53, 0x38373635, 15, 0xa3014314, 0x7e294727);
    To(59, r, x, Regs(0x7713f5df, 0x7e294727, 0x71c93463, 0x8448b430),
       0x0e767b8c, 0x36353433, 21, 0x4e0811a1, 0x660a801d);
    To(60, r, x, Regs(0x8448b430, 0x660a801d, 0x7e294727, 0x71c93463),
       0x90178cba, 0x30393837, 6, 0xf7537e82, 0x614868eb);
    To(61, r, x, Regs(0x71c93463, 0x614868eb, 0x660a801d, 0x7e294727),
       0x87d478e6, 0x38373635, 10, 0xbd3af235, 0xa09f38a7);
    To(62, r, x, Regs(0x7e294727, 0xa09f38a7, 0x614868eb, 0x660a801d),
       0xd8b7170c, 0x32313039, 15, 0x2ad7d2bb, 0x5133129b);
    To(63, r, x, Regs(0x660a801d, 0x5133129b, 0xa09f38a7, 0x614868eb),
       0x7f28af38, 0x30393837, 21, 0xeb86d391, 0xb4d33102);
  }

  lemma FirstFolded(block: seq<Byte>)
    requires |block| == BLOCK && FirstWords(Words(block))
    ensures Compress(Regs(0x67452301, 0xefcdab89, 0x98badcfe, 0x10325476), block)
            == Regs(0xc88d8bec, 0xa4a0dc8b, 0xe9edef99, 0xb0d18d1d)
  {
    hide Steps, Words, FirstWords;
    var x := Words(block);
    FirstRound1(x);
    FirstRound2(x);
    FirstRound3(x);
    FirstRound4(x);
  }

  // ---------------------------------------------------------------- the second

  predicate SecondWords(x: seq<bv32>) {
    && |x| == 16
    && x[0] == 0x38373635 && x[1] == 0x32313039 && x[2] == 0x36353433 && x[3] == 0x30393837
    && x[4] == 0x00000080 && x[5] == 0x00000000 && x[6] == 0x00000000 && x[7] == 0x00000000
    && x[8] == 0x00000000 && x[9] == 0x00000000 && x[10] == 0x00000000 && x[11] == 0x00000000
    && x[12] == 0x00000000 && x[13] == 0x00000000 && x[14] == 0x00000280 && x[15] == 0x00000000
  }

  lemma SecondRound1(x: seq<bv32>)
    requires SecondWords(x)
    ensures Steps(0, 16, Regs(0xc88d8bec, 0xa4a0dc8b, 0xe9edef99, 0xb0d18d1d), x)
            == Regs(0xdb4ff71c, 0x58b12eab, 0x04396a39, 0x9b6b4960)
  {
    hide Steps, T, WordIndex, Shift, Step;
    var r := Regs(0xc88d8bec, 0xa4a0dc8b, 0xe9edef99, 0xb0d18d1d);
    Constants1a();
    Constants1b();
    NoSteps(r, x);
    To(0, r, x, Regs(0xc88d8bec, 0xa4a0dc8b, 0xe9edef99, 0xb0d18d1d),
       0xb0f1cd9d, 0x38373635, 7, 0xd76aa478, 0x353af7cf);
    To(1, r, x, Regs(0xb0d18d1d, 0x353af7cf, 0xa4a0dc8b, 0xe9edef99),
       0xece5dc9b, 0x32313039, 12, 0xe8c7b756, 0x3a4f735a);
    To(2, r, x, Regs(0xe9edef99, 0x3a4f735a, 0x353af7cf, 0xa4a0dc8b),
       0xb4aaffcb, 0x36353433, 17, 0x242070db, 0x63356537);
    To(3, r, x, Regs(0xa4a0dc8b, 0x63356537, 0x3a4f735a, 0x353af7cf),
       0x360ff3da, 0x30393837, 22, 0xc1bdceee, 0x45e88f2c);
    To(4, r, x, Regs(0x353af7cf, 0x45e88f2c, 0x63356537, 0x3a4f735a),
       0x7b277576, 0x00000080, 7, 0xf57c0faf, 0x3527497e);
    To(5, r, x, Regs(0x3a4f735a, 0x3527497e, 0x45e88f2c, 0x63356537),
       0x47302d2d, 0x00000000, 12, 0x4787c62a, 0xab92660e);
    To(6, r, x, Regs(0x63356537, 0xab92660e, 0x3527497e, 0x45e88f2c),
       0x656ac92e, 0x00000000, 17, 0xa8304613, 0x948347ae);
    To(7, r, x, Regs(0x45e88f2c, 0x948347ae, 0xab92660e, 0x3527497e),
       0xa1a64e5e, 0x00000000, 22, 0xfd469501, 0x377c7d0a);
    To(8, r, x, Regs(0x3527497e, 0x377c7d0a, 0x948347ae, 0xab92660e),
       0x9c82470e, 0x00000000, 7, 0x698098d8, 0xcc912f27);
    To(9, r, x, Regs(0xab92660e, 0xcc912f27, 0x377c7d0a, 0x948347ae),
       0x14126d8a, 0x00000000, 12, 0x8b44f7af, 0x6945a3d5);
    To(10, r, x, Regs(0x948347ae, 0x6945a3d5, 0xcc912f27, 0x377c7d0a),
       0x5e397f0f, 0x00000000, 17, 0xffff5bb1, 0xae23894d);
    To(11, r, x, Regs(0x377c7d0a, 0xae23894d, 0x6945a3d5, 0xcc912f27),
       0x6891a767, 0x00000000, 22, 0x895cd7be, 0xb9ede40c);
    To(12, r, x, Regs(0xcc912f27, 0xb9ede40c, 0xae23894d, 0x6945a3d5),
       0xe82183dd, 0x00000000, 7, 0x6b901122, 0xdb4ff71c);
    To(13, r, x, Regs(0x6945a3d5, 0xdb4ff71c, 0xb9ede40c, 0xae23894d),
       0xbd6dec4d, 0x00000000, 12, 0xfd987193, 0x9b6b4960);
    To(14, r, x, Regs(0xae23894d, 0x9b6b4960, 0xdb4ff71c, 0xb9ede40c),
       0xbbcfe50c, 0x00000280, 17, 0xa679438e, 0x04396a39);
    To(15, r, x, Regs(0xb9ede40c, 0x04396a39, 0x9b6b4960, 0xdb4ff71c),
       0xdb6fdd24, 0x00000000, 22, 0x49b40821, 0x58b12eab);
  }

  lemma SecondRound2(x: seq<bv32>)
    requires SecondWords(x)
    requires Steps(0, 16, Regs(0xc88d8bec, 0xa4a0dc8b, 0xe9edef99, 0xb0d18d1d), x)
             == Regs(0xdb4ff71c, 0x58b12eab, 0x04396a39, 0x9b6b4960)
    ensures Steps(0, 32, Regs(0xc88d8bec, 0xa4a0dc8b, 0xe9edef99, 0xb0d18d1d), x)
            == Regs(0x8761f38e, 0x67092c33, 0x061bc867, 0x7a516116)
  {
    hide Steps, T, WordIndex, Shift, Step;
    var r := Regs(0xc88d8bec, 0xa4a0dc8b, 0xe9edef99, 0xb0d18d1d);
    Constants2a();
    Constants2b();
    To(16, r, x, Regs(0xdb4ff71c, 0x58b12eab, 0x04396a39, 0x9b6b4960),
       0x1c312a39, 0x32313039, 5, 0xf61e2562, 0x52c00cae);
    To(17, r, x, Regs(0x9b6b4960, 0x52c00cae, 0x58b12eab, 0x04396a39),
       0x58800caa, 0x00000000, 9, 0xc040b340, 0xaad2a216);
    To(18, r, x, Regs(0x04396a39, 0xaad2a216, 0x52c00cae, 0x58b12eab),
       0x0ad02206, 0x00000000, 14, 0x265e5a51, 0xa476af6f);
    To(19, r, x, Regs(0x58b12eab, 0xa476af6f, 0xaad2a216, 0x52c00cae),
       0xa852ae3e, 0x38373635, 20, 0xe9b6c7aa, 0x50f8de8c);
    To(20, r, x, Regs(0x52c00cae, 0x50f8de8c, 0xa476af6f, 0xaad2a216),
       0x04f48f6d, 0x00000000, 5, 0xd62f105d, 0x0d6e6d91);
    To(21, r, x, Regs(0xaad2a216, 0x0d6e6d91, 0x50f8de8c, 0xa476af6f),
       0x54ee7d81, 0x00000000, 9, 0x02441453, 0x17d64195);
    To(22, r, x, Regs(0xa476af6f, 0x17d64195, 0x0d6e6d91, 0x50f8de8c),
       0x1dd66195, 0x00000000, 14, 0xd8a1e681, 0xd5b7a850);
    To(23, r, x, Regs(0x50f8de8c, 0xd5b7a850, 0x17d64195, 0x0d6e6d91),
       0x17b62814, 0x00000080, 20, 0xe7d3fbc8, 0x043cb080);
    To(24, r, x, Regs(0x0d6e6d91, 0x043cb080, 0xd5b7a850, 0x17d64195),
       0xc435a8c0, 0x00000000, 5, 0x21e1cde6, 0x74f9377e);
    To(25, r, x, Regs(0x17d64195, 0x74f9377e, 0x043cb080, 0xd5b7a850),
       0x54b930d0, 0x00000280, 9, 0xc33707d6, 0x01f2addd);
    To(26, r, x, Regs(0xd5b7a850, 0x01f2addd, 0x74f9377e, 0x043cb080),
       0x70f1a7fe, 0x30393837, 14, 0xf4d50d87, 0xe775c8ca);
    To(27, r, x, Regs(0x043cb080, 0xe775c8ca, 0x01f2addd, 0x74f9377e),
       0x657388cb, 0x00000000, 20, 0x455a14ed, 0xcb00b96e);
    To(28, r, x, Regs(0x74f9377e, 0xcb00b96e, 0xe775c8ca, 0x01f2addd),
       0xe705e94e, 0x00000000, 5, 0xa9e3e905, 0x8761f38e);
    To(29, r, x, Regs(0x01f2addd, 0x8761f38e, 0xcb00b96e, 0xe775c8ca),
       0x8f61f1ae, 0x36353433, 9, 0xfcefa3f8, 0x7a516116);
    To(30, r, x, Regs(0xe775c8ca, 0x7a516116, 0x8761f38e, 0xcb00b96e),
       0x4e616386, 0x00000000, 14, 0x676f02d9, 0x061bc867);
    To(31, r, x, Regs(0xcb00b96e, 0x061bc867, 0x7a516116, 0x8761f38e),
       0x7e11c016, 0x00000000, 20, 0x8d2a4c8a, 0x67092c33);
  }

  lemma SecondRound3(x: seq<bv32>)
    requires SecondWords(x)
    requires Steps(0, 32, Regs(0xc88d8bec, 0xa4a0dc8b, 0xe9edef99, 0xb0d18d1d), x)
             == Regs(0x8761f38e, 0x67092c33, 0x061bc867, 0x7a516116)
    ensures Steps(0, 48, Regs(0xc88d8bec, 0xa4a0dc8b, 0xe9edef99, 0xb0d18d1d), x)
            == Regs(0x71123afa, 0x1df7010a, 0xe6a8a386, 0xdc9c8ddb)
  {
    hide Steps, T, WordIndex, Shift, Step;
    var r := Regs(0xc88d8bec, 0xa4a0dc8b, 0xe9edef99, 0xb0d18d1d);
    Constants3a();
    Constants3b();
    To(32, r, x, Regs(0x8761f38e, 0x67092c33, 0x061bc867, 0x7a516116),
       0x1b438542, 0x00000000, 4, 0xfffa3942, 0x91044d5d);
    To(33, r, x, Regs(0x7a516116, 0x91044d5d, 0x67092c33, 0x061bc867),
       0xf016a909, 0x00000000, 11, 0x8771f681, 0x610954eb);
    To(34, r, x, Regs(0x061bc867, 0x610954eb, 0x91044d5d, 0x67092c33),
       0x97043585, 0x00000000, 16, 0x6d9d6122, 0xc0175fa8);
    To(35, r, x, Regs(0x67092c33, 0xc0175fa8, 0x610954eb, 0x91044d5d),
       0x301a461e, 0x00000280, 23, 0xfde5380c, 0x2ee1e3fe);
    To(36, r, x, Regs(0x91044d5d, 0x2ee1e3fe, 0xc0175fa8, 0x610954eb),
       0x8fffe8bd, 0x32313039, 4, 0xa4beea44, 0xae26ed7d);
    To(37, r, x, Regs(0x610954eb, 0xae26ed7d, 0x2ee1e3fe, 0xc0175fa8),
       0x40d0512b, 0x00000080, 11, 0x4bdecfa9, 0x71d8ecea);
    To(38, r, x, Regs(0xc0175fa8, 0x71d8ecea, 0xae26ed7d, 0x2ee1e3fe),
       0xf11fe269, 0x00000000, 16, 0xf6bb4b60, 0xff4a94dc);
    To(39, r, x, Regs(0x2ee1e3fe, 0xff4a94dc, 0x71d8ecea, 0xae26ed7d),
       0x20b4954b, 0x00000000, 23, 0xbebfbc70, 0xdbd1bff6);
    To(40, r, x, Regs(0xae26ed7d, 0xdbd1bff6, 0xff4a94dc, 0x71d8ecea),
       0x5543c7c0, 0x00000000, 4, 0x289b7ec6, 0x9c350028);
    To(41, r, x, Regs(0x71d8ecea, 0x9c350028, 0xdbd1bff6, 0xff4a94dc),
       0xb8ae2b02, 0x38373635, 11, 0xeaa127fa, 0x97e5da92);
    To(42, r, x, Regs(0xff4a94dc, 0x97e5da92, 0x9c350028, 0xdbd1bff6),
       0xd001654c, 0x30393837, 16, 0xd4ef3085, 0xfacaaf06);
    To(43, r, x, Regs(0xdbd1bff6, 0xfacaaf06, 0x97e5da92, 0x9c350028),
       0xf11a75bc, 0x00000000, 23, 0x04881d05, 0x56b3692f);
    To(44, r, x, Regs(0x9c350028, 0x56b3692f, 0xfacaaf06, 0x97e5da92),
       0x3b9c1cbb, 0x00000000, 4, 0xd9d4d039, 0x71123afa);
    To(45, r, x, Regs(0x97e5da92, 0x71123afa, 0x56b3692f, 0xfacaaf06),
       0xdd6bfcd3, 0x00000000, 11, 0xe6db99e5, 0xdc9c8ddb);
    To(46, r, x, Regs(0xfacaaf06, 0xdc9c8ddb, 0x71123afa, 0x56b3692f),
       0xfb3dde0e, 0x00000000, 16, 0x1fa27cf8, 0xe6a8a386);
    To(47, r, x, Regs(0x56b3692f, 0xe6a8a386, 0xdc9c8ddb, 0x71123afa),
       0x4b2614a7, 0x36353433, 23, 0xc4ac5665, 0x1df7010a);
  }

  lemma SecondRound4(x: seq<bv32>)
    requires SecondWords(x)
    requires Steps(0, 48, Regs(0xc88d8bec, 0xa4a0dc8b, 0xe9edef99, 0xb0d18d1d), x)
             == Regs(0x71123afa, 0x1df7010a, 0xe6a8a386, 0xdc9c8ddb)
    ensures Steps(0, 64, Regs(0xc88d8bec, 0xa4a0dc8b, 0xe9edef99, 0xb0d18d1d), x)
            == Regs(0xda67616b, 0xb12906a0, 0x44ec5a13, 0xc9e47a04)
  {
    hide Steps, T, WordIndex, Shift, Step;
    var r := Regs(0xc88d8bec, 0xa4a0dc8b, 0xe9edef99, 0xb0d18d1d);
    Constants4a();
    Constants4b();
    To(48, r, x, Regs(0x71123afa, 0x1df7010a, 0xe6a8a386, 0xdc9c8ddb),
       0xd95fd0a8, 0x38373635, 6, 0xf4292244, 0xd29007e7);
    To(49, r, x, Regs(0xdc9c8ddb, 0xd29007e7, 0x1df7010a, 0xe6a8a386),
       0xc6205ef5, 0x00000000, 10, 0x432aff97, 0x7241a77e);
    To(50, r, x, Regs(0xe6a8a386, 0x7241a77e, 0xd29007e7, 0x1df7010a),
       0x20d9f818, 0x00000280, 15, 0xab9423a7, 0xd3248109);
    To(51, r, x, Regs(0x1df7010a, 0xd3248109, 0x7241a77e, 0xd29007e7),
       0x8d2e5e67, 0x00000000, 21, 0xfc93a039, 0xc8797828);
    To(52, r, x, Regs(0xd29007e7, 0xc8797828, 0xd3248109, 0x7241a77e),
       0x1edbf9a0, 0x00000000, 6, 0x655b59c3, 0x7a504abd);
    To(53, r, x, Regs(0x7241a77e, 0x7a504abd, 0xc8797828, 0xd3248109),
       0xb6a206d7, 0x30393837, 10, 0x8f0ccc92, 0x211cc65d);
    To(54, r, x, Regs(0xd3248109, 0x211cc65d, 0x7a504abd, 0xc8797828),
       0x4dce8d62, 0x00000000, 15, 0xffeff47d, 0xa290d6ce);
    To(55, r, x, Regs(0xc8797828, 0xa290d6ce, 0x211cc65d, 0x7a504abd),
       0x86a33193, 0x32313039, 21, 0x85845dd1, 0x9b31b114);
    To(56, r, x, Regs(0x7a504abd, 0x9b31b114, 0xa290d6ce, 0x211cc65d),
       0x7d636f78, 0x00000000, 6, 0x6fa87e4f, 0x723fd22d);
    To(57, r, x, Regs(0x211cc65d, 0x723fd22d, 0x9b31b114, 0xa290d6ce),
       0xe44e4a29, 0x00000000, 10, 0xfe2ce6e0, 0xd21d6a3b);
    To(58, r, x, Regs(0xa290d6ce, 0xd21d6a3b, 0x723fd22d, 0x9b31b114),
       0x84e0bcd6, 0x00000000, 15, 0xa3014314, 0x3d79cf74);
    To(59, r, x, Regs(0x9b31b114, 0x3d79cf74, 0xd21d6a3b, 0x723fd22d),
       0x6fe485cd, 0x00000000, 21, 0x4e0811a1, 0x4dc4f33d);
    To(60, r, x, Regs(0x723fd22d, 0x4dc4f33d, 0x3d79cf74, 0xd21d6a3b),
       0x509f3889, 0x00000080, 6, 0xf7537e82, 0xda67616b);
    To(61, r, x, Regs(0xd21d6a3b, 0xda67616b, 0x4dc4f33d, 0x3d79cf74),
       0x972382d6, 0x00000000, 10, 0xbd3af235, 0xc9e47a04);
    To(62, r, x, Regs(0x3d79cf74, 0xc9e47a04, 0xda67616b, 0x4dc4f33d),
       0x21981fad, 0x36353433, 15, 0x2ad7d2bb, 0x44ec5a13);
    To(63, r, x, Regs(0x4dc4f33d, 0x44ec5a13, 0xc9e47a04, 0xda67616b),
       0xac18a493, 0x00000000, 21, 0xeb86d391, 0xb12906a0);
  }

  lemma SecondFolded(block: seq<Byte>)
    requires |block| == BLOCK && SecondWords(Words(block))
    ensures Compress(Regs(0xc88d8bec, 0xa4a0dc8b, 0xe9edef99, 0xb0d18d1d), block)
            == Regs(0xa2f4ed57, 0x55c9e32b, 0x2eda49ac, 0x7ab60721)
  {
    hide Steps, Words, SecondWords;
    var x := Words(block);
    SecondRound1(x);
    SecondRound2(x);
    SecondRound3(x);
    SecondRound4(x);
  }

  // ---------------------------------------------------------------- the digests

  /** "abc", and what it is padded to. */
  const ABC: seq<Byte> := [97, 98, 99]
  const ABC_BLOCK: seq<Byte> :=
    seq(64, i => if i == 0 then 97 else if i == 1 then 98 else if i == 2 then 99 else if i == 3 then 128
        else if i == 56 then 24 else 0)

  lemma AbcPadded()
    ensures Padded(ABC) == ABC_BLOCK && |ABC_BLOCK| == BLOCK
  {
    assert LittleEndianBytes(24) == [24, 0, 0, 0] && LittleEndianBytes(0) == [0, 0, 0, 0];
  }

  lemma AbcBlockWords()
    ensures |ABC_BLOCK| == BLOCK && AbcWords(Words(ABC_BLOCK))
  {
    hide Words, LittleEndian;
    AbcWord0();
    AbcWord1();
    AbcWord2();
    AbcWord3();
  }

  lemma AbcWord0()
    ensures |ABC_BLOCK| == BLOCK && |Words(ABC_BLOCK)| == 16
    ensures Words(ABC_BLOCK)[0] == 0x80636261
    ensures Words(ABC_BLOCK)[1] == 0x00000000
    ensures Words(ABC_BLOCK)[2] == 0x00000000
    ensures Words(ABC_BLOCK)[3] == 0x00000000
  {
    hide Words, LittleEndian;
    WordAt(ABC_BLOCK, 0, 97, 98, 99, 128, 0x80636261, 0x80636261);
    WordAt(ABC_BLOCK, 1, 0, 0, 0, 0, 0x00000000, 0x00000000);
    WordAt(ABC_BLOCK, 2, 0, 0, 0, 0, 0x00000000, 0x00000000);
    WordAt(ABC_BLOCK, 3, 0, 0, 0, 0, 0x00000000, 0x00000000);
  }

  lemma AbcWord1()
    ensures |ABC_BLOCK| == BLOCK && |Words(ABC_BLOCK)| == 16
    ensures Words(ABC_BLOCK)[4] == 0x00000000
    ensures Words(ABC_BLOCK)[5] == 0x00000000
    ensures Words(ABC_BLOCK)[6] == 0x00000000
    ensures Words(ABC_BLOCK)[7] == 0x00000000
  {
    hide Words, LittleEndian;
    WordAt(ABC_BLOCK, 4, 0, 0, 0, 0, 0x00000000, 0x00000000);
    WordAt(ABC_BLOCK, 5, 0, 0, 0, 0, 0x00000000, 0x00000000);
    WordAt(ABC_BLOCK, 6, 0, 0, 0, 0, 0x00000000, 0x00000000);
    WordAt(ABC_BLOCK, 7, 0, 0, 0, 0, 0x00000000, 0x00000000);
  }

  lemma AbcWord2()
    ensures |ABC_BLOCK| == BLOCK && |Words(ABC_BLOCK)| == 16
    ensures Words(ABC_BLOCK)[8] == 0x00000000
    ensures Words(ABC_BLOCK)[9] == 0x00000000
    ensures Words(ABC_BLOCK)[10] == 0x00000000
    ensures Words(ABC_BLOCK)[11] == 0x00000000
  {
    hide Words, LittleEndian;
    WordAt(ABC_BLOCK, 8, 0, 0, 0, 0, 0x00000000, 0x00000000);
    WordAt(ABC_BLOCK, 9, 0, 0, 0, 0, 0x00000000, 0x00000000);
    WordAt(ABC_BLOCK, 10, 0, 0, 0, 0, 0x00000000, 0x00000000);
    WordAt(ABC_BLOCK, 11, 0, 0, 0, 0, 0x00000000, 0x00000000);
  }

  lemma AbcWord3()
    ensures |ABC_BLOCK| == BLOCK && |Words(ABC_BLOCK)| == 16
    ensures Words(ABC_BLOCK)[12] == 0x00000000
    ensures Words(ABC_BLOCK)[13] == 0x00000000
    ensures Words(ABC_BLOCK)[14] == 0x00000018
    ensures Words(ABC_BLOCK)[15] == 0x00000000
  {
    hide Words, LittleEndian;
    WordAt(ABC_BLOCK, 12, 0, 0, 0, 0, 0x00000000, 0x00000000);
    WordAt(ABC_BLOCK, 13, 0, 0, 0, 0, 0x00000000, 0x00000000);
    WordAt(ABC_BLOCK, 14, 24, 0, 0, 0, 0x00000018, 0x00000018);
    WordAt(ABC_BLOCK, 15, 0, 0, 0, 0, 0x00000000, 0x00000000);
  }

  /** The digits 1 to 9 and 0, eight times over, and the two blocks they are padded to. */
  const DIGITS: seq<Byte> := seq(80, i => 48 + (i + 1) % 10)
  const FIRST_BLOCK: seq<Byte> := seq(64, i => 48 + (i + 1) % 10)
  const SECOND_BLOCK: seq<Byte> :=
    seq(64, i => if i < 16 then 48 + (i + 5) % 10 else if i == 16 then 128 else if i == 56 then 128
        else if i == 57 then 2 else 0)

  lemma DigitsPadded()
    ensures Padded(DIGITS) == FIRST_BLOCK + SECOND_BLOCK && |FIRST_BLOCK| == |SECOND_BLOCK| == BLOCK
  {
    hide LittleEndianBytes;
    DigitsLength();
  }

  lemma DigitsLength()
    ensures LittleEndianBytes(640) == [128, 2, 0, 0] && LittleEndianBytes(0) == [0, 0, 0, 0]
  {
    assert LittleEndianBytes(640) == [128, 2, 0, 0] && LittleEndianBytes(0) == [0, 0, 0, 0];
  }

  lemma FirstBlockWords()
    ensures |FIRST_BLOCK| == BLOCK && FirstWords(Words(FIRST_BLOCK))
  {
    hide Words, LittleEndian;
    FirstWord0();
    FirstWord1();
    FirstWord2();
    FirstWord3();
  }

  lemma FirstWord0()
    ensures |FIRST_BLOCK| == BLOCK && |Words(FIRST_BLOCK)| == 16
    ensures Words(FIRST_BLOCK)[0] == 0x34333231
    ensures Words(FIRST_BLOCK)[1] == 0x38373635
    ensures Words(FIRST_BLOCK)[2] == 0x32313039
    ensures Words(FIRST_BLOCK)[3] == 0x36353433
  {
    hide Words, LittleEndian;
    WordAt(FIRST_BLOCK, 0, 49, 50, 51, 52, 0x34333231, 0x34333231);
    WordAt(FIRST_BLOCK, 1, 53, 54, 55, 56, 0x38373635, 0x38373635);
    WordAt(FIRST_BLOCK, 2, 57, 48, 49, 50, 0x32313039, 0x32313039);
    WordAt(FIRST_BLOCK, 3, 51, 52, 53, 54, 0x36353433, 0x36353433);
  }

  lemma FirstWord1()
    ensures |FIRST_BLOCK| == BLOCK && |Words(FIRST_BLOCK)| == 16
    ensures Words(FIRST_BLOCK)[4] == 0x30393837
    ensures Words(FIRST_BLOCK)[5] == 0x34333231
    ensures Words(FIRST_BLOCK)[6] == 0x38373635
    ensures Words(FIRST_BLOCK)[7] == 0x32313039
  {
    hide Words, LittleEndian;
    WordAt(FIRST_BLOCK, 4, 55, 56, 57, 48, 0x30393837, 0x30393837);
    WordAt(FIRST_BLOCK, 5, 49, 50, 51, 52, 0x34333231, 0x34333231);
    WordAt(FIRST_BLOCK, 6, 53, 54, 55, 56, 0x38373635, 0x38373635);
    WordAt(FIRST_BLOCK, 7, 57, 48, 49, 50, 0x32313039, 0x32313039);
  }

  lemma FirstWord2()
    ensures |FIRST_BLOCK| == BLOCK && |Words(FIRST_BLOCK)| == 16
    ensures Words(FIRST_BLOCK)[8] == 0x36353433
    ensures Words(FIRST_BLOCK)[9] == 0x30393837
    ensures Words(FIRST_BLOCK)[10] == 0x34333231
    ensures Words(FIRST_BLOCK)[11] == 0x38373635
  {
    hide Words, LittleEndian;
    WordAt(FIRST_BLOCK, 8, 51, 52, 53, 54, 0x36353433, 0x36353433);
    WordAt(FIRST_BLOCK, 9, 55, 56, 57, 48, 0x30393837, 0x30393837);
    WordAt(FIRST_BLOCK, 10, 49, 50, 51, 52, 0x34333231, 0x34333231);
    WordAt(FIRST_BLOCK, 11, 53, 54, 55, 56, 0x38373635, 0x38373635);
  }

  lemma FirstWord3()
    ensures |FIRST_BLOCK| == BLOCK && |Words(FIRST_BLOCK)| == 16
    ensures Words(FIRST_BLOCK)[12] == 0x32313039
    ensures Words(FIRST_BLOCK)[13] == 0x36353433
    ensures Words(FIRST_BLOCK)[14] == 0x30393837
    ensures Words(FIRST_BLOCK)[15] == 0x34333231
  {
    hide Words, LittleEndian;
    WordAt(FIRST_BLOCK, 12, 57, 48, 49, 50, 0x32313039, 0x32313039);
    WordAt(FIRST_BLOCK, 13, 51, 52, 53, 54, 0x36353433, 0x36353433);
    WordAt(FIRST_BLOCK, 14, 55, 56, 57, 48, 0x30393837, 0x30393837);
    WordAt(FIRST_BLOCK, 15, 49, 50, 51, 52, 0x34333231, 0x34333231);
  }

  lemma SecondBlockWords()
    ensures |SECOND_BLOCK| == BLOCK && SecondWords(Words(SECOND_BLOCK))
  {
    hide Words, LittleEndian;
    SecondWord0();
    SecondWord1();
    SecondWord2();
    SecondWord3();
  }

  lemma SecondWord0()
    ensures |SECOND_BLOCK| == BLOCK && |Words(SECOND_BLOCK)| == 16
    ensures Words(SECOND_BLOCK)[0] == 0x38373635
    ensures Words(SECOND_BLOCK)[1] == 0x32313039
    ensures Words(SECOND_BLOCK)[2] == 0x36353433
    ensures Words(SECOND_BLOCK)[3] == 0x30393837
  {
    hide Words, LittleEndian;
    WordAt(SECOND_BLOCK, 0, 53, 54, 55, 56, 0x38373635, 0x38373635);
    WordAt(SECOND_BLOCK, 1, 57, 48, 49, 50, 0x32313039, 0x32313039);
    WordAt(SECOND_BLOCK, 2, 51, 52, 53, 54, 0x36353433, 0x36353433);
    WordAt(SECOND_BLOCK, 3, 55, 56, 57, 48, 0x30393837, 0x30393837);
  }

  lemma SecondWord1()
    ensures |SECOND_BLOCK| == BLOCK && |Words(SECOND_BLOCK)| == 16
    ensures Words(SECOND_BLOCK)[4] == 0x00000080
    ensures Words(SECOND_BLOCK)[5] == 0x00000000
    ensures Words(SECOND_BLOCK)[6] == 0x00000000
    ensures Words(SECOND_BLOCK)[7] == 0x00000000
  {
    hide Words, LittleEndian;
    WordAt(SECOND_BLOCK, 4, 128, 0, 0, 0, 0x00000080, 0x00000080);
    WordAt(SECOND_BLOCK, 5, 0, 0, 0, 0, 0x00000000, 0x00000000);
    WordAt(SECOND_BLOCK, 6, 0, 0, 0, 0, 0x00000000, 0x00000000);
    WordAt(SECOND_BLOCK, 7, 0, 0, 0, 0, 0x00000000, 0x00000000);
  }

  lemma SecondWord2()
    ensures |SECOND_BLOCK| == BLOCK && |Words(SECOND_BLOCK)| == 16
    ensures Words(SECOND_BLOCK)[8] == 0x00000000
    ensures Words(SECOND_BLOCK)[9] == 0x00000000
    ensures Words(SECOND_BLOCK)[10] == 0x00000000
    ensures Words(SECOND_BLOCK)[11] == 0x00000000
  {
    hide Words, LittleEndian;
    WordAt(SECOND_BLOCK, 8, 0, 0, 0, 0, 0x00000000, 0x00000000);
    WordAt(SECOND_BLOCK, 9, 0, 0, 0, 0, 0x00000000, 0x00000000);
    WordAt(SECOND_BLOCK, 10, 0, 0, 0, 0, 0x00000000, 0x00000000);
    WordAt(SECOND_BLOCK, 11, 0, 0, 0, 0, 0x00000000, 0x00000000);
  }

  lemma SecondWord3()
    ensures |SECOND_BLOCK| == BLOCK && |Words(SECOND_BLOCK)| == 16
    ensures Words(SECOND_BLOCK)[12] == 0x00000000
    ensures Words(SECOND_BLOCK)[13] == 0x00000000
    ensures Words(SECOND_BLOCK)[14] == 0x00000280
    ensures Words(SECOND_BLOCK)[15] == 0x00000000
  {
    hide Words, LittleEndian;
    WordAt(SECOND_BLOCK, 12, 0, 0, 0, 0, 0x00000000, 0x00000000);
    WordAt(SECOND_BLOCK, 13, 0, 0, 0, 0, 0x00000000, 0x00000000);
    WordAt(SECOND_BLOCK, 14, 128, 2, 0, 0, 0x00000280, 0x00000280);
    WordAt(SECOND_BLOCK, 15, 0, 0, 0, 0, 0x00000000, 0x00000000);
  }

  lemma NothingFolded()
    ensures Fold(INITIAL, []) == INITIAL
  {
  }

  lemma AbcOutput()
    ensures Output(Regs(0x98500190, 0xb04fd23c, 0x7d3f96d6, 0x727fe128)) == [
      144, 1, 80, 152, 60, 210, 79, 176, 214, 150, 63, 125, 40, 225, 127, 114]
  {
  }

  lemma DigestAbc()
    ensures Digest(ABC) == [
      144, 1, 80, 152, 60, 210, 79, 176, 214, 150, 63, 125, 40, 225, 127, 114]
  {
    hide Compress, Padded, AbcWords, Words, Fold, Output;
    NothingFolded();
    AbcOutput();
    AbcPadded();
    AbcBlockWords();
    AbcFolded(ABC_BLOCK);
    FoldOne(INITIAL, [], ABC_BLOCK);
    assert [] + ABC_BLOCK == ABC_BLOCK;
  }

  lemma DigitsOutput()
    ensures Output(Regs(0xa2f4ed57, 0x55c9e32b, 0x2eda49ac, 0x7ab60721)) == [
      87, 237, 244, 162, 43, 227, 201, 85, 172, 73, 218, 46, 33, 7, 182, 122]
  {
  }

  lemma DigestDigits()
    ensures Digest(DIGITS) == [
      87, 237, 244, 162, 43, 227, 201, 85, 172, 73, 218, 46, 33, 7, 182, 122]
  {
    hide Compress, Padded, FirstWords, SecondWords, Words, Fold, Output;
    NothingFolded();
    DigitsOutput();
    DigitsPadded();
    FirstBlockWords();
    SecondBlockWords();
    FirstFolded(FIRST_BLOCK);
    SecondFolded(SECOND_BLOCK);
    FoldOne(INITIAL, [], FIRST_BLOCK);
    assert [] + FIRST_BLOCK == FIRST_BLOCK;
    FoldOne(INITIAL, FIRST_BLOCK, SECOND_BLOCK);
  }
}
