/**
  The laws of the auxiliary functions of section 3.4 of RFC 1321, and the digest of "abc" from
  its appendix A.5 worked out line by line.
*/
module Md5Vector {
  import opened Bytes
  import opened HashBlocks
  import opened Md5

  /** F: if b then c else d, bit by bit. */
  lemma ChoiceB(b: bv32, c: bv32, d: bv32)
    ensures Mix(0, b, c, d) & b == c & b && Mix(0, b, c, d) & !b == d & !b
  {}

  /** G: if d then b else c. */
  lemma ChoiceD(b: bv32, c: bv32, d: bv32)
    ensures Mix(1, b, c, d) & d == b & d && Mix(1, b, c, d) & !d == c & !d
  {}

  /** H: the parity of the three bits. */
  lemma ParityIs(b: bv32, c: bv32, d: bv32)
    ensures Mix(2, b, c, d) == (b & !c & !d) | (!b & c & !d) | (!b & !c & d) | (b & c & d)
  {}

  /** I: c itself where b is 0 and d is 1, its complement elsewhere. */
  lemma Complements(b: bv32, c: bv32, d: bv32)
    ensures Mix(3, b, c, d) & (!b & d) == c & (!b & d) && Mix(3, b, c, d) & !(!b & d) == !c & !(!b & d)
  {}

  const ABC: seq<byte> := [0x61, 0x62, 0x63]

  lemma AbcPadded()
    ensures Padded(ABC) == ABC + [0x80] + Zeros(52) + [0x18, 0, 0, 0, 0, 0, 0, 0]
  {}

  lemma LiteralWords()
    ensures Word(0x61, 0x62, 0x63, 0x80) == 0x80636261 && Word(0, 0, 0, 0) == 0 && Word(0x18, 0, 0, 0) == 0x18
  {}

  lemma AbcBytesAre(block: Block)
    requires block == Padded(ABC)
    ensures block[0] == 0x61 && block[1] == 0x62 && block[2] == 0x63 && block[3] == 0x80 && block[56] == 0x18
    ensures forall i :: 4 <= i < 64 && i != 56 ==> block[i] == 0
  {
    hide Padded;
    AbcPadded();
  }

  ghost predicate Abc(x: seq<bv32>) {
    x == [0x80636261, 0, 0, 0, 0, 0, 0, 0, 0, 0, 0, 0, 0, 0, 0x18, 0]
  }

  lemma AbcWords(block: Block)
    requires block == Padded(ABC)
    ensures Abc(Words(block))
  {
    AbcPadded();
    LiteralWords();
    hide Word, Padded, Zeros;
    AbcBytesAre(block);
  }

  lemma Ops1()
    ensures Op(0, 0x67452301, 0xefcdab89, 0x98badcfe, 0x10325476, 0x80636261, 7, 0xd76aa478) == 0xd6d117b4
    ensures Op(0, 0x10325476, 0xd6d117b4, 0xefcdab89, 0x98badcfe, 0, 12, 0xe8c7b756) == 0x344a8432
    ensures Op(0, 0x98badcfe, 0x344a8432, 0xd6d117b4, 0xefcdab89, 0, 17, 0x242070db) == 0x2f6fbd72
    ensures Op(0, 0xefcdab89, 0x2f6fbd72, 0x344a8432, 0xd6d117b4, 0, 22, 0xc1bdceee) == 0x7ad956f2
  {}

  lemma Line1(x: seq<bv32>)
    requires Abc(x)
    ensures RowStep(Regs(0x67452301, 0xefcdab89, 0x98badcfe, 0x10325476), x, 0)
      == Regs(0xd6d117b4, 0x7ad956f2, 0x2f6fbd72, 0x344a8432)
  {
    hide Op;
    Ops1();
  }

  lemma Ops2()
    ensures Op(0, 0xd6d117b4, 0x7ad956f2, 0x2f6fbd72, 0x344a8432, 0, 7, 0xf57c0faf) == 0xc73741ef
    ensures Op(0, 0x344a8432, 0xc73741ef, 0x7ad956f2, 0x2f6fbd72, 0, 12, 0x4787c62a) == 0x8bac3051
    ensures Op(0, 0x2f6fbd72, 0x8bac3051, 0xc73741ef, 0x7ad956f2, 0, 17, 0xa8304613) == 0x207dc67b
    ensures Op(0, 0x7ad956f2, 0x207dc67b, 0x8bac3051, 0xc73741ef, 0, 22, 0xfd469501) == 0x928d99f6
  {}

  lemma Line2(x: seq<bv32>)
    requires Abc(x)
    ensures RowStep(Regs(0xd6d117b4, 0x7ad956f2, 0x2f6fbd72, 0x344a8432), x, 1)
      == Regs(0xc73741ef, 0x928d99f6, 0x207dc67b, 0x8bac3051)
  {
    hide Op;
    Ops2();
  }

  lemma Ops3()
    ensures Op(0, 0xc73741ef, 0x928d99f6, 0x207dc67b, 0x8bac3051, 0, 7, 0x698098d8) == 0x854b3712
    ensures Op(0, 0x8bac3051, 0x854b3712, 0x928d99f6, 0x207dc67b, 0, 12, 0x8b44f7af) == 0x74e2f284
    ensures Op(0, 0x207dc67b, 0x74e2f284, 0x854b3712, 0x928d99f6, 0, 17, 0xffff5bb1) == 0x3020401c
    ensures Op(0, 0x928d99f6, 0x3020401c, 0x74e2f284, 0x854b3712, 0, 22, 0x895cd7be) == 0x5ed49596
  {}

  lemma Line3(x: seq<bv32>)
    requires Abc(x)
    ensures RowStep(Regs(0xc73741ef, 0x928d99f6, 0x207dc67b, 0x8bac3051), x, 2)
      == Regs(0x854b3712, 0x5ed49596, 0x3020401c, 0x74e2f284)
  {
    hide Op;
    Ops3();
  }

  lemma Ops4()
    ensures Op(0, 0x854b3712, 0x5ed49596, 0x3020401c, 0x74e2f284, 0, 7, 0x6b901122) == 0xdda9b9a6
    ensures Op(0, 0x74e2f284, 0xdda9b9a6, 0x5ed49596, 0x3020401c, 0, 12, 0xfd987193) == 0xa1051895
    ensures Op(0, 0x3020401c, 0xa1051895, 0xdda9b9a6, 0x5ed49596, 0x18, 17, 0xa679438e) == 0xe396856b
    ensures Op(0, 0x5ed49596, 0xe396856b, 0xa1051895, 0xdda9b9a6, 0, 22, 0x49b40821) == 0x72aff2e0
  {}

  lemma Line4(x: seq<bv32>)
    requires Abc(x)
    ensures RowStep(Regs(0x854b3712, 0x5ed49596, 0x3020401c, 0x74e2f284), x, 3)
      == Regs(0xdda9b9a6, 0x72aff2e0, 0xe396856b, 0xa1051895)
  {
    hide Op;
    Ops4();
  }

  lemma Ops5()
    ensures Op(1, 0xdda9b9a6, 0x72aff2e0, 0xe396856b, 0xa1051895, 0, 5, 0xf61e2562) == 0x3e9e9126
    ensures Op(1, 0xa1051895, 0x3e9e9126, 0x72aff2e0, 0xe396856b, 0, 9, 0xc040b340) == 0x4a1d804e
    ensures Op(1, 0xe396856b, 0x4a1d804e, 0x3e9e9126, 0x72aff2e0, 0, 14, 0x265e5a51) == 0xe25e1652
    ensures Op(1, 0x72aff2e0, 0xe25e1652, 0x4a1d804e, 0x3e9e9126, 0x80636261, 20, 0xe9b6c7aa) == 0xb5b204e4
  {}

  lemma Line5(x: seq<bv32>)
    requires Abc(x)
    ensures RowStep(Regs(0xdda9b9a6, 0x72aff2e0, 0xe396856b, 0xa1051895), x, 4)
      == Regs(0x3e9e9126, 0xb5b204e4, 0xe25e1652, 0x4a1d804e)
  {
    hide Op;
    Ops5();
  }

  lemma Ops6()
    ensures Op(1, 0x3e9e9126, 0xb5b204e4, 0xe25e1652, 0x4a1d804e, 0, 5, 0xd62f105d) == 0x59a8ffda
    ensures Op(1, 0x4a1d804e, 0x59a8ffda, 0xb5b204e4, 0xe25e1652, 0, 9, 0x02441453) == 0x6d002f1e
    ensures Op(1, 0xe25e1652, 0x6d002f1e, 0x59a8ffda, 0xb5b204e4, 0, 14, 0xd8a1e681) == 0xabfc7920
    ensures Op(1, 0xb5b204e4, 0xabfc7920, 0x6d002f1e, 0x59a8ffda, 0, 20, 0xe7d3fbc8) == 0x47092c07
  {}

  lemma Line6(x: seq<bv32>)
    requires Abc(x)
    ensures RowStep(Regs(0x3e9e9126, 0xb5b204e4, 0xe25e1652, 0x4a1d804e), x, 5)
      == Regs(0x59a8ffda, 0x47092c07, 0xabfc7920, 0x6d002f1e)
  {
    hide Op;
    Ops6();
  }

  lemma Ops7()
    ensures Op(1, 0x59a8ffda, 0x47092c07, 0xabfc7920, 0x6d002f1e, 0, 5, 0x21e1cde6) == 0xb7f268cf
    ensures Op(1, 0x6d002f1e, 0xb7f268cf, 0x47092c07, 0xabfc7920, 0x18, 9, 0xc33707d6) == 0x09388eff
    ensures Op(1, 0xabfc7920, 0x09388eff, 0xb7f268cf, 0x47092c07, 0, 14, 0xf4d50d87) == 0xfe1623b1
    ensures Op(1, 0x47092c07, 0xfe1623b1, 0x09388eff, 0xb7f268cf, 0, 20, 0x455a14ed) == 0x786acb8f
  {}

  lemma Line7(x: seq<bv32>)
    requires Abc(x)
    ensures RowStep(Regs(0x59a8ffda, 0x47092c07, 0xabfc7920, 0x6d002f1e), x, 6)
      == Regs(0xb7f268cf, 0x786acb8f, 0xfe1623b1, 0x09388eff)
  {
    hide Op;
    Ops7();
  }

  lemma Ops8()
    ensures Op(1, 0xb7f268cf, 0x786acb8f, 0xfe1623b1, 0x09388eff, 0, 5, 0xa9e3e905) == 0x790a77fb
    ensures Op(1, 0x09388eff, 0x790a77fb, 0x786acb8f, 0xfe1623b1, 0, 9, 0xfcefa3f8) == 0x9f47e4f8
    ensures Op(1, 0xfe1623b1, 0x9f47e4f8, 0x790a77fb, 0x786acb8f, 0, 14, 0x676f02d9) == 0xa62884aa
    ensures Op(1, 0x786acb8f, 0xa62884aa, 0x9f47e4f8, 0x790a77fb, 0, 20, 0x8d2a4c8a) == 0x726342d3
  {}

  lemma Line8(x: seq<bv32>)
    requires Abc(x)
    ensures RowStep(Regs(0xb7f268cf, 0x786acb8f, 0xfe1623b1, 0x09388eff), x, 7)
      == Regs(0x790a77fb, 0x726342d3, 0xa62884aa, 0x9f47e4f8)
  {
    hide Op;
    Ops8();
  }

  lemma Ops9()
    ensures Op(2, 0x790a77fb, 0x726342d3, 0xa62884aa, 0x9f47e4f8, 0, 4, 0xfffa3942) == 0xb3707ebf
    ensures Op(2, 0x9f47e4f8, 0xb3707ebf, 0x726342d3, 0xa62884aa, 0, 11, 0x8771f681) == 0x60127b2e
    ensures Op(2, 0xa62884aa, 0x60127b2e, 0xb3707ebf, 0x726342d3, 0, 16, 0x6d9d6122) == 0x8d212ff5
    ensures Op(2, 0x726342d3, 0x8d212ff5, 0x60127b2e, 0xb3707ebf, 0x18, 23, 0xfde5380c) == 0x3b0875c7
  {}

  lemma Line9(x: seq<bv32>)
    requires Abc(x)
    ensures RowStep(Regs(0x790a77fb, 0x726342d3, 0xa62884aa, 0x9f47e4f8), x, 8)
      == Regs(0xb3707ebf, 0x3b0875c7, 0x8d212ff5, 0x60127b2e)
  {
    hide Op;
    Ops9();
  }

  lemma Ops10()
    ensures Op(2, 0xb3707ebf, 0x3b0875c7, 0x8d212ff5, 0x60127b2e, 0, 4, 0xa4beea44) == 0x21b117b9
    ensures Op(2, 0x60127b2e, 0x21b117b9, 0x3b0875c7, 0x8d212ff5, 0, 11, 0x4bdecfa9) == 0x6e7429d5
    ensures Op(2, 0x8d212ff5, 0x6e7429d5, 0x21b117b9, 0x3b0875c7, 0, 16, 0xf6bb4b60) == 0x3575227e
    ensures Op(2, 0x3b0875c7, 0x3575227e, 0x6e7429d5, 0x21b117b9, 0, 23, 0xbebfbc70) == 0x5a2f5ea5
  {}

  lemma Line10(x: seq<bv32>)
    requires Abc(x)
    ensures RowStep(Regs(0xb3707ebf, 0x3b0875c7, 0x8d212ff5, 0x60127b2e), x, 9)
      == Regs(0x21b117b9, 0x5a2f5ea5, 0x3575227e, 0x6e7429d5)
  {
    hide Op;
    Ops10();
  }

  lemma Ops11()
    ensures Op(2, 0x21b117b9, 0x5a2f5ea5, 0x3575227e, 0x6e7429d5, 0, 4, 0x289b7ec6) == 0x11de1779
    ensures Op(2, 0x6e7429d5, 0x11de1779, 0x5a2f5ea5, 0x3575227e, 0x80636261, 11, 0xeaa127fa) == 0xfadcaa38
    ensures Op(2, 0x3575227e, 0xfadcaa38, 0x11de1779, 0x5a2f5ea5, 0, 16, 0xd4ef3085) == 0x31c465ca
    ensures Op(2, 0x5a2f5ea5, 0x31c465ca, 0xfadcaa38, 0x11de1779, 0, 23, 0x04881d05) == 0x4c6124f4
  {}

  lemma Line11(x: seq<bv32>)
    requires Abc(x)
    ensures RowStep(Regs(0x21b117b9, 0x5a2f5ea5, 0x3575227e, 0x6e7429d5), x, 10)
      == Regs(0x11de1779, 0x4c6124f4, 0x31c465ca, 0xfadcaa38)
  {
    hide Op;
    Ops11();
  }

  lemma Ops12()
    ensures Op(2, 0x11de1779, 0x4c6124f4, 0x31c465ca, 0xfadcaa38, 0, 4, 0xd9d4d039) == 0x7f2e507b
    ensures Op(2, 0xfadcaa38, 0x7f2e507b, 0x4c6124f4, 0x31c465ca, 0, 11, 0xe6db99e5) == 0x99d9679d
    ensures Op(2, 0x31c465ca, 0x99d9679d, 0x7f2e507b, 0x4c6124f4, 0, 16, 0x1fa27cf8) == 0x8fae6399
    ensures Op(2, 0x4c6124f4, 0x8fae6399, 0x99d9679d, 0x7f2e507b, 0, 23, 0xc4ac5665) == 0x7beb9700
  {}

  lemma Line12(x: seq<bv32>)
    requires Abc(x)
    ensures RowStep(Regs(0x11de1779, 0x4c6124f4, 0x31c465ca, 0xfadcaa38), x, 11)
      == Regs(0x7f2e507b, 0x7beb9700, 0x8fae6399, 0x99d9679d)
  {
    hide Op;
    Ops12();
  }

  lemma Ops13()
    ensures Op(3, 0x7f2e507b, 0x7beb9700, 0x8fae6399, 0x99d9679d, 0x80636261, 6, 0xf4292244) == 0x7b201df8
    ensures Op(3, 0x99d9679d, 0x7b201df8, 0x7beb9700, 0x8fae6399, 0, 10, 0x432aff97) == 0xf4e8e96e
    ensures Op(3, 0x8fae6399, 0xf4e8e96e, 0x7b201df8, 0x7beb9700, 0x18, 15, 0xab9423a7) == 0xb298cefd
    ensures Op(3, 0x7beb9700, 0xb298cefd, 0xf4e8e96e, 0x7b201df8, 0, 21, 0xfc93a039) == 0x8bf025c4
  {}

  lemma Line13(x: seq<bv32>)
    requires Abc(x)
    ensures RowStep(Regs(0x7f2e507b, 0x7beb9700, 0x8fae6399, 0x99d9679d), x, 12)
      == Regs(0x7b201df8, 0x8bf025c4, 0xb298cefd, 0xf4e8e96e)
  {
    hide Op;
    Ops13();
  }

  lemma Ops14()
    ensures Op(3, 0x7b201df8, 0x8bf025c4, 0xb298cefd, 0xf4e8e96e, 0, 6, 0x655b59c3) == 0x06cc5e8a
    ensures Op(3, 0xf4e8e96e, 0x06cc5e8a, 0x8bf025c4, 0xb298cefd, 0, 10, 0x8f0ccc92) == 0x5b0d97aa
    ensures Op(3, 0xb298cefd, 0x5b0d97aa, 0x06cc5e8a, 0x8bf025c4, 0, 15, 0xffeff47d) == 0x7d632dd0
    ensures Op(3, 0x8bf025c4, 0x7d632dd0, 0x5b0d97aa, 0x06cc5e8a, 0, 21, 0x85845dd1) == 0x3bfa2c27
  {}

  lemma Line14(x: seq<bv32>)
    requires Abc(x)
    ensures RowStep(Regs(0x7b201df8, 0x8bf025c4, 0xb298cefd, 0xf4e8e96e), x, 13)
      == Regs(0x06cc5e8a, 0x3bfa2c27, 0x7d632dd0, 0x5b0d97aa)
  {
    hide Op;
    Ops14();
  }

  lemma Ops15()
    ensures Op(3, 0x06cc5e8a, 0x3bfa2c27, 0x7d632dd0, 0x5b0d97aa, 0, 6, 0x6fa87e4f) == 0x7f81cc35
    ensures Op(3, 0x5b0d97aa, 0x7f81cc35, 0x3bfa2c27, 0x7d632dd0, 0, 10, 0xfe2ce6e0) == 0x094454ab
    ensures Op(3, 0x7d632dd0, 0x094454ab, 0x7f81cc35, 0x3bfa2c27, 0, 15, 0xa3014314) == 0x4f9dbe3f
    ensures Op(3, 0x3bfa2c27, 0x4f9dbe3f, 0x094454ab, 0x7f81cc35, 0, 21, 0x4e0811a1) == 0x7327d604
  {}

  lemma Line15(x: seq<bv32>)
    requires Abc(x)
    ensures RowStep(Regs(0x06cc5e8a, 0x3bfa2c27, 0x7d632dd0, 0x5b0d97aa), x, 14)
      == Regs(0x7f81cc35, 0x7327d604, 0x4f9dbe3f, 0x094454ab)
  {
    hide Op;
    Ops15();
  }

  lemma Ops16()
    ensures Op(3, 0x7f81cc35, 0x7327d604, 0x4f9dbe3f, 0x094454ab, 0, 6, 0xf7537e82) == 0x310ade8f
    ensures Op(3, 0x094454ab, 0x310ade8f, 0x7327d604, 0x4f9dbe3f, 0, 10, 0xbd3af235) == 0x624d8cb2
    ensures Op(3, 0x4f9dbe3f, 0x624d8cb2, 0x310ade8f, 0x7327d604, 0, 15, 0x2ad7d2bb) == 0xe484b9d8
    ensures Op(3, 0x7327d604, 0xe484b9d8, 0x624d8cb2, 0x310ade8f, 0, 21, 0xeb86d391) == 0xc08226b3
  {}

  lemma Line16(x: seq<bv32>)
    requires Abc(x)
    ensures RowStep(Regs(0x7f81cc35, 0x7327d604, 0x4f9dbe3f, 0x094454ab), x, 15)
      == Regs(0x310ade8f, 0xc08226b3, 0xe484b9d8, 0x624d8cb2)
  {
    hide Op;
    Ops16();
  }

  lemma Round1(x: seq<bv32>)
    requires Abc(x)
    ensures Rows(INIT, x, 4) == Regs(0xdda9b9a6, 0x72aff2e0, 0xe396856b, 0xa1051895)
  {
    hide RowStep;
    Line1(x);
    Line2(x);
    Line3(x);
    Line4(x);
    assert Rows(INIT, x, 1) == RowStep(Rows(INIT, x, 0), x, 0);
    assert Rows(INIT, x, 2) == RowStep(Rows(INIT, x, 1), x, 1);
    assert Rows(INIT, x, 3) == RowStep(Rows(INIT, x, 2), x, 2);
  }

  lemma Round2(x: seq<bv32>)
    requires Abc(x)
    ensures Rows(INIT, x, 8) == Regs(0x790a77fb, 0x726342d3, 0xa62884aa, 0x9f47e4f8)
  {
    hide RowStep;
    Round1(x);
    Line5(x);
    Line6(x);
    Line7(x);
    Line8(x);
    assert Rows(INIT, x, 5) == RowStep(Rows(INIT, x, 4), x, 4);
    assert Rows(INIT, x, 6) == RowStep(Rows(INIT, x, 5), x, 5);
    assert Rows(INIT, x, 7) == RowStep(Rows(INIT, x, 6), x, 6);
  }

  lemma Round3(x: seq<bv32>)
    requires Abc(x)
    ensures Rows(INIT, x, 12) == Regs(0x7f2e507b, 0x7beb9700, 0x8fae6399, 0x99d9679d)
  {
    hide RowStep;
    Round2(x);
    Line9(x);
    Line10(x);
    Line11(x);
    Line12(x);
    assert Rows(INIT, x, 9) == RowStep(Rows(INIT, x, 8), x, 8);
    assert Rows(INIT, x, 10) == RowStep(Rows(INIT, x, 9), x, 9);
    assert Rows(INIT, x, 11) == RowStep(Rows(INIT, x, 10), x, 10);
  }

  lemma Round4(x: seq<bv32>)
    requires Abc(x)
    ensures Rows(INIT, x, 16) == Regs(0x310ade8f, 0xc08226b3, 0xe484b9d8, 0x624d8cb2)
  {
    hide RowStep;
    Round3(x);
    Line13(x);
    Line14(x);
    Line15(x);
    Line16(x);
    assert Rows(INIT, x, 13) == RowStep(Rows(INIT, x, 12), x, 12);
    assert Rows(INIT, x, 14) == RowStep(Rows(INIT, x, 13), x, 13);
    assert Rows(INIT, x, 15) == RowStep(Rows(INIT, x, 14), x, 14);
  }

  /** MD5 of "abc". */
  lemma AbcDigest()
    ensures Digest(ABC) == [0x90, 0x01, 0x50, 0x98, 0x3c, 0xd2, 0x4f, 0xb0, 0xd6, 0x96, 0x3f, 0x7d, 0x28, 0xe1, 0x7f,
      0x72]
  {
    hide Rows, Words, WordBytes, Padded;
    AbcPadded();
    AbcWords(Padded(ABC));
    Round4(Words(Padded(ABC)));
    var v := Regs(0x98500190, 0xb04fd23c, 0x7d3f96d6, 0x727fe128);
    assert Padded(ABC)[..64] == Padded(ABC) && Padded(ABC)[64..] == [];
    assert Compress(INIT, Padded(ABC)) == v;
    assert Blocks(INIT, Padded(ABC)) == Fold(Compress, v, []);
    AbcBytes();
  }

  lemma AbcBytes()
    ensures DigestOf(Regs(0x98500190, 0xb04fd23c, 0x7d3f96d6, 0x727fe128))
      == [0x90, 0x01, 0x50, 0x98, 0x3c, 0xd2, 0x4f, 0xb0, 0xd6, 0x96, 0x3f, 0x7d, 0x28, 0xe1, 0x7f, 0x72]
  {}
}
