/**
  The laws of the functions of section 5 of RFC 3174, of its rotations and words, and the
  first test case of its section 7.3 worked out round by round.
*/
module Sha1Vector {
  import opened Bytes
  import opened HashBlocks
  import opened Sha1

  // -------------------------------------------------------------------- the functions

  /** In the first twenty rounds the bits of b choose between those of c and d. */
  lemma Choice(t: nat, b: bv32, c: bv32, d: bv32)
    requires t < 20
    ensures F(t, b, c, d) & b == c & b && F(t, b, c, d) & !b == d & !b
  {}

  /** From round 40 to 59 the majority of the bits decides. */
  lemma Majority(t: nat, b: bv32, c: bv32, d: bv32)
    requires 40 <= t < 60
    ensures F(t, b, c, d) & !(b ^ c) == b & !(b ^ c)
    ensures F(t, b, c, d) & !(b ^ d) == b & !(b ^ d) && F(t, b, c, d) & !(c ^ d) == c & !(c ^ d)
  {}

  /** In the other rounds the parity of the bits counts: complementing an argument complements the result. */
  lemma ParityFlips(t: nat, b: bv32, c: bv32, d: bv32)
    requires 20 <= t < 40 || t >= 60
    ensures F(t, !b, c, d) == !F(t, b, c, d)
  {
    hide F;
    ParityIs(t, b, c, d);
    ParityIs(t, !b, c, d);
  }

  lemma ParityCommutes(t: nat, b: bv32, c: bv32, d: bv32)
    requires 20 <= t < 40 || t >= 60
    ensures F(t, b, c, d) == F(t, c, b, d) && F(t, b, c, d) == F(t, b, d, c)
  {
    hide F;
    ParityIs(t, b, c, d);
    ParityIs(t, c, b, d);
    ParityIs(t, b, d, c);
  }

  lemma ParityIs(t: nat, b: bv32, c: bv32, d: bv32)
    requires 20 <= t < 40 || t >= 60
    ensures F(t, b, c, d) == b ^ c ^ d
  {}

  lemma ParityCancels(t: nat, b: bv32, c: bv32)
    requires 20 <= t < 40 || t >= 60
    ensures F(t, b, b, c) == c && F(t, b, c, b) == c && F(t, c, b, b) == c
  {
    hide F;
    ParityIs(t, b, b, c);
    ParityIs(t, b, c, b);
    ParityIs(t, c, b, b);
  }

  /** The constants are the square roots of 2, 3, 5 and 10 times 2^30, rounded down. */
  lemma Roots(t: nat)
    ensures var k, n := K(t) as int, if t < 20 then 2 else if t < 40 then 3 else if t < 60 then 5 else 10;
      k * k <= n * 0x1000_0000_0000_0000 < (k + 1) * (k + 1)
  {}

  /** A rotation multiplies by a power of two, the bits that leave at the top coming in at the bottom. */
  lemma Rotation1(x: bv32)
    ensures Rotl1(x) == x * 2 + x / 0x8000_0000
  {}

  lemma Rotation5(x: bv32)
    ensures Rotl5(x) == x * 0x20 + x / 0x800_0000
  {}

  lemma Rotation30(x: bv32)
    ensures Rotl30(x) == x * 0x4000_0000 + x / 4
  {}

  // -------------------------------------------------------------------- the test case

  const ABC: seq<byte> := [0x61, 0x62, 0x63]

  lemma AbcPadded()
    ensures Padded(ABC) == ABC + [0x80] + Zeros(52) + [0, 0, 0, 0, 0, 0, 0, 0x18]
  {
    assert Length64(24) == [0, 0, 0, 0, 0, 0, 0, 0x18];
  }

  lemma LiteralWords()
    ensures Word(0x61, 0x62, 0x63, 0x80) == 0x61626380 && Word(0, 0, 0, 0) == 0 && Word(0, 0, 0, 0x18) == 0x18
  {}

  lemma AbcBytesAre(block: Block)
    requires block == Padded(ABC)
    ensures block[0] == 0x61 && block[1] == 0x62 && block[2] == 0x63 && block[3] == 0x80 && block[63] == 0x18
    ensures forall i :: 4 <= i < 63 ==> block[i] == 0
  {
    hide Padded;
    AbcPadded();
  }

  lemma AbcWords(block: Block)
    requires block == Padded(ABC)
    ensures Words(block) == [0x61626380, 0, 0, 0, 0, 0, 0, 0, 0, 0, 0, 0, 0, 0, 0, 0x18]
  {
    AbcPadded();
    LiteralWords();
    hide Word, Padded, Zeros;
    AbcBytesAre(block);
  }

  ghost predicate Abc(m: seq<bv32>) {
    m == [0x61626380, 0, 0, 0, 0, 0, 0, 0, 0, 0, 0, 0, 0, 0, 0, 0x18]
  }

  lemma Words0(m: seq<bv32>)
    requires Abc(m)
    ensures W(m, 0) == 0x61626380 && W(m, 15) == 0x18
    ensures W(m, 1) == 0 && W(m, 2) == 0 && W(m, 3) == 0 && W(m, 4) == 0 && W(m, 5) == 0 && W(m, 6) == 0 && W(m, 7) == 0
    ensures W(m, 8) == 0 && W(m, 9) == 0 && W(m, 10) == 0 && W(m, 11) == 0 && W(m, 12) == 0 && W(m, 13) == 0
      && W(m, 14) == 0
  {}

  lemma Words16(m: seq<bv32>)
    requires Abc(m)
    ensures W(m, 16) == 0xc2c4c700 && W(m, 17) == 0x00000000 && W(m, 18) == 0x00000030 && W(m, 19) == 0x85898e01
    ensures W(m, 20) == 0x00000000 && W(m, 21) == 0x00000060 && W(m, 22) == 0x0b131c03 && W(m, 23) == 0x00000030
    ensures W(m, 24) == 0x85898ec1 && W(m, 25) == 0x16263806 && W(m, 26) == 0x00000000 && W(m, 27) == 0x00000180
    ensures W(m, 28) == 0x2c4c700c && W(m, 29) == 0x000000f0 && W(m, 30) == 0x93afb507 && W(m, 31) == 0x5898e048
  {}

  lemma Words32(m: seq<bv32>)
    requires Abc(m)
    ensures W(m, 32) == 0x8e9a9202 && W(m, 33) == 0x00000600 && W(m, 34) == 0xb131c0f0 && W(m, 35) == 0x16263bc6
    ensures W(m, 36) == 0x4ebed41e && W(m, 37) == 0x626380a1 && W(m, 38) == 0x16263806 && W(m, 39) == 0x000018c0
    ensures W(m, 40) == 0xd2e138c4 && W(m, 41) == 0x00000f00 && W(m, 42) == 0x3afb5079 && W(m, 43) == 0x898e04e5
    ensures W(m, 44) == 0xe2ba3c2b && W(m, 45) == 0x000060c0 && W(m, 46) == 0x053a37cd && W(m, 47) == 0x74458547
  {
    Words16(m);
  }

  lemma Words48(m: seq<bv32>)
    requires Abc(m)
    ensures W(m, 48) == 0xda9415ed && W(m, 49) == 0x26380a16 && W(m, 50) == 0x626383a1 && W(m, 51) == 0x4ebf54de
    ensures W(m, 52) == 0x3835b44b && W(m, 53) == 0x0000f600 && W(m, 54) == 0x1e84c7a3 && W(m, 55) == 0x98e04d98
    ensures W(m, 56) == 0x651d16a0 && W(m, 57) == 0x62658ca1 && W(m, 58) == 0x458544d6 && W(m, 59) == 0x44584cb7
    ensures W(m, 60) == 0x7ba06619 && W(m, 61) == 0x6380aea2 && W(m, 62) == 0x0ae55269 && W(m, 63) == 0x627b49a1
  {
    Words32(m);
  }

  lemma Words64(m: seq<bv32>)
    requires Abc(m)
    ensures W(m, 64) == 0x7cd45c9d && W(m, 65) == 0x000f0000 && W(m, 66) == 0xfb50753a && W(m, 67) == 0xec6765e8
    ensures W(m, 68) == 0xba3c2be2 && W(m, 69) == 0x0060c000 && W(m, 70) == 0x3a37cd05 && W(m, 71) == 0x458546f4
    ensures W(m, 72) == 0xb8599dd6 && W(m, 73) == 0x380a1a26 && W(m, 74) == 0x01e02203 && W(m, 75) == 0xe7cc3456
    ensures W(m, 76) == 0xe6e60b69 && W(m, 77) == 0x00f60a00 && W(m, 78) == 0x5795ef4f && W(m, 79) == 0x822e0879
  {
    Words48(m);
  }

  lemma Rounds10(m: seq<bv32>)
    requires Abc(m)
    ensures Rounds(H0, m, 10) == Vars(0x8351f929, 0x4b6ae328, 0x27a301f5, 0x664f8c30, 0x0ff1f290)
  {
    Words0(m);
    hide W;
    assert Rounds(H0, m, 1) == Vars(0x0116fc33, 0x67452301, 0x7bf36ae2, 0x98badcfe, 0x10325476);
    assert Rounds(H0, m, 2) == Vars(0x8990536d, 0x0116fc33, 0x59d148c0, 0x7bf36ae2, 0x98badcfe);
    assert Rounds(H0, m, 3) == Vars(0xa1390f08, 0x8990536d, 0xc045bf0c, 0x59d148c0, 0x7bf36ae2);
    assert Rounds(H0, m, 4) == Vars(0xcdd8e11b, 0xa1390f08, 0x626414db, 0xc045bf0c, 0x59d148c0);
    assert Rounds(H0, m, 5) == Vars(0xcfd499de, 0xcdd8e11b, 0x284e43c2, 0x626414db, 0xc045bf0c);
    assert Rounds(H0, m, 6) == Vars(0x3fc7ca40, 0xcfd499de, 0xf3763846, 0x284e43c2, 0x626414db);
    assert Rounds(H0, m, 7) == Vars(0x993e30c1, 0x3fc7ca40, 0xb3f52677, 0xf3763846, 0x284e43c2);
    assert Rounds(H0, m, 8) == Vars(0x9e8c07d4, 0x993e30c1, 0x0ff1f290, 0xb3f52677, 0xf3763846);
    assert Rounds(H0, m, 9) == Vars(0x4b6ae328, 0x9e8c07d4, 0x664f8c30, 0x0ff1f290, 0xb3f52677);
  }

  lemma Rounds20(m: seq<bv32>)
    requires Abc(m)
    ensures Rounds(H0, m, 20) == Vars(0xfd9e1d7d, 0xdc64901d, 0x20aa99ca, 0xd3a49608, 0xc82f758b)
  {
    Words0(m);
    Words16(m);
    Rounds10(m);
    hide W;
    assert Rounds(H0, m, 11) == Vars(0xfbda9e89, 0x8351f929, 0x12dab8ca, 0x27a301f5, 0x664f8c30);
    assert Rounds(H0, m, 12) == Vars(0x63188fe4, 0xfbda9e89, 0x60d47e4a, 0x12dab8ca, 0x27a301f5);
    assert Rounds(H0, m, 13) == Vars(0x4607b664, 0x63188fe4, 0x7ef6a7a2, 0x60d47e4a, 0x12dab8ca);
    assert Rounds(H0, m, 14) == Vars(0x9128f695, 0x4607b664, 0x18c623f9, 0x7ef6a7a2, 0x60d47e4a);
    assert Rounds(H0, m, 15) == Vars(0x196bee77, 0x9128f695, 0x1181ed99, 0x18c623f9, 0x7ef6a7a2);
    assert Rounds(H0, m, 16) == Vars(0x20bdd62f, 0x196bee77, 0x644a3da5, 0x1181ed99, 0x18c623f9);
    assert Rounds(H0, m, 17) == Vars(0x4e925823, 0x20bdd62f, 0xc65afb9d, 0x644a3da5, 0x1181ed99);
    assert Rounds(H0, m, 18) == Vars(0x82aa6728, 0x4e925823, 0xc82f758b, 0xc65afb9d, 0x644a3da5);
    assert Rounds(H0, m, 19) == Vars(0xdc64901d, 0x82aa6728, 0xd3a49608, 0xc82f758b, 0xc65afb9d);
  }

  lemma Rounds30(m: seq<bv32>)
    requires Abc(m)
    ensures Rounds(H0, m, 30) == Vars(0xc5fbaf5d, 0x8370b52e, 0xd2aa1365, 0x6f8d7ef5, 0x12104ee9)
  {
    Words16(m);
    Rounds20(m);
    hide W;
    assert Rounds(H0, m, 21) == Vars(0x1a37b0ca, 0xfd9e1d7d, 0x77192407, 0x20aa99ca, 0xd3a49608);
    assert Rounds(H0, m, 22) == Vars(0x33a23bfc, 0x1a37b0ca, 0x7f67875f, 0x77192407, 0x20aa99ca);
    assert Rounds(H0, m, 23) == Vars(0x21283486, 0x33a23bfc, 0x868dec32, 0x7f67875f, 0x77192407);
    assert Rounds(H0, m, 24) == Vars(0xd541f12d, 0x21283486, 0x0ce88eff, 0x868dec32, 0x7f67875f);
    assert Rounds(H0, m, 25) == Vars(0xc7567dc6, 0xd541f12d, 0x884a0d21, 0x0ce88eff, 0x868dec32);
    assert Rounds(H0, m, 26) == Vars(0x48413ba4, 0xc7567dc6, 0x75507c4b, 0x884a0d21, 0x0ce88eff);
    assert Rounds(H0, m, 27) == Vars(0xbe35fbd5, 0x48413ba4, 0xb1d59f71, 0x75507c4b, 0x884a0d21);
    assert Rounds(H0, m, 28) == Vars(0x4aa84d97, 0xbe35fbd5, 0x12104ee9, 0xb1d59f71, 0x75507c4b);
    assert Rounds(H0, m, 29) == Vars(0x8370b52e, 0x4aa84d97, 0x6f8d7ef5, 0x12104ee9, 0xb1d59f71);
  }

  lemma Rounds40(m: seq<bv32>)
    requires Abc(m)
    ensures Rounds(H0, m, 40) == Vars(0x32de1cba, 0x4c986405, 0xf718e5cf, 0x03d447f6, 0xf72eec32)
  {
    Words16(m);
    Words32(m);
    Rounds30(m);
    hide W;
    assert Rounds(H0, m, 31) == Vars(0x1267b407, 0xc5fbaf5d, 0xa0dc2d4b, 0xd2aa1365, 0x6f8d7ef5);
    assert Rounds(H0, m, 32) == Vars(0x3b845d33, 0x1267b407, 0x717eebd7, 0xa0dc2d4b, 0xd2aa1365);
    assert Rounds(H0, m, 33) == Vars(0x046faa0a, 0x3b845d33, 0xc499ed01, 0x717eebd7, 0xa0dc2d4b);
    assert Rounds(H0, m, 34) == Vars(0x2c0ebc11, 0x046faa0a, 0xcee1174c, 0xc499ed01, 0x717eebd7);
    assert Rounds(H0, m, 35) == Vars(0x21796ad4, 0x2c0ebc11, 0x811bea82, 0xcee1174c, 0xc499ed01);
    assert Rounds(H0, m, 36) == Vars(0xdcbbb0cb, 0x21796ad4, 0x4b03af04, 0x811bea82, 0xcee1174c);
    assert Rounds(H0, m, 37) == Vars(0x0f511fd8, 0xdcbbb0cb, 0x085e5ab5, 0x4b03af04, 0x811bea82);
    assert Rounds(H0, m, 38) == Vars(0xdc63973f, 0x0f511fd8, 0xf72eec32, 0x085e5ab5, 0x4b03af04);
    assert Rounds(H0, m, 39) == Vars(0x4c986405, 0xdc63973f, 0x03d447f6, 0xf72eec32, 0x085e5ab5);
  }

  lemma Rounds50(m: seq<bv32>)
    requires Abc(m)
    ensures Rounds(H0, m, 50) == Vars(0x120731c5, 0xbaf39337, 0xafab40b2, 0x2806e11b, 0x8714787c)
  {
    Words32(m);
    Words48(m);
    Rounds40(m);
    hide W;
    assert Rounds(H0, m, 41) == Vars(0xfc87dedf, 0x32de1cba, 0x53261901, 0xf718e5cf, 0x03d447f6);
    assert Rounds(H0, m, 42) == Vars(0x970a0d5c, 0xfc87dedf, 0x8cb7872e, 0x53261901, 0xf718e5cf);
    assert Rounds(H0, m, 43) == Vars(0x7f193dc5, 0x970a0d5c, 0xff21f7b7, 0x8cb7872e, 0x53261901);
    assert Rounds(H0, m, 44) == Vars(0xee1b1aaf, 0x7f193dc5, 0x25c28357, 0xff21f7b7, 0x8cb7872e);
    assert Rounds(H0, m, 45) == Vars(0x40f28e09, 0xee1b1aaf, 0x5fc64f71, 0x25c28357, 0xff21f7b7);
    assert Rounds(H0, m, 46) == Vars(0x1c51e1f2, 0x40f28e09, 0xfb86c6ab, 0x5fc64f71, 0x25c28357);
    assert Rounds(H0, m, 47) == Vars(0xa01b846c, 0x1c51e1f2, 0x503ca382, 0xfb86c6ab, 0x5fc64f71);
    assert Rounds(H0, m, 48) == Vars(0xbead02ca, 0xa01b846c, 0x8714787c, 0x503ca382, 0xfb86c6ab);
    assert Rounds(H0, m, 49) == Vars(0xbaf39337, 0xbead02ca, 0x2806e11b, 0x8714787c, 0x503ca382);
  }

  lemma Rounds60(m: seq<bv32>)
    requires Abc(m)
    ensures Rounds(H0, m, 60) == Vars(0x3f52de5a, 0x09d785fd, 0x3498bfd4, 0xf211824f, 0xd79915ab)
  {
    Words48(m);
    Rounds50(m);
    hide W;
    assert Rounds(H0, m, 51) == Vars(0x641db2ce, 0x120731c5, 0xeebce4cd, 0xafab40b2, 0x2806e11b);
    assert Rounds(H0, m, 52) == Vars(0x3847ad66, 0x641db2ce, 0x4481cc71, 0xeebce4cd, 0xafab40b2);
    assert Rounds(H0, m, 53) == Vars(0xe490436d, 0x3847ad66, 0x99076cb3, 0x4481cc71, 0xeebce4cd);
    assert Rounds(H0, m, 54) == Vars(0x27e9f1d8, 0xe490436d, 0x8e11eb59, 0x99076cb3, 0x4481cc71);
    assert Rounds(H0, m, 55) == Vars(0x7b71f76d, 0x27e9f1d8, 0x792410db, 0x8e11eb59, 0x99076cb3);
    assert Rounds(H0, m, 56) == Vars(0x5e6456af, 0x7b71f76d, 0x09fa7c76, 0x792410db, 0x8e11eb59);
    assert Rounds(H0, m, 57) == Vars(0xc846093f, 0x5e6456af, 0x5edc7ddb, 0x09fa7c76, 0x792410db);
    assert Rounds(H0, m, 58) == Vars(0xd262ff50, 0xc846093f, 0xd79915ab, 0x5edc7ddb, 0x09fa7c76);
    assert Rounds(H0, m, 59) == Vars(0x09d785fd, 0xd262ff50, 0xf211824f, 0xd79915ab, 0x5edc7ddb);
  }

  lemma Rounds70(m: seq<bv32>)
    requires Abc(m)
    ensures Rounds(H0, m, 70) == Vars(0x3f2588c2, 0x497093c0, 0xde37534a, 0x030f7cad, 0x4405957e)
  {
    Words48(m);
    Words64(m);
    Rounds60(m);
    hide W;
    assert Rounds(H0, m, 61) == Vars(0xd756c147, 0x3f52de5a, 0x4275e17f, 0x3498bfd4, 0xf211824f);
    assert Rounds(H0, m, 62) == Vars(0x548c9cb2, 0xd756c147, 0x8fd4b796, 0x4275e17f, 0x3498bfd4);
    assert Rounds(H0, m, 63) == Vars(0xb66c020b, 0x548c9cb2, 0xf5d5b051, 0x8fd4b796, 0x4275e17f);
    assert Rounds(H0, m, 64) == Vars(0x6b61c9e1, 0xb66c020b, 0x9523272c, 0xf5d5b051, 0x8fd4b796);
    assert Rounds(H0, m, 65) == Vars(0x19dfa7ac, 0x6b61c9e1, 0xed9b0082, 0x9523272c, 0xf5d5b051);
    assert Rounds(H0, m, 66) == Vars(0x101655f9, 0x19dfa7ac, 0x5ad87278, 0xed9b0082, 0x9523272c);
    assert Rounds(H0, m, 67) == Vars(0x0c3df2b4, 0x101655f9, 0x0677e9eb, 0x5ad87278, 0xed9b0082);
    assert Rounds(H0, m, 68) == Vars(0x78dd4d2b, 0x0c3df2b4, 0x4405957e, 0x0677e9eb, 0x5ad87278);
    assert Rounds(H0, m, 69) == Vars(0x497093c0, 0x78dd4d2b, 0x030f7cad, 0x4405957e, 0x0677e9eb);
  }

  lemma Rounds80(m: seq<bv32>)
    requires Abc(m)
    ensures Rounds(H0, m, 80) == Vars(0x42541b35, 0x5738d5e1, 0x21834873, 0x681e6df6, 0xd8fdf6ad)
  {
    Words64(m);
    Rounds70(m);
    hide W;
    assert Rounds(H0, m, 71) == Vars(0xc199f8c7, 0x3f2588c2, 0x125c24f0, 0xde37534a, 0x030f7cad);
    assert Rounds(H0, m, 72) == Vars(0x39859de7, 0xc199f8c7, 0x8fc96230, 0x125c24f0, 0xde37534a);
    assert Rounds(H0, m, 73) == Vars(0xedb42de4, 0x39859de7, 0xf0667e31, 0x8fc96230, 0x125c24f0);
    assert Rounds(H0, m, 74) == Vars(0x11793f6f, 0xedb42de4, 0xce616779, 0xf0667e31, 0x8fc96230);
    assert Rounds(H0, m, 75) == Vars(0x5ee76897, 0x11793f6f, 0x3b6d0b79, 0xce616779, 0xf0667e31);
    assert Rounds(H0, m, 76) == Vars(0x63f7dab7, 0x5ee76897, 0xc45e4fdb, 0x3b6d0b79, 0xce616779);
    assert Rounds(H0, m, 77) == Vars(0xa079b7d9, 0x63f7dab7, 0xd7b9da25, 0xc45e4fdb, 0x3b6d0b79);
    assert Rounds(H0, m, 78) == Vars(0x860d21cc, 0xa079b7d9, 0xd8fdf6ad, 0xd7b9da25, 0xc45e4fdb);
    assert Rounds(H0, m, 79) == Vars(0x5738d5e1, 0x860d21cc, 0x681e6df6, 0xd8fdf6ad, 0xd7b9da25);
  }

  /** SHA-1 of "abc". */
  lemma AbcDigest()
    ensures Digest(ABC) == [0xa9, 0x99, 0x3e, 0x36, 0x47, 0x06, 0x81, 0x6a, 0xba, 0x3e, 0x25, 0x71, 0x78, 0x50, 0xc2,
      0x6c, 0x9c, 0xd0, 0xd8, 0x9d]
  {
    hide Rounds, W, Words, WordBytes, Padded;
    AbcPadded();
    AbcWords(Padded(ABC));
    Rounds80(Words(Padded(ABC)));
    var v := Vars(0xa9993e36, 0x4706816a, 0xba3e2571, 0x7850c26c, 0x9cd0d89d);
    assert Padded(ABC)[..64] == Padded(ABC) && Padded(ABC)[64..] == [];
    assert Compress(H0, Padded(ABC)) == v;
    assert Blocks(H0, Padded(ABC)) == Fold(Compress, v, []);
    AbcBytes();
  }

  lemma AbcBytes()
    ensures DigestOf(Vars(0xa9993e36, 0x4706816a, 0xba3e2571, 0x7850c26c, 0x9cd0d89d))
      == [0xa9, 0x99, 0x3e, 0x36, 0x47, 0x06, 0x81, 0x6a, 0xba, 0x3e, 0x25, 0x71, 0x78, 0x50, 0xc2, 0x6c, 0x9c, 0xd0,
        0xd8, 0x9d]
  {}
}
