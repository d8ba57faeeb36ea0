/** A known answer of SHA-1: the one-block example of FIPS 180-4, the hash of "abc". Every
    schedule word and every round is followed on bits. */
module Sha1Example {
  import opened Words
  import opened MessageBlocks
  import opened AbcBlock
  import opened Sha1Block
  import Sha1

  // ---------- the schedule ----------

  ghost predicate Has(t: nat, w: bv32) { W(ABC, t) == Val(w) }

  lemma Next(t: nat, w3: bv32, w8: bv32, w14: bv32, w16: bv32, w: bv32)
    requires t >= 16 && Has(t - 3, w3) && Has(t - 8, w8) && Has(t - 14, w14) && Has(t - 16, w16)
    requires w == Rotl1Bits(XorBits(XorBits(XorBits(w3, w8), w14), w16))
    ensures Has(t, w)
  {
    hide Val, Bits, XorBits, Rotl1Bits;
    BitsVal(w3); BitsVal(w8); BitsVal(w14); BitsVal(w16);
    BitsVal(XorBits(w3, w8));
    BitsVal(XorBits(XorBits(w3, w8), w14));
    BitsVal(XorBits(XorBits(XorBits(w3, w8), w14), w16));
  }

  lemma Words0()
    ensures Has(0, 0x61626380) && Has(1, 0x00000000) && Has(2, 0x00000000) && Has(3, 0x00000000)
    ensures Has(4, 0x00000000) && Has(5, 0x00000000) && Has(6, 0x00000000) && Has(7, 0x00000000)
    ensures Has(8, 0x00000000) && Has(9, 0x00000000) && Has(10, 0x00000000) && Has(11, 0x00000000)
    ensures Has(12, 0x00000000) && Has(13, 0x00000000) && Has(14, 0x00000000) && Has(15, 0x00000018)
  {
    AbcWords();
    hide Val, Rotl1, Xor;
  }

  lemma Words1()
    ensures Has(16, 0xc2c4c700) && Has(17, 0x00000000) && Has(18, 0x00000030) && Has(19, 0x85898e01)
    ensures Has(20, 0x00000000) && Has(21, 0x00000060) && Has(22, 0x0b131c03) && Has(23, 0x00000030)
  {
    hide Has;
    Words0();
    Next(16, 0x00000000, 0x00000000, 0x00000000, 0x61626380, 0xc2c4c700);
    Next(17, 0x00000000, 0x00000000, 0x00000000, 0x00000000, 0x00000000);
    Next(18, 0x00000018, 0x00000000, 0x00000000, 0x00000000, 0x00000030);
    Next(19, 0xc2c4c700, 0x00000000, 0x00000000, 0x00000000, 0x85898e01);
    Next(20, 0x00000000, 0x00000000, 0x00000000, 0x00000000, 0x00000000);
    Next(21, 0x00000030, 0x00000000, 0x00000000, 0x00000000, 0x00000060);
    Next(22, 0x85898e01, 0x00000000, 0x00000000, 0x00000000, 0x0b131c03);
    Next(23, 0x00000000, 0x00000018, 0x00000000, 0x00000000, 0x00000030);
  }

  lemma Words2()
    ensures Has(24, 0x85898ec1) && Has(25, 0x16263806) && Has(26, 0x00000000) && Has(27, 0x00000180)
    ensures Has(28, 0x2c4c700c) && Has(29, 0x000000f0) && Has(30, 0x93afb507) && Has(31, 0x5898e048)
  {
    hide Has;
    Words0();
    Words1();
    Next(24, 0x00000060, 0xc2c4c700, 0x00000000, 0x00000000, 0x85898ec1);
    Next(25, 0x0b131c03, 0x00000000, 0x00000000, 0x00000000, 0x16263806);
    Next(26, 0x00000030, 0x00000030, 0x00000000, 0x00000000, 0x00000000);
    Next(27, 0x85898ec1, 0x85898e01, 0x00000000, 0x00000000, 0x00000180);
    Next(28, 0x16263806, 0x00000000, 0x00000000, 0x00000000, 0x2c4c700c);
    Next(29, 0x00000000, 0x00000060, 0x00000018, 0x00000000, 0x000000f0);
    Next(30, 0x00000180, 0x0b131c03, 0xc2c4c700, 0x00000000, 0x93afb507);
    Next(31, 0x2c4c700c, 0x00000030, 0x00000000, 0x00000018, 0x5898e048);
  }

  lemma Words3()
    ensures Has(32, 0x8e9a9202) && Has(33, 0x00000600) && Has(34, 0xb131c0f0) && Has(35, 0x16263bc6)
    ensures Has(36, 0x4ebed41e) && Has(37, 0x626380a1) && Has(38, 0x16263806) && Has(39, 0x000018c0)
  {
    hide Has;
    Words1();
    Words2();
    Next(32, 0x000000f0, 0x85898ec1, 0x00000030, 0xc2c4c700, 0x8e9a9202);
    Next(33, 0x93afb507, 0x16263806, 0x85898e01, 0x00000000, 0x00000600);
    Next(34, 0x5898e048, 0x00000000, 0x00000000, 0x00000030, 0xb131c0f0);
    Next(35, 0x8e9a9202, 0x00000180, 0x00000060, 0x85898e01, 0x16263bc6);
    Next(36, 0x00000600, 0x2c4c700c, 0x0b131c03, 0x00000000, 0x4ebed41e);
    Next(37, 0xb131c0f0, 0x000000f0, 0x00000030, 0x00000060, 0x626380a1);
    Next(38, 0x16263bc6, 0x93afb507, 0x85898ec1, 0x0b131c03, 0x16263806);
    Next(39, 0x4ebed41e, 0x5898e048, 0x16263806, 0x00000030, 0x000018c0);
  }

  lemma Words4()
    ensures Has(40, 0xd2e138c4) && Has(41, 0x00000f00) && Has(42, 0x3afb5079) && Has(43, 0x898e04e5)
    ensures Has(44, 0xe2ba3c2b) && Has(45, 0x000060c0) && Has(46, 0x053a37cd) && Has(47, 0x74458547)
  {
    hide Has;
    Words2();
    Words3();
    Next(40, 0x626380a1, 0x8e9a9202, 0x00000000, 0x85898ec1, 0xd2e138c4);
    Next(41, 0x16263806, 0x00000600, 0x00000180, 0x16263806, 0x00000f00);
    Next(42, 0x000018c0, 0xb131c0f0, 0x2c4c700c, 0x00000000, 0x3afb5079);
    Next(43, 0xd2e138c4, 0x16263bc6, 0x000000f0, 0x00000180, 0x898e04e5);
    Next(44, 0x00000f00, 0x4ebed41e, 0x93afb507, 0x2c4c700c, 0xe2ba3c2b);
    Next(45, 0x3afb5079, 0x626380a1, 0x5898e048, 0x000000f0, 0x000060c0);
    Next(46, 0x898e04e5, 0x16263806, 0x8e9a9202, 0x93afb507, 0x053a37cd);
    Next(47, 0xe2ba3c2b, 0x000018c0, 0x00000600, 0x5898e048, 0x74458547);
  }

  lemma Words5()
    ensures Has(48, 0xda9415ed) && Has(49, 0x26380a16) && Has(50, 0x626383a1) && Has(51, 0x4ebf54de)
    ensures Has(52, 0x3835b44b) && Has(53, 0x0000f600) && Has(54, 0x1e84c7a3) && Has(55, 0x98e04d98)
  {
    hide Has;
    Words3();
    Words4();
    Next(48, 0x000060c0, 0xd2e138c4, 0xb131c0f0, 0x8e9a9202, 0xda9415ed);
    Next(49, 0x053a37cd, 0x00000f00, 0x16263bc6, 0x00000600, 0x26380a16);
    Next(50, 0x74458547, 0x3afb5079, 0x4ebed41e, 0xb131c0f0, 0x626383a1);
    Next(51, 0xda9415ed, 0x898e04e5, 0x626380a1, 0x16263bc6, 0x4ebf54de);
    Next(52, 0x26380a16, 0xe2ba3c2b, 0x16263806, 0x4ebed41e, 0x3835b44b);
    Next(53, 0x626383a1, 0x000060c0, 0x000018c0, 0x626380a1, 0x0000f600);
    Next(54, 0x4ebf54de, 0x053a37cd, 0xd2e138c4, 0x16263806, 0x1e84c7a3);
    Next(55, 0x3835b44b, 0x74458547, 0x00000f00, 0x000018c0, 0x98e04d98);
  }

  lemma Words6()
    ensures Has(56, 0x651d16a0) && Has(57, 0x62658ca1) && Has(58, 0x458544d6) && Has(59, 0x44584cb7)
    ensures Has(60, 0x7ba06619) && Has(61, 0x6380aea2) && Has(62, 0x0ae55269) && Has(63, 0x627b49a1)
  {
    hide Has;
    Words4();
    Words5();
    Next(56, 0x0000f600, 0xda9415ed, 0x3afb5079, 0xd2e138c4, 0x651d16a0);
    Next(57, 0x1e84c7a3, 0x26380a16, 0x898e04e5, 0x00000f00, 0x62658ca1);
    Next(58, 0x98e04d98, 0x626383a1, 0xe2ba3c2b, 0x3afb5079, 0x458544d6);
    Next(59, 0x651d16a0, 0x4ebf54de, 0x000060c0, 0x898e04e5, 0x44584cb7);
    Next(60, 0x62658ca1, 0x3835b44b, 0x053a37cd, 0xe2ba3c2b, 0x7ba06619);
    Next(61, 0x458544d6, 0x0000f600, 0x74458547, 0x000060c0, 0x6380aea2);
    Next(62, 0x44584cb7, 0x1e84c7a3, 0xda9415ed, 0x053a37cd, 0x0ae55269);
    Next(63, 0x7ba06619, 0x98e04d98, 0x26380a16, 0x74458547, 0x627b49a1);
  }

  lemma Words7()
    ensures Has(64, 0x7cd45c9d) && Has(65, 0x000f0000) && Has(66, 0xfb50753a) && Has(67, 0xec6765e8)
    ensures Has(68, 0xba3c2be2) && Has(69, 0x0060c000) && Has(70, 0x3a37cd05) && Has(71, 0x458546f4)
  {
    hide Has;
    Words5();
    Words6();
    Next(64, 0x6380aea2, 0x651d16a0, 0x626383a1, 0xda9415ed, 0x7cd45c9d);
    Next(65, 0x0ae55269, 0x62658ca1, 0x4ebf54de, 0x26380a16, 0x000f0000);
    Next(66, 0x627b49a1, 0x458544d6, 0x3835b44b, 0x626383a1, 0xfb50753a);
    Next(67, 0x7cd45c9d, 0x44584cb7, 0x0000f600, 0x4ebf54de, 0xec6765e8);
    Next(68, 0x000f0000, 0x7ba06619, 0x1e84c7a3, 0x3835b44b, 0xba3c2be2);
    Next(69, 0xfb50753a, 0x6380aea2, 0x98e04d98, 0x0000f600, 0x0060c000);
    Next(70, 0xec6765e8, 0x0ae55269, 0x651d16a0, 0x1e84c7a3, 0x3a37cd05);
    Next(71, 0xba3c2be2, 0x627b49a1, 0x62658ca1, 0x98e04d98, 0x458546f4);
  }

  lemma Words8()
    ensures Has(72, 0xb8599dd6) && Has(73, 0x380a1a26) && Has(74, 0x01e02203) && Has(75, 0xe7cc3456)
    ensures Has(76, 0xe6e60b69) && Has(77, 0x00f60a00) && Has(78, 0x5795ef4f) && Has(79, 0x822e0879)
  {
    hide Has;
    Words6();
    Words7();
    Next(72, 0x0060c000, 0x7cd45c9d, 0x458544d6, 0x651d16a0, 0xb8599dd6);
    Next(73, 0x3a37cd05, 0x000f0000, 0x44584cb7, 0x62658ca1, 0x380a1a26);
    Next(74, 0x458546f4, 0xfb50753a, 0x7ba06619, 0x458544d6, 0x01e02203);
    Next(75, 0xb8599dd6, 0xec6765e8, 0x6380aea2, 0x44584cb7, 0xe7cc3456);
    Next(76, 0x380a1a26, 0xba3c2be2, 0x0ae55269, 0x7ba06619, 0xe6e60b69);
    Next(77, 0x01e02203, 0x0060c000, 0x627b49a1, 0x6380aea2, 0x00f60a00);
    Next(78, 0xe7cc3456, 0x3a37cd05, 0x7cd45c9d, 0x0ae55269, 0x5795ef4f);
    Next(79, 0xe6e60b69, 0x458546f4, 0x000f0000, 0x627b49a1, 0x822e0879);
  }

  // ---------- the rounds ----------

  datatype State = State(a: bv32, b: bv32, c: bv32, d: bv32, e: bv32)

  function Lift(s: State): Vars { Vars(Val(s.a), Val(s.b), Val(s.c), Val(s.d), Val(s.e)) }

  ghost predicate Reached(t: nat, s: State) { Rounds(Sha1.INITIAL, ABC, t) == Lift(s) }

  function FBits(t: nat, x: bv32, y: bv32, z: bv32): bv32 {
    if t < 20 then ChBits(x, y, z) else if 40 <= t < 60 then MajBits(x, y, z) else Xor3Bits(x, y, z)
  }

  lemma Step(t: nat, s: State, k: bv32, w: bv32, r: bv32, f: bv32, a: bv32, c: bv32) returns (n: State)
    requires Reached(t, s) && K(t) == Val(k) && Has(t, w)
    requires r == Rotl5Bits(s.a) && f == FBits(t, s.b, s.c, s.d) && c == Rotl30Bits(s.b)
    requires Val(a) == Sum(Sum(Sum(Sum(Val(r), Val(f)), Val(s.e)), Val(k)), Val(w))
    ensures n == State(a, s.a, c, s.c, s.d) && Reached(t + 1, n)
  {
    hide Val, Bits, Sum, Rotl5Bits, Rotl30Bits, ChBits, MajBits, Xor3Bits, K, W;
    BitsVal(s.a); BitsVal(s.b); BitsVal(s.c); BitsVal(s.d);
    n := State(a, s.a, c, s.c, s.d);
  }

  lemma Rounds0()
    ensures Reached(0,
      State(0x67452301, 0xefcdab89, 0x98badcfe, 0x10325476, 0xc3d2e1f0))
  {
  }

  lemma Rounds1()
    ensures Reached(16,
      State(0x20bdd62f, 0x196bee77, 0x644a3da5, 0x1181ed99, 0x18c623f9))
  {
    hide Reached, Has;
    Rounds0();
    Words0();
    var s := State(0x67452301, 0xefcdab89, 0x98badcfe, 0x10325476, 0xc3d2e1f0);
    s := Step(0, s, 0x5a827999, 0x61626380, 0xe8a4602c, 0x98badcfe, 0x0116fc33, 0x7bf36ae2);
    s := Step(1, s, 0x5a827999, 0x00000000, 0x22df8660, 0xfbfbfefe, 0x8990536d, 0x59d148c0);
    s := Step(2, s, 0x5a827999, 0x00000000, 0x320a6db1, 0x7bf14ac0, 0xa1390f08, 0xc045bf0c);
    s := Step(3, s, 0x5a827999, 0x00000000, 0x2721e114, 0xd0411b8c, 0xcdd8e11b, 0x626414db);
    s := Step(4, s, 0x5a827999, 0x00000000, 0xbb1c2379, 0x6064b40c, 0xcfd499de, 0x284e43c2);
    s := Step(5, s, 0x5a827999, 0x00000000, 0xfa933bd9, 0x2a6c55c2, 0x3fc7ca40, 0xf3763846);
    s := Step(6, s, 0x5a827999, 0x00000000, 0xf8f94807, 0xe35e5a46, 0x993e30c1, 0xb3f52677);
    s := Step(7, s, 0x5a827999, 0x00000000, 0x27c61833, 0xf3f53246, 0x9e8c07d4, 0x0ff1f290);
    s := Step(8, s, 0x5a827999, 0x00000000, 0xd180fa93, 0x2bf136b6, 0x4b6ae328, 0x664f8c30);
    s := Step(9, s, 0x5a827999, 0x00000000, 0x6d5c6509, 0x077df410, 0x8351f929, 0x27a301f5);
    s := Step(10, s, 0x5a827999, 0x00000000, 0x6a3f2530, 0x27270d30, 0xfbda9e89, 0x12dab8ca);
    s := Step(11, s, 0x5a827999, 0x00000000, 0x7b53d13f, 0x26f2b8dc, 0x63188fe4, 0x60d47e4a);
    s := Step(12, s, 0x5a827999, 0x00000000, 0x6311fc8c, 0x60d03e4a, 0x4607b664, 0x7ef6a7a2);
    s := Step(13, s, 0x5a827999, 0x00000000, 0xc0f6cc88, 0x62d4f7aa, 0x9128f695, 0x18c623f9);
    s := Step(14, s, 0x5a827999, 0x00000000, 0x251ed2b2, 0x38f623e2, 0x196bee77, 0x1181ed99);
    s := Step(15, s, 0x5a827999, 0x00000018, 0x2d7dcee3, 0x19c6e5f9, 0x20bdd62f, 0x644a3da5);
  }

  lemma Rounds2()
    ensures Reached(32,
      State(0x3b845d33, 0x1267b407, 0x717eebd7, 0xa0dc2d4b, 0xd2aa1365))
  {
    hide Reached, Has;
    Rounds1();
    Words1();
    Words2();
    var s := State(0x20bdd62f, 0x196bee77, 0x644a3da5, 0x1181ed99, 0x18c623f9);
    s := Step(16, s, 0x5a827999, 0xc2c4c700, 0x17bac5e4, 0x00ca2dad, 0x4e925823, 0xc65afb9d);
    s := Step(17, s, 0x5a827999, 0x00000000, 0xd24b0469, 0x445afb8d, 0x82aa6728, 0xc82f758b);
    s := Step(18, s, 0x5a827999, 0x00000030, 0x554ce510, 0xc84af39f, 0xdc64901d, 0xd3a49608);
    s := Step(19, s, 0x5a827999, 0x85898e01, 0x8c9203bb, 0xcaa5168b, 0xfd9e1d7d, 0x20aa99ca);
    s := Step(20, s, 0x6ed9eba1, 0x00000000, 0xb3c3afbf, 0x2f6a9fdf, 0x1a37b0ca, 0x77192407);
    s := Step(21, s, 0x6ed9eba1, 0x00000060, 0x46f61943, 0xaa2da0b0, 0x33a23bfc, 0x7f67875f);
    s := Step(22, s, 0x6ed9eba1, 0x0b131c03, 0x74477f86, 0x12491392, 0x21283486, 0x868dec32);
    s := Step(23, s, 0x6ed9eba1, 0x00000030, 0x250690c4, 0xca485091, 0xd541f12d, 0x0ce88eff);
    s := Step(24, s, 0x6ed9eba1, 0x85898ec1, 0xa83e25ba, 0xab4d564b, 0xc7567dc6, 0x884a0d21);
    s := Step(25, s, 0x6ed9eba1, 0x16263806, 0xeacfb8d8, 0x51e372f3, 0x48413ba4, 0x75507c4b);
    s := Step(26, s, 0x6ed9eba1, 0x00000000, 0x08277489, 0x3a4c0cac, 0xbe35fbd5, 0xb1d59f71);
    s := Step(27, s, 0x6ed9eba1, 0x00000180, 0xc6bf7ab7, 0x8cc4d89e, 0x4aa84d97, 0x12104ee9);
    s := Step(28, s, 0x6ed9eba1, 0x2c4c700c, 0x5509b2e9, 0x1df02a4d, 0x8370b52e, 0x6f8d7ef5);
    s := Step(29, s, 0x6ed9eba1, 0x000000f0, 0x6e16a5d0, 0x37357d8b, 0xc5fbaf5d, 0xd2aa1365);
    s := Step(30, s, 0x6ed9eba1, 0x93afb507, 0xbf75ebb8, 0x3e57d8be, 0x1267b407, 0xa0dc2d4b);
    s := Step(31, s, 0x6ed9eba1, 0x5898e048, 0x4cf680e2, 0xb78d9173, 0x3b845d33, 0x717eebd7);
  }

  lemma Rounds3()
    ensures Reached(48,
      State(0xbead02ca, 0xa01b846c, 0x8714787c, 0x503ca382, 0xfb86c6ab))
  {
    hide Reached, Has;
    Rounds2();
    Words3();
    Words4();
    var s := State(0x3b845d33, 0x1267b407, 0x717eebd7, 0xa0dc2d4b, 0xd2aa1365);
    s := Step(32, s, 0x6ed9eba1, 0x8e9a9202, 0x708ba667, 0xc3c5729b, 0x046faa0a, 0xc499ed01);
    s := Step(33, s, 0x6ed9eba1, 0x00000600, 0x8df54140, 0x8e635be5, 0x2c0ebc11, 0xcee1174c);
    s := Step(34, s, 0x6ed9eba1, 0xb131c0f0, 0x81d78225, 0x0e175047, 0x21796ad4, 0x811bea82);
    s := Step(35, s, 0x6ed9eba1, 0x16263bc6, 0x2f2d5a84, 0x63f441df, 0xdcbbb0cb, 0x4b03af04);
    s := Step(36, s, 0x6ed9eba1, 0x4ebed41e, 0x9776197b, 0xeb612f52, 0x0f511fd8, 0x085e5ab5);
    s := Step(37, s, 0x6ed9eba1, 0x626380a1, 0xea23fb01, 0x9fe6457a, 0xdc63973f, 0xf72eec32);
    s := Step(38, s, 0x6ed9eba1, 0x16263806, 0x8c72e7fb, 0xf021a95f, 0x4c986405, 0x03d447f6);
    s := Step(39, s, 0x6ed9eba1, 0x000018c0, 0x930c80a9, 0x28993cfb, 0x32de1cba, 0xf718e5cf);
    s := Step(40, s, 0x8f1bbcdc, 0xd2e138c4, 0x5bc39746, 0x479865c7, 0xfc87dedf, 0x53261901);
    s := Step(41, s, 0x8f1bbcdc, 0x00000f00, 0x90fbdbff, 0x731e1d8b, 0x970a0d5c, 0x8cb7872e);
    s := Step(42, s, 0x8f1bbcdc, 0x3afb5079, 0xe141ab92, 0xdca79f0f, 0x7f193dc5, 0xff21f7b7);
    s := Step(43, s, 0x8f1bbcdc, 0x898e04e5, 0xe327b8af, 0x9f23873e, 0xee1b1aaf, 0x25c28357);
    s := Step(44, s, 0x8f1bbcdc, 0xe2ba3c2b, 0xc36355fd, 0x7f01b7d7, 0x40f28e09, 0x5fc64f71);
    s := Step(45, s, 0x8f1bbcdc, 0x000060c0, 0x1e51c128, 0x6fc20b77, 0x1c51e1f2, 0xfb86c6ab);
    s := Step(46, s, 0x8f1bbcdc, 0x053a37cd, 0x8a3c3e43, 0x5bc6ce29, 0xa01b846c, 0x503ca382);
    s := Step(47, s, 0x8f1bbcdc, 0x74458547, 0x03708d94, 0x5814e3a2, 0xbead02ca, 0x8714787c);
  }

  lemma Rounds4()
    ensures Reached(64,
      State(0x6b61c9e1, 0xb66c020b, 0x9523272c, 0xf5d5b051, 0x8fd4b796))
  {
    hide Reached, Has;
    Rounds3();
    Words5();
    Words6();
    var s := State(0xbead02ca, 0xa01b846c, 0x8714787c, 0x503ca382, 0xfb86c6ab);
    s := Step(48, s, 0x8f1bbcdc, 0xda9415ed, 0xd5a05957, 0x801ca06c, 0xbaf39337, 0x2806e11b);
    s := Step(49, s, 0x8f1bbcdc, 0x26380a16, 0x5e7266f7, 0xae04605a, 0x120731c5, 0xafab40b2);
    s := Step(50, s, 0x8f1bbcdc, 0x626383a1, 0x40e638a2, 0xaaa3c133, 0x641db2ce, 0xeebce4cd);
    s := Step(51, s, 0x8f1bbcdc, 0x4ebf54de, 0x83b659cc, 0xaeaf60c5, 0x3847ad66, 0x4481cc71);
    s := Step(52, s, 0x8f1bbcdc, 0x3835b44b, 0x08f5acc7, 0x649de4cd, 0xe490436d, 0x99076cb3);
    s := Step(53, s, 0x8f1bbcdc, 0x0000f600, 0x92086dbc, 0x1807ec73, 0x27e9f1d8, 0x8e11eb59);
    s := Step(54, s, 0x8f1bbcdc, 0x1e84c7a3, 0xfd3e3b04, 0x8c116b79, 0x7b71f76d, 0x792410db);
    s := Step(55, s, 0x8f1bbcdc, 0x98e04d98, 0x6e3eedaf, 0x2f21f1d9, 0x5e6456af, 0x09fa7c76);
    s := Step(56, s, 0x8f1bbcdc, 0x651d16a0, 0xcc8ad5eb, 0x7970747f, 0xc846093f, 0x5edc7ddb);
    s := Step(57, s, 0x8f1bbcdc, 0x62658ca1, 0x08c127f9, 0x5efc7cff, 0xd262ff50, 0xd79915ab);
    s := Step(58, s, 0x8f1bbcdc, 0x458544d6, 0x4c5fea1a, 0xdedc1dbb, 0x09d785fd, 0xf211824f);
    s := Step(59, s, 0x8f1bbcdc, 0x44584cb7, 0x3af0bfa1, 0xd211974b, 0x3f52de5a, 0x3498bfd4);
    s := Step(60, s, 0xca62c1d6, 0x7ba06619, 0xea5bcb47, 0xcf5eb866, 0xd756c147, 0x4275e17f);
    s := Step(61, s, 0xca62c1d6, 0x6380aea2, 0xead828fa, 0x49bf80f1, 0x548c9cb2, 0x8fd4b796);
    s := Step(62, s, 0xca62c1d6, 0x0ae55269, 0x9193964a, 0x1af797ae, 0xb66c020b, 0xf5d5b051);
    s := Step(63, s, 0xca62c1d6, 0x627b49a1, 0xcd804176, 0x2e8d9b75, 0x6b61c9e1, 0x9523272c);
  }

  lemma Rounds5()
    ensures Reached(80,
      State(0x42541b35, 0x5738d5e1, 0x21834873, 0x681e6df6, 0xd8fdf6ad))
  {
    hide Reached, Has;
    Rounds4();
    Words7();
    Words8();
    var s := State(0x6b61c9e1, 0xb66c020b, 0x9523272c, 0xf5d5b051, 0x8fd4b796);
    s := Step(64, s, 0xca62c1d6, 0x7cd45c9d, 0x6c393c2d, 0xd69a9576, 0x19dfa7ac, 0xed9b0082);
    s := Step(65, s, 0xca62c1d6, 0x000f0000, 0x3bf4f583, 0x13d9ee4f, 0x101655f9, 0x5ad87278);
    s := Step(66, s, 0xca62c1d6, 0xfb50753a, 0x02cabf22, 0xae9cd556, 0x0c3df2b4, 0x0677e9eb);
    s := Step(67, s, 0xca62c1d6, 0xec6765e8, 0x87be5681, 0x4cb9ce6a, 0x78dd4d2b, 0x4405957e);
    s := Step(68, s, 0xca62c1d6, 0xba3c2be2, 0x1ba9a56f, 0x4e4f8e21, 0x497093c0, 0x030f7cad);
    s := Step(69, s, 0xca62c1d6, 0x0060c000, 0x2e127809, 0x3fd7a4f8, 0x3f2588c2, 0xde37534a);
    s := Step(70, s, 0xca62c1d6, 0x3a37cd05, 0xe4b11847, 0x9448bc27, 0xc199f8c7, 0x125c24f0);
    s := Step(71, s, 0xca62c1d6, 0x458546f4, 0x333f18f8, 0xf34eff78, 0x39859de7, 0x8fc96230);
    s := Step(72, s, 0xca62c1d6, 0xb8599dd6, 0x30b3bce7, 0x5c0cbe07, 0xedb42de4, 0xf0667e31);
    s := Step(73, s, 0xca62c1d6, 0x380a1a26, 0xb685bc9d, 0x462a81e6, 0x11793f6f, 0xce616779);
    s := Step(74, s, 0xca62c1d6, 0x01e02203, 0x2f27ede2, 0xd3b334ac, 0x5ee76897, 0x3b6d0b79);
    s := Step(75, s, 0xca62c1d6, 0xe7cc3456, 0xdced12eb, 0xe475536f, 0x63f7dab7, 0xc45e4fdb);
    s := Step(76, s, 0xca62c1d6, 0xe6e60b69, 0x7efb56ec, 0xa1d42c35, 0xa079b7d9, 0xd7b9da25);
    s := Step(77, s, 0xca62c1d6, 0x00f60a00, 0x0f36fb34, 0x70104f49, 0x860d21cc, 0xd8fdf6ad);
    s := Step(78, s, 0xca62c1d6, 0x5795ef4f, 0xc1a43990, 0xaf3d9b51, 0x5738d5e1, 0x681e6df6);
    s := Step(79, s, 0xca62c1d6, 0x822e0879, 0xe71abc2a, 0x36eeba97, 0x42541b35, 0x21834873);
  }

  // ---------- the digest ----------

  lemma Compressed()
    ensures Add(Sha1.INITIAL, Rounds(Sha1.INITIAL, ABC, 80)) ==
      Lift(State(0xa9993e36, 0x4706816a, 0xba3e2571, 0x7850c26c, 0x9cd0d89d))
  {
    Rounds5();
    hide W, Rounds;
  }

  lemma AbcCompressed()
    ensures Compress(Sha1.INITIAL, Pad(MESSAGE)) == Add(Sha1.INITIAL, Rounds(Sha1.INITIAL, ABC, 80))
  {
    hide Rounds, Add, Pad, BlockWords;
    PaddedAbc();
  }

  /** The hash of "abc". */
  lemma HashOfAbc()
    ensures Sha1.Hash(MESSAGE) ==
      [0xa9, 0x99, 0x3e, 0x36] + [0x47, 0x06, 0x81, 0x6a] +
      [0xba, 0x3e, 0x25, 0x71] + [0x78, 0x50, 0xc2, 0x6c] +
      [0x9c, 0xd0, 0xd8, 0x9d]
  {
    hide Compress, Rounds, Add, BigEndianBytes, Val, Pad;
    OneBlockMessage(Compress, Sha1.INITIAL);
    AbcCompressed();
    Compressed();
    Bytes(0xa9993e36, 0xa9, 0x99, 0x3e, 0x36);
    Bytes(0x4706816a, 0x47, 0x06, 0x81, 0x6a);
    Bytes(0xba3e2571, 0xba, 0x3e, 0x25, 0x71);
    Bytes(0x7850c26c, 0x78, 0x50, 0xc2, 0x6c);
    Bytes(0x9cd0d89d, 0x9c, 0xd0, 0xd8, 0x9d);
  }
}
