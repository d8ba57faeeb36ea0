/** A known answer of SHA-256: the one-block example of FIPS 180-4, the hash of "abc". Every
    schedule word and every round is followed on bits. */
module Sha256Example {
  import opened Words
  import opened MessageBlocks
  import opened AbcBlock
  import opened Sha256

  // ---------- the schedule ----------

  ghost predicate Has(t: nat, w: bv32) { W(ABC, t) == Val(w) }

  lemma Next(t: nat, w2: bv32, w7: bv32, w15: bv32, w16: bv32, s1: bv32, s0: bv32, w: bv32)
    requires t >= 16 && Has(t - 2, w2) && Has(t - 7, w7) && Has(t - 15, w15) && Has(t - 16, w16)
    requires s1 == Sigma1Bits(w2) && s0 == Sigma0Bits(w15)
    requires Val(w) == Sum(Sum(Sum(Val(s1), Val(w7)), Val(s0)), Val(w16))
    ensures Has(t, w)
  {
    hide Val, Bits, Sum, Sigma0Bits, Sigma1Bits;
    BitsVal(w2);
    BitsVal(w15);
  }

  lemma Words0()
    ensures Has(0, 0x61626380) && Has(1, 0x00000000) && Has(2, 0x00000000) && Has(3, 0x00000000)
    ensures Has(4, 0x00000000) && Has(5, 0x00000000) && Has(6, 0x00000000) && Has(7, 0x00000000)
    ensures Has(8, 0x00000000) && Has(9, 0x00000000) && Has(10, 0x00000000) && Has(11, 0x00000000)
    ensures Has(12, 0x00000000) && Has(13, 0x00000000) && Has(14, 0x00000000) && Has(15, 0x00000018)
  {
    AbcWords();
    hide Val, Sum, Sigma0, Sigma1;
  }

  lemma Words1()
    ensures Has(16, 0x61626380) && Has(17, 0x000f0000) && Has(18, 0x7da86405) && Has(19, 0x600003c6)
    ensures Has(20, 0x3e9d7b78) && Has(21, 0x0183fc00) && Has(22, 0x12dcbfdb) && Has(23, 0xe2e2c38e)
    ensures Has(24, 0xc8215c1a) && Has(25, 0xb73679a2) && Has(26, 0xe5bc3909) && Has(27, 0x32663c5b)
    ensures Has(28, 0x9d209d67) && Has(29, 0xec8726cb) && Has(30, 0x702138a4) && Has(31, 0xd3b7973b)
  {
    hide Has;
    Words0();
    Next(16, 0x00000000, 0x00000000, 0x00000000, 0x61626380, 0x00000000, 0x00000000, 0x61626380);
    Next(17, 0x00000018, 0x00000000, 0x00000000, 0x00000000, 0x000f0000, 0x00000000, 0x000f0000);
    Next(18, 0x61626380, 0x00000000, 0x00000000, 0x00000000, 0x7da86405, 0x00000000, 0x7da86405);
    Next(19, 0x000f0000, 0x00000000, 0x00000000, 0x00000000, 0x600003c6, 0x00000000, 0x600003c6);
    Next(20, 0x7da86405, 0x00000000, 0x00000000, 0x00000000, 0x3e9d7b78, 0x00000000, 0x3e9d7b78);
    Next(21, 0x600003c6, 0x00000000, 0x00000000, 0x00000000, 0x0183fc00, 0x00000000, 0x0183fc00);
    Next(22, 0x3e9d7b78, 0x00000018, 0x00000000, 0x00000000, 0x12dcbfc3, 0x00000000, 0x12dcbfdb);
    Next(23, 0x0183fc00, 0x61626380, 0x00000000, 0x00000000, 0x8180600e, 0x00000000, 0xe2e2c38e);
    Next(24, 0x12dcbfdb, 0x000f0000, 0x00000000, 0x00000000, 0xc8125c1a, 0x00000000, 0xc8215c1a);
    Next(25, 0xe2e2c38e, 0x7da86405, 0x00000000, 0x00000000, 0x398e159d, 0x00000000, 0xb73679a2);
    Next(26, 0xc8215c1a, 0x600003c6, 0x00000000, 0x00000000, 0x85bc3543, 0x00000000, 0xe5bc3909);
    Next(27, 0xb73679a2, 0x3e9d7b78, 0x00000000, 0x00000000, 0xf3c8c0e3, 0x00000000, 0x32663c5b);
    Next(28, 0xe5bc3909, 0x0183fc00, 0x00000000, 0x00000000, 0x9b9ca167, 0x00000000, 0x9d209d67);
    Next(29, 0x32663c5b, 0x12dcbfdb, 0x00000000, 0x00000000, 0xd9aa66f0, 0x00000000, 0xec8726cb);
    Next(30, 0x9d209d67, 0xe2e2c38e, 0x00000018, 0x00000000, 0x5d387513, 0x30060003, 0x702138a4);
    Next(31, 0xec8726cb, 0xc8215c1a, 0x61626380, 0x00000018, 0x7787aa1a, 0x940e90ef, 0xd3b7973b);
  }

  lemma Words2()
    ensures Has(32, 0x93f5997f) && Has(33, 0x3b68ba73) && Has(34, 0xaff4ffc1) && Has(35, 0xf10a5c62)
    ensures Has(36, 0x0a8b3996) && Has(37, 0x72af830a) && Has(38, 0x9409e33e) && Has(39, 0x24641522)
    ensures Has(40, 0x9f47bf94) && Has(41, 0xf0a64f5a) && Has(42, 0x3e246a79) && Has(43, 0x27333ba3)
    ensures Has(44, 0x0c4763f2) && Has(45, 0x840abf27) && Has(46, 0x7a290d5d) && Has(47, 0x065c43da)
  {
    hide Has;
    Words1();
    Next(32, 0x702138a4, 0xb73679a2, 0x000f0000, 0x61626380, 0xbb5abe5a, 0xc001fe03, 0x93f5997f);
    Next(33, 0xd3b7973b, 0xe5bc3909, 0x7da86405, 0x000f0000, 0x394e7e48, 0x1c4f0322, 0x3b68ba73);
    Next(34, 0x93f5997f, 0x32663c5b, 0x600003c6, 0x7da86405, 0x7fb4c6e2, 0x8031987f, 0xaff4ffc1);
    Next(35, 0x3b68ba73, 0x9d209d67, 0x3e9d7b78, 0x600003c6, 0x4a7920f7, 0xa9709a3e, 0xf10a5c62);
    Next(36, 0xaff4ffc1, 0xec8726cb, 0x0183fc00, 0x3e9d7b78, 0xe0331f3b, 0xff337818, 0x0a8b3996);
    Next(37, 0xf10a5c62, 0x702138a4, 0x12dcbfdb, 0x0183fc00, 0x65816433, 0x9b88ea33, 0x72af830a);
    Next(38, 0x0a8b3996, 0xd3b7973b, 0xe2e2c38e, 0x12dcbfdb, 0xfbfb66da, 0xb17a254e, 0x9409e33e);
    Next(39, 0x72af830a, 0x93f5997f, 0xc8215c1a, 0xe2e2c38e, 0x31f8dce2, 0x7b92db33, 0x24641522);
    Next(40, 0x9409e33e, 0x3b68ba73, 0xb73679a2, 0xc8215c1a, 0xcddd9afd, 0xcde00e0a, 0x9f47bf94);
    Next(41, 0x24641522, 0xaff4ffc1, 0xe5bc3909, 0xb73679a2, 0x883c4fbb, 0x013e863c, 0xf0a64f5a);
    Next(42, 0x9f47bf94, 0xf10a5c62, 0x32663c5b, 0xe5bc3909, 0x281f0da4, 0x3f3ec76a, 0x3e246a79);
    Next(43, 0xf0a64f5a, 0x0a8b3996, 0x9d209d67, 0x32663c5b, 0xee7a0fd4, 0xfbc7b5de, 0x27333ba3);
    Next(44, 0x3e246a79, 0x72af830a, 0xec8726cb, 0x9d209d67, 0xb87c31cc, 0x43fb11b5, 0x0c4763f2);
    Next(45, 0x27333ba3, 0x9409e33e, 0x702138a4, 0xec8726cb, 0xfaac3bb1, 0x08cd796d, 0x840abf27);
    Next(46, 0x0c4763f2, 0x24641522, 0xd3b7973b, 0x702138a4, 0x5d845673, 0x881f6924, 0x7a290d5d);
    Next(47, 0x840abf27, 0x9f47bf94, 0x93f5997f, 0xd3b7973b, 0x0856302b, 0x8b06bce0, 0x065c43da);
  }

  lemma Words3()
    ensures Has(48, 0xfb3e89cb) && Has(49, 0xcc7617db) && Has(50, 0xb9e66c34) && Has(51, 0xa9993667)
    ensures Has(52, 0x84badedd) && Has(53, 0xc21462bc) && Has(54, 0x1487472c) && Has(55, 0xb20f7a99)
    ensures Has(56, 0xef57b9cd) && Has(57, 0xebe6b238) && Has(58, 0x9fe3095e) && Has(59, 0x78bc8d4b)
    ensures Has(60, 0xa43fcf15) && Has(61, 0x668b2ff8) && Has(62, 0xeeaba2cc) && Has(63, 0x12b1edeb)
  {
    hide Has;
    Words2();
    Next(48, 0x7a290d5d, 0xf0a64f5a, 0x3b68ba73, 0x93f5997f, 0xa71b9812, 0xcf8708e0, 0xfb3e89cb);
    Next(49, 0x065c43da, 0x3e246a79, 0xaff4ffc1, 0x3b68ba73, 0xa997d4f5, 0xa9511dfa, 0xcc7617db);
    Next(50, 0xfb3e89cb, 0x27333ba3, 0xf10a5c62, 0xaff4ffc1, 0x95e24d5a, 0x4cdbe376, 0xb9e66c34);
    Next(51, 0xcc7617db, 0x0c4763f2, 0x0a8b3996, 0xf10a5c62, 0xc9258230, 0xe321f3e3, 0xa9993667);
    Next(52, 0xb9e66c34, 0x840abf27, 0x72af830a, 0x0a8b3996, 0xfbb2b254, 0xfa7233cc, 0x84badedd);
    Next(53, 0xa9993667, 0x7a290d5d, 0x9409e33e, 0x72af830a, 0xbdd547b2, 0x17668aa3, 0xc21462bc);
    Next(54, 0x84badedd, 0x065c43da, 0x24641522, 0x9409e33e, 0x34945c7d, 0x458cc397, 0x1487472c);
    Next(55, 0xc21462bc, 0xfb3e89cb, 0x9f47bf94, 0x24641522, 0xbd397c50, 0xd5335f5c, 0xb20f7a99);
    Next(56, 0x1487472c, 0xcc7617db, 0xf0a64f5a, 0x9f47bf94, 0x4b76a902, 0x3823395c, 0xef57b9cd);
    Next(57, 0xb20f7a99, 0xb9e66c34, 0x3e246a79, 0xf0a64f5a, 0x52336c98, 0xef268a12, 0xebe6b238);
    Next(58, 0xef57b9cd, 0xa9993667, 0x27333ba3, 0x3e246a79, 0x2be49faf, 0x8c40c8cf, 0x9fe3095e);
    Next(59, 0xebe6b238, 0x84badedd, 0x0c4763f2, 0x27333ba3, 0x8f619123, 0x3d6ce1a8, 0x78bc8d4b);
    Next(60, 0x9fe3095e, 0xc21462bc, 0x840abf27, 0x0c4763f2, 0xe5a364cf, 0xf040a398, 0xa43fcf15);
    Next(61, 0x78bc8d4b, 0x1487472c, 0x7a290d5d, 0x840abf27, 0xd712fc6a, 0xf6e62d3b, 0x668b2ff8);
    Next(62, 0xa43fcf15, 0xb20f7a99, 0x065c43da, 0x7a290d5d, 0x1e41696b, 0xa431b16b, 0xeeaba2cc);
    Next(63, 0x668b2ff8, 0xef57b9cd, 0xfb3e89cb, 0x065c43da, 0xf21a9d5f, 0x2ae352e5, 0x12b1edeb);
  }

  // ---------- the rounds ----------

  datatype State = State(a: bv32, b: bv32, c: bv32, d: bv32, e: bv32, f: bv32, g: bv32, h: bv32)

  function Lift(s: State): Vars { Vars(Val(s.a), Val(s.b), Val(s.c), Val(s.d), Val(s.e), Val(s.f), Val(s.g), Val(s.h)) }

  ghost predicate Reached(t: nat, s: State) { t <= 64 && Rounds(INITIAL, ABC, t) == Lift(s) }

  lemma Step(t: nat, s: State, k: bv32, w: bv32, s1: bv32, ch: bv32, s0: bv32, mj: bv32, a: bv32, e: bv32)
    returns (n: State)
    requires t < 64 && Reached(t, s) && K(t) == Val(k) && Has(t, w)
    requires s1 == BigSigma1Bits(s.e) && ch == ChBits(s.e, s.f, s.g)
    requires s0 == BigSigma0Bits(s.a) && mj == MajBits(s.a, s.b, s.c)
    requires var t1 := Sum(Sum(Sum(Sum(Val(s.h), Val(s1)), Val(ch)), Val(k)), Val(w));
      Val(e) == Sum(Val(s.d), t1) && Val(a) == Sum(t1, Sum(Val(s0), Val(mj)))
    ensures n == State(a, s.a, s.b, s.c, e, s.e, s.f, s.g) && Reached(t + 1, n)
  {
    hide Val, Bits, Sum, BigSigma0Bits, BigSigma1Bits, ChBits, MajBits, K, W;
    BitsVal(s.a); BitsVal(s.b); BitsVal(s.c); BitsVal(s.e); BitsVal(s.f); BitsVal(s.g);
    n := State(a, s.a, s.b, s.c, e, s.e, s.f, s.g);
  }

  lemma Rounds0()
    ensures Reached(0,
      State(0x6a09e667, 0xbb67ae85, 0x3c6ef372, 0xa54ff53a, 0x510e527f, 0x9b05688c, 0x1f83d9ab, 0x5be0cd19))
  {
  }

  lemma Rounds1()
    ensures Reached(16,
      State(0xb0fa238e, 0xc0645fde, 0xd932eb16, 0x87912990, 0x07590dcd, 0x0b92f20c, 0x745a48de, 0x1e578218))
  {
    hide Reached, Has, K;
    Rounds0();
    Words0();
    Constants0();
    var s := State(0x6a09e667, 0xbb67ae85, 0x3c6ef372, 0xa54ff53a, 0x510e527f, 0x9b05688c, 0x1f83d9ab, 0x5be0cd19);
    s := Step(0, s, 0x428a2f98, 0x61626380, 0x3587272b, 0x1f85c98c, 0xce20b47e, 0x3a6fe667, 0x5d6aebcd, 0xfa2a4622);
    s := Step(1, s, 0x71374491, 0x00000000, 0x5a94fd2d, 0x510f6aae, 0xa29f64d1, 0x7b6beec5, 0x5a6ad9ad, 0x78ce7989);
    s := Step(2, s, 0xb5c0fbcf, 0x00000000, 0x73f0e495, 0x790a4276, 0x3096d054, 0x5a6aebed, 0xc8c347a7, 0xf92939eb);
    s := Step(3, s, 0xe9b5dba5, 0x00000000, 0x0607743c, 0x7a0a7f89, 0xc21008d0, 0x586acbad, 0xd550f666, 0x24e00850);
    s := Step(4, s, 0x3956c25b, 0x00000000, 0x3a933432, 0x782e79c9, 0x45bb0c4b, 0xd842d7a7, 0x04409a6a, 0x43ada245);
    s := Step(5, s, 0x59f111f1, 0x00000000, 0x8b77e19c, 0xb8a019ea, 0x5029ac8f, 0xc440d666, 0x2b4209f5, 0x714260ad);
    s := Step(6, s, 0x923f82a4, 0x00000000, 0x015b7776, 0x45a02855, 0x0d5e0cc0, 0x05409a66, 0xe5030380, 0x9b27a401);
    s := Step(7, s, 0xab1c5ed5, 0x00000000, 0x158dfaa9, 0x518a2245, 0x2949eb6c, 0x25420be0, 0x85a07b5f, 0x0c657a79);
    s := Step(8, s, 0xd807aa98, 0x00000000, 0x99ad25c0, 0x79272085, 0xba794dc2, 0xa5020bd5, 0x8e04ecb9, 0x32ca2d8c);
    s := Step(9, s, 0x12835b01, 0x00000000, 0xe45bb7ea, 0x8965a809, 0x15ffad31, 0x85006b99, 0x8c87346b, 0x1cc92596);
    s := Step(10, s, 0x243185be, 0x00000000, 0x8e2276bc, 0x10ec7fed, 0x5cac0711, 0x8c847c7b, 0x4798a3f4, 0x436b23e8);
    s := Step(11, s, 0x550c7dc3, 0x00000000, 0x699435ca, 0x30c92d84, 0x6ccbc526, 0x8e84a4f9, 0xf71fc5a9, 0x816fd6e9);
    s := Step(12, s, 0x72be5d74, 0x00000000, 0xccdee661, 0x1deb23fe, 0x2f9eee48, 0xc79fa5e9, 0x87912990, 0x1e578218);
    s := Step(13, s, 0x80deb1fe, 0x00000000, 0x08bb98f7, 0x416fa3e8, 0x29c634f3, 0xc799a1b0, 0xd932eb16, 0x745a48de);
    s := Step(14, s, 0x9bdc06a7, 0x00000000, 0x4f3b8d50, 0x95779639, 0x25562836, 0xd713e990, 0xc0645fde, 0x0b92f20c);
    s := Step(15, s, 0xc19bf174, 0x00000018, 0xb8d63f93, 0x1457401c, 0xdf906fd4, 0xc1306b96, 0xb0fa238e, 0x07590dcd);
  }

  lemma Constants0()
    ensures K(0) == 0x428a2f98 && K(1) == 0x71374491 && K(2) == 0xb5c0fbcf && K(3) == 0xe9b5dba5
    ensures K(4) == 0x3956c25b && K(5) == 0x59f111f1 && K(6) == 0x923f82a4 && K(7) == 0xab1c5ed5
    ensures K(8) == 0xd807aa98 && K(9) == 0x12835b01 && K(10) == 0x243185be && K(11) == 0x550c7dc3
    ensures K(12) == 0x72be5d74 && K(13) == 0x80deb1fe && K(14) == 0x9bdc06a7 && K(15) == 0xc19bf174
  {
  }

  lemma Rounds2()
    ensures Reached(32,
      State(0x73b33bf5, 0xea992a22, 0xa0060b30, 0x363482c9, 0xba591112, 0x0109ab3a, 0xade79437, 0x6112a3b7))
  {
    hide Reached, Has, K;
    Rounds1();
    Words1();
    Constants1();
    var s := State(0xb0fa238e, 0xc0645fde, 0xd932eb16, 0x87912990, 0x07590dcd, 0x0b92f20c, 0x745a48de, 0x1e578218);
    s := Step(16, s, 0xe49b69c1, 0x61626380, 0x213b6995, 0x7312401e, 0x58c535f1, 0xd0726b9e, 0x21da9a9b, 0x8034229c);
    s := Step(17, s, 0xefbe4786, 0x000f0000, 0x3b81984e, 0x0b92d08c, 0x76c5c4f5, 0xa0fa1b9e, 0xc2fbd9d1, 0x846ee454);
    s := Step(18, s, 0x0fc19dc6, 0x7da86405, 0xeff31c0f, 0x8335299d, 0x5157a6a1, 0xa0fa9b9b, 0xfe777bbf, 0xcc899961);
    s := Step(19, s, 0x240ca1cc, 0x600003c6, 0xefc707b0, 0x843ca2dc, 0xff8cd2ad, 0xe2fbdb9b, 0xe1f20c33, 0xb0638179);
    s := Step(20, s, 0x2de92c6f, 0x3e9d7b78, 0xf8373ead, 0x840de565, 0x51d3431b, 0xe2f359b3, 0x9dc68b63, 0x8ada8930);
    s := Step(21, s, 0x4a7484aa, 0x0183fc00, 0x897ea930, 0xc4439171, 0xa640c29b, 0xfdf60b33, 0xc2606d6d, 0xe1257970);
    s := Step(22, s, 0x5cb0a9dc, 0x12dcbfdb, 0x7f24093a, 0x90428939, 0x9a43bf51, 0xc1e20d63, 0xa7a3623f, 0x49f5114a);
    s := Step(23, s, 0x76f988da, 0xe2e2c38e, 0xfae64fc3, 0xc32f9970, 0x759d1b0a, 0x87e26b6f, 0xc5d53d8d, 0xaa47c347);
    s := Step(24, s, 0x983e5152, 0xc8215c1a, 0x55bdf420, 0x49653972, 0xc9ed56dd, 0xc7e16d2d, 0x1c2c2838, 0x2823ef91);
    s := Step(25, s, 0xa831c66d, 0xb73679a2, 0xa7724357, 0x69d7d34b, 0xf66b0b1f, 0x85a5283d, 0xcde8037d, 0x14383d8e);
    s := Step(26, s, 0xb00327c8, 0xe5bc3909, 0x958ca0fb, 0xaa67efc1, 0xc89998a8, 0xcdec293d, 0xb62ec4bc, 0xc74c6516);
    s := Step(27, s, 0xbf597fc7, 0x32663c5b, 0x5ff7537b, 0x2c2baf87, 0xb37cf281, 0x9c2c003c, 0x77d37528, 0xedffbff8);
    s := Step(28, s, 0xc6e00bf3, 0x9d209d67, 0xe375bd7e, 0xd54c2516, 0xf963c20e, 0xf7ea453c, 0x363482c9, 0x6112a3b7);
    s := Step(29, s, 0xd5a79147, 0xec8726cb, 0x2239b36a, 0xe75ee7b0, 0x89cfb5ce, 0x3636c4a8, 0xa0060b30, 0xade79437);
    s := Step(30, s, 0x06ca6351, 0x702138a4, 0xab883974, 0x611aabff, 0x69a8407c, 0x36160328, 0xea992a22, 0x0109ab3a);
    s := Step(31, s, 0x14292967, 0xd3b7973b, 0x0b919a99, 0x611380b7, 0x8f1995eb, 0xa2140a20, 0x73b33bf5, 0xba591112);
  }

  lemma Constants1()
    ensures K(16) == 0xe49b69c1 && K(17) == 0xefbe4786 && K(18) == 0x0fc19dc6 && K(19) == 0x240ca1cc
    ensures K(20) == 0x2de92c6f && K(21) == 0x4a7484aa && K(22) == 0x5cb0a9dc && K(23) == 0x76f988da
    ensures K(24) == 0x983e5152 && K(25) == 0xa831c66d && K(26) == 0xb00327c8 && K(27) == 0xbf597fc7
    ensures K(28) == 0xc6e00bf3 && K(29) == 0xd5a79147 && K(30) == 0x06ca6351 && K(31) == 0x14292967
  {
  }

  lemma Rounds3()
    ensures Reached(48,
      State(0x4172328d, 0xa14c14b0, 0x72ab4b91, 0x26628815, 0xfecf0bc6, 0xd57b94a9, 0xb7755da1, 0xa80f11f0))
  {
    hide Reached, Has, K;
    Rounds2();
    Words2();
    Constants2();
    var s := State(0x73b33bf5, 0xea992a22, 0xa0060b30, 0x363482c9, 0xba591112, 0x0109ab3a, 0xade79437, 0x6112a3b7);
    s := Step(32, s, 0x27b70a85, 0x93f5997f, 0x4436a63b, 0x05af8537, 0x4fa886aa, 0xe2932b30, 0x98e12507, 0x9cd9f5f6);
    s := Step(33, s, 0x2e1b2138, 0x3b68ba73, 0x085a07a7, 0x99591b1a, 0x4a90902b, 0xfab12b27, 0xfe604df5, 0x59249dd3);
    s := Step(34, s, 0x4d2c6dfc, 0xaff4ffc1, 0x65415f48, 0xba5995d2, 0x91003786, 0xfae12df5, 0xa9a7738c, 0x085f3833);
    s := Step(35, s, 0x53380d13, 0xf10a5c62, 0xe5dc6e83, 0x9c84ddd7, 0x2bc2a37e, 0xb8e16585, 0x65a0cfe4, 0xf4b002d6);
    s := Step(36, s, 0x650a7354, 0x0a8b3996, 0x590d3d71, 0x09149d13, 0xe5748f69, 0xeda04fe4, 0x41a65cb1, 0x0772a26b);
    s := Step(37, s, 0x766a0abb, 0x72af830a, 0x582c115e, 0x0c3d1a52, 0x2c915f18, 0x61a65fa4, 0x34df1604, 0xa507a53d);
    s := Step(38, s, 0x81c2c92e, 0x9409e33e, 0xd2f220b2, 0x55b2a2eb, 0xc14e73aa, 0x65a65ea4, 0x6dc57a8a, 0xf0781bc8);
    s := Step(39, s, 0x92722c85, 0x24641522, 0x66d20b14, 0xa702a12b, 0x5ac8193e, 0x65c75e80, 0x79ea687a, 0x1efbc0a0);
    s := Step(40, s, 0xa2bfe8a1, 0x9f47bf94, 0xe9986075, 0xb17c259d, 0x7408bcaa, 0x7dcf7a0a, 0xd6670766, 0x26352d63);
    s := Step(41, s, 0xa81a664b, 0xf0a64f5a, 0x3a6aa383, 0xd67912a8, 0x12b2e9b8, 0x7de76a6a, 0xdf46652f, 0x838b2711);
    s := Step(42, s, 0xc24b8b70, 0x3e246a79, 0x61add539, 0x1e71e5a1, 0xc73bdc05, 0xdf66656e, 0x17aa0dfe, 0xdecd4715);
    s := Step(43, s, 0xc76c51a3, 0x27333ba3, 0xd363665b, 0xa2b92f73, 0x422dc671, 0xd766056e, 0x9d4baf93, 0xfda24c2e);
    s := Step(44, s, 0xd192e819, 0x0c4763f2, 0xef0f2a07, 0xde896715, 0xb5704fcc, 0x9f4a2dbf, 0x26628815, 0xa80f11f0);
    s := Step(45, s, 0xd6990624, 0x840abf27, 0xfb3dc5f1, 0xfec24625, 0x8311c588, 0x176a8d97, 0x72ab4b91, 0xb7755da1);
    s := Step(46, s, 0xf40e3585, 0x7a290d5d, 0x8845eb06, 0xe88711ae, 0xad0f0274, 0x366b8b91, 0xa14c14b0, 0xd57b94a9);
    s := Step(47, s, 0x106aa070, 0x065c43da, 0x8fa515ca, 0xbd7515f1, 0xbd84cdc9, 0x226a0891, 0x4172328d, 0xfecf0bc6);
  }

  lemma Constants2()
    ensures K(32) == 0x27b70a85 && K(33) == 0x2e1b2138 && K(34) == 0x4d2c6dfc && K(35) == 0x53380d13
    ensures K(36) == 0x650a7354 && K(37) == 0x766a0abb && K(38) == 0x81c2c92e && K(39) == 0x92722c85
    ensures K(40) == 0xa2bfe8a1 && K(41) == 0xa81a664b && K(42) == 0xc24b8b70 && K(43) == 0xc76c51a3
    ensures K(44) == 0xd192e819 && K(45) == 0xd6990624 && K(46) == 0xf40e3585 && K(47) == 0x106aa070
  {
  }

  lemma Rounds4()
    ensures Reached(64,
      State(0x506e3058, 0xd39a2165, 0x04d24d6c, 0xb85e2ce9, 0x5ef50f24, 0xfb121210, 0x948d25b6, 0x961f4894))
  {
    hide Reached, Has, K;
    Rounds3();
    Words3();
    Constants3();
    var s := State(0x4172328d, 0xa14c14b0, 0x72ab4b91, 0x26628815, 0xfecf0bc6, 0xd57b94a9, 0xb7755da1, 0xa80f11f0);
    s := Step(48, s, 0x19a4c116, 0xfb3e89cb, 0x04a106b1, 0xd57b54a1, 0x0cfcb237, 0x616a1291, 0x05757ceb, 0xbd714038);
    s := Step(49, s, 0x1e376c08, 0xcc7617db, 0x5d427776, 0xfc4b9481, 0xf3f6d884, 0x017434a9, 0xf11bfaa8, 0x6e5c390c);
    s := Step(50, s, 0x2748774c, 0xb9e66c34, 0x3e283d54, 0xbcd302ca, 0x86ebd5b1, 0x41737aa9, 0x7a0508a1, 0x52f1ccf7);
    s := Step(51, s, 0x34b0bcb5, 0xa9993667, 0x3b47e2a3, 0xef50080c, 0x0fa817e8, 0x711578a9, 0x886e7a22, 0x49231c1e);
    s := Step(52, s, 0x391c0cb3, 0x84badedd, 0x6b63a737, 0x667d2d16, 0xcae757da, 0xf80f7aa0, 0x101fd28f, 0x529e7d00);
    s := Step(53, s, 0x4ed8aa4a, 0xc21462bc, 0xee7eaa12, 0x40639cf7, 0x2f35481d, 0x180f5aa3, 0xf5702fdb, 0x9f4787c3);
    s := Step(54, s, 0x5b9cca4f, 0x1487472c, 0x55cd1720, 0x52261d1c, 0x433ccfa2, 0x907e7a8b, 0x3ec45cdb, 0xe50e1b4f);
    s := Step(55, s, 0x682e6ff3, 0xb20f7a99, 0xd1653e5c, 0x97966743, 0x381b8def, 0x34545edb, 0x38cc9913, 0x54cb266b);
    s := Step(56, s, 0x748f82ee, 0xef57b9cd, 0x05aa8057, 0xcf0e83cb, 0x34ceacc3, 0x3cc41ddb, 0xfcd1887b, 0x9b5e906c);
    s := Step(57, s, 0x78a5636f, 0xebe6b238, 0x10b627de, 0x744a0b6b, 0xfaca6b61, 0x3cc4985b, 0xc062d46f, 0x7e44008e);
    s := Step(58, s, 0x84c87814, 0x9fe3095e, 0x0a369fbd, 0x1acf266d, 0xd837090c, 0xf8c0987b, 0xffb70472, 0x6d83bfc6);
    s := Step(59, s, 0x8cc70208, 0x78bc8d4b, 0x20a45dbe, 0xfe5c00ae, 0x406bf75a, 0xfcf3847b, 0xb6ae8fff, 0xb21bad3d);
    s := Step(60, s, 0x90befffa, 0xa43fcf15, 0x5ca8b318, 0x6c47ad86, 0x2869e851, 0xf6a6847f, 0xb85e2ce9, 0x961f4894);
    s := Step(61, s, 0xa4506ceb, 0x668b2ff8, 0x4f6ef480, 0xfb9bbf56, 0x71e9ef2a, 0xbebe0cfb, 0x04d24d6c, 0x948d25b6);
    s := Step(62, s, 0xbef9a3f7, 0xeeaba2cc, 0x2a127e78, 0xb61f889d, 0x236105da, 0xb4de0ded, 0xd39a2165, 0xfb121210);
    s := Step(63, s, 0xc67178f2, 0x12b1edeb, 0x88fa2277, 0x940d4894, 0x174d83c6, 0x90da2d6d, 0x506e3058, 0x5ef50f24);
  }

  lemma Constants3()
    ensures K(48) == 0x19a4c116 && K(49) == 0x1e376c08 && K(50) == 0x2748774c && K(51) == 0x34b0bcb5
    ensures K(52) == 0x391c0cb3 && K(53) == 0x4ed8aa4a && K(54) == 0x5b9cca4f && K(55) == 0x682e6ff3
    ensures K(56) == 0x748f82ee && K(57) == 0x78a5636f && K(58) == 0x84c87814 && K(59) == 0x8cc70208
    ensures K(60) == 0x90befffa && K(61) == 0xa4506ceb && K(62) == 0xbef9a3f7 && K(63) == 0xc67178f2
  {
  }

  // ---------- the digest ----------

  lemma Compressed()
    ensures Add(INITIAL, Rounds(INITIAL, ABC, 64)) ==
      Lift(State(0xba7816bf, 0x8f01cfea, 0x414140de, 0x5dae2223, 0xb00361a3, 0x96177a9c, 0xb410ff61, 0xf20015ad))
  {
    Rounds4();
    hide W, Rounds;
  }

  lemma AbcCompressed()
    ensures Compress(INITIAL, Pad(MESSAGE)) == Add(INITIAL, Rounds(INITIAL, ABC, 64))
  {
    hide Rounds, Add, Pad, BlockWords;
    PaddedAbc();
  }

  /** The hash of "abc". */
  lemma HashOfAbc()
    ensures Hash(MESSAGE) ==
      [0xba, 0x78, 0x16, 0xbf] + [0x8f, 0x01, 0xcf, 0xea] +
      [0x41, 0x41, 0x40, 0xde] + [0x5d, 0xae, 0x22, 0x23] +
      [0xb0, 0x03, 0x61, 0xa3] + [0x96, 0x17, 0x7a, 0x9c] +
      [0xb4, 0x10, 0xff, 0x61] + [0xf2, 0x00, 0x15, 0xad]
  {
    hide Compress, Rounds, Add, BigEndianBytes, Val, Pad;
    OneBlockMessage(Compress, INITIAL);
    AbcCompressed();
    Compressed();
    Bytes(0xba7816bf, 0xba, 0x78, 0x16, 0xbf);
    Bytes(0x8f01cfea, 0x8f, 0x01, 0xcf, 0xea);
    Bytes(0x414140de, 0x41, 0x41, 0x40, 0xde);
    Bytes(0x5dae2223, 0x5d, 0xae, 0x22, 0x23);
    Bytes(0xb00361a3, 0xb0, 0x03, 0x61, 0xa3);
    Bytes(0x96177a9c, 0x96, 0x17, 0x7a, 0x9c);
    Bytes(0xb410ff61, 0xb4, 0x10, 0xff, 0x61);
    Bytes(0xf20015ad, 0xf2, 0x00, 0x15, 0xad);
  }
}
