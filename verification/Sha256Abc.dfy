/** The digest of "abc", computed from the definitions step by step: the example of appendix B.1 of
    FIPS 180-2.  It fixes every rotation amount, every constant and the order of every byte. */
module Sha256Abc {
  import opened Sha256Spec

  // The padded message: its 24 bits, a one bit, zeros and its length.
  function Block0(): (b: seq<Byte>)
    ensures |b| == 64
  {
    [0x61, 0x62, 0x63] + [0x80] + Zeros(52) + [0, 0, 0, 0, 0, 0, 0, 24]
  }

  lemma Padded()
    ensures Pad([0x61, 0x62, 0x63]) == Block0()
  {
    hide Zeros, Store64;
    LengthBytes();
  }

  lemma LengthBytes()
    ensures Store64(24, 8) == [0, 0, 0, 0, 0, 0, 0, 24]
  {
    assert Store64(0, 4) == [0, 0, 0, 0];
    assert Store64(0, 7) == Store64(0, 4) + [0, 0, 0];
  }

  lemma BlockBytes(i: nat)
    requires i < 64
    ensures Block0()[i] == if i < 4 then [0x61, 0x62, 0x63, 0x80][i] else if i == 63 then 24 else 0
  {
  }

  lemma BlockWords(t: nat)
    requires t < 16
    ensures Schedule(Block0(), t) == if t == 0 then 0x61626380 else if t == 15 then 0x18 else 0
  {
    hide Block0;
    BlockBytes(4 * t);
    BlockBytes(4 * t + 1);
    BlockBytes(4 * t + 2);
    BlockBytes(4 * t + 3);
    var word := Block0()[4 * t..4 * t + 4];
    LiteralWords();
    assert word ==
      if t == 0 then [0x61, 0x62, 0x63, 0x80] else if t == 15 then [0, 0, 0, 24] else [0, 0, 0, 0];
  }

  lemma LiteralWords()
    ensures Load32([0x61, 0x62, 0x63, 0x80]) == 0x61626380 && Load32([0, 0, 0, 24]) == 0x18
    ensures Load32([0, 0, 0, 0]) == 0
  {
  }

  // ---- The message schedule -----------------------------------------------------------------

  function W(t: nat): Word
    requires t < 64
  {
    Schedule(Block0(), t)
  }

  // The four sums of shifted words, with every amount a constant.
  function Small0(x: Word): Word {
    Xor3((x >> 7) | (x << 25), (x >> 18) | (x << 14), x >> 3)
  }

  function Small1(x: Word): Word {
    Xor3((x >> 17) | (x << 15), (x >> 19) | (x << 13), x >> 10)
  }

  function Big0(x: Word): Word {
    Xor3((x >> 2) | (x << 30), (x >> 13) | (x << 19), (x >> 22) | (x << 10))
  }

  function Big1(x: Word): Word {
    Xor3((x >> 6) | (x << 26), (x >> 11) | (x << 21), (x >> 25) | (x << 7))
  }

  lemma Rotations(x: Word)
    ensures RotR(x, 7) == (x >> 7) | (x << 25) && RotR(x, 18) == (x >> 18) | (x << 14)
    ensures RotR(x, 17) == (x >> 17) | (x << 15) && RotR(x, 19) == (x >> 19) | (x << 13)
    ensures RotR(x, 2) == (x >> 2) | (x << 30) && RotR(x, 13) == (x >> 13) | (x << 19)
    ensures RotR(x, 22) == (x >> 22) | (x << 10)
    ensures RotR(x, 6) == (x >> 6) | (x << 26) && RotR(x, 11) == (x >> 11) | (x << 21)
    ensures RotR(x, 25) == (x >> 25) | (x << 7)
  {
  }

  lemma Small0Is(x: Word)
    ensures SmallSigma0(x) == Small0(x)
  {
    hide RotR, Xor3;
    Rotations(x);
  }

  lemma Small1Is(x: Word)
    ensures SmallSigma1(x) == Small1(x)
  {
    hide RotR, Xor3;
    Rotations(x);
  }

  lemma Big0Is(x: Word)
    ensures BigSigma0(x) == Big0(x)
  {
    hide RotR, Xor3;
    Rotations(x);
  }

  lemma Big1Is(x: Word)
    ensures BigSigma1(x) == Big1(x)
  {
    hide RotR, Xor3;
    Rotations(x);
  }

  lemma NextWord(t: nat, w2: Word, w7: Word, w15: Word, w16: Word, w: Word)
    requires 16 <= t < 64 && W(t - 2) == w2 && W(t - 7) == w7 && W(t - 15) == w15 && W(t - 16) == w16
    requires w == Sum4(Small1(w2), w7, Small0(w15), w16)
    ensures W(t) == w
  {
    hide Small0, Small1, SmallSigma0, SmallSigma1, Sum4;
    Small1Is(w2);
    Small0Is(w15);
  }

  // Words t to t + 7.  The bound on t is written so that the solver does not unfold the schedule for it.
  lemma Words0(t: nat)
    requires t + 8 == 8
    ensures W(t) == 0x61626380 && W(t + 1) == 0x00000000 && W(t + 2) == 0x00000000 && W(t + 3) == 0x00000000
    ensures W(t + 4) == 0x00000000 && W(t + 5) == 0x00000000 && W(t + 6) == 0x00000000 && W(t + 7) == 0x00000000
  {
    hide Schedule, Block0;
    BlockWords(0); BlockWords(1); BlockWords(2); BlockWords(3);
    BlockWords(4); BlockWords(5); BlockWords(6); BlockWords(7);
  }

  lemma Words1(t: nat)
    requires t + 8 == 16
    ensures W(t) == 0x00000000 && W(t + 1) == 0x00000000 && W(t + 2) == 0x00000000 && W(t + 3) == 0x00000000
    ensures W(t + 4) == 0x00000000 && W(t + 5) == 0x00000000 && W(t + 6) == 0x00000000 && W(t + 7) == 0x00000018
  {
    hide Schedule, Block0;
    BlockWords(8); BlockWords(9); BlockWords(10); BlockWords(11);
    BlockWords(12); BlockWords(13); BlockWords(14); BlockWords(15);
  }

  lemma Words2(t: nat)
    requires t + 8 == 24
    ensures W(t) == 0x61626380 && W(t + 1) == 0x000f0000 && W(t + 2) == 0x7da86405 && W(t + 3) == 0x600003c6
    ensures W(t + 4) == 0x3e9d7b78 && W(t + 5) == 0x0183fc00 && W(t + 6) == 0x12dcbfdb && W(t + 7) == 0xe2e2c38e
  {
    hide W;
    Words0(0);
    Words1(8);
    NextWord(16, 0x00000000, 0x00000000, 0x00000000, 0x61626380, 0x61626380);
    NextWord(17, 0x00000018, 0x00000000, 0x00000000, 0x00000000, 0x000f0000);
    NextWord(18, 0x61626380, 0x00000000, 0x00000000, 0x00000000, 0x7da86405);
    NextWord(19, 0x000f0000, 0x00000000, 0x00000000, 0x00000000, 0x600003c6);
    NextWord(20, 0x7da86405, 0x00000000, 0x00000000, 0x00000000, 0x3e9d7b78);
    NextWord(21, 0x600003c6, 0x00000000, 0x00000000, 0x00000000, 0x0183fc00);
    NextWord(22, 0x3e9d7b78, 0x00000018, 0x00000000, 0x00000000, 0x12dcbfdb);
    NextWord(23, 0x0183fc00, 0x61626380, 0x00000000, 0x00000000, 0xe2e2c38e);
  }

  lemma Words3(t: nat)
    requires t + 8 == 32
    ensures W(t) == 0xc8215c1a && W(t + 1) == 0xb73679a2 && W(t + 2) == 0xe5bc3909 && W(t + 3) == 0x32663c5b
    ensures W(t + 4) == 0x9d209d67 && W(t + 5) == 0xec8726cb && W(t + 6) == 0x702138a4 && W(t + 7) == 0xd3b7973b
  {
    hide W;
    Words1(8);
    Words2(16);
    NextWord(24, 0x12dcbfdb, 0x000f0000, 0x00000000, 0x00000000, 0xc8215c1a);
    NextWord(25, 0xe2e2c38e, 0x7da86405, 0x00000000, 0x00000000, 0xb73679a2);
    NextWord(26, 0xc8215c1a, 0x600003c6, 0x00000000, 0x00000000, 0xe5bc3909);
    NextWord(27, 0xb73679a2, 0x3e9d7b78, 0x00000000, 0x00000000, 0x32663c5b);
    NextWord(28, 0xe5bc3909, 0x0183fc00, 0x00000000, 0x00000000, 0x9d209d67);
    NextWord(29, 0x32663c5b, 0x12dcbfdb, 0x00000000, 0x00000000, 0xec8726cb);
    NextWord(30, 0x9d209d67, 0xe2e2c38e, 0x00000018, 0x00000000, 0x702138a4);
    NextWord(31, 0xec8726cb, 0xc8215c1a, 0x61626380, 0x00000018, 0xd3b7973b);
  }

  lemma Words4(t: nat)
    requires t + 8 == 40
    ensures W(t) == 0x93f5997f && W(t + 1) == 0x3b68ba73 && W(t + 2) == 0xaff4ffc1 && W(t + 3) == 0xf10a5c62
    ensures W(t + 4) == 0x0a8b3996 && W(t + 5) == 0x72af830a && W(t + 6) == 0x9409e33e && W(t + 7) == 0x24641522
  {
    hide W;
    Words2(16);
    Words3(24);
    NextWord(32, 0x702138a4, 0xb73679a2, 0x000f0000, 0x61626380, 0x93f5997f);
    NextWord(33, 0xd3b7973b, 0xe5bc3909, 0x7da86405, 0x000f0000, 0x3b68ba73);
    NextWord(34, 0x93f5997f, 0x32663c5b, 0x600003c6, 0x7da86405, 0xaff4ffc1);
    NextWord(35, 0x3b68ba73, 0x9d209d67, 0x3e9d7b78, 0x600003c6, 0xf10a5c62);
    NextWord(36, 0xaff4ffc1, 0xec8726cb, 0x0183fc00, 0x3e9d7b78, 0x0a8b3996);
    NextWord(37, 0xf10a5c62, 0x702138a4, 0x12dcbfdb, 0x0183fc00, 0x72af830a);
    NextWord(38, 0x0a8b3996, 0xd3b7973b, 0xe2e2c38e, 0x12dcbfdb, 0x9409e33e);
    NextWord(39, 0x72af830a, 0x93f5997f, 0xc8215c1a, 0xe2e2c38e, 0x24641522);
  }

  lemma Words5(t: nat)
    requires t + 8 == 48
    ensures W(t) == 0x9f47bf94 && W(t + 1) == 0xf0a64f5a && W(t + 2) == 0x3e246a79 && W(t + 3) == 0x27333ba3
    ensures W(t + 4) == 0x0c4763f2 && W(t + 5) == 0x840abf27 && W(t + 6) == 0x7a290d5d && W(t + 7) == 0x065c43da
  {
    hide W;
    Words3(24);
    Words4(32);
    NextWord(40, 0x9409e33e, 0x3b68ba73, 0xb73679a2, 0xc8215c1a, 0x9f47bf94);
    NextWord(41, 0x24641522, 0xaff4ffc1, 0xe5bc3909, 0xb73679a2, 0xf0a64f5a);
    NextWord(42, 0x9f47bf94, 0xf10a5c62, 0x32663c5b, 0xe5bc3909, 0x3e246a79);
    NextWord(43, 0xf0a64f5a, 0x0a8b3996, 0x9d209d67, 0x32663c5b, 0x27333ba3);
    NextWord(44, 0x3e246a79, 0x72af830a, 0xec8726cb, 0x9d209d67, 0x0c4763f2);
    NextWord(45, 0x27333ba3, 0x9409e33e, 0x702138a4, 0xec8726cb, 0x840abf27);
    NextWord(46, 0x0c4763f2, 0x24641522, 0xd3b7973b, 0x702138a4, 0x7a290d5d);
    NextWord(47, 0x840abf27, 0x9f47bf94, 0x93f5997f, 0xd3b7973b, 0x065c43da);
  }

  lemma Words6(t: nat)
    requires t + 8 == 56
    ensures W(t) == 0xfb3e89cb && W(t + 1) == 0xcc7617db && W(t + 2) == 0xb9e66c34 && W(t + 3) == 0xa9993667
    ensures W(t + 4) == 0x84badedd && W(t + 5) == 0xc21462bc && W(t + 6) == 0x1487472c && W(t + 7) == 0xb20f7a99
  {
    hide W;
    Words4(32);
    Words5(40);
    NextWord(48, 0x7a290d5d, 0xf0a64f5a, 0x3b68ba73, 0x93f5997f, 0xfb3e89cb);
    NextWord(49, 0x065c43da, 0x3e246a79, 0xaff4ffc1, 0x3b68ba73, 0xcc7617db);
    NextWord(50, 0xfb3e89cb, 0x27333ba3, 0xf10a5c62, 0xaff4ffc1, 0xb9e66c34);
    NextWord(51, 0xcc7617db, 0x0c4763f2, 0x0a8b3996, 0xf10a5c62, 0xa9993667);
    NextWord(52, 0xb9e66c34, 0x840abf27, 0x72af830a, 0x0a8b3996, 0x84badedd);
    NextWord(53, 0xa9993667, 0x7a290d5d, 0x9409e33e, 0x72af830a, 0xc21462bc);
    NextWord(54, 0x84badedd, 0x065c43da, 0x24641522, 0x9409e33e, 0x1487472c);
    NextWord(55, 0xc21462bc, 0xfb3e89cb, 0x9f47bf94, 0x24641522, 0xb20f7a99);
  }

  lemma Words7(t: nat)
    requires t + 8 == 64
    ensures W(t) == 0xef57b9cd && W(t + 1) == 0xebe6b238 && W(t + 2) == 0x9fe3095e && W(t + 3) == 0x78bc8d4b
    ensures W(t + 4) == 0xa43fcf15 && W(t + 5) == 0x668b2ff8 && W(t + 6) == 0xeeaba2cc && W(t + 7) == 0x12b1edeb
  {
    hide W;
    Words5(40);
    Words6(48);
    NextWord(56, 0x1487472c, 0xcc7617db, 0xf0a64f5a, 0x9f47bf94, 0xef57b9cd);
    NextWord(57, 0xb20f7a99, 0xb9e66c34, 0x3e246a79, 0xf0a64f5a, 0xebe6b238);
    NextWord(58, 0xef57b9cd, 0xa9993667, 0x27333ba3, 0x3e246a79, 0x9fe3095e);
    NextWord(59, 0xebe6b238, 0x84badedd, 0x0c4763f2, 0x27333ba3, 0x78bc8d4b);
    NextWord(60, 0x9fe3095e, 0xc21462bc, 0x840abf27, 0x0c4763f2, 0xa43fcf15);
    NextWord(61, 0x78bc8d4b, 0x1487472c, 0x7a290d5d, 0x840abf27, 0x668b2ff8);
    NextWord(62, 0xa43fcf15, 0xb20f7a99, 0x065c43da, 0x7a290d5d, 0xeeaba2cc);
    NextWord(63, 0x668b2ff8, 0xef57b9cd, 0xfb3e89cb, 0x065c43da, 0x12b1edeb);
  }

  // ---- The rounds ---------------------------------------------------------------------------

  // The working variables after t rounds.
  function V(t: nat): Working
    requires t <= 64
  {
    Rounds(InitialHash(), Block0(), t)
  }

  lemma RoundIs(s: Working, k: Word, w: Word)
    ensures var t1 := Sum5(s[7], Big1(s[4]), Ch(s[4], s[5], s[6]), k, w);
      Round(s, k, w) == [Plus(t1, Plus(Big0(s[0]), Maj(s[0], s[1], s[2]))),
                         s[0], s[1], s[2], Plus(s[3], t1), s[4], s[5], s[6]]
  {
    hide BigSigma0, BigSigma1, Big0, Big1, Ch, Maj, Sum5, Plus;
    Big0Is(s[0]);
    Big1Is(s[4]);
  }

  lemma NextRound(t: nat, k: Word, w: Word)
    requires t < 64 && K()[t] == k && W(t) == w
    ensures V(t + 1) == Round(V(t), k, w)
  {
    hide K, Round, Schedule, Block0, InitialHash;
  }

  // Round t, with its constant and its word of the schedule, has x as its new a and y as its new e.
  lemma Turn(t: nat, s: Working, k: Word, w: Word, x: Word, y: Word) returns (s': Working)
    requires t < 64 && V(t) == s && K()[t] == k && W(t) == w
    requires var t1 := Sum5(s[7], Big1(s[4]), Ch(s[4], s[5], s[6]), k, w);
      x == Plus(t1, Plus(Big0(s[0]), Maj(s[0], s[1], s[2]))) && y == Plus(s[3], t1)
    ensures s' == V(t + 1) == [x, s[0], s[1], s[2], y, s[4], s[5], s[6]]
  {
    hide K, W, V, Round, Big0, Big1, Ch, Maj, Sum5, Plus;
    RoundIs(s, k, w);
    NextRound(t, k, w);
    s' := [x, s[0], s[1], s[2], y, s[4], s[5], s[6]];
  }

  lemma RoundConstant(t: nat)
    requires t < 64
    ensures K()[t] == KRows()[t / 8][t % 8]
  {
  }

  lemma Constants0()
    ensures K()[0] == 0x428a2f98 && K()[1] == 0x71374491 && K()[2] == 0xb5c0fbcf && K()[3] == 0xe9b5dba5
    ensures K()[4] == 0x3956c25b && K()[5] == 0x59f111f1 && K()[6] == 0x923f82a4 && K()[7] == 0xab1c5ed5
  {
    hide K;
    RoundConstant(0); RoundConstant(1); RoundConstant(2); RoundConstant(3);
    RoundConstant(4); RoundConstant(5); RoundConstant(6); RoundConstant(7);
  }

  lemma Constants1()
    ensures K()[8] == 0xd807aa98 && K()[9] == 0x12835b01 && K()[10] == 0x243185be && K()[11] == 0x550c7dc3
    ensures K()[12] == 0x72be5d74 && K()[13] == 0x80deb1fe && K()[14] == 0x9bdc06a7 && K()[15] == 0xc19bf174
  {
    hide K;
    RoundConstant(8); RoundConstant(9); RoundConstant(10); RoundConstant(11);
    RoundConstant(12); RoundConstant(13); RoundConstant(14); RoundConstant(15);
  }

  lemma Constants2()
    ensures K()[16] == 0xe49b69c1 && K()[17] == 0xefbe4786 && K()[18] == 0x0fc19dc6 && K()[19] == 0x240ca1cc
    ensures K()[20] == 0x2de92c6f && K()[21] == 0x4a7484aa && K()[22] == 0x5cb0a9dc && K()[23] == 0x76f988da
  {
    hide K;
    RoundConstant(16); RoundConstant(17); RoundConstant(18); RoundConstant(19);
    RoundConstant(20); RoundConstant(21); RoundConstant(22); RoundConstant(23);
  }

  lemma Constants3()
    ensures K()[24] == 0x983e5152 && K()[25] == 0xa831c66d && K()[26] == 0xb00327c8 && K()[27] == 0xbf597fc7
    ensures K()[28] == 0xc6e00bf3 && K()[29] == 0xd5a79147 && K()[30] == 0x06ca6351 && K()[31] == 0x14292967
  {
    hide K;
    RoundConstant(24); RoundConstant(25); RoundConstant(26); RoundConstant(27);
    RoundConstant(28); RoundConstant(29); RoundConstant(30); RoundConstant(31);
  }

  lemma Constants4()
    ensures K()[32] == 0x27b70a85 && K()[33] == 0x2e1b2138 && K()[34] == 0x4d2c6dfc && K()[35] == 0x53380d13
    ensures K()[36] == 0x650a7354 && K()[37] == 0x766a0abb && K()[38] == 0x81c2c92e && K()[39] == 0x92722c85
  {
    hide K;
    RoundConstant(32); RoundConstant(33); RoundConstant(34); RoundConstant(35);
    RoundConstant(36); RoundConstant(37); RoundConstant(38); RoundConstant(39);
  }

  lemma Constants5()
    ensures K()[40] == 0xa2bfe8a1 && K()[41] == 0xa81a664b && K()[42] == 0xc24b8b70 && K()[43] == 0xc76c51a3
    ensures K()[44] == 0xd192e819 && K()[45] == 0xd6990624 && K()[46] == 0xf40e3585 && K()[47] == 0x106aa070
  {
    hide K;
    RoundConstant(40); RoundConstant(41); RoundConstant(42); RoundConstant(43);
    RoundConstant(44); RoundConstant(45); RoundConstant(46); RoundConstant(47);
  }

  lemma Constants6()
    ensures K()[48] == 0x19a4c116 && K()[49] == 0x1e376c08 && K()[50] == 0x2748774c && K()[51] == 0x34b0bcb5
    ensures K()[52] == 0x391c0cb3 && K()[53] == 0x4ed8aa4a && K()[54] == 0x5b9cca4f && K()[55] == 0x682e6ff3
  {
    hide K;
    RoundConstant(48); RoundConstant(49); RoundConstant(50); RoundConstant(51);
    RoundConstant(52); RoundConstant(53); RoundConstant(54); RoundConstant(55);
  }

  lemma Constants7()
    ensures K()[56] == 0x748f82ee && K()[57] == 0x78a5636f && K()[58] == 0x84c87814 && K()[59] == 0x8cc70208
    ensures K()[60] == 0x90befffa && K()[61] == 0xa4506ceb && K()[62] == 0xbef9a3f7 && K()[63] == 0xc67178f2
  {
    hide K;
    RoundConstant(56); RoundConstant(57); RoundConstant(58); RoundConstant(59);
    RoundConstant(60); RoundConstant(61); RoundConstant(62); RoundConstant(63);
  }

  lemma Rounds0()
    ensures V(8) ==
            [0x85a07b5f, 0xe5030380, 0x2b4209f5, 0x04409a6a, 0x0c657a79, 0x9b27a401, 0x714260ad, 0x43ada245]
  {
    hide V, W, K, KRows, InitialHash;
    Start();
    Constants0();
    Words0(0);
    var s: Working := [0x6a09e667, 0xbb67ae85, 0x3c6ef372, 0xa54ff53a, 0x510e527f, 0x9b05688c, 0x1f83d9ab, 0x5be0cd19];
    s := Turn(0, s, 0x428a2f98, 0x61626380, 0x5d6aebcd, 0xfa2a4622);
    s := Turn(1, s, 0x71374491, 0x00000000, 0x5a6ad9ad, 0x78ce7989);
    s := Turn(2, s, 0xb5c0fbcf, 0x00000000, 0xc8c347a7, 0xf92939eb);
    s := Turn(3, s, 0xe9b5dba5, 0x00000000, 0xd550f666, 0x24e00850);
    s := Turn(4, s, 0x3956c25b, 0x00000000, 0x04409a6a, 0x43ada245);
    s := Turn(5, s, 0x59f111f1, 0x00000000, 0x2b4209f5, 0x714260ad);
    s := Turn(6, s, 0x923f82a4, 0x00000000, 0xe5030380, 0x9b27a401);
    s := Turn(7, s, 0xab1c5ed5, 0x00000000, 0x85a07b5f, 0x0c657a79);
  }

  lemma Rounds1()
    ensures V(16) ==
            [0xb0fa238e, 0xc0645fde, 0xd932eb16, 0x87912990, 0x07590dcd, 0x0b92f20c, 0x745a48de, 0x1e578218]
  {
    hide V, W, K, KRows, InitialHash;
    Rounds0();
    Constants1();
    Words1(8);
    var s: Working := [0x85a07b5f, 0xe5030380, 0x2b4209f5, 0x04409a6a, 0x0c657a79, 0x9b27a401, 0x714260ad, 0x43ada245];
    s := Turn(8, s, 0xd807aa98, 0x00000000, 0x8e04ecb9, 0x32ca2d8c);
    s := Turn(9, s, 0x12835b01, 0x00000000, 0x8c87346b, 0x1cc92596);
    s := Turn(10, s, 0x243185be, 0x00000000, 0x4798a3f4, 0x436b23e8);
    s := Turn(11, s, 0x550c7dc3, 0x00000000, 0xf71fc5a9, 0x816fd6e9);
    s := Turn(12, s, 0x72be5d74, 0x00000000, 0x87912990, 0x1e578218);
    s := Turn(13, s, 0x80deb1fe, 0x00000000, 0xd932eb16, 0x745a48de);
    s := Turn(14, s, 0x9bdc06a7, 0x00000000, 0xc0645fde, 0x0b92f20c);
    s := Turn(15, s, 0xc19bf174, 0x00000018, 0xb0fa238e, 0x07590dcd);
  }

  lemma Rounds2()
    ensures V(24) ==
            [0xc5d53d8d, 0xa7a3623f, 0xc2606d6d, 0x9dc68b63, 0xaa47c347, 0x49f5114a, 0xe1257970, 0x8ada8930]
  {
    hide V, W, K, KRows, InitialHash;
    Rounds1();
    Constants2();
    Words2(16);
    var s: Working := [0xb0fa238e, 0xc0645fde, 0xd932eb16, 0x87912990, 0x07590dcd, 0x0b92f20c, 0x745a48de, 0x1e578218];
    s := Turn(16, s, 0xe49b69c1, 0x61626380, 0x21da9a9b, 0x8034229c);
    s := Turn(17, s, 0xefbe4786, 0x000f0000, 0xc2fbd9d1, 0x846ee454);
    s := Turn(18, s, 0x0fc19dc6, 0x7da86405, 0xfe777bbf, 0xcc899961);
    s := Turn(19, s, 0x240ca1cc, 0x600003c6, 0xe1f20c33, 0xb0638179);
    s := Turn(20, s, 0x2de92c6f, 0x3e9d7b78, 0x9dc68b63, 0x8ada8930);
    s := Turn(21, s, 0x4a7484aa, 0x0183fc00, 0xc2606d6d, 0xe1257970);
    s := Turn(22, s, 0x5cb0a9dc, 0x12dcbfdb, 0xa7a3623f, 0x49f5114a);
    s := Turn(23, s, 0x76f988da, 0xe2e2c38e, 0xc5d53d8d, 0xaa47c347);
  }

  lemma Rounds3()
    ensures V(32) ==
            [0x73b33bf5, 0xea992a22, 0xa0060b30, 0x363482c9, 0xba591112, 0x0109ab3a, 0xade79437, 0x6112a3b7]
  {
    hide V, W, K, KRows, InitialHash;
    Rounds2();
    Constants3();
    Words3(24);
    var s: Working := [0xc5d53d8d, 0xa7a3623f, 0xc2606d6d, 0x9dc68b63, 0xaa47c347, 0x49f5114a, 0xe1257970, 0x8ada8930];
    s := Turn(24, s, 0x983e5152, 0xc8215c1a, 0x1c2c2838, 0x2823ef91);
    s := Turn(25, s, 0xa831c66d, 0xb73679a2, 0xcde8037d, 0x14383d8e);
    s := Turn(26, s, 0xb00327c8, 0xe5bc3909, 0xb62ec4bc, 0xc74c6516);
    s := Turn(27, s, 0xbf597fc7, 0x32663c5b, 0x77d37528, 0xedffbff8);
    s := Turn(28, s, 0xc6e00bf3, 0x9d209d67, 0x363482c9, 0x6112a3b7);
    s := Turn(29, s, 0xd5a79147, 0xec8726cb, 0xa0060b30, 0xade79437);
    s := Turn(30, s, 0x06ca6351, 0x702138a4, 0xea992a22, 0x0109ab3a);
    s := Turn(31, s, 0x14292967, 0xd3b7973b, 0x73b33bf5, 0xba591112);
  }

  lemma Rounds4()
    ensures V(40) ==
            [0x79ea687a, 0x6dc57a8a, 0x34df1604, 0x41a65cb1, 0x1efbc0a0, 0xf0781bc8, 0xa507a53d, 0x0772a26b]
  {
    hide V, W, K, KRows, InitialHash;
    Rounds3();
    Constants4();
    Words4(32);
    var s: Working := [0x73b33bf5, 0xea992a22, 0xa0060b30, 0x363482c9, 0xba591112, 0x0109ab3a, 0xade79437, 0x6112a3b7];
    s := Turn(32, s, 0x27b70a85, 0x93f5997f, 0x98e12507, 0x9cd9f5f6);
    s := Turn(33, s, 0x2e1b2138, 0x3b68ba73, 0xfe604df5, 0x59249dd3);
    s := Turn(34, s, 0x4d2c6dfc, 0xaff4ffc1, 0xa9a7738c, 0x085f3833);
    s := Turn(35, s, 0x53380d13, 0xf10a5c62, 0x65a0cfe4, 0xf4b002d6);
    s := Turn(36, s, 0x650a7354, 0x0a8b3996, 0x41a65cb1, 0x0772a26b);
    s := Turn(37, s, 0x766a0abb, 0x72af830a, 0x34df1604, 0xa507a53d);
    s := Turn(38, s, 0x81c2c92e, 0x9409e33e, 0x6dc57a8a, 0xf0781bc8);
    s := Turn(39, s, 0x92722c85, 0x24641522, 0x79ea687a, 0x1efbc0a0);
  }

  lemma Rounds5()
    ensures V(48) ==
            [0x4172328d, 0xa14c14b0, 0x72ab4b91, 0x26628815, 0xfecf0bc6, 0xd57b94a9, 0xb7755da1, 0xa80f11f0]
  {
    hide V, W, K, KRows, InitialHash;
    Rounds4();
    Constants5();
    Words5(40);
    var s: Working := [0x79ea687a, 0x6dc57a8a, 0x34df1604, 0x41a65cb1, 0x1efbc0a0, 0xf0781bc8, 0xa507a53d, 0x0772a26b];
    s := Turn(40, s, 0xa2bfe8a1, 0x9f47bf94, 0xd6670766, 0x26352d63);
    s := Turn(41, s, 0xa81a664b, 0xf0a64f5a, 0xdf46652f, 0x838b2711);
    s := Turn(42, s, 0xc24b8b70, 0x3e246a79, 0x17aa0dfe, 0xdecd4715);
    s := Turn(43, s, 0xc76c51a3, 0x27333ba3, 0x9d4baf93, 0xfda24c2e);
    s := Turn(44, s, 0xd192e819, 0x0c4763f2, 0x26628815, 0xa80f11f0);
    s := Turn(45, s, 0xd6990624, 0x840abf27, 0x72ab4b91, 0xb7755da1);
    s := Turn(46, s, 0xf40e3585, 0x7a290d5d, 0xa14c14b0, 0xd57b94a9);
    s := Turn(47, s, 0x106aa070, 0x065c43da, 0x4172328d, 0xfecf0bc6);
  }

  lemma Rounds6()
    ensures V(56) ==
            [0x38cc9913, 0x3ec45cdb, 0xf5702fdb, 0x101fd28f, 0x54cb266b, 0xe50e1b4f, 0x9f4787c3, 0x529e7d00]
  {
    hide V, W, K, KRows, InitialHash;
    Rounds5();
    Constants6();
    Words6(48);
    var s: Working := [0x4172328d, 0xa14c14b0, 0x72ab4b91, 0x26628815, 0xfecf0bc6, 0xd57b94a9, 0xb7755da1, 0xa80f11f0];
    s := Turn(48, s, 0x19a4c116, 0xfb3e89cb, 0x05757ceb, 0xbd714038);
    s := Turn(49, s, 0x1e376c08, 0xcc7617db, 0xf11bfaa8, 0x6e5c390c);
    s := Turn(50, s, 0x2748774c, 0xb9e66c34, 0x7a0508a1, 0x52f1ccf7);
    s := Turn(51, s, 0x34b0bcb5, 0xa9993667, 0x886e7a22, 0x49231c1e);
    s := Turn(52, s, 0x391c0cb3, 0x84badedd, 0x101fd28f, 0x529e7d00);
    s := Turn(53, s, 0x4ed8aa4a, 0xc21462bc, 0xf5702fdb, 0x9f4787c3);
    s := Turn(54, s, 0x5b9cca4f, 0x1487472c, 0x3ec45cdb, 0xe50e1b4f);
    s := Turn(55, s, 0x682e6ff3, 0xb20f7a99, 0x38cc9913, 0x54cb266b);
  }

  lemma Rounds7()
    ensures V(64) ==
            [0x506e3058, 0xd39a2165, 0x04d24d6c, 0xb85e2ce9, 0x5ef50f24, 0xfb121210, 0x948d25b6, 0x961f4894]
  {
    hide V, W, K, KRows, InitialHash;
    Rounds6();
    Constants7();
    Words7(56);
    var s: Working := [0x38cc9913, 0x3ec45cdb, 0xf5702fdb, 0x101fd28f, 0x54cb266b, 0xe50e1b4f, 0x9f4787c3, 0x529e7d00];
    s := Turn(56, s, 0x748f82ee, 0xef57b9cd, 0xfcd1887b, 0x9b5e906c);
    s := Turn(57, s, 0x78a5636f, 0xebe6b238, 0xc062d46f, 0x7e44008e);
    s := Turn(58, s, 0x84c87814, 0x9fe3095e, 0xffb70472, 0x6d83bfc6);
    s := Turn(59, s, 0x8cc70208, 0x78bc8d4b, 0xb6ae8fff, 0xb21bad3d);
    s := Turn(60, s, 0x90befffa, 0xa43fcf15, 0xb85e2ce9, 0x961f4894);
    s := Turn(61, s, 0xa4506ceb, 0x668b2ff8, 0x04d24d6c, 0x948d25b6);
    s := Turn(62, s, 0xbef9a3f7, 0xeeaba2cc, 0xd39a2165, 0xfb121210);
    s := Turn(63, s, 0xc67178f2, 0x12b1edeb, 0x506e3058, 0x5ef50f24);
  }

  lemma Start()
    ensures V(0) ==
            [0x6a09e667, 0xbb67ae85, 0x3c6ef372, 0xa54ff53a, 0x510e527f, 0x9b05688c, 0x1f83d9ab, 0x5be0cd19]
  {
  }

  // ---- The digest ---------------------------------------------------------------------------

  lemma FinalHash()
    ensures Compress(InitialHash(), Block0()) ==
            [0xba7816bf, 0x8f01cfea, 0x414140de, 0x5dae2223, 0xb00361a3, 0x96177a9c, 0xb410ff61, 0xf20015ad]
  {
    hide Rounds, Block0, Schedule, K;
    Rounds7();
    assert V(64) == Rounds(InitialHash(), Block0(), 64);
  }

  lemma OneBlock()
    ensures |Pad([0x61, 0x62, 0x63])| == 64
    ensures Chain(Pad([0x61, 0x62, 0x63]), 1) == Compress(InitialHash(), Block0())
  {
    hide Compress, InitialHash, Pad, Block0;
    Padded();
    var p := Pad([0x61, 0x62, 0x63]);
    assert p[..64] == p;
    assert Chain(p, 0) == InitialHash();
  }

  lemma Stored()
    ensures Store32(0xba7816bf) == [0xba, 0x78, 0x16, 0xbf]
    ensures Store32(0x8f01cfea) == [0x8f, 0x01, 0xcf, 0xea]
    ensures Store32(0x414140de) == [0x41, 0x41, 0x40, 0xde]
    ensures Store32(0x5dae2223) == [0x5d, 0xae, 0x22, 0x23]
    ensures Store32(0xb00361a3) == [0xb0, 0x03, 0x61, 0xa3]
    ensures Store32(0x96177a9c) == [0x96, 0x17, 0x7a, 0x9c]
    ensures Store32(0xb410ff61) == [0xb4, 0x10, 0xff, 0x61]
    ensures Store32(0xf20015ad) == [0xf2, 0x00, 0x15, 0xad]
  {
  }

  lemma StoreNext(h: seq<Word>, n: nat)
    requires n < |h|
    ensures StoreAll(h[..n + 1]) == StoreAll(h[..n]) + Store32(h[n])
  {
    hide Store32;
    assert h[..n + 1][..n] == h[..n];
  }

  lemma StoreFour(h: seq<Word>, n: nat)
    requires n + 4 <= |h|
    ensures StoreAll(h[..n + 4]) ==
            StoreAll(h[..n]) + Store32(h[n]) + Store32(h[n + 1]) + Store32(h[n + 2]) + Store32(h[n + 3])
  {
    hide StoreAll, Store32;
    StoreNext(h, n);
    StoreNext(h, n + 1);
    StoreNext(h, n + 2);
    StoreNext(h, n + 3);
  }

  lemma StoreEight(h: Working)
    ensures StoreAll(h) == [] + Store32(h[0]) + Store32(h[1]) + Store32(h[2]) + Store32(h[3]) +
                           Store32(h[4]) + Store32(h[5]) + Store32(h[6]) + Store32(h[7])
  {
    hide StoreAll, Store32;
    NothingStored();
    StoreFour(h, 0);
    StoreFour(h, 4);
    assert h[..0] == [] && h[..8] == h;
  }

  lemma AbcDigest()
    ensures Sha256([0x61, 0x62, 0x63]) == [
      0xba, 0x78, 0x16, 0xbf, 0x8f, 0x01, 0xcf, 0xea, 0x41, 0x41, 0x40, 0xde, 0x5d, 0xae, 0x22, 0x23,
      0xb0, 0x03, 0x61, 0xa3, 0x96, 0x17, 0x7a, 0x9c, 0xb4, 0x10, 0xff, 0x61, 0xf2, 0x00, 0x15, 0xad]
  {
    hide Store32, Compress, Chain, Pad, StoreAll, Block0, InitialHash;
    OneBlock();
    FinalHash();
    Stored();
    StoreEight(Chain(Pad([0x61, 0x62, 0x63]), 1));
  }

  lemma NothingStored()
    ensures StoreAll([]) == []
  {
  }
}
