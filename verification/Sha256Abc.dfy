/**
 The one-block message "abc" of the standard, worked through round by round: Sha256Of gives its published
 digest. This fixes what the laws about the parts leave open: the rotation amounts, the order of the words
 and of the working variables, and the byte order of the digest.
 */
module Sha256Abc {
  import opened Bytes
  import opened Words32
  import opened Sha256

  /** The padded message. */
  function Block(): (b: seq<byte>)
    ensures |b| == BLOCK_SIZE
  {
    [97, 98, 99, 0x80] + Fill(52, 0) + Fill(7, 0) + [24]
  }

  lemma Padded()
    ensures Ascii("abc") + Padding(3) == Block()
  {
    BitLength();
    hide BigEndian;
    assert Zeros(3) == 52;
  }

  lemma BitLength()
    ensures BigEndian(24, 8) == Fill(7, 0) + [24]
  {
    BigEndianZero(7);
    assert BigEndian(24, 8) == BigEndian(0, 7) + [24];
  }

  lemma {:induction false} BigEndianZero(n: nat)
    ensures BigEndian(0, n) == Fill(n, 0)
    decreases n
  {
    if n > 0 {
      BigEndianZero(n - 1);
    }
  }

  // ----- the message schedule -----

  lemma WStep(b: seq<byte>, t: nat)
    requires |b| == BLOCK_SIZE && 16 <= t < 64
    ensures W(b, t) == Extend(W(b, t - 2), W(b, t - 7), W(b, t - 15), W(b, t - 16))
  {
    hide Extend;
  }

  /** The words of the block. */
  lemma Words0(b: seq<byte>)
    requires b == Block()
    ensures W(b, 0) == 0x61626380 && (forall t :: 1 <= t < 15 ==> W(b, t) == 0) && W(b, 15) == 24
  {
    hide Block, Word;
    FirstWord();
    ZeroWords();
    LastWord();
  }

  lemma FirstWord()
    ensures Word(Block(), 0) == 0x61626380
  {
    var b := Block();
    assert b[0] == 97 && b[1] == 98 && b[2] == 99 && b[3] == 0x80;
  }

  lemma ZeroWords()
    ensures forall t :: 1 <= t < 15 ==> Word(Block(), t) == 0
  {
    forall t | 1 <= t < 15 ensures Word(Block(), t) == 0 {
      var b := Block();
      assert b[4 * t] == 0 && b[4 * t + 1] == 0 && b[4 * t + 2] == 0 && b[4 * t + 3] == 0;
    }
  }

  lemma LastWord()
    ensures Word(Block(), 15) == 24
  {
    var b := Block();
    assert b[60] == 0 && b[61] == 0 && b[62] == 0 && b[63] == 24;
  }

  lemma Words1(b: seq<byte>)
    requires b == Block()
    ensures W(b, 16) == 0x61626380 && W(b, 17) == 0x000f0000
    ensures W(b, 18) == 0x7da86405 && W(b, 19) == 0x600003c6
    ensures W(b, 20) == 0x3e9d7b78 && W(b, 21) == 0x0183fc00
    ensures W(b, 22) == 0x12dcbfdb && W(b, 23) == 0xe2e2c38e
  {
    hide W, Block, Extend;
    Words0(b);
    WStep(b, 16);
    WStep(b, 17);
    WStep(b, 18);
    WStep(b, 19);
    WStep(b, 20);
    WStep(b, 21);
    WStep(b, 22);
    WStep(b, 23);
    Extended1();
  }

  lemma Extended1()
    ensures Extend(0x00000000, 0x00000000, 0x00000000, 0x61626380) == 0x61626380
    ensures Extend(0x00000018, 0x00000000, 0x00000000, 0x00000000) == 0x000f0000
    ensures Extend(0x61626380, 0x00000000, 0x00000000, 0x00000000) == 0x7da86405
    ensures Extend(0x000f0000, 0x00000000, 0x00000000, 0x00000000) == 0x600003c6
    ensures Extend(0x7da86405, 0x00000000, 0x00000000, 0x00000000) == 0x3e9d7b78
    ensures Extend(0x600003c6, 0x00000000, 0x00000000, 0x00000000) == 0x0183fc00
    ensures Extend(0x3e9d7b78, 0x00000018, 0x00000000, 0x00000000) == 0x12dcbfdb
    ensures Extend(0x0183fc00, 0x61626380, 0x00000000, 0x00000000) == 0xe2e2c38e
  {
  }

  lemma Words2(b: seq<byte>)
    requires b == Block()
    ensures W(b, 24) == 0xc8215c1a && W(b, 25) == 0xb73679a2
    ensures W(b, 26) == 0xe5bc3909 && W(b, 27) == 0x32663c5b
    ensures W(b, 28) == 0x9d209d67 && W(b, 29) == 0xec8726cb
    ensures W(b, 30) == 0x702138a4 && W(b, 31) == 0xd3b7973b
  {
    hide W, Block, Extend;
    Words0(b);
    Words1(b);
    WStep(b, 24);
    WStep(b, 25);
    WStep(b, 26);
    WStep(b, 27);
    WStep(b, 28);
    WStep(b, 29);
    WStep(b, 30);
    WStep(b, 31);
    Extended2();
  }

  lemma Extended2()
    ensures Extend(0x12dcbfdb, 0x000f0000, 0x00000000, 0x00000000) == 0xc8215c1a
    ensures Extend(0xe2e2c38e, 0x7da86405, 0x00000000, 0x00000000) == 0xb73679a2
    ensures Extend(0xc8215c1a, 0x600003c6, 0x00000000, 0x00000000) == 0xe5bc3909
    ensures Extend(0xb73679a2, 0x3e9d7b78, 0x00000000, 0x00000000) == 0x32663c5b
    ensures Extend(0xe5bc3909, 0x0183fc00, 0x00000000, 0x00000000) == 0x9d209d67
    ensures Extend(0x32663c5b, 0x12dcbfdb, 0x00000000, 0x00000000) == 0xec8726cb
    ensures Extend(0x9d209d67, 0xe2e2c38e, 0x00000018, 0x00000000) == 0x702138a4
    ensures Extend(0xec8726cb, 0xc8215c1a, 0x61626380, 0x00000018) == 0xd3b7973b
  {
  }

  lemma Words3(b: seq<byte>)
    requires b == Block()
    ensures W(b, 32) == 0x93f5997f && W(b, 33) == 0x3b68ba73
    ensures W(b, 34) == 0xaff4ffc1 && W(b, 35) == 0xf10a5c62
    ensures W(b, 36) == 0x0a8b3996 && W(b, 37) == 0x72af830a
    ensures W(b, 38) == 0x9409e33e && W(b, 39) == 0x24641522
  {
    hide W, Block, Extend;
    Words1(b);
    Words2(b);
    WStep(b, 32);
    WStep(b, 33);
    WStep(b, 34);
    WStep(b, 35);
    WStep(b, 36);
    WStep(b, 37);
    WStep(b, 38);
    WStep(b, 39);
    Extended3();
  }

  lemma Extended3()
    ensures Extend(0x702138a4, 0xb73679a2, 0x000f0000, 0x61626380) == 0x93f5997f
    ensures Extend(0xd3b7973b, 0xe5bc3909, 0x7da86405, 0x000f0000) == 0x3b68ba73
    ensures Extend(0x93f5997f, 0x32663c5b, 0x600003c6, 0x7da86405) == 0xaff4ffc1
    ensures Extend(0x3b68ba73, 0x9d209d67, 0x3e9d7b78, 0x600003c6) == 0xf10a5c62
    ensures Extend(0xaff4ffc1, 0xec8726cb, 0x0183fc00, 0x3e9d7b78) == 0x0a8b3996
    ensures Extend(0xf10a5c62, 0x702138a4, 0x12dcbfdb, 0x0183fc00) == 0x72af830a
    ensures Extend(0x0a8b3996, 0xd3b7973b, 0xe2e2c38e, 0x12dcbfdb) == 0x9409e33e
    ensures Extend(0x72af830a, 0x93f5997f, 0xc8215c1a, 0xe2e2c38e) == 0x24641522
  {
  }

  lemma Words4(b: seq<byte>)
    requires b == Block()
    ensures W(b, 40) == 0x9f47bf94 && W(b, 41) == 0xf0a64f5a
    ensures W(b, 42) == 0x3e246a79 && W(b, 43) == 0x27333ba3
    ensures W(b, 44) == 0x0c4763f2 && W(b, 45) == 0x840abf27
    ensures W(b, 46) == 0x7a290d5d && W(b, 47) == 0x065c43da
  {
    hide W, Block, Extend;
    Words2(b);
    Words3(b);
    WStep(b, 40);
    WStep(b, 41);
    WStep(b, 42);
    WStep(b, 43);
    WStep(b, 44);
    WStep(b, 45);
    WStep(b, 46);
    WStep(b, 47);
    Extended4();
  }

  lemma Extended4()
    ensures Extend(0x9409e33e, 0x3b68ba73, 0xb73679a2, 0xc8215c1a) == 0x9f47bf94
    ensures Extend(0x24641522, 0xaff4ffc1, 0xe5bc3909, 0xb73679a2) == 0xf0a64f5a
    ensures Extend(0x9f47bf94, 0xf10a5c62, 0x32663c5b, 0xe5bc3909) == 0x3e246a79
    ensures Extend(0xf0a64f5a, 0x0a8b3996, 0x9d209d67, 0x32663c5b) == 0x27333ba3
    ensures Extend(0x3e246a79, 0x72af830a, 0xec8726cb, 0x9d209d67) == 0x0c4763f2
    ensures Extend(0x27333ba3, 0x9409e33e, 0x702138a4, 0xec8726cb) == 0x840abf27
    ensures Extend(0x0c4763f2, 0x24641522, 0xd3b7973b, 0x702138a4) == 0x7a290d5d
    ensures Extend(0x840abf27, 0x9f47bf94, 0x93f5997f, 0xd3b7973b) == 0x065c43da
  {
  }

  lemma Words5(b: seq<byte>)
    requires b == Block()
    ensures W(b, 48) == 0xfb3e89cb && W(b, 49) == 0xcc7617db
    ensures W(b, 50) == 0xb9e66c34 && W(b, 51) == 0xa9993667
    ensures W(b, 52) == 0x84badedd && W(b, 53) == 0xc21462bc
    ensures W(b, 54) == 0x1487472c && W(b, 55) == 0xb20f7a99
  {
    hide W, Block, Extend;
    Words3(b);
    Words4(b);
    WStep(b, 48);
    WStep(b, 49);
    WStep(b, 50);
    WStep(b, 51);
    WStep(b, 52);
    WStep(b, 53);
    WStep(b, 54);
    WStep(b, 55);
    Extended5();
  }

  lemma Extended5()
    ensures Extend(0x7a290d5d, 0xf0a64f5a, 0x3b68ba73, 0x93f5997f) == 0xfb3e89cb
    ensures Extend(0x065c43da, 0x3e246a79, 0xaff4ffc1, 0x3b68ba73) == 0xcc7617db
    ensures Extend(0xfb3e89cb, 0x27333ba3, 0xf10a5c62, 0xaff4ffc1) == 0xb9e66c34
    ensures Extend(0xcc7617db, 0x0c4763f2, 0x0a8b3996, 0xf10a5c62) == 0xa9993667
    ensures Extend(0xb9e66c34, 0x840abf27, 0x72af830a, 0x0a8b3996) == 0x84badedd
    ensures Extend(0xa9993667, 0x7a290d5d, 0x9409e33e, 0x72af830a) == 0xc21462bc
    ensures Extend(0x84badedd, 0x065c43da, 0x24641522, 0x9409e33e) == 0x1487472c
    ensures Extend(0xc21462bc, 0xfb3e89cb, 0x9f47bf94, 0x24641522) == 0xb20f7a99
  {
  }

  lemma Words6(b: seq<byte>)
    requires b == Block()
    ensures W(b, 56) == 0xef57b9cd && W(b, 57) == 0xebe6b238
    ensures W(b, 58) == 0x9fe3095e && W(b, 59) == 0x78bc8d4b
    ensures W(b, 60) == 0xa43fcf15 && W(b, 61) == 0x668b2ff8
    ensures W(b, 62) == 0xeeaba2cc && W(b, 63) == 0x12b1edeb
  {
    hide W, Block, Extend;
    Words4(b);
    Words5(b);
    WStep(b, 56);
    WStep(b, 57);
    WStep(b, 58);
    WStep(b, 59);
    WStep(b, 60);
    WStep(b, 61);
    WStep(b, 62);
    WStep(b, 63);
    Extended6();
  }

  lemma Extended6()
    ensures Extend(0x1487472c, 0xcc7617db, 0xf0a64f5a, 0x9f47bf94) == 0xef57b9cd
    ensures Extend(0xb20f7a99, 0xb9e66c34, 0x3e246a79, 0xf0a64f5a) == 0xebe6b238
    ensures Extend(0xef57b9cd, 0xa9993667, 0x27333ba3, 0x3e246a79) == 0x9fe3095e
    ensures Extend(0xebe6b238, 0x84badedd, 0x0c4763f2, 0x27333ba3) == 0x78bc8d4b
    ensures Extend(0x9fe3095e, 0xc21462bc, 0x840abf27, 0x0c4763f2) == 0xa43fcf15
    ensures Extend(0x78bc8d4b, 0x1487472c, 0x7a290d5d, 0x840abf27) == 0x668b2ff8
    ensures Extend(0xa43fcf15, 0xb20f7a99, 0x065c43da, 0x7a290d5d) == 0xeeaba2cc
    ensures Extend(0x668b2ff8, 0xef57b9cd, 0xfb3e89cb, 0x065c43da) == 0x12b1edeb
  {
  }

  // ----- the rounds -----

  lemma RoundStep(v: Working, b: seq<byte>, t: nat)
    requires |b| == BLOCK_SIZE && t < 64
    ensures Rounds(v, b, t + 1) == Round(Rounds(v, b, t), K(t), W(b, t))
  {
    hide Round, K, W;
  }

  lemma RoundsBegin(b: seq<byte>)
    requires |b| == BLOCK_SIZE
    ensures Rounds(Load(H0()), b, 0) == Load(H0())
  {
  }

  lemma Rounds0(v: Working, b: seq<byte>)
    requires b == Block() && v == Load(H0())
    ensures Rounds(v, b, 4)
         == Working(0xd550f666, 0xc8c347a7, 0x5a6ad9ad, 0x5d6aebcd, 0x24e00850, 0xf92939eb, 0x78ce7989, 0xfa2a4622)
  {
    hide Rounds, Round, K, W, Block;
    RoundsBegin(b);
    Words0(b);
    Constants0();
    Round0();
    RoundStep(v, b, 0);
    RoundStep(v, b, 1);
    RoundStep(v, b, 2);
    RoundStep(v, b, 3);
  }

  lemma Constants0()
    ensures K(0) == 0x428a2f98 && K(1) == 0x71374491
    ensures K(2) == 0xb5c0fbcf && K(3) == 0xe9b5dba5
  {
  }

  lemma Round0()
    ensures Round(Working(0x6a09e667, 0xbb67ae85, 0x3c6ef372, 0xa54ff53a, 0x510e527f, 0x9b05688c, 0x1f83d9ab, 0x5be0cd19),
                  0x428a2f98, 0x61626380)
         == Working(0x5d6aebcd, 0x6a09e667, 0xbb67ae85, 0x3c6ef372, 0xfa2a4622, 0x510e527f, 0x9b05688c, 0x1f83d9ab)
    ensures Round(Working(0x5d6aebcd, 0x6a09e667, 0xbb67ae85, 0x3c6ef372, 0xfa2a4622, 0x510e527f, 0x9b05688c, 0x1f83d9ab),
                  0x71374491, 0x00000000)
         == Working(0x5a6ad9ad, 0x5d6aebcd, 0x6a09e667, 0xbb67ae85, 0x78ce7989, 0xfa2a4622, 0x510e527f, 0x9b05688c)
    ensures Round(Working(0x5a6ad9ad, 0x5d6aebcd, 0x6a09e667, 0xbb67ae85, 0x78ce7989, 0xfa2a4622, 0x510e527f, 0x9b05688c),
                  0xb5c0fbcf, 0x00000000)
         == Working(0xc8c347a7, 0x5a6ad9ad, 0x5d6aebcd, 0x6a09e667, 0xf92939eb, 0x78ce7989, 0xfa2a4622, 0x510e527f)
    ensures Round(Working(0xc8c347a7, 0x5a6ad9ad, 0x5d6aebcd, 0x6a09e667, 0xf92939eb, 0x78ce7989, 0xfa2a4622, 0x510e527f),
                  0xe9b5dba5, 0x00000000)
         == Working(0xd550f666, 0xc8c347a7, 0x5a6ad9ad, 0x5d6aebcd, 0x24e00850, 0xf92939eb, 0x78ce7989, 0xfa2a4622)
  {
  }

  lemma Rounds1(v: Working, b: seq<byte>)
    requires b == Block() && v == Load(H0())
    ensures Rounds(v, b, 8)
         == Working(0x85a07b5f, 0xe5030380, 0x2b4209f5, 0x04409a6a, 0x0c657a79, 0x9b27a401, 0x714260ad, 0x43ada245)
  {
    hide Rounds, Round, K, W, Block;
    Rounds0(v, b);
    Words0(b);
    Constants1();
    Round1();
    RoundStep(v, b, 4);
    RoundStep(v, b, 5);
    RoundStep(v, b, 6);
    RoundStep(v, b, 7);
  }

  lemma Constants1()
    ensures K(4) == 0x3956c25b && K(5) == 0x59f111f1
    ensures K(6) == 0x923f82a4 && K(7) == 0xab1c5ed5
  {
  }

  lemma Round1()
    ensures Round(Working(0xd550f666, 0xc8c347a7, 0x5a6ad9ad, 0x5d6aebcd, 0x24e00850, 0xf92939eb, 0x78ce7989, 0xfa2a4622),
                  0x3956c25b, 0x00000000)
         == Working(0x04409a6a, 0xd550f666, 0xc8c347a7, 0x5a6ad9ad, 0x43ada245, 0x24e00850, 0xf92939eb, 0x78ce7989)
    ensures Round(Working(0x04409a6a, 0xd550f666, 0xc8c347a7, 0x5a6ad9ad, 0x43ada245, 0x24e00850, 0xf92939eb, 0x78ce7989),
                  0x59f111f1, 0x00000000)
         == Working(0x2b4209f5, 0x04409a6a, 0xd550f666, 0xc8c347a7, 0x714260ad, 0x43ada245, 0x24e00850, 0xf92939eb)
    ensures Round(Working(0x2b4209f5, 0x04409a6a, 0xd550f666, 0xc8c347a7, 0x714260ad, 0x43ada245, 0x24e00850, 0xf92939eb),
                  0x923f82a4, 0x00000000)
         == Working(0xe5030380, 0x2b4209f5, 0x04409a6a, 0xd550f666, 0x9b27a401, 0x714260ad, 0x43ada245, 0x24e00850)
    ensures Round(Working(0xe5030380, 0x2b4209f5, 0x04409a6a, 0xd550f666, 0x9b27a401, 0x714260ad, 0x43ada245, 0x24e00850),
                  0xab1c5ed5, 0x00000000)
         == Working(0x85a07b5f, 0xe5030380, 0x2b4209f5, 0x04409a6a, 0x0c657a79, 0x9b27a401, 0x714260ad, 0x43ada245)
  {
  }

  lemma Rounds2(v: Working, b: seq<byte>)
    requires b == Block() && v == Load(H0())
    ensures Rounds(v, b, 12)
         == Working(0xf71fc5a9, 0x4798a3f4, 0x8c87346b, 0x8e04ecb9, 0x816fd6e9, 0x436b23e8, 0x1cc92596, 0x32ca2d8c)
  {
    hide Rounds, Round, K, W, Block;
    Rounds1(v, b);
    Words0(b);
    Constants2();
    Round2();
    RoundStep(v, b, 8);
    RoundStep(v, b, 9);
    RoundStep(v, b, 10);
    RoundStep(v, b, 11);
  }

  lemma Constants2()
    ensures K(8) == 0xd807aa98 && K(9) == 0x12835b01
    ensures K(10) == 0x243185be && K(11) == 0x550c7dc3
  {
  }

  lemma Round2()
    ensures Round(Working(0x85a07b5f, 0xe5030380, 0x2b4209f5, 0x04409a6a, 0x0c657a79, 0x9b27a401, 0x714260ad, 0x43ada245),
                  0xd807aa98, 0x00000000)
         == Working(0x8e04ecb9, 0x85a07b5f, 0xe5030380, 0x2b4209f5, 0x32ca2d8c, 0x0c657a79, 0x9b27a401, 0x714260ad)
    ensures Round(Working(0x8e04ecb9, 0x85a07b5f, 0xe5030380, 0x2b4209f5, 0x32ca2d8c, 0x0c657a79, 0x9b27a401, 0x714260ad),
                  0x12835b01, 0x00000000)
         == Working(0x8c87346b, 0x8e04ecb9, 0x85a07b5f, 0xe5030380, 0x1cc92596, 0x32ca2d8c, 0x0c657a79, 0x9b27a401)
    ensures Round(Working(0x8c87346b, 0x8e04ecb9, 0x85a07b5f, 0xe5030380, 0x1cc92596, 0x32ca2d8c, 0x0c657a79, 0x9b27a401),
                  0x243185be, 0x00000000)
         == Working(0x4798a3f4, 0x8c87346b, 0x8e04ecb9, 0x85a07b5f, 0x436b23e8, 0x1cc92596, 0x32ca2d8c, 0x0c657a79)
    ensures Round(Working(0x4798a3f4, 0x8c87346b, 0x8e04ecb9, 0x85a07b5f, 0x436b23e8, 0x1cc92596, 0x32ca2d8c, 0x0c657a79),
                  0x550c7dc3, 0x00000000)
         == Working(0xf71fc5a9, 0x4798a3f4, 0x8c87346b, 0x8e04ecb9, 0x816fd6e9, 0x436b23e8, 0x1cc92596, 0x32ca2d8c)
  {
  }

  lemma Rounds3(v: Working, b: seq<byte>)
    requires b == Block() && v == Load(H0())
    ensures Rounds(v, b, 16)
         == Working(0xb0fa238e, 0xc0645fde, 0xd932eb16, 0x87912990, 0x07590dcd, 0x0b92f20c, 0x745a48de, 0x1e578218)
  {
    hide Rounds, Round, K, W, Block;
    Rounds2(v, b);
    Words0(b);
    Constants3();
    Round3();
    RoundStep(v, b, 12);
    RoundStep(v, b, 13);
    RoundStep(v, b, 14);
    RoundStep(v, b, 15);
  }

  lemma Constants3()
    ensures K(12) == 0x72be5d74 && K(13) == 0x80deb1fe
    ensures K(14) == 0x9bdc06a7 && K(15) == 0xc19bf174
  {
  }

  lemma Round3()
    ensures Round(Working(0xf71fc5a9, 0x4798a3f4, 0x8c87346b, 0x8e04ecb9, 0x816fd6e9, 0x436b23e8, 0x1cc92596, 0x32ca2d8c),
                  0x72be5d74, 0x00000000)
         == Working(0x87912990, 0xf71fc5a9, 0x4798a3f4, 0x8c87346b, 0x1e578218, 0x816fd6e9, 0x436b23e8, 0x1cc92596)
    ensures Round(Working(0x87912990, 0xf71fc5a9, 0x4798a3f4, 0x8c87346b, 0x1e578218, 0x816fd6e9, 0x436b23e8, 0x1cc92596),
                  0x80deb1fe, 0x00000000)
         == Working(0xd932eb16, 0x87912990, 0xf71fc5a9, 0x4798a3f4, 0x745a48de, 0x1e578218, 0x816fd6e9, 0x436b23e8)
    ensures Round(Working(0xd932eb16, 0x87912990, 0xf71fc5a9, 0x4798a3f4, 0x745a48de, 0x1e578218, 0x816fd6e9, 0x436b23e8),
                  0x9bdc06a7, 0x00000000)
         == Working(0xc0645fde, 0xd932eb16, 0x87912990, 0xf71fc5a9, 0x0b92f20c, 0x745a48de, 0x1e578218, 0x816fd6e9)
    ensures Round(Working(0xc0645fde, 0xd932eb16, 0x87912990, 0xf71fc5a9, 0x0b92f20c, 0x745a48de, 0x1e578218, 0x816fd6e9),
                  0xc19bf174, 0x00000018)
         == Working(0xb0fa238e, 0xc0645fde, 0xd932eb16, 0x87912990, 0x07590dcd, 0x0b92f20c, 0x745a48de, 0x1e578218)
  {
  }

  lemma Rounds4(v: Working, b: seq<byte>)
    requires b == Block() && v == Load(H0())
    ensures Rounds(v, b, 20)
         == Working(0xe1f20c33, 0xfe777bbf, 0xc2fbd9d1, 0x21da9a9b, 0xb0638179, 0xcc899961, 0x846ee454, 0x8034229c)
  {
    hide Rounds, Round, K, W, Block;
    Rounds3(v, b);
    Words1(b);
    Constants4();
    Round4();
    RoundStep(v, b, 16);
    RoundStep(v, b, 17);
    RoundStep(v, b, 18);
    RoundStep(v, b, 19);
  }

  lemma Constants4()
    ensures K(16) == 0xe49b69c1 && K(17) == 0xefbe4786
    ensures K(18) == 0x0fc19dc6 && K(19) == 0x240ca1cc
  {
  }

  lemma Round4()
    ensures Round(Working(0xb0fa238e, 0xc0645fde, 0xd932eb16, 0x87912990, 0x07590dcd, 0x0b92f20c, 0x745a48de, 0x1e578218),
                  0xe49b69c1, 0x61626380)
         == Working(0x21da9a9b, 0xb0fa238e, 0xc0645fde, 0xd932eb16, 0x8034229c, 0x07590dcd, 0x0b92f20c, 0x745a48de)
    ensures Round(Working(0x21da9a9b, 0xb0fa238e, 0xc0645fde, 0xd932eb16, 0x8034229c, 0x07590dcd, 0x0b92f20c, 0x745a48de),
                  0xefbe4786, 0x000f0000)
         == Working(0xc2fbd9d1, 0x21da9a9b, 0xb0fa238e, 0xc0645fde, 0x846ee454, 0x8034229c, 0x07590dcd, 0x0b92f20c)
    ensures Round(Working(0xc2fbd9d1, 0x21da9a9b, 0xb0fa238e, 0xc0645fde, 0x846ee454, 0x8034229c, 0x07590dcd, 0x0b92f20c),
                  0x0fc19dc6, 0x7da86405)
         == Working(0xfe777bbf, 0xc2fbd9d1, 0x21da9a9b, 0xb0fa238e, 0xcc899961, 0x846ee454, 0x8034229c, 0x07590dcd)
    ensures Round(Working(0xfe777bbf, 0xc2fbd9d1, 0x21da9a9b, 0xb0fa238e, 0xcc899961, 0x846ee454, 0x8034229c, 0x07590dcd),
                  0x240ca1cc, 0x600003c6)
         == Working(0xe1f20c33, 0xfe777bbf, 0xc2fbd9d1, 0x21da9a9b, 0xb0638179, 0xcc899961, 0x846ee454, 0x8034229c)
  {
  }

  lemma Rounds5(v: Working, b: seq<byte>)
    requires b == Block() && v == Load(H0())
    ensures Rounds(v, b, 24)
         == Working(0xc5d53d8d, 0xa7a3623f, 0xc2606d6d, 0x9dc68b63, 0xaa47c347, 0x49f5114a, 0xe1257970, 0x8ada8930)
  {
    hide Rounds, Round, K, W, Block;
    Rounds4(v, b);
    Words1(b);
    Constants5();
    Round5();
    RoundStep(v, b, 20);
    RoundStep(v, b, 21);
    RoundStep(v, b, 22);
    RoundStep(v, b, 23);
  }

  lemma Constants5()
    ensures K(20) == 0x2de92c6f && K(21) == 0x4a7484aa
    ensures K(22) == 0x5cb0a9dc && K(23) == 0x76f988da
  {
  }

  lemma Round5()
    ensures Round(Working(0xe1f20c33, 0xfe777bbf, 0xc2fbd9d1, 0x21da9a9b, 0xb0638179, 0xcc899961, 0x846ee454, 0x8034229c),
                  0x2de92c6f, 0x3e9d7b78)
         == Working(0x9dc68b63, 0xe1f20c33, 0xfe777bbf, 0xc2fbd9d1, 0x8ada8930, 0xb0638179, 0xcc899961, 0x846ee454)
    ensures Round(Working(0x9dc68b63, 0xe1f20c33, 0xfe777bbf, 0xc2fbd9d1, 0x8ada8930, 0xb0638179, 0xcc899961, 0x846ee454),
                  0x4a7484aa, 0x0183fc00)
         == Working(0xc2606d6d, 0x9dc68b63, 0xe1f20c33, 0xfe777bbf, 0xe1257970, 0x8ada8930, 0xb0638179, 0xcc899961)
    ensures Round(Working(0xc2606d6d, 0x9dc68b63, 0xe1f20c33, 0xfe777bbf, 0xe1257970, 0x8ada8930, 0xb0638179, 0xcc899961),
                  0x5cb0a9dc, 0x12dcbfdb)
         == Working(0xa7a3623f, 0xc2606d6d, 0x9dc68b63, 0xe1f20c33, 0x49f5114a, 0xe1257970, 0x8ada8930, 0xb0638179)
    ensures Round(Working(0xa7a3623f, 0xc2606d6d, 0x9dc68b63, 0xe1f20c33, 0x49f5114a, 0xe1257970, 0x8ada8930, 0xb0638179),
                  0x76f988da, 0xe2e2c38e)
         == Working(0xc5d53d8d, 0xa7a3623f, 0xc2606d6d, 0x9dc68b63, 0xaa47c347, 0x49f5114a, 0xe1257970, 0x8ada8930)
  {
  }

  lemma Rounds6(v: Working, b: seq<byte>)
    requires b == Block() && v == Load(H0())
    ensures Rounds(v, b, 28)
         == Working(0x77d37528, 0xb62ec4bc, 0xcde8037d, 0x1c2c2838, 0xedffbff8, 0xc74c6516, 0x14383d8e, 0x2823ef91)
  {
    hide Rounds, Round, K, W, Block;
    Rounds5(v, b);
    Words2(b);
    Constants6();
    Round6();
    RoundStep(v, b, 24);
    RoundStep(v, b, 25);
    RoundStep(v, b, 26);
    RoundStep(v, b, 27);
  }

  lemma Constants6()
    ensures K(24) == 0x983e5152 && K(25) == 0xa831c66d
    ensures K(26) == 0xb00327c8 && K(27) == 0xbf597fc7
  {
  }

  lemma Round6()
    ensures Round(Working(0xc5d53d8d, 0xa7a3623f, 0xc2606d6d, 0x9dc68b63, 0xaa47c347, 0x49f5114a, 0xe1257970, 0x8ada8930),
                  0x983e5152, 0xc8215c1a)
         == Working(0x1c2c2838, 0xc5d53d8d, 0xa7a3623f, 0xc2606d6d, 0x2823ef91, 0xaa47c347, 0x49f5114a, 0xe1257970)
    ensures Round(Working(0x1c2c2838, 0xc5d53d8d, 0xa7a3623f, 0xc2606d6d, 0x2823ef91, 0xaa47c347, 0x49f5114a, 0xe1257970),
                  0xa831c66d, 0xb73679a2)
         == Working(0xcde8037d, 0x1c2c2838, 0xc5d53d8d, 0xa7a3623f, 0x14383d8e, 0x2823ef91, 0xaa47c347, 0x49f5114a)
    ensures Round(Working(0xcde8037d, 0x1c2c2838, 0xc5d53d8d, 0xa7a3623f, 0x14383d8e, 0x2823ef91, 0xaa47c347, 0x49f5114a),
                  0xb00327c8, 0xe5bc3909)
         == Working(0xb62ec4bc, 0xcde8037d, 0x1c2c2838, 0xc5d53d8d, 0xc74c6516, 0x14383d8e, 0x2823ef91, 0xaa47c347)
    ensures Round(Working(0xb62ec4bc, 0xcde8037d, 0x1c2c2838, 0xc5d53d8d, 0xc74c6516, 0x14383d8e, 0x2823ef91, 0xaa47c347),
                  0xbf597fc7, 0x32663c5b)
         == Working(0x77d37528, 0xb62ec4bc, 0xcde8037d, 0x1c2c2838, 0xedffbff8, 0xc74c6516, 0x14383d8e, 0x2823ef91)
  {
  }

  lemma Rounds7(v: Working, b: seq<byte>)
    requires b == Block() && v == Load(H0())
    ensures Rounds(v, b, 32)
         == Working(0x73b33bf5, 0xea992a22, 0xa0060b30, 0x363482c9, 0xba591112, 0x0109ab3a, 0xade79437, 0x6112a3b7)
  {
    hide Rounds, Round, K, W, Block;
    Rounds6(v, b);
    Words2(b);
    Constants7();
    Round7();
    RoundStep(v, b, 28);
    RoundStep(v, b, 29);
    RoundStep(v, b, 30);
    RoundStep(v, b, 31);
  }

  lemma Constants7()
    ensures K(28) == 0xc6e00bf3 && K(29) == 0xd5a79147
    ensures K(30) == 0x06ca6351 && K(31) == 0x14292967
  {
  }

  lemma Round7()
    ensures Round(Working(0x77d37528, 0xb62ec4bc, 0xcde8037d, 0x1c2c2838, 0xedffbff8, 0xc74c6516, 0x14383d8e, 0x2823ef91),
                  0xc6e00bf3, 0x9d209d67)
         == Working(0x363482c9, 0x77d37528, 0xb62ec4bc, 0xcde8037d, 0x6112a3b7, 0xedffbff8, 0xc74c6516, 0x14383d8e)
    ensures Round(Working(0x363482c9, 0x77d37528, 0xb62ec4bc, 0xcde8037d, 0x6112a3b7, 0xedffbff8, 0xc74c6516, 0x14383d8e),
                  0xd5a79147, 0xec8726cb)
         == Working(0xa0060b30, 0x363482c9, 0x77d37528, 0xb62ec4bc, 0xade79437, 0x6112a3b7, 0xedffbff8, 0xc74c6516)
    ensures Round(Working(0xa0060b30, 0x363482c9, 0x77d37528, 0xb62ec4bc, 0xade79437, 0x6112a3b7, 0xedffbff8, 0xc74c6516),
                  0x06ca6351, 0x702138a4)
         == Working(0xea992a22, 0xa0060b30, 0x363482c9, 0x77d37528, 0x0109ab3a, 0xade79437, 0x6112a3b7, 0xedffbff8)
    ensures Round(Working(0xea992a22, 0xa0060b30, 0x363482c9, 0x77d37528, 0x0109ab3a, 0xade79437, 0x6112a3b7, 0xedffbff8),
                  0x14292967, 0xd3b7973b)
         == Working(0x73b33bf5, 0xea992a22, 0xa0060b30, 0x363482c9, 0xba591112, 0x0109ab3a, 0xade79437, 0x6112a3b7)
  {
  }

  lemma Rounds8(v: Working, b: seq<byte>)
    requires b == Block() && v == Load(H0())
    ensures Rounds(v, b, 36)
         == Working(0x65a0cfe4, 0xa9a7738c, 0xfe604df5, 0x98e12507, 0xf4b002d6, 0x085f3833, 0x59249dd3, 0x9cd9f5f6)
  {
    hide Rounds, Round, K, W, Block;
    Rounds7(v, b);
    Words3(b);
    Constants8();
    Round8();
    RoundStep(v, b, 32);
    RoundStep(v, b, 33);
    RoundStep(v, b, 34);
    RoundStep(v, b, 35);
  }

  lemma Constants8()
    ensures K(32) == 0x27b70a85 && K(33) == 0x2e1b2138
    ensures K(34) == 0x4d2c6dfc && K(35) == 0x53380d13
  {
  }

  lemma Round8()
    ensures Round(Working(0x73b33bf5, 0xea992a22, 0xa0060b30, 0x363482c9, 0xba591112, 0x0109ab3a, 0xade79437, 0x6112a3b7),
                  0x27b70a85, 0x93f5997f)
         == Working(0x98e12507, 0x73b33bf5, 0xea992a22, 0xa0060b30, 0x9cd9f5f6, 0xba591112, 0x0109ab3a, 0xade79437)
    ensures Round(Working(0x98e12507, 0x73b33bf5, 0xea992a22, 0xa0060b30, 0x9cd9f5f6, 0xba591112, 0x0109ab3a, 0xade79437),
                  0x2e1b2138, 0x3b68ba73)
         == Working(0xfe604df5, 0x98e12507, 0x73b33bf5, 0xea992a22, 0x59249dd3, 0x9cd9f5f6, 0xba591112, 0x0109ab3a)
    ensures Round(Working(0xfe604df5, 0x98e12507, 0x73b33bf5, 0xea992a22, 0x59249dd3, 0x9cd9f5f6, 0xba591112, 0x0109ab3a),
                  0x4d2c6dfc, 0xaff4ffc1)
         == Working(0xa9a7738c, 0xfe604df5, 0x98e12507, 0x73b33bf5, 0x085f3833, 0x59249dd3, 0x9cd9f5f6, 0xba591112)
    ensures Round(Working(0xa9a7738c, 0xfe604df5, 0x98e12507, 0x73b33bf5, 0x085f3833, 0x59249dd3, 0x9cd9f5f6, 0xba591112),
                  0x53380d13, 0xf10a5c62)
         == Working(0x65a0cfe4, 0xa9a7738c, 0xfe604df5, 0x98e12507, 0xf4b002d6, 0x085f3833, 0x59249dd3, 0x9cd9f5f6)
  {
  }

  lemma Rounds9(v: Working, b: seq<byte>)
    requires b == Block() && v == Load(H0())
    ensures Rounds(v, b, 40)
         == Working(0x79ea687a, 0x6dc57a8a, 0x34df1604, 0x41a65cb1, 0x1efbc0a0, 0xf0781bc8, 0xa507a53d, 0x0772a26b)
  {
    hide Rounds, Round, K, W, Block;
    Rounds8(v, b);
    Words3(b);
    Constants9();
    Round9();
    RoundStep(v, b, 36);
    RoundStep(v, b, 37);
    RoundStep(v, b, 38);
    RoundStep(v, b, 39);
  }

  lemma Constants9()
    ensures K(36) == 0x650a7354 && K(37) == 0x766a0abb
    ensures K(38) == 0x81c2c92e && K(39) == 0x92722c85
  {
  }

  lemma Round9()
    ensures Round(Working(0x65a0cfe4, 0xa9a7738c, 0xfe604df5, 0x98e12507, 0xf4b002d6, 0x085f3833, 0x59249dd3, 0x9cd9f5f6),
                  0x650a7354, 0x0a8b3996)
         == Working(0x41a65cb1, 0x65a0cfe4, 0xa9a7738c, 0xfe604df5, 0x0772a26b, 0xf4b002d6, 0x085f3833, 0x59249dd3)
    ensures Round(Working(0x41a65cb1, 0x65a0cfe4, 0xa9a7738c, 0xfe604df5, 0x0772a26b, 0xf4b002d6, 0x085f3833, 0x59249dd3),
                  0x766a0abb, 0x72af830a)
         == Working(0x34df1604, 0x41a65cb1, 0x65a0cfe4, 0xa9a7738c, 0xa507a53d, 0x0772a26b, 0xf4b002d6, 0x085f3833)
    ensures Round(Working(0x34df1604, 0x41a65cb1, 0x65a0cfe4, 0xa9a7738c, 0xa507a53d, 0x0772a26b, 0xf4b002d6, 0x085f3833),
                  0x81c2c92e, 0x9409e33e)
         == Working(0x6dc57a8a, 0x34df1604, 0x41a65cb1, 0x65a0cfe4, 0xf0781bc8, 0xa507a53d, 0x0772a26b, 0xf4b002d6)
    ensures Round(Working(0x6dc57a8a, 0x34df1604, 0x41a65cb1, 0x65a0cfe4, 0xf0781bc8, 0xa507a53d, 0x0772a26b, 0xf4b002d6),
                  0x92722c85, 0x24641522)
         == Working(0x79ea687a, 0x6dc57a8a, 0x34df1604, 0x41a65cb1, 0x1efbc0a0, 0xf0781bc8, 0xa507a53d, 0x0772a26b)
  {
  }

  lemma Rounds10(v: Working, b: seq<byte>)
    requires b == Block() && v == Load(H0())
    ensures Rounds(v, b, 44)
         == Working(0x9d4baf93, 0x17aa0dfe, 0xdf46652f, 0xd6670766, 0xfda24c2e, 0xdecd4715, 0x838b2711, 0x26352d63)
  {
    hide Rounds, Round, K, W, Block;
    Rounds9(v, b);
    Words4(b);
    Constants10();
    Round10();
    RoundStep(v, b, 40);
    RoundStep(v, b, 41);
    RoundStep(v, b, 42);
    RoundStep(v, b, 43);
  }

  lemma Constants10()
    ensures K(40) == 0xa2bfe8a1 && K(41) == 0xa81a664b
    ensures K(42) == 0xc24b8b70 && K(43) == 0xc76c51a3
  {
  }

  lemma Round10()
    ensures Round(Working(0x79ea687a, 0x6dc57a8a, 0x34df1604, 0x41a65cb1, 0x1efbc0a0, 0xf0781bc8, 0xa507a53d, 0x0772a26b),
                  0xa2bfe8a1, 0x9f47bf94)
         == Working(0xd6670766, 0x79ea687a, 0x6dc57a8a, 0x34df1604, 0x26352d63, 0x1efbc0a0, 0xf0781bc8, 0xa507a53d)
    ensures Round(Working(0xd6670766, 0x79ea687a, 0x6dc57a8a, 0x34df1604, 0x26352d63, 0x1efbc0a0, 0xf0781bc8, 0xa507a53d),
                  0xa81a664b, 0xf0a64f5a)
         == Working(0xdf46652f, 0xd6670766, 0x79ea687a, 0x6dc57a8a, 0x838b2711, 0x26352d63, 0x1efbc0a0, 0xf0781bc8)
    ensures Round(Working(0xdf46652f, 0xd6670766, 0x79ea687a, 0x6dc57a8a, 0x838b2711, 0x26352d63, 0x1efbc0a0, 0xf0781bc8),
                  0xc24b8b70, 0x3e246a79)
         == Working(0x17aa0dfe, 0xdf46652f, 0xd6670766, 0x79ea687a, 0xdecd4715, 0x838b2711, 0x26352d63, 0x1efbc0a0)
    ensures Round(Working(0x17aa0dfe, 0xdf46652f, 0xd6670766, 0x79ea687a, 0xdecd4715, 0x838b2711, 0x26352d63, 0x1efbc0a0),
                  0xc76c51a3, 0x27333ba3)
         == Working(0x9d4baf93, 0x17aa0dfe, 0xdf46652f, 0xd6670766, 0xfda24c2e, 0xdecd4715, 0x838b2711, 0x26352d63)
  {
  }

  lemma Rounds11(v: Working, b: seq<byte>)
    requires b == Block() && v == Load(H0())
    ensures Rounds(v, b, 48)
         == Working(0x4172328d, 0xa14c14b0, 0x72ab4b91, 0x26628815, 0xfecf0bc6, 0xd57b94a9, 0xb7755da1, 0xa80f11f0)
  {
    hide Rounds, Round, K, W, Block;
    Rounds10(v, b);
    Words4(b);
    Constants11();
    Round11();
    RoundStep(v, b, 44);
    RoundStep(v, b, 45);
    RoundStep(v, b, 46);
    RoundStep(v, b, 47);
  }

  lemma Constants11()
    ensures K(44) == 0xd192e819 && K(45) == 0xd6990624
    ensures K(46) == 0xf40e3585 && K(47) == 0x106aa070
  {
  }

  lemma Round11()
    ensures Round(Working(0x9d4baf93, 0x17aa0dfe, 0xdf46652f, 0xd6670766, 0xfda24c2e, 0xdecd4715, 0x838b2711, 0x26352d63),
                  0xd192e819, 0x0c4763f2)
         == Working(0x26628815, 0x9d4baf93, 0x17aa0dfe, 0xdf46652f, 0xa80f11f0, 0xfda24c2e, 0xdecd4715, 0x838b2711)
    ensures Round(Working(0x26628815, 0x9d4baf93, 0x17aa0dfe, 0xdf46652f, 0xa80f11f0, 0xfda24c2e, 0xdecd4715, 0x838b2711),
                  0xd6990624, 0x840abf27)
         == Working(0x72ab4b91, 0x26628815, 0x9d4baf93, 0x17aa0dfe, 0xb7755da1, 0xa80f11f0, 0xfda24c2e, 0xdecd4715)
    ensures Round(Working(0x72ab4b91, 0x26628815, 0x9d4baf93, 0x17aa0dfe, 0xb7755da1, 0xa80f11f0, 0xfda24c2e, 0xdecd4715),
                  0xf40e3585, 0x7a290d5d)
         == Working(0xa14c14b0, 0x72ab4b91, 0x26628815, 0x9d4baf93, 0xd57b94a9, 0xb7755da1, 0xa80f11f0, 0xfda24c2e)
    ensures Round(Working(0xa14c14b0, 0x72ab4b91, 0x26628815, 0x9d4baf93, 0xd57b94a9, 0xb7755da1, 0xa80f11f0, 0xfda24c2e),
                  0x106aa070, 0x065c43da)
         == Working(0x4172328d, 0xa14c14b0, 0x72ab4b91, 0x26628815, 0xfecf0bc6, 0xd57b94a9, 0xb7755da1, 0xa80f11f0)
  {
  }

  lemma Rounds12(v: Working, b: seq<byte>)
    requires b == Block() && v == Load(H0())
    ensures Rounds(v, b, 52)
         == Working(0x886e7a22, 0x7a0508a1, 0xf11bfaa8, 0x05757ceb, 0x49231c1e, 0x52f1ccf7, 0x6e5c390c, 0xbd714038)
  {
    hide Rounds, Round, K, W, Block;
    Rounds11(v, b);
    Words5(b);
    Constants12();
    Round12();
    RoundStep(v, b, 48);
    RoundStep(v, b, 49);
    RoundStep(v, b, 50);
    RoundStep(v, b, 51);
  }

  lemma Constants12()
    ensures K(48) == 0x19a4c116 && K(49) == 0x1e376c08
    ensures K(50) == 0x2748774c && K(51) == 0x34b0bcb5
  {
  }

  lemma Round12()
    ensures Round(Working(0x4172328d, 0xa14c14b0, 0x72ab4b91, 0x26628815, 0xfecf0bc6, 0xd57b94a9, 0xb7755da1, 0xa80f11f0),
                  0x19a4c116, 0xfb3e89cb)
         == Working(0x05757ceb, 0x4172328d, 0xa14c14b0, 0x72ab4b91, 0xbd714038, 0xfecf0bc6, 0xd57b94a9, 0xb7755da1)
    ensures Round(Working(0x05757ceb, 0x4172328d, 0xa14c14b0, 0x72ab4b91, 0xbd714038, 0xfecf0bc6, 0xd57b94a9, 0xb7755da1),
                  0x1e376c08, 0xcc7617db)
         == Working(0xf11bfaa8, 0x05757ceb, 0x4172328d, 0xa14c14b0, 0x6e5c390c, 0xbd714038, 0xfecf0bc6, 0xd57b94a9)
    ensures Round(Working(0xf11bfaa8, 0x05757ceb, 0x4172328d, 0xa14c14b0, 0x6e5c390c, 0xbd714038, 0xfecf0bc6, 0xd57b94a9),
                  0x2748774c, 0xb9e66c34)
         == Working(0x7a0508a1, 0xf11bfaa8, 0x05757ceb, 0x4172328d, 0x52f1ccf7, 0x6e5c390c, 0xbd714038, 0xfecf0bc6)
    ensures Round(Working(0x7a0508a1, 0xf11bfaa8, 0x05757ceb, 0x4172328d, 0x52f1ccf7, 0x6e5c390c, 0xbd714038, 0xfecf0bc6),
                  0x34b0bcb5, 0xa9993667)
         == Working(0x886e7a22, 0x7a0508a1, 0xf11bfaa8, 0x05757ceb, 0x49231c1e, 0x52f1ccf7, 0x6e5c390c, 0xbd714038)
  {
  }

  lemma Rounds13(v: Working, b: seq<byte>)
    requires b == Block() && v == Load(H0())
    ensures Rounds(v, b, 56)
         == Working(0x38cc9913, 0x3ec45cdb, 0xf5702fdb, 0x101fd28f, 0x54cb266b, 0xe50e1b4f, 0x9f4787c3, 0x529e7d00)
  {
    hide Rounds, Round, K, W, Block;
    Rounds12(v, b);
    Words5(b);
    Constants13();
    Round13();
    RoundStep(v, b, 52);
    RoundStep(v, b, 53);
    RoundStep(v, b, 54);
    RoundStep(v, b, 55);
  }

  lemma Constants13()
    ensures K(52) == 0x391c0cb3 && K(53) == 0x4ed8aa4a
    ensures K(54) == 0x5b9cca4f && K(55) == 0x682e6ff3
  {
  }

  lemma Round13()
    ensures Round(Working(0x886e7a22, 0x7a0508a1, 0xf11bfaa8, 0x05757ceb, 0x49231c1e, 0x52f1ccf7, 0x6e5c390c, 0xbd714038),
                  0x391c0cb3, 0x84badedd)
         == Working(0x101fd28f, 0x886e7a22, 0x7a0508a1, 0xf11bfaa8, 0x529e7d00, 0x49231c1e, 0x52f1ccf7, 0x6e5c390c)
    ensures Round(Working(0x101fd28f, 0x886e7a22, 0x7a0508a1, 0xf11bfaa8, 0x529e7d00, 0x49231c1e, 0x52f1ccf7, 0x6e5c390c),
                  0x4ed8aa4a, 0xc21462bc)
         == Working(0xf5702fdb, 0x101fd28f, 0x886e7a22, 0x7a0508a1, 0x9f4787c3, 0x529e7d00, 0x49231c1e, 0x52f1ccf7)
    ensures Round(Working(0xf5702fdb, 0x101fd28f, 0x886e7a22, 0x7a0508a1, 0x9f4787c3, 0x529e7d00, 0x49231c1e, 0x52f1ccf7),
                  0x5b9cca4f, 0x1487472c)
         == Working(0x3ec45cdb, 0xf5702fdb, 0x101fd28f, 0x886e7a22, 0xe50e1b4f, 0x9f4787c3, 0x529e7d00, 0x49231c1e)
    ensures Round(Working(0x3ec45cdb, 0xf5702fdb, 0x101fd28f, 0x886e7a22, 0xe50e1b4f, 0x9f4787c3, 0x529e7d00, 0x49231c1e),
                  0x682e6ff3, 0xb20f7a99)
         == Working(0x38cc9913, 0x3ec45cdb, 0xf5702fdb, 0x101fd28f, 0x54cb266b, 0xe50e1b4f, 0x9f4787c3, 0x529e7d00)
  {
  }

  lemma Rounds14(v: Working, b: seq<byte>)
    requires b == Block() && v == Load(H0())
    ensures Rounds(v, b, 60)
         == Working(0xb6ae8fff, 0xffb70472, 0xc062d46f, 0xfcd1887b, 0xb21bad3d, 0x6d83bfc6, 0x7e44008e, 0x9b5e906c)
  {
    hide Rounds, Round, K, W, Block;
    Rounds13(v, b);
    Words6(b);
    Constants14();
    Round14();
    RoundStep(v, b, 56);
    RoundStep(v, b, 57);
    RoundStep(v, b, 58);
    RoundStep(v, b, 59);
  }

  lemma Constants14()
    ensures K(56) == 0x748f82ee && K(57) == 0x78a5636f
    ensures K(58) == 0x84c87814 && K(59) == 0x8cc70208
  {
  }

  lemma Round14()
    ensures Round(Working(0x38cc9913, 0x3ec45cdb, 0xf5702fdb, 0x101fd28f, 0x54cb266b, 0xe50e1b4f, 0x9f4787c3, 0x529e7d00),
                  0x748f82ee, 0xef57b9cd)
         == Working(0xfcd1887b, 0x38cc9913, 0x3ec45cdb, 0xf5702fdb, 0x9b5e906c, 0x54cb266b, 0xe50e1b4f, 0x9f4787c3)
    ensures Round(Working(0xfcd1887b, 0x38cc9913, 0x3ec45cdb, 0xf5702fdb, 0x9b5e906c, 0x54cb266b, 0xe50e1b4f, 0x9f4787c3),
                  0x78a5636f, 0xebe6b238)
         == Working(0xc062d46f, 0xfcd1887b, 0x38cc9913, 0x3ec45cdb, 0x7e44008e, 0x9b5e906c, 0x54cb266b, 0xe50e1b4f)
    ensures Round(Working(0xc062d46f, 0xfcd1887b, 0x38cc9913, 0x3ec45cdb, 0x7e44008e, 0x9b5e906c, 0x54cb266b, 0xe50e1b4f),
                  0x84c87814, 0x9fe3095e)
         == Working(0xffb70472, 0xc062d46f, 0xfcd1887b, 0x38cc9913, 0x6d83bfc6, 0x7e44008e, 0x9b5e906c, 0x54cb266b)
    ensures Round(Working(0xffb70472, 0xc062d46f, 0xfcd1887b, 0x38cc9913, 0x6d83bfc6, 0x7e44008e, 0x9b5e906c, 0x54cb266b),
                  0x8cc70208, 0x78bc8d4b)
         == Working(0xb6ae8fff, 0xffb70472, 0xc062d46f, 0xfcd1887b, 0xb21bad3d, 0x6d83bfc6, 0x7e44008e, 0x9b5e906c)
  {
  }

  lemma Rounds15(v: Working, b: seq<byte>)
    requires b == Block() && v == Load(H0())
    ensures Rounds(v, b, 64)
         == Working(0x506e3058, 0xd39a2165, 0x04d24d6c, 0xb85e2ce9, 0x5ef50f24, 0xfb121210, 0x948d25b6, 0x961f4894)
  {
    hide Rounds, Round, K, W, Block;
    Rounds14(v, b);
    Words6(b);
    Constants15();
    Round15();
    RoundStep(v, b, 60);
    RoundStep(v, b, 61);
    RoundStep(v, b, 62);
    RoundStep(v, b, 63);
  }

  lemma Constants15()
    ensures K(60) == 0x90befffa && K(61) == 0xa4506ceb
    ensures K(62) == 0xbef9a3f7 && K(63) == 0xc67178f2
  {
  }

  lemma Round15()
    ensures Round(Working(0xb6ae8fff, 0xffb70472, 0xc062d46f, 0xfcd1887b, 0xb21bad3d, 0x6d83bfc6, 0x7e44008e, 0x9b5e906c),
                  0x90befffa, 0xa43fcf15)
         == Working(0xb85e2ce9, 0xb6ae8fff, 0xffb70472, 0xc062d46f, 0x961f4894, 0xb21bad3d, 0x6d83bfc6, 0x7e44008e)
    ensures Round(Working(0xb85e2ce9, 0xb6ae8fff, 0xffb70472, 0xc062d46f, 0x961f4894, 0xb21bad3d, 0x6d83bfc6, 0x7e44008e),
                  0xa4506ceb, 0x668b2ff8)
         == Working(0x04d24d6c, 0xb85e2ce9, 0xb6ae8fff, 0xffb70472, 0x948d25b6, 0x961f4894, 0xb21bad3d, 0x6d83bfc6)
    ensures Round(Working(0x04d24d6c, 0xb85e2ce9, 0xb6ae8fff, 0xffb70472, 0x948d25b6, 0x961f4894, 0xb21bad3d, 0x6d83bfc6),
                  0xbef9a3f7, 0xeeaba2cc)
         == Working(0xd39a2165, 0x04d24d6c, 0xb85e2ce9, 0xb6ae8fff, 0xfb121210, 0x948d25b6, 0x961f4894, 0xb21bad3d)
    ensures Round(Working(0xd39a2165, 0x04d24d6c, 0xb85e2ce9, 0xb6ae8fff, 0xfb121210, 0x948d25b6, 0x961f4894, 0xb21bad3d),
                  0xc67178f2, 0x12b1edeb)
         == Working(0x506e3058, 0xd39a2165, 0x04d24d6c, 0xb85e2ce9, 0x5ef50f24, 0xfb121210, 0x948d25b6, 0x961f4894)
  {
  }

  // ----- the digest -----

  lemma FinalHash()
    ensures Compress(H0(), Block()) == [0xba7816bf, 0x8f01cfea, 0x414140de, 0x5dae2223, 0xb00361a3, 0x96177a9c, 0xb410ff61, 0xf20015ad]
  {
    hide Rounds, Block;
    Rounds15(Load(H0()), Block());
  }

  /** The digest of "abc". */
  const DIGEST: seq<byte> :=
    [0xba, 0x78, 0x16, 0xbf, 0x8f, 0x01, 0xcf, 0xea,
     0x41, 0x41, 0x40, 0xde, 0x5d, 0xae, 0x22, 0x23,
     0xb0, 0x03, 0x61, 0xa3, 0x96, 0x17, 0x7a, 0x9c,
     0xb4, 0x10, 0xff, 0x61, 0xf2, 0x00, 0x15, 0xad]

  lemma DigestWords()
    ensures DigestBytes([0xba7816bf, 0x8f01cfea, 0x414140de, 0x5dae2223, 0xb00361a3, 0x96177a9c, 0xb410ff61, 0xf20015ad]) == DIGEST
  {
    hide WordBytes, DigestBytes;
    ghost var s: seq<bv32> := [0xba7816bf, 0x8f01cfea, 0x414140de, 0x5dae2223, 0xb00361a3, 0x96177a9c, 0xb410ff61, 0xf20015ad];
    DigestOf8(s);
    WordBytesOf();
  }

  lemma DigestOf8(s: seq<bv32>)
    requires |s| == 8
    ensures DigestBytes(s) == [] + WordBytes(s[0]) + WordBytes(s[1]) + WordBytes(s[2]) + WordBytes(s[3])
                            + WordBytes(s[4]) + WordBytes(s[5]) + WordBytes(s[6]) + WordBytes(s[7])
  {
    hide WordBytes, DigestBytes;
    DigestOf4(s);
    DigestPrefix(s, 4);
    DigestPrefix(s, 5);
    DigestPrefix(s, 6);
    DigestPrefix(s, 7);
    assert s[..8] == s;
  }

  lemma DigestOf4(s: seq<bv32>)
    requires |s| == 8
    ensures DigestBytes(s[..4]) == [] + WordBytes(s[0]) + WordBytes(s[1]) + WordBytes(s[2]) + WordBytes(s[3])
  {
    hide WordBytes, DigestBytes;
    assert s[..0] == [];
    DigestNothing();
    DigestPrefix(s, 0);
    DigestPrefix(s, 1);
    DigestPrefix(s, 2);
    DigestPrefix(s, 3);
  }

  lemma DigestNothing()
    ensures DigestBytes([]) == []
  {
  }

  lemma DigestPrefix(s: seq<bv32>, i: nat)
    requires i < |s|
    ensures DigestBytes(s[..i + 1]) == DigestBytes(s[..i]) + WordBytes(s[i])
  {
    hide WordBytes, DigestBytes;
    assert s[..i + 1] == s[..i] + [s[i]];
    DigestAppend(s[..i], s[i]);
  }

  lemma WordBytesOf()
    ensures WordBytes(0xba7816bf) == [0xba, 0x78, 0x16, 0xbf]
    ensures WordBytes(0x8f01cfea) == [0x8f, 0x01, 0xcf, 0xea]
    ensures WordBytes(0x414140de) == [0x41, 0x41, 0x40, 0xde]
    ensures WordBytes(0x5dae2223) == [0x5d, 0xae, 0x22, 0x23]
    ensures WordBytes(0xb00361a3) == [0xb0, 0x03, 0x61, 0xa3]
    ensures WordBytes(0x96177a9c) == [0x96, 0x17, 0x7a, 0x9c]
    ensures WordBytes(0xb410ff61) == [0xb4, 0x10, 0xff, 0x61]
    ensures WordBytes(0xf20015ad) == [0xf2, 0x00, 0x15, 0xad]
  {
  }

  /** "abc" hashes to ba7816bf 8f01cfea 414140de 5dae2223 b00361a3 96177a9c b410ff61 f20015ad. */
  lemma DigestOfAbc()
    ensures Sha256Of(Ascii("abc")) == DIGEST
  {
    hide Compress, DigestBytes, Padding, Block, Ascii, H0;
    Padded();
    FinalHash();
    DigestWords();
    HashBlocksStep(H0(), Block(), []);
    assert Block() + [] == Block();
  }
}
