/**
 The known vectors of CRC-32C. A second definition of the checksum works on 32-bit words, the
 way an implementation does; it agrees with the register of bits on every message, and it can
 be evaluated.
 */
module Vectors {
  import opened Bytes
  import opened Crc32c

  function Half(w: bv32): bv32 { w >> 1 }

  function NextByte(w: bv32): bv32 { w >> 8 }

  predicate Odd(w: bv32) { (w & 1) == 1 }

  function Sum(w: bv32, v: bv32): bv32 { w ^ v }

  /** The n low bits of a word, lowest first. */
  function WordBits(w: bv32, n: nat): (bits: seq<bool>)
    ensures |bits| == n
  {
    if n == 0 then [] else [Odd(w)] + WordBits(Half(w), n - 1)
  }

  function Word(w: bv32): Register { WordBits(w, 32) }

  function WordStep(w: bv32, bit: bool): bv32 {
    if Odd(w) != bit then Sum(Half(w), 0x82F6_3B78) else Half(w)
  }

  /** The word after the n low bits of x have been absorbed. */
  function WordByte(w: bv32, x: nat, n: nat): bv32
    decreases n
  {
    if n == 0 then w else WordByte(WordStep(w, x % 2 == 1), x / 2, n - 1)
  }

  function WordMessage(w: bv32, bs: seq<Byte>): bv32
    decreases |bs|
  {
    if bs == [] then w else WordMessage(WordByte(w, bs[0], 8), bs[1..])
  }

  /** The n low bits of a word, complemented, as a number. */
  function WordFlip(w: bv32, n: nat): nat {
    if n == 0 then 0 else (if Odd(w) then 0 else 1) + 2 * WordFlip(Half(w), n - 1)
  }

  function Shift(w: bv32, n: nat): bv32 {
    if n == 0 then w else Shift(Half(w), n - 1)
  }

  /** The n low bits of the word and of the number are the same. */
  predicate SameBits(w: bv32, x: nat, n: nat) {
    n == 0 || (Odd(w) == (x % 2 == 1) && SameBits(Half(w), x / 2, n - 1))
  }

  // ------------------------------------------------------------------ words and bits

  lemma {:induction false} BitsAgree(w: bv32, x: nat, n: nat)
    requires SameBits(w, x, n)
    ensures WordBits(w, n) == LowBits(x, n)
    decreases n
  {
    hide Half, Odd;
    if n > 0 {
      BitsAgree(Half(w), x / 2, n - 1);
    }
  }

  lemma {:induction false} SplitBits(w: bv32, m: nat, n: nat)
    ensures WordBits(w, m + n) == WordBits(w, m) + WordBits(Shift(w, m), n)
    decreases m
  {
    hide Half, Odd;
    if m > 0 {
      SplitBits(Half(w), m - 1, n);
    }
  }

  lemma EightHalves(w: bv32)
    ensures Half(Half(Half(Half(Half(Half(Half(Half(w)))))))) == NextByte(w)
  {
  }

  lemma ShiftTwo(w: bv32, n: nat)
    requires n >= 2
    ensures Shift(w, n) == Shift(Half(Half(w)), n - 2)
  {
    hide Half;
  }

  lemma ShiftByte(w: bv32, n: nat)
    requires n >= 8
    ensures Shift(w, n) == Shift(NextByte(w), n - 8)
  {
    EightHalves(w);
    hide Half, NextByte;
    var a := Half(Half(w));
    var b := Half(Half(a));
    var c := Half(Half(b));
    ShiftTwo(w, n);
    ShiftTwo(a, n - 2);
    ShiftTwo(b, n - 4);
    ShiftTwo(c, n - 6);
  }

  lemma FourBytesGone(w: bv32)
    ensures NextByte(NextByte(NextByte(NextByte(w)))) == 0
  {
  }

  lemma ShiftOut(w: bv32)
    ensures Shift(w, 32) == 0
  {
    hide Half, NextByte;
    ShiftByte(w, 32);
    ShiftByte(NextByte(w), 24);
    ShiftByte(NextByte(NextByte(w)), 16);
    ShiftByte(NextByte(NextByte(NextByte(w))), 8);
    FourBytesGone(w);
  }

  lemma SplitByte(w: bv32, n: nat)
    ensures WordBits(w, 8 + n) == WordBits(w, 8) + WordBits(NextByte(w), n)
  {
    hide Half, NextByte, WordBits;
    SplitBits(w, 8, n);
    ShiftByte(w, 8);
  }

  /** A word as its four bytes. */
  lemma WordBytes(w: bv32)
    ensures var (x, y, z) := (NextByte(w), NextByte(NextByte(w)), NextByte(NextByte(NextByte(w))));
      Word(w) == WordBits(w, 8) + (WordBits(x, 8) + (WordBits(y, 8) + (WordBits(z, 8) + [])))
  {
    hide NextByte;
    var (x, y, z) := (NextByte(w), NextByte(NextByte(w)), NextByte(NextByte(NextByte(w))));
    assert Word(w) == WordBits(w, 32);
    hide WordBits;
    SplitByte(w, 24);
    SplitByte(x, 16);
    SplitByte(y, 8);
  }

  lemma FourBytes(a: Byte, b: Byte, c: Byte, d: Byte)
    ensures Bits([a, b, c, d]) == LowBits(a, 8) + (LowBits(b, 8) + (LowBits(c, 8) + (LowBits(d, 8) + [])))
  {
    hide LowBits;
    var s := [a, b, c, d];
    assert s[1..] == [b, c, d] && [b, c, d][1..] == [c, d] && [c, d][1..] == [d] && [d][1..] == [];
    assert Bits([d]) == LowBits(d, 8) + [] && Bits([c, d]) == LowBits(c, 8) + Bits([d]);
    assert Bits([b, c, d]) == LowBits(b, 8) + Bits([c, d]);
  }

  lemma BytesAgree(w: bv32, x: bv32, y: bv32, z: bv32, a: Byte, b: Byte, c: Byte, d: Byte)
    requires x == NextByte(w) && y == NextByte(x) && z == NextByte(y)
    requires SameBits(w, a, 8) && SameBits(x, b, 8) && SameBits(y, c, 8) && SameBits(z, d, 8)
    ensures Bits([a, b, c, d]) == Word(w)
  {
    hide SameBits, LowBits, WordBits, Word, NextByte, Bits;
    WordBytes(w);
    BitsAgree(w, a, 8);
    BitsAgree(x, b, 8);
    BitsAgree(y, c, 8);
    BitsAgree(z, d, 8);
    FourBytes(a, b, c, d);
  }

  lemma PolynomialLow()
    ensures SameBits(0x82F6_3B78, 0x78, 8) && SameBits(0x82_F63B, 0x3B, 8)
  {
  }

  lemma PolynomialHigh()
    ensures SameBits(0x82F6, 0xF6, 8) && SameBits(0x82, 0x82, 8)
  {
  }

  lemma PolynomialWord()
    ensures Polynomial() == Word(0x82F6_3B78)
  {
    hide Word, Bits, SameBits;
    PolynomialLow();
    PolynomialHigh();
    BytesAgree(0x82F6_3B78, 0x82_F63B, 0x82F6, 0x82, 0x78, 0x3B, 0xF6, 0x82);
  }

  lemma OnesLow()
    ensures SameBits(0xFFFF_FFFF, 0xFF, 8) && SameBits(0xFF_FFFF, 0xFF, 8)
  {
  }

  lemma OnesHigh()
    ensures SameBits(0xFFFF, 0xFF, 8) && SameBits(0xFF, 0xFF, 8)
  {
  }

  lemma InitialWord()
    ensures Initial() == Word(0xFFFF_FFFF)
  {
    hide Word, Bits, SameBits;
    OnesLow();
    OnesHigh();
    BytesAgree(0xFFFF_FFFF, 0xFF_FFFF, 0xFFFF, 0xFF, 0xFF, 0xFF, 0xFF, 0xFF);
  }

  // ------------------------------------------------------------------ the two definitions agree

  lemma SumFacts(w: bv32, v: bv32)
    ensures Half(Sum(w, v)) == Sum(Half(w), Half(v)) && Odd(Sum(w, v)) == (Odd(w) != Odd(v))
  {
  }

  lemma {:induction false} XorBits(w: bv32, v: bv32, n: nat)
    ensures WordBits(Sum(w, v), n) == Xor(WordBits(w, n), WordBits(v, n))
    decreases n
  {
    hide Half, Sum, Odd;
    if n > 0 {
      XorBits(Half(w), Half(v), n - 1);
      SumFacts(w, v);
      var a, b := WordBits(w, n), WordBits(v, n);
      assert a[1..] == WordBits(Half(w), n - 1) && b[1..] == WordBits(Half(v), n - 1);
    }
  }

  lemma ZeroBit()
    ensures !Odd(0)
  {
  }

  lemma ShiftedWord(w: bv32)
    ensures Word(Half(w)) == Word(w)[1..] + [false] && Word(w)[0] == Odd(w)
  {
    hide Half, Odd;
    SplitBits(Half(w), 31, 1);
    ShiftOut(w);
    assert Shift(w, 32) == Shift(Half(w), 31);
    hide Shift;
    assert Word(w)[1..] == WordBits(Half(w), 31);
    ZeroBit();
    assert WordBits(0, 1) == [false];
  }

  lemma StepAgrees(w: bv32, bit: bool)
    ensures BitStep(Word(w), bit) == Word(WordStep(w, bit))
  {
    hide Half, Odd, Sum, Polynomial, WordBits;
    ShiftedWord(w);
    PolynomialWord();
    XorBits(Half(w), 0x82F6_3B78, 32);
  }

  lemma {:induction false} ByteAgrees(w: bv32, x: nat, n: nat)
    ensures Absorb(Word(w), LowBits(x, n)) == Word(WordByte(w, x, n))
    decreases n
  {
    hide BitStep, WordStep, Word;
    if n > 0 {
      var bits := LowBits(x, n);
      assert bits[0] == (x % 2 == 1) && bits[1..] == LowBits(x / 2, n - 1);
      StepAgrees(w, x % 2 == 1);
      ByteAgrees(WordStep(w, x % 2 == 1), x / 2, n - 1);
    }
  }

  lemma {:induction false} MessageAgrees(w: bv32, bs: seq<Byte>)
    ensures Absorb(Word(w), Bits(bs)) == Word(WordMessage(w, bs))
    decreases |bs|
  {
    hide BitStep, WordByte, Word, LowBits;
    if bs != [] {
      ByteAgrees(w, bs[0], 8);
      AbsorbConcat(Word(w), LowBits(bs[0], 8), Bits(bs[1..]));
      MessageAgrees(WordByte(w, bs[0], 8), bs[1..]);
    }
  }

  lemma {:induction false} FlipAgrees(w: bv32, n: nat)
    ensures Flipped(WordBits(w, n)) == WordFlip(w, n)
    decreases n
  {
    hide Half, Odd;
    if n > 0 {
      FlipAgrees(Half(w), n - 1);
      assert WordBits(w, n)[1..] == WordBits(Half(w), n - 1);
    }
  }

  lemma PackNext(a: seq<bool>, rest: seq<bool>)
    requires |a| == 8
    ensures Pack(a + rest) == [Flipped(a)] + Pack(rest)
  {
    hide Flipped;
    assert (a + rest)[..8] == a && (a + rest)[8..] == rest;
  }

  /** The checksum of any message, computed on words. */
  lemma CrcOnWords(bs: seq<Byte>, w: bv32, x: bv32, y: bv32, z: bv32)
    requires w == WordMessage(0xFFFF_FFFF, bs) && x == NextByte(w) && y == NextByte(x) && z == NextByte(y)
    ensures Crc(bs) == [WordFlip(w, 8), WordFlip(x, 8), WordFlip(y, 8), WordFlip(z, 8)]
  {
    hide Word, WordFlip, Pack, Absorb, Bits, WordMessage, WordBits, Flipped, NextByte;
    InitialWord();
    MessageAgrees(0xFFFF_FFFF, bs);
    WordBytes(w);
    FlipAgrees(w, 8);
    FlipAgrees(x, 8);
    FlipAgrees(y, 8);
    FlipAgrees(z, 8);
    PackNext(WordBits(w, 8), WordBits(x, 8) + (WordBits(y, 8) + (WordBits(z, 8) + [])));
    PackNext(WordBits(x, 8), WordBits(y, 8) + (WordBits(z, 8) + []));
    PackNext(WordBits(y, 8), WordBits(z, 8) + []);
    PackNext(WordBits(z, 8), []);
    assert Pack([]) == [];
  }

  // ------------------------------------------------------------------ the vectors

  lemma TwoBits(w: bv32, x: nat, n: nat)
    requires n >= 2
    ensures WordByte(w, x, n) == WordByte(WordByte(w, x, 2), x / 4, n - 2)
  {
    hide WordStep;
    var v := WordStep(w, x % 2 == 1);
    assert WordByte(w, x, n) == WordByte(v, x / 2, n - 1) && WordByte(w, x, 2) == WordByte(v, x / 2, 1);
    var u := WordStep(v, x / 2 % 2 == 1);
    assert WordByte(v, x / 2, n - 1) == WordByte(u, x / 2 / 2, n - 2) && WordByte(v, x / 2, 1) == WordByte(u, x / 2 / 2, 0);
  }

  /** A byte is absorbed two bits at a time. */
  lemma FourPairs(w: bv32, w1: bv32, w2: bv32, w3: bv32, w4: bv32, x: nat)
    requires WordByte(w, x, 2) == w1 && WordByte(w1, x / 4, 2) == w2
    requires WordByte(w2, x / 16, 2) == w3 && WordByte(w3, x / 64, 2) == w4
    ensures WordByte(w, x, 8) == w4
  {
    hide WordByte;
    TwoBits(w, x, 8);
    TwoBits(w1, x / 4, 6);
    TwoBits(w2, x / 16, 4);
  }

  lemma Digits1To3()
    ensures WordByte(WordByte(WordByte(0xFFFF_FFFF, 0x31, 8), 0x32, 8), 0x33, 8) == 0xEF84_D04D
  {
    FourPairs(0xFFFF_FFFF, 0xBD09_C487, 0xECCF_57E5, 0xB9C5_EE81, 0x6F0A_661C, 0x31);
    FourPairs(0x6F0A_661C, 0x9934_A2FF, 0xE5C0_0E7B, 0x3970_039E, 0x8CAA_3B9F, 0x32);
    FourPairs(0x8CAA_3B9F, 0x232A_8EE7, 0xCB47_857D, 0xB027_DA27, 0xEF84_D04D, 0x33);
  }

  lemma Digits4To6()
    ensures WordByte(WordByte(WordByte(0xEF84_D04D, 0x34, 8), 0x35, 8), 0x36, 8) == 0xBECA_8E79
  {
    FourPairs(0xEF84_D04D, 0x7A9A_29AF, 0x9C50_B113, 0x2714_2C44, 0x09C5_0B11, 0x34);
    FourPairs(0x09C5_0B11, 0x0271_42C4, 0x41E7_4D0D, 0x928F_E83B, 0xE72E_DCCA, 0x35);
    FourPairs(0xE72E_DCCA, 0x39CB_B732, 0xCDFF_CB08, 0xF0F2_D406, 0xBECA_8E79, 0x36);
  }

  lemma Digits7To9()
    ensures WordByte(WordByte(WordByte(0xBECA_8E79, 0x37, 8), 0x38, 8), 0x39, 8) == 0x1CF9_6D7C
  {
    FourPairs(0xBECA_8E79, 0xAD44_98E6, 0xE8DC_00FD, 0xB8C1_3B47, 0xEDBD_6815, 0x37);
    FourPairs(0xEDBD_6815, 0x7A14_47B9, 0xDD08_372A, 0x7639_1076, 0x9F78_7F65, 0x38);
    FourPairs(0x9F78_7F65, 0x27DE_1FD9, 0xCA7A_A132, 0x73E5_B5F0, 0x1CF9_6D7C, 0x39);
  }

  lemma WordOfDigits()
    ensures WordMessage(0xFFFF_FFFF, [0x31, 0x32, 0x33, 0x34, 0x35, 0x36, 0x37, 0x38, 0x39]) == 0x1CF9_6D7C
  {
    hide WordByte;
    Digits1To3();
    Digits4To6();
    Digits7To9();
  }

  function ZeroBytes(n: nat): (bs: seq<Byte>)
    ensures |bs| == n && forall b <- bs :: b == 0
  {
    if n == 0 then [] else [0] + ZeroBytes(n - 1)
  }

  lemma ZeroByte(w: bv32, w1: bv32, w2: bv32, w3: bv32, w4: bv32, n: nat)
    requires n > 0 && WordByte(w, 0, 2) == w1 && WordByte(w1, 0, 2) == w2
    requires WordByte(w2, 0, 2) == w3 && WordByte(w3, 0, 2) == w4
    ensures WordMessage(w, ZeroBytes(n)) == WordMessage(w4, ZeroBytes(n - 1))
  {
    hide WordByte;
    FourPairs(w, w1, w2, w3, w4, 0);
  }

  lemma Zeros32To28()
    ensures WordMessage(0xFFFF_FFFF, ZeroBytes(32)) == WordMessage(0xB798_B438, ZeroBytes(28))
  {
    hide WordMessage, ZeroBytes;
    ZeroByte(0xFFFF_FFFF, 0xFC72_D93B, 0xFC91_908A, 0xBDD2_5F5A, 0xAD82_ACAE, 32);
    ZeroByte(0xAD82_ACAE, 0xA996_9053, 0xE9E8_82D0, 0x3A7A_20B4, 0x0E9E_882D, 31);
    ZeroByte(0x0E9E_882D, 0x42DC_BFB7, 0xD33A_0929, 0x75B5_9FF6, 0x9F9B_5C85, 30);
    ZeroByte(0x9F9B_5C85, 0x669D_CA9D, 0x58DC_6F1B, 0xD5BA_3D02, 0xB798_B438, 29);
  }

  lemma Zeros28To24()
    ensures WordMessage(0xB798_B438, ZeroBytes(28)) == WordMessage(0x73D7_4D75, ZeroBytes(24))
  {
    hide WordMessage, ZeroBytes;
    ZeroByte(0xB798_B438, 0x2DE6_2D0E, 0x898F_B03B, 0xE1EE_CACA, 0xBA8D_89CA, 28);
    ZeroByte(0xBA8D_89CA, 0xAC55_590A, 0xA9E3_6D3A, 0xA88E_E036, 0xA8D5_8375, 27);
    ZeroByte(0xA8D5_8375, 0x6B4E_7D61, 0x5BA8_82E4, 0x16EA_20B9, 0x44C1_9592, 26);
    ZeroByte(0x44C1_9592, 0x93C6_5E1C, 0x24F1_9787, 0xCAB1_4325, 0x73D7_4D75, 25);
  }

  lemma Zeros24To20()
    ensures WordMessage(0x73D7_4D75, ZeroBytes(24)) == WordMessage(0xD49F_4AA2, ZeroBytes(20))
  {
    hide WordMessage, ZeroBytes;
    ZeroByte(0x73D7_4D75, 0x5D8E_CEE1, 0x5618_AE04, 0x1586_2B81, 0x441A_975C, 24);
    ZeroByte(0x441A_975C, 0x1106_A5D7, 0xC7CC_8FB1, 0x7088_3E50, 0x1C22_0F94, 23);
    ZeroByte(0x1C22_0F94, 0x0708_83E5, 0x40B9_3D45, 0x5155_52ED, 0x552E_4907, 22);
    ZeroByte(0x552E_4907, 0xD6C6_B485, 0x74CA_B09D, 0x5C49_B19B, 0xD49F_4AA2, 21);
  }

  lemma Zeros20To16()
    ensures WordMessage(0xD49F_4AA2, ZeroBytes(20)) == WordMessage(0xBD8F_6515, ZeroBytes(16))
  {
    hide WordMessage, ZeroBytes;
    ZeroByte(0xD49F_4AA2, 0xB7D1_E9D0, 0x2DF4_7A74, 0x0B7D_1E9D, 0x43A4_5A1B, 20);
    ZeroByte(0x43A4_5A1B, 0xD364_3042, 0xB62F_3768, 0x2D8B_CDDA, 0x8994_C80E, 19);
    ZeroByte(0x8994_C80E, 0xA093_097B, 0xEBA9_E49A, 0xB81C_425E, 0xACF1_2BEF, 18);
    ZeroByte(0xACF1_2BEF, 0xE8B1_6C3F, 0xF9A1_7DCB, 0xFDE5_79B6, 0xBD8F_6515, 17);
  }

  lemma Zeros16To12()
    ensures WordMessage(0xBD8F_6515, ZeroBytes(16)) == WordMessage(0x433A_A9C1, ZeroBytes(12))
  {
    hide WordMessage, ZeroBytes;
    ZeroByte(0xBD8F_6515, 0x6E18_C4F9, 0x5AFD_2C82, 0x9449_7058, 0x2512_5C16, 16);
    ZeroByte(0x2512_5C16, 0x8BB2_AC7D, 0x6397_B6A3, 0xDB68_CB6C, 0x36DA_32DB, 15);
    ZeroByte(0x36DA_32DB, 0xCE3B_AA72, 0xB178_D1E4, 0x2C5E_3479, 0x4A6C_90A2, 14);
    ZeroByte(0x4A6C_90A2, 0x906D_1F50, 0x241B_47D4, 0x0906_D1F5, 0x433A_A9C1, 13);
  }

  lemma Zeros12To8()
    ensures WordMessage(0x433A_A9C1, ZeroBytes(12)) == WordMessage(0x7B04_1311, ZeroBytes(8))
  {
    hide WordMessage, ZeroBytes;
    ZeroByte(0x433A_A9C1, 0x51B5_B7CC, 0x146D_6DF3, 0xC696_7DB8, 0x31A5_9F6E, 12);
    ZeroByte(0x31A5_9F6E, 0x8E9F_5CA3, 0xE02A_F1EC, 0x380A_BC7B, 0xCD8F_89DA, 11);
    ZeroByte(0xCD8F_89DA, 0xB195_D90E, 0xAE93_4D3B, 0xE829_F58A, 0xB8FC_461A, 10);
    ZeroByte(0xB8FC_461A, 0xACC9_2AFE, 0xA9C4_71C7, 0xE9FC_3AB5, 0x7B04_1311, 9);
  }

  lemma Zeros8To4()
    ensures WordMessage(0x7B04_1311, ZeroBytes(8)) == WordMessage(0x0836_3896, ZeroBytes(4))
  {
    hide WordMessage, ZeroBytes;
    ZeroByte(0x7B04_1311, 0x5FBA_1978, 0x17EE_865E, 0x870D_9AEF, 0xE24E_407F, 8);
    ZeroByte(0xE24E_407F, 0xFB1E_B6DB, 0xFD4A_8B72, 0xBDA4_99A4, 0x2F69_2669, 7);
    ZeroByte(0x2F69_2669, 0x4AA1_5426, 0x905E_6E71, 0x656C_8620, 0x195B_2188, 6);
    ZeroByte(0x195B_2188, 0x0656_C862, 0x8363_8960, 0x20D8_E258, 0x0836_3896, 5);
  }

  lemma Zeros4To0()
    ensures WordMessage(0x0836_3896, ZeroBytes(4)) == WordMessage(0x756E_C955, ZeroBytes(0))
  {
    hide WordMessage, ZeroBytes;
    ZeroByte(0x0836_3896, 0x80FB_B55D, 0x6145_F0EB, 0xDBDC_5AFE, 0xB401_2DC7, 4);
    ZeroByte(0xB401_2DC7, 0xEE8D_6DB5, 0x7AD8_46D1, 0x5FCD_0C08, 0x17F3_4302, 3);
    ZeroByte(0x17F3_4302, 0x870A_EBB8, 0x21C2_BAEE, 0x8A86_95C3, 0xE12C_83B4, 2);
    ZeroByte(0xE12C_83B4, 0x384B_20ED, 0x4F69_D587, 0xD057_53A5, 0x756E_C955, 1);
  }

  lemma WordOfZeros()
    ensures WordMessage(0xFFFF_FFFF, ZeroBytes(32)) == 0x756E_C955
  {
    assert WordMessage(0x756E_C955, ZeroBytes(0)) == 0x756E_C955;
    hide WordMessage, ZeroBytes;
    Zeros32To28();
    Zeros28To24();
    Zeros24To20();
    Zeros20To16();
    Zeros16To12();
    Zeros12To8();
    Zeros8To4();
    Zeros4To0();
  }

  lemma FlippedBytes()
    ensures WordFlip(0x1CF9_6D7C, 8) == 0x83 && WordFlip(0x1C_F96D, 8) == 0x92
  {
  }

  lemma FlippedBytesHigh()
    ensures WordFlip(0x1CF9, 8) == 0x06 && WordFlip(0x1C, 8) == 0xE3
  {
  }

  lemma FlippedOnes()
    ensures WordFlip(0xFFFF_FFFF, 8) == 0 && WordFlip(0xFF_FFFF, 8) == 0
  {
  }

  lemma FlippedOnesHigh()
    ensures WordFlip(0xFFFF, 8) == 0 && WordFlip(0xFF, 8) == 0
  {
  }

  lemma FlippedZeros()
    ensures WordFlip(0x756E_C955, 8) == 0xAA && WordFlip(0x756EC9, 8) == 0x36
  {
  }

  lemma FlippedZerosHigh()
    ensures WordFlip(0x756E, 8) == 0x91 && WordFlip(0x75, 8) == 0x8A
  {
  }

  lemma Trailers()
    ensures LE(0, 4) == [0, 0, 0, 0] && LE(0xE306_9283, 4) == [0x83, 0x92, 0x06, 0xE3]
  {
    assert LE(0xE306_92, 3) == [0x92, 0x06, 0xE3];
  }

  lemma ZeroTrailer()
    ensures LE(0x8A91_36AA, 4) == [0xAA, 0x36, 0x91, 0x8A]
  {
    assert LE(0x8A91_36, 3) == [0x36, 0x91, 0x8A];
  }

  lemma ZeroVector()
    ensures Crc(ZeroBytes(32)) == LE(0x8A91_36AA, 4)
  {
    ZeroTrailer();
    hide Crc, WordByte, WordFlip, LE, WordMessage, ZeroBytes;
    WordOfZeros();
    CrcOnWords(ZeroBytes(32), 0x756E_C955, 0x756EC9, 0x756E, 0x75);
    FlippedZeros();
    FlippedZerosHigh();
  }

  /** The checksum of the empty message is 0, that of the digits 1 to 9 is 0xE3069283, and that of 32 zero bytes 0x8A9136AA. */
  lemma KnownVectors()
    ensures Crc([]) == LE(0, 4)
    ensures Crc([0x31, 0x32, 0x33, 0x34, 0x35, 0x36, 0x37, 0x38, 0x39]) == LE(0xE306_9283, 4)
    ensures Crc(ZeroBytes(32)) == LE(0x8A91_36AA, 4)
  {
    hide Crc, WordByte, WordFlip, LE, ZeroBytes;
    ZeroVector();
    Trailers();
    assert WordMessage(0xFFFF_FFFF, []) == 0xFFFF_FFFF;
    CrcOnWords([], 0xFFFF_FFFF, 0xFF_FFFF, 0xFFFF, 0xFF);
    FlippedOnes();
    FlippedOnesHigh();
    WordOfDigits();
    CrcOnWords([0x31, 0x32, 0x33, 0x34, 0x35, 0x36, 0x37, 0x38, 0x39], 0x1CF9_6D7C, 0x1C_F96D, 0x1CF9, 0x1C);
    FlippedBytes();
    FlippedBytesHigh();
    hide WordMessage;
  }
}
