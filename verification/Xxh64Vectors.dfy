/**
 Published values of XXH64, which pin the arithmetic: every step of the hash is on
 the way to one of them.
 */
module Xxh64Vectors {
  import opened Common
  import opened Xxh64

  // "Nobody inspects the spammish repetition": one stripe, then a four and three ones.
  const EIGHT_1: seq<byte> := [78, 111, 98, 111, 100, 121, 32, 105]
  const EIGHT_2: seq<byte> := [110, 115, 112, 101, 99, 116, 115, 32]
  const EIGHT_3: seq<byte> := [116, 104, 101, 32, 115, 112, 97, 109]
  const EIGHT_4: seq<byte> := [109, 105, 115, 104, 32, 114, 101, 112]
  const REST: seq<byte> := [101, 116, 105, 116, 105, 111, 110]
  const PHRASE := EIGHT_1 + EIGHT_2 + EIGHT_3 + EIGHT_4 + REST

  // ----- single steps

  lemma TurnIs(x: word, n: nat, up: nat, down: nat, y: word)
    requires n < 64 && up == Pow2(n) && down == Pow2(64 - n) && y == Wrap(x * up + x / down)
    ensures RotateLeft(x, n) == y
  {
    hide Pow2;
  }

  lemma ShiftIs(x: word, n: nat, power: nat, y: word)
    requires power == Pow2(n) && y == x / power
    ensures ShiftRight(x, n) == y
  {
    hide Pow2;
  }

  lemma SmallPowers()
    ensures Pow2(1) == 2 && Pow2(3) == 8 && Pow2(4) == 16 && Pow2(7) == 128
  {
  }

  lemma ShiftPowers()
    ensures Pow2(29) == 0x2000_0000 && Pow2(33) == 0x2_0000_0000
  {
    hide Pow2;
    SmallPowers();
    Pow2Of32();
    Pow2Adds(32, 1);
    Pow2Adds(29, 3);
  }

  lemma Powers()
    ensures Pow2(11) == 0x800 && Pow2(12) == 0x1000 && Pow2(16) == 0x1_0000 && Pow2(18) == 0x4_0000 && Pow2(23) == 0x80_0000
    ensures Pow2(27) == 0x800_0000 && Pow2(31) == 0x8000_0000
  {
    SmallPowers();
    Pow2Of8();
    hide Pow2;
    Pow2Adds(8, 3);
    Pow2Adds(8, 4);
    Pow2Adds(8, 8);
    Pow2Adds(11, 7);
    Pow2Adds(16, 7);
    Pow2Adds(23, 4);
    Pow2Adds(27, 4);
  }

  /** The power that makes 2^64 with another. */
  lemma OtherPower(n: nat, up: nat, down: nat)
    requires n <= 64 && up == Pow2(n) && up * down == U64_MODULUS && 0 < up
    ensures down == Pow2(64 - n)
  {
    hide Pow2;
    Pow2Of64();
    Pow2Adds(n, 64 - n);
    SameMultiple(down, Pow2(64 - n), up);
  }

  lemma TurnBy1(x: word, y: word)
    requires y == Wrap(x * 0x2 + x / 0x8000_0000_0000_0000)
    ensures RotateLeft(x, 1) == y
  {
    SmallPowers();
    Powers();
    hide Pow2;
    OtherPower(1, 0x2, 0x8000_0000_0000_0000);
    TurnIs(x, 1, 0x2, 0x8000_0000_0000_0000, y);
  }

  lemma TurnBy7(x: word, y: word)
    requires y == Wrap(x * 0x80 + x / 0x200_0000_0000_0000)
    ensures RotateLeft(x, 7) == y
  {
    SmallPowers();
    Powers();
    hide Pow2;
    OtherPower(7, 0x80, 0x200_0000_0000_0000);
    TurnIs(x, 7, 0x80, 0x200_0000_0000_0000, y);
  }

  lemma TurnBy11(x: word, y: word)
    requires y == Wrap(x * 0x800 + x / 0x20_0000_0000_0000)
    ensures RotateLeft(x, 11) == y
  {
    SmallPowers();
    Powers();
    hide Pow2;
    OtherPower(11, 0x800, 0x20_0000_0000_0000);
    TurnIs(x, 11, 0x800, 0x20_0000_0000_0000, y);
  }

  lemma TurnBy12(x: word, y: word)
    requires y == Wrap(x * 0x1000 + x / 0x10_0000_0000_0000)
    ensures RotateLeft(x, 12) == y
  {
    SmallPowers();
    Powers();
    hide Pow2;
    OtherPower(12, 0x1000, 0x10_0000_0000_0000);
    TurnIs(x, 12, 0x1000, 0x10_0000_0000_0000, y);
  }

  lemma TurnBy18(x: word, y: word)
    requires y == Wrap(x * 0x4_0000 + x / 0x4000_0000_0000)
    ensures RotateLeft(x, 18) == y
  {
    SmallPowers();
    Powers();
    hide Pow2;
    OtherPower(18, 0x4_0000, 0x4000_0000_0000);
    TurnIs(x, 18, 0x4_0000, 0x4000_0000_0000, y);
  }

  lemma TurnBy23(x: word, y: word)
    requires y == Wrap(x * 0x80_0000 + x / 0x200_0000_0000)
    ensures RotateLeft(x, 23) == y
  {
    SmallPowers();
    Powers();
    hide Pow2;
    OtherPower(23, 0x80_0000, 0x200_0000_0000);
    TurnIs(x, 23, 0x80_0000, 0x200_0000_0000, y);
  }

  lemma TurnBy27(x: word, y: word)
    requires y == Wrap(x * 0x800_0000 + x / 0x20_0000_0000)
    ensures RotateLeft(x, 27) == y
  {
    SmallPowers();
    Powers();
    hide Pow2;
    OtherPower(27, 0x800_0000, 0x20_0000_0000);
    TurnIs(x, 27, 0x800_0000, 0x20_0000_0000, y);
  }

  lemma TurnBy31(x: word, y: word)
    requires y == Wrap(x * 0x8000_0000 + x / 0x2_0000_0000)
    ensures RotateLeft(x, 31) == y
  {
    SmallPowers();
    Powers();
    hide Pow2;
    OtherPower(31, 0x8000_0000, 0x2_0000_0000);
    TurnIs(x, 31, 0x8000_0000, 0x2_0000_0000, y);
  }

  lemma RoundIs(acc: word, lane: word, sum: word, turned: word, r: word)
    requires sum == Wrap(acc + lane * PRIME64_2)
    requires turned == Wrap(sum * 0x8000_0000 + sum / 0x2_0000_0000) && r == Wrap(turned * PRIME64_1)
    ensures Round(acc, lane) == r
  {
    hide RotateLeft;
    TurnBy31(sum, turned);
  }

  lemma MergeIs(acc: word, value: word, rounded: word, mixed: word, r: word)
    requires rounded == Round(0, value) && mixed == Xor(acc, rounded) && r == Wrap(mixed * PRIME64_1 + PRIME64_4)
    ensures MergeRound(acc, value) == r
  {
  }

  lemma EightIs(hash: word, eight: seq<byte>, value: word, rounded: word, mixed: word, turned: word, r: word)
    requires value == ReadLe(eight) && rounded == Round(0, value) && mixed == Xor(hash, rounded)
    requires turned == Wrap(mixed * 0x800_0000 + mixed / 0x20_0000_0000) && r == Wrap(turned * PRIME64_1 + PRIME64_4)
    ensures MixEight(hash, eight) == r
  {
    hide RotateLeft;
    TurnBy27(mixed, turned);
  }

  lemma FourIs(hash: word, four: seq<byte>, value: word, product: word, mixed: word, turned: word, r: word)
    requires value == ReadLe(four) && product == Wrap(value * PRIME64_1) && mixed == Xor(hash, product)
    requires turned == Wrap(mixed * 0x80_0000 + mixed / 0x200_0000_0000) && r == Wrap(turned * PRIME64_2 + PRIME64_3)
    ensures MixFour(hash, four) == r
  {
    hide RotateLeft;
    TurnBy23(mixed, turned);
  }

  lemma OneIs(hash: word, b: byte, product: word, mixed: word, turned: word, r: word)
    requires product == Wrap(b as int * PRIME64_5) && mixed == Xor(hash, product)
    requires turned == Wrap(mixed * 0x800 + mixed / 0x20_0000_0000_0000) && r == Wrap(turned * PRIME64_1)
    ensures MixOne(hash, b) == r
  {
    hide RotateLeft;
    TurnBy11(mixed, turned);
  }

  lemma AvalancheIs(hash: word, high: word, x: word, p: word, middle: word, y: word, q: word, low: word, r: word)
    requires high == hash / 0x2_0000_0000 && x == Xor(hash, high) && p == Wrap(x * PRIME64_2)
    requires middle == p / 0x2000_0000 && y == Xor(p, middle) && q == Wrap(y * PRIME64_3)
    requires low == q / 0x1_0000_0000 && r == Xor(q, low)
    ensures Avalanche(hash) == r
  {
    hide Pow2;
    hide ShiftRight;
    hide Xor;
    ShiftPowers();
    Pow2Of32();
    ShiftIs(hash, 33, 0x2_0000_0000, high);
    ShiftIs(p, 29, 0x2000_0000, middle);
    ShiftIs(q, 32, 0x1_0000_0000, low);
  }

  lemma LeOfEight(s: seq<byte>)
    requires |s| == 8
    ensures ReadLe(s) == Le(s)
         == s[0] as int + 0x100 * s[1] as int + 0x1_0000 * s[2] as int + 0x100_0000 * s[3] as int
            + 0x1_0000_0000 * (s[4] as int + 0x100 * s[5] as int + 0x1_0000 * s[6] as int + 0x100_0000 * s[7] as int)
  {
    hide Le;
    assert s == s[..4] + s[4..];
    LeOfBoth(s[..4], s[4..]);
    LeOfFour(s[..4]);
    LeOfFour(s[4..]);
    Ranges();
  }

  // ----- the values

  lemma OfNothingLastXors()
    ensures Xor(0x27D4_EB2F_1656_67C5, 0x0000_0000_13EA_7597) == 0x27D4_EB2F_05BC_1252
    ensures Xor(0xBEB1_3DDA_13C2_ED4E, 0x0000_0005_F589_EED0) == 0xBEB1_3DDF_E64B_039E
    ensures Xor(0xEF46_DB37_BE9E_32AE, 0x0000_0000_EF46_DB37) == 0xEF46_DB37_51D8_E999
  {
  }

  lemma OfNothingLast()
    ensures Avalanche(0x27D4_EB2F_1656_67C5) == 0xEF46_DB37_51D8_E999
  {
    hide Xor;
    OfNothingLastXors();
    AvalancheIs(0x27D4_EB2F_1656_67C5, 0x0000_0000_13EA_7597, 0x27D4_EB2F_05BC_1252, 0xBEB1_3DDA_13C2_ED4E,
                0x0000_0005_F589_EED0, 0xBEB1_3DDF_E64B_039E, 0xEF46_DB37_BE9E_32AE,
                0x0000_0000_EF46_DB37, 0xEF46_DB37_51D8_E999);
  }

  /** The published XXH64 of no bytes, seed zero. */
  lemma OfNothing()
    ensures Digest(Xxh64Mixer(0), []) == 0xEF46_DB37_51D8_E999
  {
    hide Avalanche;
    OfNothingLast();
  }

  lemma OfAOneXors()
    ensures Xor(0x27D4_EB2F_1656_67C6, 0x17AD_1CD7_76BD_51A5) == 0x3079_F7F8_60EB_3663
  {
  }

  lemma OfAOne()
    ensures MixOne(0x27D4_EB2F_1656_67C6, 97) == 0xB865_97E4_19D4_D215
  {
    hide Xor;
    OfAOneXors();
    OneIs(0x27D4_EB2F_1656_67C6, 97, 0x17AD_1CD7_76BD_51A5, 0x3079_F7F8_60EB_3663, 0xCFBF_C307_59B3_1983, 0xB865_97E4_19D4_D215);
  }

  lemma OfALastXors()
    ensures Xor(0xB865_97E4_19D4_D215, 0x0000_0000_5C32_CBF2) == 0xB865_97E4_45E6_19E7
    ensures Xor(0xD785_8A26_7015_0B49, 0x0000_0006_BC2C_5133) == 0xD785_8A20_CC39_5A7A
    ensures Xor(0xD24E_C4F1_7BC2_AAAA, 0x0000_0000_D24E_C4F1) == 0xD24E_C4F1_A98C_6E5B
  {
  }

  lemma OfALast()
    ensures Avalanche(0xB865_97E4_19D4_D215) == 0xD24E_C4F1_A98C_6E5B
  {
    hide Xor;
    OfALastXors();
    AvalancheIs(0xB865_97E4_19D4_D215, 0x0000_0000_5C32_CBF2, 0xB865_97E4_45E6_19E7, 0xD785_8A26_7015_0B49,
                0x0000_0006_BC2C_5133, 0xD785_8A20_CC39_5A7A, 0xD24E_C4F1_7BC2_AAAA,
                0x0000_0000_D24E_C4F1, 0xD24E_C4F1_A98C_6E5B);
  }

  /** The published XXH64 of "a", seed zero. */
  lemma OfA()
    ensures Digest(Xxh64Mixer(0), [97]) == 0xD24E_C4F1_A98C_6E5B
  {
    hide MixOne;
    hide Avalanche;
    OfAOne();
    OfALast();
    var s: seq<byte> := [97];
    assert s[0..] == s && s[1..] == [];
  }

  lemma OfEightLettersEightXors()
    ensures Xor(0x27D4_EB2F_1656_67CD, 0xD582_9FA7_0A0F_CC74) == 0xF256_7488_1C59_ABB9
  {
  }

  lemma OfEightLettersEight()
    ensures MixEight(0x27D4_EB2F_1656_67CD, [97, 98, 99, 100, 101, 102, 103, 104]) == 0xA119_981D_165A_D1DF
  {
    hide Xor;
    hide Le;
    hide Round;
    OfEightLettersEightXors();
    LeOfEight([97, 98, 99, 100, 101, 102, 103, 104]);
    RoundIs(0x0000_0000_0000_0000, 0x6867_6665_6463_6261, 0xC328_51D8_754E_66EF, 0x3AA7_3377_E194_28EC, 0xD582_9FA7_0A0F_CC74);
    EightIs(0x27D4_EB2F_1656_67CD, [97, 98, 99, 100, 101, 102, 103, 104], 0x6867_6665_6463_6261, 0xD582_9FA7_0A0F_CC74, 0xF256_7488_1C59_ABB9, 0x40E2_CD5D_CF92_B3A4, 0xA119_981D_165A_D1DF);
  }

  lemma OfEightLettersLastXors()
    ensures Xor(0xA119_981D_165A_D1DF, 0x0000_0000_508C_CC0E) == 0xA119_981D_46D6_1DD1
    ensures Xor(0x2A2D_41B7_F186_0E7F, 0x0000_0001_516A_0DBF) == 0x2A2D_41B6_A0EC_03C0
    ensures Xor(0x3AD3_5177_6195_65C0, 0x0000_0000_3AD3_5177) == 0x3AD3_5177_5B46_34B7
  {
  }

  lemma OfEightLettersLast()
    ensures Avalanche(0xA119_981D_165A_D1DF) == 0x3AD3_5177_5B46_34B7
  {
    hide Xor;
    OfEightLettersLastXors();
    AvalancheIs(0xA119_981D_165A_D1DF, 0x0000_0000_508C_CC0E, 0xA119_981D_46D6_1DD1, 0x2A2D_41B7_F186_0E7F,
                0x0000_0001_516A_0DBF, 0x2A2D_41B6_A0EC_03C0, 0x3AD3_5177_6195_65C0,
                0x0000_0000_3AD3_5177, 0x3AD3_5177_5B46_34B7);
  }

  /** The published XXH64 of "abcdefgh", seed zero. */
  lemma OfEightLetters()
    ensures Digest(Xxh64Mixer(0), [97, 98, 99, 100, 101, 102, 103, 104]) == 0x3AD3_5177_5B46_34B7
  {
    hide MixEight;
    hide Avalanche;
    OfEightLettersEight();
    OfEightLettersLast();
    var s: seq<byte> := [97, 98, 99, 100, 101, 102, 103, 104];
    assert s[0..] == s && s[..8] == s && s[8..] == [];
  }

  lemma PhraseLane1()
    ensures Round(0x60EA_27EE_ADC0_B5D6, ReadLe(EIGHT_1)) == 0x3724_5127_A406_7E4B
  {
    hide Le;
    hide Round;
    LeOfEight(EIGHT_1);
    RoundIs(0x60EA_27EE_ADC0_B5D6, 0x6920_7964_6F62_6F4E, 0x67DA_963B_77E5_A8E8, 0xBBF2_D474_33ED_4B1D, 0x3724_5127_A406_7E4B);
  }

  lemma PhraseLane2()
    ensures Round(0xC2B2_AE3D_27D4_EB4F, ReadLe(EIGHT_2)) == 0x1B30_2B0A_818F_92CF
  {
    hide Le;
    hide Round;
    LeOfEight(EIGHT_2);
    RoundIs(0xC2B2_AE3D_27D4_EB4F, 0x2073_7463_6570_736E, 0x81AB_3EF3_0896_8441, 0x844B_4220_C0D5_9F79, 0x1B30_2B0A_818F_92CF);
  }

  lemma PhraseLane3()
    ensures Round(0x0000_0000_0000_0000, ReadLe(EIGHT_3)) == 0xCD62_D843_D058_0FCA
  {
    hide Le;
    hide Round;
    LeOfEight(EIGHT_3);
    RoundIs(0x0000_0000_0000_0000, 0x6D61_7073_2065_6874, 0x0A62_64CC_423D_B7CC, 0x211E_DBE6_0531_3266, 0xCD62_D843_D058_0FCA);
  }

  lemma PhraseLane4()
    ensures Round(0x61C8_864E_7A14_3579, ReadLe(EIGHT_4)) == 0x1C16_E43E_F214_2A4A
  {
    hide Le;
    hide Round;
    LeOfEight(EIGHT_4);
    RoundIs(0x61C8_864E_7A14_3579, 0x7065_7220_6873_696D, 0xE08C_C7CC_90BC_CD1C, 0x485E_668E_7046_63E6, 0x1C16_E43E_F214_2A4A);
  }

  lemma PhraseLanes()
    ensures ConsumeChunk(InitialLanes(0), PHRASE[..32])
         == Lanes(0x3724_5127_A406_7E4B, 0x1B30_2B0A_818F_92CF,
                  0xCD62_D843_D058_0FCA, 0x1C16_E43E_F214_2A4A)
  {
    hide Round;
    hide ReadLe;
    PhraseLane1();
    PhraseLane2();
    PhraseLane3();
    PhraseLane4();
    var s := PHRASE[..32];
    assert s[..8] == EIGHT_1 && s[8..16] == EIGHT_2 && s[16..24] == EIGHT_3 && s[24..] == EIGHT_4;
  }

  lemma PhraseTurns()
    ensures Wrap(RotateLeft(0x3724_5127_A406_7E4B, 1) + RotateLeft(0x1B30_2B0A_818F_92CF, 7)
                 + RotateLeft(0xCD62_D843_D058_0FCA, 12) + RotateLeft(0x1C16_E43E_F214_2A4A, 18)) == 0xC4DE_2CE6_39FB_8154
  {
    hide RotateLeft;
    TurnBy1(0x3724_5127_A406_7E4B, 0x6E48_A24F_480C_FC96);
    TurnBy7(0x1B30_2B0A_818F_92CF, 0x9815_8540_C7C9_678D);
    TurnBy12(0xCD62_D843_D058_0FCA, 0x2D84_3D05_80FC_ACD6);
    TurnBy18(0x1C16_E43E_F214_2A4A, 0x90FB_C850_A928_705B);
  }

  lemma PhraseMerge1Xors()
    ensures Xor(0xC4DE_2CE6_39FB_8154, 0x7790_FF1F_7A9A_2803) == 0xB34E_D3F9_4361_A957
  {
  }

  lemma PhraseMerge1()
    ensures MergeRound(0xC4DE_2CE6_39FB_8154, 0x3724_5127_A406_7E4B) == 0x30D4_0DDD_00AE_A144
  {
    hide Xor;
    hide Round;
    PhraseMerge1Xors();
    RoundIs(0, 0x3724_5127_A406_7E4B, 0xBF0E_534A_970B_D225, 0x4B85_E912_DF87_29A5, 0x7790_FF1F_7A9A_2803);
    MergeIs(0xC4DE_2CE6_39FB_8154, 0x3724_5127_A406_7E4B, 0x7790_FF1F_7A9A_2803, 0xB34E_D3F9_4361_A957, 0x30D4_0DDD_00AE_A144);
  }

  lemma PhraseMerge2Xors()
    ensures Xor(0x30D4_0DDD_00AE_A144, 0xDECE_D6C0_BF71_6B27) == 0xEE1A_DB1D_BFDF_CA63
  {
  }

  lemma PhraseMerge2()
    ensures MergeRound(0x30D4_0DDD_00AE_A144, 0x1B30_2B0A_818F_92CF) == 0xE5A1_F095_BF49_8698
  {
    hide Xor;
    hide Round;
    PhraseMerge2Xors();
    RoundIs(0, 0x1B30_2B0A_818F_92CF, 0x40BC_C4C2_E37E_52E1, 0x71BF_2970_A05E_6261, 0xDECE_D6C0_BF71_6B27);
    MergeIs(0x30D4_0DDD_00AE_A144, 0x1B30_2B0A_818F_92CF, 0xDECE_D6C0_BF71_6B27, 0xEE1A_DB1D_BFDF_CA63, 0xE5A1_F095_BF49_8698);
  }

  lemma PhraseMerge3Xors()
    ensures Xor(0xE5A1_F095_BF49_8698, 0x7007_3EB8_0575_9BBE) == 0x95A6_CE2D_BA3C_1D26
  {
  }

  lemma PhraseMerge3()
    ensures MergeRound(0xE5A1_F095_BF49_8698, 0xCD62_D843_D058_0FCA) == 0xF9CE_E721_E748_096D
  {
    hide Xor;
    hide Round;
    PhraseMerge3Xors();
    RoundIs(0, 0xCD62_D843_D058_0FCA, 0x1917_FFA4_FAF3_4D56, 0x7D79_A6AB_0C8B_FFD2, 0x7007_3EB8_0575_9BBE);
    MergeIs(0xE5A1_F095_BF49_8698, 0xCD62_D843_D058_0FCA, 0x7007_3EB8_0575_9BBE, 0x95A6_CE2D_BA3C_1D26, 0xF9CE_E721_E748_096D);
  }

  lemma PhraseMerge4Xors()
    ensures Xor(0xF9CE_E721_E748_096D, 0xC1CB_BAE5_0E57_E4F3) == 0x3805_5DC4_E91F_ED9E
  {
  }

  lemma PhraseMerge4()
    ensures MergeRound(0xF9CE_E721_E748_096D, 0x1C16_E43E_F214_2A4A) == 0x84F2_2C42_1A11_A8B5
  {
    hide Xor;
    hide Round;
    PhraseMerge4Xors();
    RoundIs(0, 0x1C16_E43E_F214_2A4A, 0x2898_226B_8252_FAD6, 0xC129_7D6B_144C_1135, 0xC1CB_BAE5_0E57_E4F3);
    MergeIs(0xF9CE_E721_E748_096D, 0x1C16_E43E_F214_2A4A, 0xC1CB_BAE5_0E57_E4F3, 0x3805_5DC4_E91F_ED9E, 0x84F2_2C42_1A11_A8B5);
  }

  lemma PhraseMerged()
    ensures MergeLanes(Lanes(0x3724_5127_A406_7E4B, 0x1B30_2B0A_818F_92CF,
                             0xCD62_D843_D058_0FCA, 0x1C16_E43E_F214_2A4A)) == 0x84F2_2C42_1A11_A8B5
  {
    hide MergeRound;
    hide RotateLeft;
    PhraseTurns();
    PhraseMerge1();
    PhraseMerge2();
    PhraseMerge3();
    PhraseMerge4();
  }

  lemma PhraseFourXors()
    ensures Xor(0x84F2_2C42_1A11_A8DC, 0xE986_3933_EB2B_1343) == 0x6D74_1571_F13A_BB9F
  {
  }

  lemma PhraseFour()
    ensures MixFour(0x84F2_2C42_1A11_A8DC, [101, 116, 105, 116]) == 0x9FCA_0F5D_0AAA_110F
  {
    hide Xor;
    hide Le;
    PhraseFourXors();
    LeOfFour([101, 116, 105, 116]);
    FourIs(0x84F2_2C42_1A11_A8DC, [101, 116, 105, 116], 0x0000_0000_7469_7465, 0xE986_3933_EB2B_1343, 0x6D74_1571_F13A_BB9F, 0xB8F8_9D5D_CFB6_BA0A, 0x9FCA_0F5D_0AAA_110F);
  }

  lemma PhraseOne1Xors()
    ensures Xor(0x9FCA_0F5D_0AAA_110F, 0x5654_7650_2970_8FCD) == 0xC99E_790D_23DA_9EC2
  {
  }

  lemma PhraseOne1()
    ensures MixOne(0x9FCA_0F5D_0AAA_110F, 105) == 0x7696_7154_6F21_BA14
  {
    hide Xor;
    PhraseOne1Xors();
    OneIs(0x9FCA_0F5D_0AAA_110F, 105, 0x5654_7650_2970_8FCD, 0xC99E_790D_23DA_9EC2, 0xF3C8_691E_D4F6_164C, 0x7696_7154_6F21_BA14);
  }

  lemma PhraseOne2Xors()
    ensures Xor(0x7696_7154_6F21_BA14, 0x4551_F96A_AF76_FE6B) == 0x33C7_883E_C057_447F
  {
  }

  lemma PhraseOne2()
    ensures MixOne(0x7696_7154_6F21_BA14, 111) == 0xEAE9_B643_C5F9_4E52
  {
    hide Xor;
    PhraseOne2Xors();
    OneIs(0x7696_7154_6F21_BA14, 111, 0x4551_F96A_AF76_FE6B, 0x33C7_883E_C057_447F, 0x3C41_F602_BA23_F99E, 0xEAE9_B643_C5F9_4E52);
  }

  lemma PhraseOne3Xors()
    ensures Xor(0xEAE9_B643_C5F9_4E52, 0x1D7D_0E3B_9920_96A6) == 0xF794_B878_5CD9_D8F4
  {
  }

  lemma PhraseOne3()
    ensures MixOne(0xEAE9_B643_C5F9_4E52, 110) == 0x1D0A_4748_3B37_CC24
  {
    hide Xor;
    PhraseOne3Xors();
    OneIs(0xEAE9_B643_C5F9_4E52, 110, 0x1D7D_0E3B_9920_96A6, 0xF794_B878_5CD9_D8F4, 0xA5C3_C2E6_CEC7_A7BC, 0x1D0A_4748_3B37_CC24);
  }

  lemma PhraseLastXors()
    ensures Xor(0x1D0A_4748_3B37_CC24, 0x0000_0000_0E85_23A4) == 0x1D0A_4748_35B2_EF80
    ensures Xor(0x5F02_14BE_AA12_6880, 0x0000_0002_F810_A5F5) == 0x5F02_14BC_5202_CD75
    ensures Xor(0xFBCE_A83C_71F9_23CD, 0x0000_0000_FBCE_A83C) == 0xFBCE_A83C_8A37_8BF1
  {
  }

  lemma PhraseLast()
    ensures Avalanche(0x1D0A_4748_3B37_CC24) == 0xFBCE_A83C_8A37_8BF1
  {
    hide Xor;
    PhraseLastXors();
    AvalancheIs(0x1D0A_4748_3B37_CC24, 0x0000_0000_0E85_23A4, 0x1D0A_4748_35B2_EF80, 0x5F02_14BE_AA12_6880,
                0x0000_0002_F810_A5F5, 0x5F02_14BC_5202_CD75, 0xFBCE_A83C_71F9_23CD,
                0x0000_0000_FBCE_A83C, 0xFBCE_A83C_8A37_8BF1);
  }

  /** The four and the three ones behind the stripe. */
  lemma PhraseTail()
    ensures MixEights(Xxh64Mixer(0), 0x84F2_2C42_1A11_A8DC, REST) == 0x1D0A_4748_3B37_CC24
  {
    hide MixFour;
    hide MixOne;
    PhraseFour();
    PhraseOne1();
    PhraseOne2();
    PhraseOne3();
    var m, t := Xxh64Mixer(0), REST;
    assert t[..4] == [101, 116, 105, 116] && t[4..] == [105, 111, 110];
    var ones: seq<byte> := [105, 111, 110];
    assert ones[1..] == [111, 110] && ones[1..][1..] == [110] && ones[1..][1..][1..] == [];
    assert MixOnes(m, 0x1D0A_4748_3B37_CC24, []) == 0x1D0A_4748_3B37_CC24;
    assert MixOnes(m, 0xEAE9_B643_C5F9_4E52, [110]) == 0x1D0A_4748_3B37_CC24;
    assert MixOnes(m, 0x7696_7154_6F21_BA14, [111, 110]) == 0x1D0A_4748_3B37_CC24;
  }

  lemma PhraseStripe()
    ensures |PHRASE| == 39 && Stripes(Xxh64Mixer(0), PHRASE, 1) == ConsumeChunk(InitialLanes(0), PHRASE[..32])
    ensures PHRASE[32..] == REST
  {
    hide ConsumeChunk;
    hide InitialLanes;
    var m := Xxh64Mixer(0);
    assert Stripes(m, PHRASE, 0) == m.initial;
    assert PHRASE[0..32] == PHRASE[..32];
  }

  /** The published XXH64 of "Nobody inspects the spammish repetition", seed zero. */
  lemma OfPhrase()
    ensures Digest(Xxh64Mixer(0), PHRASE) == 0xFBCE_A83C_8A37_8BF1
  {
    hide ConsumeChunk;
    hide InitialLanes;
    hide MergeLanes;
    hide MixEights;
    hide Avalanche;
    hide Stripes;
    PhraseStripe();
    PhraseLanes();
    PhraseMerged();
    PhraseTail();
    PhraseLast();
  }

  /** The program's own hash: the digest of the whole under its arithmetic, however the content is cut. */
  method Xxh64OfPieces(pieces: seq<seq<byte>>, seed: word) returns (hash: word)
    ensures hash == Digest(Xxh64Mixer(seed), Concat(pieces))
    ensures seed == 0 ==>
              && (Concat(pieces) == [] ==> hash == 0xEF46_DB37_51D8_E999)
              && (Concat(pieces) == [97] ==> hash == 0xD24E_C4F1_A98C_6E5B)
              && (Concat(pieces) == [97, 98, 99, 100, 101, 102, 103, 104] ==> hash == 0x3AD3_5177_5B46_34B7)
              && (Concat(pieces) == PHRASE ==> hash == 0xFBCE_A83C_8A37_8BF1)
  {
    hide Digest;
    hide Xxh64Mixer;
    OfNothing();
    OfA();
    OfEightLetters();
    OfPhrase();
    hash := DigestOfPieces(pieces, Xxh64Mixer(seed));
  }
}
