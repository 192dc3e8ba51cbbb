/** Known answers of MD5, worked out operation by operation: they tie the definitions to what RFC 1321
    gives in its appendix, section A.5. */
module Md5Vectors {
  import opened Bits
  import opened Md5

  // ----- The building blocks -----

  /** Section 3.3: the low-order byte of each register comes first. */
  lemma InitialBytes()
    ensures Output(Initial()) == [0x01, 0x23, 0x45, 0x67, 0x89, 0xAB, 0xCD, 0xEF,
                                  0xFE, 0xDC, 0xBA, 0x98, 0x76, 0x54, 0x32, 0x10]
  {
  }

  /** F takes its bits from y where x has a one and from z where it has a zero, and G likewise by z. */
  lemma ChoiceOfOnes(x: bv32, y: bv32, z: bv32, mask: bv32)
    requires x & mask == mask
    ensures RoundFunction(0, x, y, z) & mask == y & mask
  {
  }

  lemma ChoiceOfZeros(x: bv32, y: bv32, z: bv32, mask: bv32)
    requires x & mask == 0
    ensures RoundFunction(0, x, y, z) & mask == z & mask
  {
  }

  lemma SecondIsFirstTurned(x: bv32, y: bv32, z: bv32)
    ensures RoundFunction(1, x, y, z) == RoundFunction(0, z, x, y)
  {
  }

  /** H is the parity of the three bits. */
  lemma ParityOfBits(x: bv32, y: bv32, z: bv32)
    ensures RoundFunction(2, x, y, z) ^ x ^ y ^ z == 0
  {
  }

  /** I complements y where x has a one or z a zero, and keeps it elsewhere. */
  lemma ComplementOfBits(x: bv32, y: bv32, z: bv32, mask: bv32)
    requires x & mask == mask || z & mask == 0
    ensures RoundFunction(3, x, y, z) & mask == !y & mask
  {
  }

  lemma KeptBits(x: bv32, y: bv32, z: bv32, mask: bv32)
    requires x & mask == 0 && z & mask == mask
    ensures RoundFunction(3, x, y, z) & mask == y & mask
  {
  }

  lemma WordAt(block: seq<bv8>, k: nat)
    requires |block| == 64 && k < 16
    ensures BlockWords(block)[k] == Word(block[4 * k], block[4 * k + 1], block[4 * k + 2], block[4 * k + 3])
  {
  }

  /** One operation with its intermediate values. */
  lemma Value(i: nat, a: bv32, b: bv32, c: bv32, d: bv32, x: seq<bv32>, f: bv32, sum: bv32, r: bv32)
    requires |x| == 16 && RoundFunction(i / 16, b, c, d) == f && Sum(a, f, x[WordOf(i)], Sine(i)) == sum
    requires Add32(b, Rotate(sum, RotationOf(i))) == r
    ensures Operation(i, a, b, c, d, x) == r
  {
    hide WordOf, RotationOf, Sine, RoundFunction, Rotate, Sum, Add32;
  }

  // ----- "abc" in one block -----

  /** Its words. */
  predicate AbcWords(x: seq<bv32>) {
    |x| == 16
    && x[0] == 0x80636261 && x[1] == 0x00000000 && x[2] == 0x00000000 && x[3] == 0x00000000
    && x[4] == 0x00000000 && x[5] == 0x00000000 && x[6] == 0x00000000 && x[7] == 0x00000000
    && x[8] == 0x00000000 && x[9] == 0x00000000 && x[10] == 0x00000000 && x[11] == 0x00000000
    && x[12] == 0x00000000 && x[13] == 0x00000000 && x[14] == 0x00000018 && x[15] == 0x00000000
  }

  lemma Abc1(x: seq<bv32>)
    requires AbcWords(x) && Steps(Words(0x67452301, 0xEFCDAB89, 0x98BADCFE, 0x10325476), x, 0)
             == Words(0x67452301, 0xEFCDAB89, 0x98BADCFE, 0x10325476)
    ensures Steps(Words(0x67452301, 0xEFCDAB89, 0x98BADCFE, 0x10325476), x, 16)
         == Words(0xDDA9B9A6, 0x72AFF2E0, 0xE396856B, 0xA1051895)
  {
    hide Operation, Steps, RotationOf, Sine, WordOf;
    var w := Words(0x67452301, 0xEFCDAB89, 0x98BADCFE, 0x10325476);
    FourSteps(w, x, 0);
    Parameters0();
    Value(0, 0x67452301, 0xEFCDAB89, 0x98BADCFE, 0x10325476, x, 0x98BADCFE, 0x57CE06D8, 0xD6D117B4);
    Value(1, 0x10325476, 0xD6D117B4, 0xEFCDAB89, 0x98BADCFE, x, 0xCEEBCBCA, 0xC7E5D796, 0x344A8432);
    Value(2, 0x98BADCFE, 0x344A8432, 0xD6D117B4, 0xEFCDAB89, x, 0xDFC52FB9, 0x9CA07D92, 0x2F6FBD72);
    Value(3, 0xEFCDAB89, 0x2F6FBD72, 0x344A8432, 0xD6D117B4, x, 0xF4DA86B6, 0xA666012D, 0x7AD956F2);
    FourSteps(w, x, 4);
    Parameters4();
    Value(4, 0xD6D117B4, 0x7AD956F2, 0x2F6FBD72, 0x344A8432, x, 0x2E4B9472, 0xFA98BBD5, 0xC73741EF);
    Value(5, 0x344A8432, 0xC73741EF, 0x7AD956F2, 0x2F6FBD72, x, 0x6A59FCF2, 0xE62C474E, 0x8BAC3051);
    Value(6, 0x2F6FBD72, 0x8BAC3051, 0xC73741EF, 0x7AD956F2, x, 0xF37546E3, 0xCB154A68, 0x207DC67B);
    Value(7, 0x7AD956F2, 0x207DC67B, 0x8BAC3051, 0xC73741EF, x, 0xC72E01D5, 0x3F4DEDC8, 0x928D99F6);
    FourSteps(w, x, 8);
    Parameters8();
    Value(8, 0xC73741EF, 0x928D99F6, 0x207DC67B, 0x8BAC3051, x, 0x092DA073, 0x39E57B3A, 0x854B3712);
    Value(9, 0x8BAC3051, 0x854B3712, 0x928D99F6, 0x207DC67B, x, 0xA03DD17B, 0xB72EF97B, 0x74E2F284);
    Value(10, 0x207DC67B, 0x74E2F284, 0x854B3712, 0x928D99F6, x, 0x864F3B72, 0xA6CC5D9E, 0x3020401C);
    Value(11, 0x928D99F6, 0x3020401C, 0x74E2F284, 0x854B3712, x, 0xB56B7706, 0xD155E8BA, 0x5ED49596);
    FourSteps(w, x, 12);
    Parameters12();
    Value(12, 0x854B3712, 0x5ED49596, 0x3020401C, 0x74E2F284, x, 0x30226214, 0x20FDAA48, 0xDDA9B9A6);
    Value(13, 0x74E2F284, 0xDDA9B9A6, 0x5ED49596, 0x3020401C, x, 0x7C80D19E, 0xEEFC35B5, 0xA1051895);
    Value(14, 0x3020401C, 0xA1051895, 0xDDA9B9A6, 0x5ED49596, x, 0xDFD19D86, 0xB66B2148, 0xE396856B);
    Value(15, 0x5ED49596, 0xE396856B, 0xA1051895, 0xDDA9B9A6, x, 0xBD2D3885, 0x65B5D63C, 0x72AFF2E0);
  }

  lemma Abc2(x: seq<bv32>)
    requires AbcWords(x) && Steps(Words(0x67452301, 0xEFCDAB89, 0x98BADCFE, 0x10325476), x, 16)
             == Words(0xDDA9B9A6, 0x72AFF2E0, 0xE396856B, 0xA1051895)
    ensures Steps(Words(0x67452301, 0xEFCDAB89, 0x98BADCFE, 0x10325476), x, 32)
         == Words(0x790A77FB, 0x726342D3, 0xA62884AA, 0x9F47E4F8)
  {
    hide Operation, Steps, RotationOf, Sine, WordOf;
    var w := Words(0x67452301, 0xEFCDAB89, 0x98BADCFE, 0x10325476);
    FourSteps(w, x, 16);
    Parameters16();
    Value(16, 0xDDA9B9A6, 0x72AFF2E0, 0xE396856B, 0xA1051895, x, 0x629795EA, 0x365F74F2, 0x3E9E9126);
    Value(17, 0xA1051895, 0x3E9E9126, 0x72AFF2E0, 0xE396856B, x, 0x32BFF3A2, 0x9405BF77, 0x4A1D804E);
    Value(18, 0xE396856B, 0x4A1D804E, 0x3E9E9126, 0x72AFF2E0, x, 0x4E1D8146, 0x58126102, 0xE25E1652);
    Value(19, 0x72AFF2E0, 0xE25E1652, 0x4A1D804E, 0x3E9E9126, x, 0x621F104A, 0x3EE92D35, 0xB5B204E4);
    FourSteps(w, x, 20);
    Parameters20();
    Value(20, 0x3E9E9126, 0xB5B204E4, 0xE25E1652, 0x4A1D804E, x, 0xA0521654, 0xB51FB7D7, 0x59A8FFDA);
    Value(21, 0x4A1D804E, 0x59A8FFDA, 0xB5B204E4, 0xE25E1652, x, 0x55A816F6, 0xA209AB97, 0x6D002F1E);
    Value(22, 0xE25E1652, 0x6D002F1E, 0x59A8FFDA, 0xB5B204E4, x, 0x6D08FF1E, 0x2808FBF1, 0xABFC7920);
    Value(23, 0xB5B204E4, 0xABFC7920, 0x6D002F1E, 0x59A8FFDA, x, 0x2DA87904, 0xCB2E79B0, 0x47092C07);
    FourSteps(w, x, 24);
    Parameters24();
    Value(24, 0x59A8FFDA, 0x47092C07, 0xABFC7920, 0x6D002F1E, x, 0xC7FC7C26, 0x438749E6, 0xB7F268CF);
    Value(25, 0x6D002F1E, 0xB7F268CF, 0x47092C07, 0xABFC7920, x, 0xE7F16C07, 0x1828A313, 0x09388EFF);
    Value(26, 0xABFC7920, 0x09388EFF, 0xB7F268CF, 0x47092C07, x, 0xB1FA4CCF, 0x52CBD376, 0xFE1623B1);
    Value(27, 0x47092C07, 0xFE1623B1, 0x09388EFF, 0xB7F268CF, x, 0xBE1AA6B1, 0x4A7DE7A5, 0x786ACB8F);
    FourSteps(w, x, 28);
    Parameters28();
    Value(28, 0xB7F268CF, 0x786ACB8F, 0xFE1623B1, 0x09388EFF, x, 0xFE2EAB8F, 0x6004FD63, 0x790A77FB);
    Value(29, 0x09388EFF, 0x790A77FB, 0x786ACB8F, 0xFE1623B1, x, 0x786AEBBF, 0x7E931EB6, 0x9F47E4F8);
    Value(30, 0xFE1623B1, 0x9F47E4F8, 0x790A77FB, 0x786ACB8F, x, 0x1942F4F8, 0x7EC81B82, 0xA62884AA);
    Value(31, 0x786ACB8F, 0xA62884AA, 0x9F47E4F8, 0x790A77FB, x, 0xA64D84AA, 0xABE29CC3, 0x726342D3);
  }

  lemma Abc3(x: seq<bv32>)
    requires AbcWords(x) && Steps(Words(0x67452301, 0xEFCDAB89, 0x98BADCFE, 0x10325476), x, 32)
             == Words(0x790A77FB, 0x726342D3, 0xA62884AA, 0x9F47E4F8)
    ensures Steps(Words(0x67452301, 0xEFCDAB89, 0x98BADCFE, 0x10325476), x, 48)
         == Words(0x7F2E507B, 0x7BEB9700, 0x8FAE6399, 0x99D9679D)
  {
    hide Operation, Steps, RotationOf, Sine, WordOf;
    var w := Words(0x67452301, 0xEFCDAB89, 0x98BADCFE, 0x10325476);
    FourSteps(w, x, 32);
    Parameters32();
    Value(32, 0x790A77FB, 0x726342D3, 0xA62884AA, 0x9F47E4F8, x, 0x4B0C2281, 0xC410D3BE, 0xB3707EBF);
    Value(33, 0x9F47E4F8, 0xB3707EBF, 0x726342D3, 0xA62884AA, x, 0x673BB8C6, 0x8DF5943F, 0x60127B2E);
    Value(34, 0xA62884AA, 0x60127B2E, 0xB3707EBF, 0x726342D3, x, 0xA1014742, 0xB4C72D0E, 0x8D212FF5);
    Value(35, 0x726342D3, 0x8D212FF5, 0x60127B2E, 0xB3707EBF, x, 0x5E432A64, 0xCE8BA55B, 0x3B0875C7);
    FourSteps(w, x, 36);
    Parameters36();
    Value(36, 0xB3707EBF, 0x3B0875C7, 0x8D212FF5, 0x60127B2E, x, 0xD63B211C, 0x2E6A8A1F, 0x21B117B9);
    Value(37, 0x60127B2E, 0x21B117B9, 0x3B0875C7, 0x8D212FF5, x, 0x97984D8B, 0x43899862, 0x6E7429D5);
    Value(38, 0x8D212FF5, 0x6E7429D5, 0x21B117B9, 0x3B0875C7, x, 0x74CD4BAB, 0xF8A9C700, 0x3575227E);
    Value(39, 0x3B0875C7, 0x3575227E, 0x6E7429D5, 0x21B117B9, x, 0x7AB01C12, 0x74784E49, 0x5A2F5EA5);
    FourSteps(w, x, 40);
    Parameters40();
    Value(40, 0x21B117B9, 0x5A2F5EA5, 0x3575227E, 0x6E7429D5, x, 0x012E550E, 0x4B7AEB8D, 0x11DE1779);
    Value(41, 0x6E7429D5, 0x11DE1779, 0x5A2F5EA5, 0x3575227E, x, 0x7E846BA2, 0x57FD1FD2, 0xFADCAA38);
    Value(42, 0x3575227E, 0xFADCAA38, 0x11DE1779, 0x5A2F5EA5, x, 0xB12DE3E4, 0xBB9236E7, 0x31C465CA);
    Value(43, 0x5A2F5EA5, 0x31C465CA, 0xFADCAA38, 0x11DE1779, x, 0xDAC6D88B, 0x397E5435, 0x4C6124F4);
    FourSteps(w, x, 44);
    Parameters44();
    Value(44, 0x11DE1779, 0x4C6124F4, 0x31C465CA, 0xFADCAA38, x, 0x8779EB06, 0x732CD2B8, 0x7F2E507B);
    Value(45, 0xFADCAA38, 0x7F2E507B, 0x4C6124F4, 0x31C465CA, x, 0x028B1145, 0xE4435562, 0x99D9679D);
    Value(46, 0x31C465CA, 0x99D9679D, 0x7F2E507B, 0x4C6124F4, x, 0xAA961312, 0xFBFCF5D4, 0x8FAE6399);
    Value(47, 0x4C6124F4, 0x8FAE6399, 0x99D9679D, 0x7F2E507B, x, 0x6959547F, 0x7A66CFD8, 0x7BEB9700);
  }

  lemma Abc4(x: seq<bv32>)
    requires AbcWords(x) && Steps(Words(0x67452301, 0xEFCDAB89, 0x98BADCFE, 0x10325476), x, 48)
             == Words(0x7F2E507B, 0x7BEB9700, 0x8FAE6399, 0x99D9679D)
    ensures Steps(Words(0x67452301, 0xEFCDAB89, 0x98BADCFE, 0x10325476), x, 64)
         == Words(0x310ADE8F, 0xC08226B3, 0xE484B9D8, 0x624D8CB2)
  {
    hide Operation, Steps, RotationOf, Sine, WordOf;
    var w := Words(0x67452301, 0xEFCDAB89, 0x98BADCFE, 0x10325476);
    FourSteps(w, x, 48);
    Parameters48();
    Value(48, 0x7F2E507B, 0x7BEB9700, 0x8FAE6399, 0x99D9679D, x, 0xF041FCFB, 0xE3FCD21B, 0x7B201DF8);
    Value(49, 0x99D9679D, 0x7B201DF8, 0x7BEB9700, 0x8FAE6399, x, 0x009A0AFE, 0xDD9E7232, 0xF4E8E96E);
    Value(50, 0x8FAE6399, 0xF4E8E96E, 0x7B201DF8, 0x7BEB9700, x, 0x8FDCF407, 0xCB1F7B5F, 0xB298CEFD);
    Value(51, 0x7BEB9700, 0xB298CEFD, 0xF4E8E96E, 0x7B201DF8, x, 0x42370791, 0xBAB63ECA, 0x8BF025C4);
    FourSteps(w, x, 52);
    Parameters52();
    Value(52, 0x7B201DF8, 0x8BF025C4, 0xB298CEFD, 0xF4E8E96E, x, 0x396FF928, 0x19EB70E3, 0x06CC5E8A);
    Value(53, 0xF4E8E96E, 0x06CC5E8A, 0x8BF025C4, 0xB298CEFD, x, 0xC41F5A4E, 0x4815104E, 0x5B0D97AA);
    Value(54, 0xB298CEFD, 0x5B0D97AA, 0x06CC5E8A, 0x8BF025C4, x, 0x79C38131, 0x2C4C44AB, 0x7D632DD0);
    Value(55, 0x8BF025C4, 0x7D632DD0, 0x5B0D97AA, 0x06CC5E8A, x, 0xA67E3A5F, 0xB7F2BDF4, 0x3BFA2C27);
    FourSteps(w, x, 56);
    Parameters56();
    Value(56, 0x06CC5E8A, 0x3BFA2C27, 0x7D632DD0, 0x5B0D97AA, x, 0xC29941A7, 0x390E1E80, 0x7F81CC35);
    Value(57, 0x5B0D97AA, 0x7F81CC35, 0x3BFA2C27, 0x7D632DD0, x, 0xC467F218, 0x1DA270A2, 0x094454AB);
    Value(58, 0x7D632DD0, 0x094454AB, 0x7F81CC35, 0x3BFA2C27, x, 0xB2C41BCE, 0xD3288CB2, 0x4F9DBE3F);
    Value(59, 0x3BFA2C27, 0x4F9DBE3F, 0x094454AB, 0x7F81CC35, x, 0xC6BBEB54, 0x50BE291C, 0x7327D604);
    FourSteps(w, x, 60);
    Parameters60();
    Value(60, 0x7F81CC35, 0x7327D604, 0x4F9DBE3F, 0x094454AB, x, 0xB822416B, 0x2EF78C22, 0x310ADE8F);
    Value(61, 0x094454AB, 0x310ADE8F, 0x7327D604, 0x4F9DBE3F, x, 0xC24D09CB, 0x88CC50AB, 0x624D8CB2);
    Value(62, 0x4F9DBE3F, 0x624D8CB2, 0x310ADE8F, 0x7327D604, x, 0xDFD77374, 0x5A4D046E, 0xE484B9D8);
    Value(63, 0x7327D604, 0xE484B9D8, 0x624D8CB2, 0x310ADE8F, x, 0x8CB8354A, 0xEB66DEDF, 0xC08226B3);
  }

  lemma AbcCompressed(block: seq<bv8>)
    requires |block| == 64 && AbcWords(BlockWords(block))
    ensures Compress(Words(0x67452301, 0xEFCDAB89, 0x98BADCFE, 0x10325476), block)
         == Words(0x98500190, 0xB04FD23C, 0x7D3F96D6, 0x727FE128)
  {
    hide Steps, AbcWords, BlockWords;
    var w, x := Words(0x67452301, 0xEFCDAB89, 0x98BADCFE, 0x10325476), BlockWords(block);
    FirstStep(w, x);
    Abc1(x);
    Abc2(x);
    Abc3(x);
    Abc4(x);
  }

  // ----- Eighty digits: the first block -----

  /** Its words. */
  predicate DigitsWords(x: seq<bv32>) {
    |x| == 16
    && x[0] == 0x34333231 && x[1] == 0x38373635 && x[2] == 0x32313039 && x[3] == 0x36353433
    && x[4] == 0x30393837 && x[5] == 0x34333231 && x[6] == 0x38373635 && x[7] == 0x32313039
    && x[8] == 0x36353433 && x[9] == 0x30393837 && x[10] == 0x34333231 && x[11] == 0x38373635
    && x[12] == 0x32313039 && x[13] == 0x36353433 && x[14] == 0x30393837 && x[15] == 0x34333231
  }

  lemma Digits1(x: seq<bv32>)
    requires DigitsWords(x) && Steps(Words(0x67452301, 0xEFCDAB89, 0x98BADCFE, 0x10325476), x, 0)
             == Words(0x67452301, 0xEFCDAB89, 0x98BADCFE, 0x10325476)
    ensures Steps(Words(0x67452301, 0xEFCDAB89, 0x98BADCFE, 0x10325476), x, 16)
         == Words(0x5157E49E, 0xAF506A03, 0x27E983A0, 0xFFAC907E)
  {
    hide Operation, Steps, RotationOf, Sine, WordOf;
    var w := Words(0x67452301, 0xEFCDAB89, 0x98BADCFE, 0x10325476);
    FourSteps(w, x, 0);
    Parameters0();
    Value(0, 0x67452301, 0xEFCDAB89, 0x98BADCFE, 0x10325476, x, 0x98BADCFE, 0x0B9DD6A8, 0xBEB8FF8E);
    Value(1, 0x10325476, 0xBEB8FF8E, 0xEFCDAB89, 0x98BADCFE, x, 0xAE8AABF8, 0xDFBBEDF9, 0x7D989D89);
    Value(2, 0x98BADCFE, 0x7D989D89, 0xBEB8FF8E, 0xEFCDAB89, x, 0xBEDDBF88, 0xADEA3D9A, 0xF8CDF95D);
    Value(3, 0xEFCDAB89, 0xF8CDF95D, 0x7D989D89, 0xBEB8FF8E, x, 0x7EB89F8B, 0x66794E35, 0x862797B0);
    FourSteps(w, x, 4);
    Parameters4();
    Value(4, 0xBEB8FF8E, 0x862797B0, 0xF8CDF95D, 0x7D989D89, x, 0xF99D9919, 0xDE0BE08D, 0x8C17DE9F);
    Value(5, 0x7D989D89, 0x8C17DE9F, 0x862797B0, 0xF8CDF95D, x, 0xF4CFB7D0, 0xEE234DB4, 0xC0F32D81);
    Value(6, 0xF8CDF95D, 0xC0F32D81, 0x8C17DE9F, 0x862797B0, x, 0x86179EB1, 0x5F4D1456, 0xE99FEC1B);
    Value(7, 0x862797B0, 0xE99FEC1B, 0xC0F32D81, 0x8C17DE9F, x, 0xC4933E85, 0x7A329B6F, 0xC57E78C1);
    FourSteps(w, x, 8);
    Parameters8();
    Value(8, 0x8C17DE9F, 0xC57E78C1, 0xE99FEC1B, 0xC0F32D81, x, 0xC19F6D01, 0xED6D18AB, 0x7C0ACEB7);
    Value(9, 0xC0F32D81, 0x7C0ACEB7, 0xC57E78C1, 0xE99FEC1B, x, 0xC59F6889, 0x4210C5F0, 0x8869D2D8);
    Value(10, 0xE99FEC1B, 0x8869D2D8, 0x7C0ACEB7, 0xC57E78C1, x, 0x4D1EEA91, 0x6AF1648E, 0x5186A8BA);
    Value(11, 0xC57E78C1, 0x5186A8BA, 0x8869D2D8, 0x7C0ACEB7, x, 0x2C08C69D, 0xB31B4D51, 0xA5F36F8D);
    FourSteps(w, x, 12);
    Parameters12();
    Value(12, 0x7C0ACEB7, 0xA5F36F8D, 0x5186A8BA, 0x8869D2D8, x, 0x098AB8D8, 0x2356C8EA, 0x5157E49E);
    Value(13, 0x8869D2D8, 0x5157E49E, 0xA5F36F8D, 0x5186A8BA, x, 0x01D36CAC, 0xBE0AE54A, 0xFFAC907E);
    Value(14, 0x5186A8BA, 0xFFAC907E, 0x5157E49E, 0xA5F36F8D, x, 0x5157EF9F, 0x7991141E, 0x27E983A0);
    Value(15, 0xA5F36F8D, 0x27E983A0, 0xFFAC907E, 0x5157E49E, x, 0x77BEE43E, 0x9B998E1D, 0xAF506A03);
  }

  lemma Digits2(x: seq<bv32>)
    requires DigitsWords(x) && Steps(Words(0x67452301, 0xEFCDAB89, 0x98BADCFE, 0x10325476), x, 16)
             == Words(0x5157E49E, 0xAF506A03, 0x27E983A0, 0xFFAC907E)
    ensures Steps(Words(0x67452301, 0xEFCDAB89, 0x98BADCFE, 0x10325476), x, 32)
         == Words(0xF8BCFBB0, 0x1BF25662, 0x99A0F1B8, 0xD760ED39)
  {
    hide Operation, Steps, RotationOf, Sine, WordOf;
    var w := Words(0x67452301, 0xEFCDAB89, 0x98BADCFE, 0x10325476);
    FourSteps(w, x, 16);
    Parameters16();
    Value(16, 0x5157E49E, 0xAF506A03, 0x27E983A0, 0xFFAC907E, x, 0xAF410382, 0x2EEE43B7, 0x8D18E0E8);
    Value(17, 0xFFAC907E, 0x8D18E0E8, 0xAF506A03, 0x27E983A0, x, 0x8D18E8A3, 0x853D6296, 0x07DE0DF2);
    Value(18, 0x27E983A0, 0x07DE0DF2, 0x8D18E0E8, 0xAF506A03, x, 0x075888EA, 0x8DD79D10, 0xEF223167);
    Value(19, 0xAF506A03, 0xEF223167, 0x07DE0DF2, 0x8D18E0E8, x, 0x8FC62D72, 0x5D009150, 0x04280170);
    FourSteps(w, x, 20);
    Parameters20();
    Value(20, 0x8D18E0E8, 0x04280170, 0xEF223167, 0x07DE0DF2, x, 0xEC283175, 0x83A354EB, 0x78929EE0);
    Value(21, 0x07DE0DF2, 0x78929EE0, 0x04280170, 0xEF223167, x, 0x680A1070, 0xA65F64E6, 0x375C6C2C);
    Value(22, 0xEF223167, 0x375C6C2C, 0x78929EE0, 0x04280170, x, 0x7C9A9EA0, 0x7891E8B9, 0xB18ACA50);
    Value(23, 0x04280170, 0xB18ACA50, 0x375C6C2C, 0x78929EE0, x, 0x37CEEA4C, 0x54041FBB, 0xAD400A91);
    FourSteps(w, x, 24);
    Parameters24();
    Value(24, 0x78929EE0, 0xAD400A91, 0xB18ACA50, 0x375C6C2C, x, 0xA5C28A50, 0x70702F4D, 0xBB45F43F);
    Value(25, 0x375C6C2C, 0xBB45F43F, 0xAD400A91, 0xB18ACA50, x, 0xBD40C091, 0xE80D6CCA, 0xD61F8A0F);
    Value(26, 0xB18ACA50, 0xD61F8A0F, 0xBB45F43F, 0xAD400A91, x, 0x9605FE2F, 0x729B0A39, 0x98ADE6B5);
    Value(27, 0xAD400A91, 0x98ADE6B5, 0xD61F8A0F, 0xBB45F43F, x, 0xDC1FEE35, 0x04EF41E6, 0xB70E35A9);
    FourSteps(w, x, 28);
    Parameters28();
    Value(28, 0xBB45F43F, 0xB70E35A9, 0x98ADE6B5, 0xD61F8A0F, x, 0x9EAE64B9, 0x3A0D7630, 0xF8BCFBB0);
    Value(29, 0xD61F8A0F, 0xF8BCFBB0, 0xB70E35A9, 0x98ADE6B5, x, 0xBFAEF3B8, 0xC4EF51F8, 0xD760ED39);
    Value(30, 0x98ADE6B5, 0xD760ED39, 0xF8BCFBB0, 0xB70E35A9, x, 0xDFB0EF39, 0x11FF0900, 0x99A0F1B8);
    Value(31, 0xB70E35A9, 0x99A0F1B8, 0xD760ED39, 0xF8BCFBB0, x, 0x9FE0F5B9, 0x164AA825, 0x1BF25662);
  }

  lemma Digits3(x: seq<bv32>)
    requires DigitsWords(x) && Steps(Words(0x67452301, 0xEFCDAB89, 0x98BADCFE, 0x10325476), x, 32)
             == Words(0xF8BCFBB0, 0x1BF25662, 0x99A0F1B8, 0xD760ED39)
    ensures Steps(Words(0x67452301, 0xEFCDAB89, 0x98BADCFE, 0x10325476), x, 48)
         == Words(0x697032EC, 0xDB4197DA, 0xEFC2C171, 0xFA597BFC)
  {
    hide Operation, Steps, RotationOf, Sine, WordOf;
    var w := Words(0x67452301, 0xEFCDAB89, 0x98BADCFE, 0x10325476);
    FourSteps(w, x, 32);
    Parameters32();
    Value(32, 0xF8BCFBB0, 0x1BF25662, 0x99A0F1B8, 0xD760ED39, x, 0x55324AE3, 0x821CB206, 0x3DBD76CA);
    Value(33, 0xD760ED39, 0x3DBD76CA, 0x1BF25662, 0x99A0F1B8, x, 0xBFEFD110, 0x54F7E8FD, 0xFD056171);
    Value(34, 0x99A0F1B8, 0xFD056171, 0x3DBD76CA, 0x1BF25662, x, 0xDB4A41D9, 0x1ABFCAE8, 0xC7ED7C30);
    Value(35, 0x1BF25662, 0xC7ED7C30, 0xFD056171, 0x3DBD76CA, x, 0x07556B8B, 0x51663230, 0xE0162F49);
    FourSteps(w, x, 36);
    Parameters36();
    Value(36, 0x3DBD76CA, 0xE0162F49, 0xC7ED7C30, 0xFD056171, x, 0xDAFE3208, 0xF5B1C94B, 0x3B32C408);
    Value(37, 0xFD056171, 0x3B32C408, 0xE0162F49, 0xC7ED7C30, x, 0x1CC99771, 0x95E700C2, 0x7338D8B7);
    Value(38, 0xC7ED7C30, 0x7338D8B7, 0x3B32C408, 0xE0162F49, x, 0xA81C33F6, 0x98F62BBF, 0x9EF871AD);
    Value(39, 0xE0162F49, 0x9EF871AD, 0x7338D8B7, 0x3B32C408, x, 0xD6F26D12, 0xA9FB8AFC, 0x1D4D6F72);
    FourSteps(w, x, 40);
    Parameters40();
    Value(40, 0x3B32C408, 0x1D4D6F72, 0x9EF871AD, 0x7338D8B7, x, 0xF08DC668, 0x8A913D69, 0xC661460A);
    Value(41, 0x7338D8B7, 0xC661460A, 0x1D4D6F72, 0x9EF871AD, x, 0x45D458D5, 0xD7E18BB7, 0xD2BF04C9);
    Value(42, 0x9EF871AD, 0xD2BF04C9, 0xC661460A, 0x1D4D6F72, x, 0x09932DB1, 0xB3B00416, 0xD6D5B879);
    Value(43, 0x1D4D6F72, 0xD6D5B879, 0xD2BF04C9, 0xC661460A, x, 0xC20BFABA, 0x1C18BD66, 0x89E3C4D7);
    FourSteps(w, x, 44);
    Parameters44();
    Value(44, 0xC661460A, 0x89E3C4D7, 0xD6D5B879, 0xD2BF04C9, x, 0x8D897867, 0x5DF8C6E1, 0x697032EC);
    Value(45, 0xD2BF04C9, 0x697032EC, 0x89E3C4D7, 0xD6D5B879, x, 0x36464E42, 0x22121D29, 0xFA597BFC);
    Value(46, 0xD6D5B879, 0xFA597BFC, 0x697032EC, 0x89E3C4D7, x, 0x1ACA8DC7, 0x4575F569, 0xEFC2C171);
    Value(47, 0x89E3C4D7, 0xEFC2C171, 0xFA597BFC, 0x697032EC, x, 0x7CEB8861, 0xFDACD3D6, 0xDB4197DA);
  }

  lemma Digits4(x: seq<bv32>)
    requires DigitsWords(x) && Steps(Words(0x67452301, 0xEFCDAB89, 0x98BADCFE, 0x10325476), x, 48)
             == Words(0x697032EC, 0xDB4197DA, 0xEFC2C171, 0xFA597BFC)
    ensures Steps(Words(0x67452301, 0xEFCDAB89, 0x98BADCFE, 0x10325476), x, 64)
         == Words(0x614868EB, 0xB4D33102, 0x5133129B, 0xA09F38A7)
  {
    hide Operation, Steps, RotationOf, Sine, WordOf;
    var w := Words(0x67452301, 0xEFCDAB89, 0x98BADCFE, 0x10325476);
    FourSteps(w, x, 48);
    Parameters48();
    Value(48, 0x697032EC, 0xDB4197DA, 0xEFC2C171, 0xFA597BFC, x, 0x302556AA, 0xC1F1DE0B, 0x57B91ACA);
    Value(49, 0xFA597BFC, 0x57B91ACA, 0xDB4197DA, 0xEFC2C171, x, 0x8CFCA914, 0xFCB254E0, 0x210C9EBC);
    Value(50, 0xEFC2C171, 0x210C9EBC, 0x57B91ACA, 0xDB4197DA, x, 0x7207E477, 0x3D9801C6, 0x21EFBD88);
    Value(51, 0xDB4197DA, 0x21EFBD88, 0x210C9EBC, 0x57B91ACA, x, 0x88E36301, 0x94EBCD45, 0xCAA25B01);
    FourSteps(w, x, 52);
    Parameters52();
    Value(52, 0x57B91ACA, 0xCAA25B01, 0x21EFBD88, 0x210C9EBC, x, 0xFF1CC6CB, 0xEE626B91, 0x633D3F7C);
    Value(53, 0x210C9EBC, 0x633D3F7C, 0xCAA25B01, 0x21EFBD88, x, 0x359F247E, 0x1BEDC3FF, 0x1A4D3BEB);
    Value(54, 0x21EFBD88, 0x1A4D3BEB, 0x633D3F7C, 0xCAA25B01, x, 0x5C608083, 0xB27364B9, 0xCCAA1524);
    Value(55, 0xCAA25B01, 0xCCAA1524, 0x1A4D3BEB, 0x633D3F7C, x, 0xC6A7EE4C, 0x4F05DD53, 0x7713F5DF);
    FourSteps(w, x, 56);
    Parameters56();
    Value(56, 0x633D3F7C, 0x7713F5DF, 0xCCAA1524, 0x1A4D3BEB, x, 0x3B19E0FB, 0x4434D2F9, 0x8448B430);
    Value(57, 0x1A4D3BEB, 0x8448B430, 0x7713F5DF, 0xCCAA1524, x, 0xC04E0B24, 0x0CFB6020, 0x71C93463);
    Value(58, 0xCCAA1524, 0x71C93463, 0x8448B430, 0x7713F5DF, x, 0x7DA58A53, 0x258818C0, 0x7E294727);
    Value(59, 0x7713F5DF, 0x7E294727, 0x71C93463, 0x8448B430, x, 0x0E767B8C, 0x09C7B73F, 0x660A801D);
    FourSteps(w, x, 60);
    Parameters60();
    Value(60, 0x8448B430, 0x660A801D, 0x7E294727, 0x71C93463, x, 0x90178CBA, 0x3BECF7A3, 0x614868EB);
    Value(61, 0x71C93463, 0x614868EB, 0x660A801D, 0x7E294727, x, 0x87D478E6, 0xEF0FD5B3, 0xA09F38A7);
    Value(62, 0x7E294727, 0xA09F38A7, 0x614868EB, 0x660A801D, x, 0xD8B7170C, 0xB3E96127, 0x5133129B);
    Value(63, 0x660A801D, 0x5133129B, 0xA09F38A7, 0x614868EB, x, 0x7F28AF38, 0x00F33B1D, 0xB4D33102);
  }

  lemma DigitsCompressed(block: seq<bv8>)
    requires |block| == 64 && DigitsWords(BlockWords(block))
    ensures Compress(Words(0x67452301, 0xEFCDAB89, 0x98BADCFE, 0x10325476), block)
         == Words(0xC88D8BEC, 0xA4A0DC8B, 0xE9EDEF99, 0xB0D18D1D)
  {
    hide Steps, DigitsWords, BlockWords;
    var w, x := Words(0x67452301, 0xEFCDAB89, 0x98BADCFE, 0x10325476), BlockWords(block);
    FirstStep(w, x);
    Digits1(x);
    Digits2(x);
    Digits3(x);
    Digits4(x);
  }

  // ----- Eighty digits: the second block -----

  /** Its words. */
  predicate TailWords(x: seq<bv32>) {
    |x| == 16
    && x[0] == 0x38373635 && x[1] == 0x32313039 && x[2] == 0x36353433 && x[3] == 0x30393837
    && x[4] == 0x00000080 && x[5] == 0x00000000 && x[6] == 0x00000000 && x[7] == 0x00000000
    && x[8] == 0x00000000 && x[9] == 0x00000000 && x[10] == 0x00000000 && x[11] == 0x00000000
    && x[12] == 0x00000000 && x[13] == 0x00000000 && x[14] == 0x00000280 && x[15] == 0x00000000
  }

  lemma Tail1(x: seq<bv32>)
    requires TailWords(x) && Steps(Words(0xC88D8BEC, 0xA4A0DC8B, 0xE9EDEF99, 0xB0D18D1D), x, 0)
             == Words(0xC88D8BEC, 0xA4A0DC8B, 0xE9EDEF99, 0xB0D18D1D)
    ensures Steps(Words(0xC88D8BEC, 0xA4A0DC8B, 0xE9EDEF99, 0xB0D18D1D), x, 16)
         == Words(0xDB4FF71C, 0x58B12EAB, 0x04396A39, 0x9B6B4960)
  {
    hide Operation, Steps, RotationOf, Sine, WordOf;
    var w := Words(0xC88D8BEC, 0xA4A0DC8B, 0xE9EDEF99, 0xB0D18D1D);
    FourSteps(w, x, 0);
    Parameters0();
    Value(0, 0xC88D8BEC, 0xA4A0DC8B, 0xE9EDEF99, 0xB0D18D1D, x, 0xB0F1CD9D, 0x89213436, 0x353AF7CF);
    Value(1, 0xB0D18D1D, 0x353AF7CF, 0xA4A0DC8B, 0xE9EDEF99, x, 0xECE5DC9B, 0xB8B05147, 0x3A4F735A);
    Value(2, 0xE9EDEF99, 0x3A4F735A, 0x353AF7CF, 0xA4A0DC8B, x, 0xB4AAFFCB, 0xF8EE9472, 0x63356537);
    Value(3, 0xA4A0DC8B, 0x63356537, 0x3A4F735A, 0x353AF7CF, x, 0x360FF3DA, 0xCCA7D78A, 0x45E88F2C);
    FourSteps(w, x, 4);
    Parameters4();
    Value(4, 0x353AF7CF, 0x45E88F2C, 0x63356537, 0x3A4F735A, x, 0x7B277576, 0xA5DE7D74, 0x3527497E);
    Value(5, 0x3A4F735A, 0x3527497E, 0x45E88F2C, 0x63356537, x, 0x47302D2D, 0xC90766B1, 0xAB92660E);
    Value(6, 0x63356537, 0xAB92660E, 0x3527497E, 0x45E88F2C, x, 0x656AC92E, 0x70D07478, 0x948347AE);
    Value(7, 0x45E88F2C, 0x948347AE, 0xAB92660E, 0x3527497E, x, 0xA1A64E5E, 0xE4D5728B, 0x377C7D0A);
    FourSteps(w, x, 8);
    Parameters8();
    Value(8, 0x3527497E, 0x377C7D0A, 0x948347AE, 0xAB92660E, x, 0x9C82470E, 0x3B2A2964, 0xCC912F27);
    Value(9, 0xAB92660E, 0xCC912F27, 0x377C7D0A, 0x948347AE, x, 0x14126D8A, 0x4AE9CB47, 0x6945A3D5);
    Value(10, 0x948347AE, 0x6945A3D5, 0xCC912F27, 0x377C7D0A, x, 0x5E397F0F, 0xF2BC226E, 0xAE23894D);
    Value(11, 0x377C7D0A, 0xAE23894D, 0x6945A3D5, 0xCC912F27, x, 0x6891A767, 0x296AFC2F, 0xB9EDE40C);
    FourSteps(w, x, 12);
    Parameters12();
    Value(12, 0xCC912F27, 0xB9EDE40C, 0xAE23894D, 0x6945A3D5, x, 0xE82183DD, 0x2042C426, 0xDB4FF71C);
    Value(13, 0x6945A3D5, 0xDB4FF71C, 0xB9EDE40C, 0xAE23894D, x, 0xBD6DEC4D, 0x244C01B5, 0x9B6B4960);
    Value(14, 0xAE23894D, 0x9B6B4960, 0xDB4FF71C, 0xB9EDE40C, x, 0xBBCFE50C, 0x106CB467, 0x04396A39);
    Value(15, 0xB9EDE40C, 0x04396A39, 0x9B6B4960, 0xDB4FF71C, x, 0xDB6FDD24, 0xDF11C951, 0x58B12EAB);
  }

  lemma Tail2(x: seq<bv32>)
    requires TailWords(x) && Steps(Words(0xC88D8BEC, 0xA4A0DC8B, 0xE9EDEF99, 0xB0D18D1D), x, 16)
             == Words(0xDB4FF71C, 0x58B12EAB, 0x04396A39, 0x9B6B4960)
    ensures Steps(Words(0xC88D8BEC, 0xA4A0DC8B, 0xE9EDEF99, 0xB0D18D1D), x, 32)
         == Words(0x8761F38E, 0x67092C33, 0x061BC867, 0x7A516116)
  {
    hide Operation, Steps, RotationOf, Sine, WordOf;
    var w := Words(0xC88D8BEC, 0xA4A0DC8B, 0xE9EDEF99, 0xB0D18D1D);
    FourSteps(w, x, 16);
    Parameters16();
    Value(16, 0xDB4FF71C, 0x58B12EAB, 0x04396A39, 0x9B6B4960, x, 0x1C312A39, 0x1FD076F0, 0x52C00CAE);
    Value(17, 0x9B6B4960, 0x52C00CAE, 0x58B12EAB, 0x04396A39, x, 0x58800CAA, 0xB42C094A, 0xAAD2A216);
    Value(18, 0x04396A39, 0xAAD2A216, 0x52C00CAE, 0x58B12EAB, x, 0x0AD02206, 0x3567E690, 0xA476AF6F);
    Value(19, 0x58B12EAB, 0xA476AF6F, 0xAAD2A216, 0x52C00CAE, x, 0xA852AE3E, 0x22F1DAC8, 0x50F8DE8C);
    FourSteps(w, x, 20);
    Parameters20();
    Value(20, 0x52C00CAE, 0x50F8DE8C, 0xA476AF6F, 0xAAD2A216, x, 0x04F48F6D, 0x2DE3AC78, 0x0D6E6D91);
    Value(21, 0xAAD2A216, 0x0D6E6D91, 0x50F8DE8C, 0xA476AF6F, x, 0x54EE7D81, 0x020533EA, 0x17D64195);
    Value(22, 0xA476AF6F, 0x17D64195, 0x0D6E6D91, 0x50F8DE8C, x, 0x1DD66195, 0x9AEEF785, 0xD5B7A850);
    Value(23, 0x50F8DE8C, 0xD5B7A850, 0x17D64195, 0x0D6E6D91, x, 0x17B62814, 0x508302E8, 0x043CB080);
    FourSteps(w, x, 24);
    Parameters24();
    Value(24, 0x0D6E6D91, 0x043CB080, 0xD5B7A850, 0x17D64195, x, 0xC435A8C0, 0xF385E437, 0x74F9377E);
    Value(25, 0x17D64195, 0x74F9377E, 0x043CB080, 0xD5B7A850, x, 0x54B930D0, 0x2FC67CBB, 0x01F2ADDD);
    Value(26, 0xD5B7A850, 0x01F2ADDD, 0x74F9377E, 0x043CB080, x, 0x70F1A7FE, 0x6BB7960C, 0xE775C8CA);
    Value(27, 0x043CB080, 0xE775C8CA, 0x01F2ADDD, 0x74F9377E, x, 0x657388CB, 0xAF0A4E38, 0xCB00B96E);
    FourSteps(w, x, 28);
    Parameters28();
    Value(28, 0x74F9377E, 0xCB00B96E, 0xE775C8CA, 0x01F2ADDD, x, 0xE705E94E, 0x05E309D1, 0x8761F38E);
    Value(29, 0x01F2ADDD, 0x8761F38E, 0xCB00B96E, 0xE775C8CA, x, 0x8F61F1AE, 0xC47977B6, 0x7A516116);
    Value(30, 0xE775C8CA, 0x7A516116, 0x8761F38E, 0xCB00B96E, x, 0x4E616386, 0x9D462F29, 0x061BC867);
    Value(31, 0xCB00B96E, 0x061BC867, 0x7A516116, 0x8761F38E, x, 0x7E11C016, 0xD63CC60E, 0x67092C33);
  }

  lemma Tail3(x: seq<bv32>)
    requires TailWords(x) && Steps(Words(0xC88D8BEC, 0xA4A0DC8B, 0xE9EDEF99, 0xB0D18D1D), x, 32)
             == Words(0x8761F38E, 0x67092C33, 0x061BC867, 0x7A516116)
    ensures Steps(Words(0xC88D8BEC, 0xA4A0DC8B, 0xE9EDEF99, 0xB0D18D1D), x, 48)
         == Words(0x71123AFA, 0x1DF7010A, 0xE6A8A386, 0xDC9C8DDB)
  {
    hide Operation, Steps, RotationOf, Sine, WordOf;
    var w := Words(0xC88D8BEC, 0xA4A0DC8B, 0xE9EDEF99, 0xB0D18D1D);
    FourSteps(w, x, 32);
    Parameters32();
    Value(32, 0x8761F38E, 0x67092C33, 0x061BC867, 0x7A516116, x, 0x1B438542, 0xA29FB212, 0x91044D5D);
    Value(33, 0x7A516116, 0x91044D5D, 0x67092C33, 0x061BC867, x, 0xF016A909, 0xF1DA00A0, 0x610954EB);
    Value(34, 0x061BC867, 0x610954EB, 0x91044D5D, 0x67092C33, x, 0x97043585, 0x0ABD5F0E, 0xC0175FA8);
    Value(35, 0x67092C33, 0xC0175FA8, 0x610954EB, 0x91044D5D, x, 0x301A461E, 0x9508ACDD, 0x2EE1E3FE);
    FourSteps(w, x, 36);
    Parameters36();
    Value(36, 0x91044D5D, 0x2EE1E3FE, 0xC0175FA8, 0x610954EB, x, 0x8FFFE8BD, 0xF7F45097, 0xAE26ED7D);
    Value(37, 0x610954EB, 0xAE26ED7D, 0x2EE1E3FE, 0xC0175FA8, x, 0x40D0512B, 0xEDB8763F, 0x71D8ECEA);
    Value(38, 0xC0175FA8, 0x71D8ECEA, 0xAE26ED7D, 0x2EE1E3FE, x, 0xF11FE269, 0xA7F28D71, 0xFF4A94DC);
    Value(39, 0x2EE1E3FE, 0xFF4A94DC, 0x71D8ECEA, 0xAE26ED7D, x, 0x20B4954B, 0x0E5635B9, 0xDBD1BFF6);
    FourSteps(w, x, 40);
    Parameters40();
    Value(40, 0xAE26ED7D, 0xDBD1BFF6, 0xFF4A94DC, 0x71D8ECEA, x, 0x5543C7C0, 0x2C063403, 0x9C350028);
    Value(41, 0x71D8ECEA, 0x9C350028, 0xDBD1BFF6, 0xFF4A94DC, x, 0xB8AE2B02, 0x4D5F761B, 0x97E5DA92);
    Value(42, 0xFF4A94DC, 0x97E5DA92, 0x9C350028, 0xDBD1BFF6, x, 0xD001654C, 0xD47462E4, 0xFACAAF06);
    Value(43, 0xDBD1BFF6, 0xFACAAF06, 0x97E5DA92, 0x9C350028, x, 0xF11A75BC, 0xD17452B7, 0x56B3692F);
    FourSteps(w, x, 44);
    Parameters44();
    Value(44, 0x9C350028, 0x56B3692F, 0xFACAAF06, 0x97E5DA92, x, 0x3B9C1CBB, 0xB1A5ED1C, 0x71123AFA);
    Value(45, 0x97E5DA92, 0x71123AFA, 0x56B3692F, 0xFACAAF06, x, 0xDD6BFCD3, 0x5C2D714A, 0xDC9C8DDB);
    Value(46, 0xFACAAF06, 0xDC9C8DDB, 0x71123AFA, 0x56B3692F, x, 0xFB3DDE0E, 0x15AB0A0C, 0xE6A8A386);
    Value(47, 0x56B3692F, 0xE6A8A386, 0xDC9C8DDB, 0x71123AFA, x, 0x4B2614A7, 0x9CBB086E, 0x1DF7010A);
  }

  lemma Tail4(x: seq<bv32>)
    requires TailWords(x) && Steps(Words(0xC88D8BEC, 0xA4A0DC8B, 0xE9EDEF99, 0xB0D18D1D), x, 48)
             == Words(0x71123AFA, 0x1DF7010A, 0xE6A8A386, 0xDC9C8DDB)
    ensures Steps(Words(0xC88D8BEC, 0xA4A0DC8B, 0xE9EDEF99, 0xB0D18D1D), x, 64)
         == Words(0xDA67616B, 0xB12906A0, 0x44EC5A13, 0xC9E47A04)
  {
    hide Operation, Steps, RotationOf, Sine, WordOf;
    var w := Words(0xC88D8BEC, 0xA4A0DC8B, 0xE9EDEF99, 0xB0D18D1D);
    FourSteps(w, x, 48);
    Parameters48();
    Value(48, 0x71123AFA, 0x1DF7010A, 0xE6A8A386, 0xDC9C8DDB, x, 0xD95FD0A8, 0x76D2641B, 0xD29007E7);
    Value(49, 0xDC9C8DDB, 0xD29007E7, 0x1DF7010A, 0xE6A8A386, x, 0xC6205EF5, 0xE5E7EC67, 0x7241A77E);
    Value(50, 0xE6A8A386, 0x7241A77E, 0xD29007E7, 0x1DF7010A, x, 0x20D9F818, 0xB316C1C5, 0xD3248109);
    Value(51, 0x1DF7010A, 0xD3248109, 0x7241A77E, 0xD29007E7, x, 0x8D2E5E67, 0xA7B8FFAA, 0xC8797828);
    FourSteps(w, x, 52);
    Parameters52();
    Value(52, 0xD29007E7, 0xC8797828, 0xD3248109, 0x7241A77E, x, 0x1EDBF9A0, 0x56C75B4A, 0x7A504ABD);
    Value(53, 0x7241A77E, 0x7A504ABD, 0xC8797828, 0xD3248109, x, 0xB6A206D7, 0xE829B31E, 0x211CC65D);
    Value(54, 0xD3248109, 0x211CC65D, 0x7A504ABD, 0xC8797828, x, 0x4DCE8D62, 0x20E302E8, 0xA290D6CE);
    Value(55, 0xC8797828, 0xA290D6CE, 0x211CC65D, 0x7A504ABD, x, 0x86A33193, 0x06D237C5, 0x9B31B114);
    FourSteps(w, x, 56);
    Parameters56();
    Value(56, 0x7A504ABD, 0x9B31B114, 0xA290D6CE, 0x211CC65D, x, 0x7D636F78, 0x675C3884, 0x723FD22D);
    Value(57, 0x211CC65D, 0x723FD22D, 0x9B31B114, 0xA290D6CE, x, 0xE44E4A29, 0x0397F766, 0xD21D6A3B);
    Value(58, 0xA290D6CE, 0xD21D6A3B, 0x723FD22D, 0x9B31B114, x, 0x84E0BCD6, 0xCA72D6B8, 0x3D79CF74);
    Value(59, 0x9B31B114, 0x3D79CF74, 0xD21D6A3B, 0x723FD22D, x, 0x6FE485CD, 0x591E4882, 0x4DC4F33D);
    FourSteps(w, x, 60);
    Parameters60();
    Value(60, 0x723FD22D, 0x4DC4F33D, 0x3D79CF74, 0xD21D6A3B, x, 0x509F3889, 0xBA3289B8, 0xDA67616B);
    Value(61, 0xD21D6A3B, 0xDA67616B, 0x4DC4F33D, 0x3D79CF74, x, 0x972382D6, 0x267BDF46, 0xC9E47A04);
    Value(62, 0x3D79CF74, 0xC9E47A04, 0xDA67616B, 0x4DC4F33D, x, 0x21981FAD, 0xC01EF60F, 0x44EC5A13);
    Value(63, 0x4DC4F33D, 0x44EC5A13, 0xC9E47A04, 0xDA67616B, x, 0xAC18A493, 0xE5646B61, 0xB12906A0);
  }

  lemma TailCompressed(block: seq<bv8>)
    requires |block| == 64 && TailWords(BlockWords(block))
    ensures Compress(Words(0xC88D8BEC, 0xA4A0DC8B, 0xE9EDEF99, 0xB0D18D1D), block)
         == Words(0xA2F4ED57, 0x55C9E32B, 0x2EDA49AC, 0x7AB60721)
  {
    hide Steps, TailWords, BlockWords;
    var w, x := Words(0xC88D8BEC, 0xA4A0DC8B, 0xE9EDEF99, 0xB0D18D1D), BlockWords(block);
    FirstStep(w, x);
    Tail1(x);
    Tail2(x);
    Tail3(x);
    Tail4(x);
  }

  // ----- The digests -----

  lemma BitsDoubled(x: nat, y: nat)
    requires y / 2 == x
    ensures TestBit(y, 0) == (y % 2 == 1) && TestBit(y, 1) == TestBit(x, 0) && TestBit(y, 2) == TestBit(x, 1)
    ensures TestBit(y, 3) == TestBit(x, 2) && TestBit(y, 4) == TestBit(x, 3) && TestBit(y, 5) == TestBit(x, 4)
    ensures TestBit(y, 6) == TestBit(x, 5) && TestBit(y, 7) == TestBit(x, 6)
  {
  }

  lemma BitsShifted(b7: bool, b6: bool, b5: bool, b4: bool, b3: bool, b2: bool, b1: bool, b0: bool)
    ensures FromBits(b6, b5, b4, b3, b2, b1, b0, false) == FromBits(b7, b6, b5, b4, b3, b2, b1, b0) << 1
    ensures FromBits(b6, b5, b4, b3, b2, b1, b0, true) == (FromBits(b7, b6, b5, b4, b3, b2, b1, b0) << 1) | 1
  {
  }

  /** Doubling a number shifts its low byte. */
  lemma OctetDoubled(x: nat)
    ensures Octet(2 * x) == Octet(x) << 1 && Octet(2 * x + 1) == (Octet(x) << 1) | 1
  {
    BitsDoubled(x, 2 * x);
    BitsDoubled(x, 2 * x + 1);
    hide TestBit, FromBits;
    BitsShifted(TestBit(x, 7), TestBit(x, 6), TestBit(x, 5), TestBit(x, 4), TestBit(x, 3), TestBit(x, 2),
                TestBit(x, 1), TestBit(x, 0));
  }

  lemma NoBits()
    ensures FromBits(false, false, false, false, false, false, false, false) == 0
  {
  }

  lemma OctetOfZero()
    ensures Octet(0) == 0
  {
    hide TestBit, FromBits;
    ZeroHasNoBits(0);
    ZeroHasNoBits(1);
    ZeroHasNoBits(2);
    ZeroHasNoBits(3);
    ZeroHasNoBits(4);
    ZeroHasNoBits(5);
    ZeroHasNoBits(6);
    ZeroHasNoBits(7);
    NoBits();
  }

  lemma SomeOctets()
    ensures Octet(0) == 0 && Octet(2) == 2 && Octet(24) == 24 && Octet(640) == 0x80
  {
    hide Octet;
    OctetOfZero();
    OctetDoubled(0);
    OctetDoubled(1);
    OctetDoubled(3);
    OctetDoubled(6);
    OctetDoubled(12);
    OctetDoubled(2);
    OctetDoubled(5);
    OctetDoubled(10);
    OctetDoubled(20);
    OctetDoubled(40);
    OctetDoubled(80);
    OctetDoubled(160);
    OctetDoubled(320);
  }

  /** Section 3.2: the length of "abc" and of eighty bytes, in bits. */
  lemma Lengths()
    ensures Bytes8(24) == [24, 0, 0, 0, 0, 0, 0, 0] && Bytes8(640) == [0x80, 2, 0, 0, 0, 0, 0, 0]
  {
    hide Octet;
    SomeOctets();
  }

  const ABC: seq<bv8> := [0x61, 0x62, 0x63]

  lemma PaddedBytes(m: seq<bv8>, length: seq<bv8>, zeros: nat)
    requires |length| == 8 && zeros < 64 && (|m| + 9 + zeros) % 64 == 0
    ensures var p := PaddedWith(m, length);
            |p| == |m| + 9 + zeros && (forall i :: 0 <= i < |m| ==> p[i] == m[i]) && p[|m|] == 0x80
            && (forall i :: |m| < i < |m| + 1 + zeros ==> p[i] == 0)
            && forall i :: |m| + 1 + zeros <= i < |p| ==> p[i] == length[i - |m| - 1 - zeros]
  {
    ZerosFill(|m|);
    assert ZeroCount(|m|) == zeros;
  }

  predicate AbcLayout(p: seq<bv8>) {
    |p| == 64 && p[0] == 0x61 && p[1] == 0x62 && p[2] == 0x63 && p[3] == 0x80 && p[56] == 24
    && forall i :: 4 <= i < 64 && i != 56 ==> p[i] == 0
  }

  lemma AbcPadded()
    ensures AbcLayout(PaddedWith(ABC, Bytes8(24)))
  {
    hide PaddedWith, Bytes8, ZeroCount;
    Lengths();
    PaddedBytes(ABC, Bytes8(24), 52);
  }

  lemma WordsOfAbc()
    ensures Word(0x61, 0x62, 0x63, 0x80) == 0x80636261 && Word(24, 0, 0, 0) == 24 && Word(0, 0, 0, 0) == 0
  {
  }

  lemma AbcBlock(p: seq<bv8>)
    requires AbcLayout(p)
    ensures |p| == 64 && AbcWords(BlockWords(p))
  {
    hide BlockWords, Word;
    WordsOfAbc();
    forall k | 0 <= k < 16 ensures BlockWords(p)[k] == Word(p[4 * k], p[4 * k + 1], p[4 * k + 2], p[4 * k + 3]) {
      WordAt(p, k);
    }
  }

  lemma OutputOfAbc()
    ensures Output(Words(0x98500190, 0xB04FD23C, 0x7D3F96D6, 0x727FE128))
         == [0x90, 0x01, 0x50, 0x98, 0x3C, 0xD2, 0x4F, 0xB0,
             0xD6, 0x96, 0x3F, 0x7D, 0x28, 0xE1, 0x7F, 0x72]
  {
  }

  lemma FirstBlock(p: seq<bv8>)
    requires |p| >= 64
    ensures Hash(p, 1) == Compress(Initial(), p[..64]) && (|p| == 64 ==> p[..64] == p)
  {
    hide Compress;
    assert p[0..64] == p[..64] && Hash(p, 0) == Initial();
  }

  /** The digest of "abc". */
  method DigestOfAbc() returns (output: seq<bv8>)
    ensures output == [0x90, 0x01, 0x50, 0x98, 0x3C, 0xD2, 0x4F, 0xB0,
                      0xD6, 0x96, 0x3F, 0x7D, 0x28, 0xE1, 0x7F, 0x72]
  {
    hide Hash, Compress, PaddedWith, Output, Bytes8;
    output := DigestOf(ABC);
    AbcPadded();
    var p := PaddedWith(ABC, Bytes8(24));
    FirstBlock(p);
    AbcBlock(p);
    AbcCompressed(p);
    OutputOfAbc();
  }

  lemma SecondBlock(p: seq<bv8>)
    requires |p| >= 128
    ensures Hash(p, 2) == Compress(Hash(p, 1), p[64..128])
  {
    hide Compress;
  }

  /** "1234567890" over and over. */
  function DigitChar(i: nat): bv8 {
    match i % 10
    case 0 => 0x31 case 1 => 0x32 case 2 => 0x33 case 3 => 0x34 case 4 => 0x35
    case 5 => 0x36 case 6 => 0x37 case 7 => 0x38 case 8 => 0x39 case _ => 0x30
  }

  function EightyDigits(): (m: seq<bv8>)
    ensures |m| == 80 && forall i :: 0 <= i < 80 ==> m[i] == DigitChar(i)
  {
    seq(80, i requires 0 <= i < 80 => DigitChar(i))
  }

  predicate DigitsLayout(p: seq<bv8>) {
    |p| == 128 && (forall i :: 0 <= i < 80 ==> p[i] == DigitChar(i))
    && p[80] == 0x80 && p[120] == 0x80 && p[121] == 2
    && forall i :: 81 <= i < 128 && i != 120 && i != 121 ==> p[i] == 0
  }

  lemma DigitsPadded()
    ensures DigitsLayout(PaddedWith(EightyDigits(), Bytes8(640)))
  {
    hide PaddedWith, Bytes8, ZeroCount, DigitChar;
    Lengths();
    PaddedBytes(EightyDigits(), Bytes8(640), 39);
  }

  /** Every twenty bytes the same five words. */
  lemma WordsOfDigits()
    ensures Word(0x31, 0x32, 0x33, 0x34) == 0x34333231 && Word(0x35, 0x36, 0x37, 0x38) == 0x38373635
    ensures Word(0x39, 0x30, 0x31, 0x32) == 0x32313039 && Word(0x33, 0x34, 0x35, 0x36) == 0x36353433
    ensures Word(0x37, 0x38, 0x39, 0x30) == 0x30393837 && Word(0x80, 0, 0, 0) == 0x80
    ensures Word(0, 0, 0, 0) == 0 && Word(0x80, 2, 0, 0) == 640
  {
  }

  function DigitWord(j: nat): bv32 {
    match j case 0 => 0x34333231 case 1 => 0x38373635 case 2 => 0x32313039 case 3 => 0x36353433 case _ => 0x30393837
  }

  lemma DigitPeriod(q: nat, i: nat)
    ensures DigitChar(20 * q + i) == DigitChar(i)
  {
    assert (20 * q + i) % 10 == i % 10;
  }

  lemma DigitWordOf(j: nat)
    requires j < 5
    ensures Word(DigitChar(4 * j), DigitChar(4 * j + 1), DigitChar(4 * j + 2), DigitChar(4 * j + 3)) == DigitWord(j)
  {
    hide Word;
    WordsOfDigits();
  }

  lemma DigitWordAt(p: seq<bv8>, k: nat)
    requires |p| == 64 && k < 16 && forall i :: 0 <= i < 64 ==> p[i] == DigitChar(i)
    ensures BlockWords(p)[k] == DigitWord(k % 5)
  {
    hide BlockWords, Word, DigitChar, DigitWord;
    WordAt(p, k);
    var q, j := k / 5, k % 5;
    assert 4 * k == 20 * q + 4 * j;
    DigitWordOf(j);
    DigitPeriod(q, 4 * j);
    DigitPeriod(q, 4 * j + 1);
    DigitPeriod(q, 4 * j + 2);
    DigitPeriod(q, 4 * j + 3);
  }

  lemma DigitsBlock(p: seq<bv8>)
    requires DigitsLayout(p)
    ensures |p| == 128 && DigitsWords(BlockWords(p[..64]))
  {
    hide BlockWords, DigitChar;
    forall k: nat | k < 16 ensures BlockWords(p[..64])[k] == DigitWord(k % 5) {
      DigitWordAt(p[..64], k);
    }
  }

  lemma TailBlock(p: seq<bv8>)
    requires DigitsLayout(p)
    ensures |p| == 128 && TailWords(BlockWords(p[64..128]))
  {
    hide BlockWords, Word;
    var t := p[64..128];
    WordsOfDigits();
    assert t[0] == 0x35 && t[1] == 0x36 && t[2] == 0x37 && t[3] == 0x38;
    assert forall i :: 0 <= i < 16 ==> t[i] == DigitChar(i + 64);
    assert t[16] == 0x80 && t[56] == 0x80 && t[57] == 2;
    assert forall i :: 17 <= i < 64 && i != 56 && i != 57 ==> t[i] == 0;
    forall k | 0 <= k < 16 ensures BlockWords(t)[k] == Word(t[4 * k], t[4 * k + 1], t[4 * k + 2], t[4 * k + 3]) {
      WordAt(t, k);
    }
  }

  lemma OutputOfDigits()
    ensures Output(Words(0xA2F4ED57, 0x55C9E32B, 0x2EDA49AC, 0x7AB60721))
         == [0x57, 0xED, 0xF4, 0xA2, 0x2B, 0xE3, 0xC9, 0x55,
             0xAC, 0x49, 0xDA, 0x2E, 0x21, 0x07, 0xB6, 0x7A]
  {
  }

  lemma BothPieces(m: seq<bv8>, cut: nat)
    requires cut <= |m|
    ensures Joined([m[..cut], m[cut..]], 2) == m
  {
    var chunks := [m[..cut], m[cut..]];
    assert Joined(chunks, 0) == [] && Joined(chunks, 1) == m[..cut];
  }

  /** The digest of eighty digits, which take two blocks, however they are cut in two. */
  method DigestOfDigits(cut: nat) returns (output: seq<bv8>)
    requires cut <= 80
    ensures output == [0x57, 0xED, 0xF4, 0xA2, 0x2B, 0xE3, 0xC9, 0x55,
                      0xAC, 0x49, 0xDA, 0x2E, 0x21, 0x07, 0xB6, 0x7A]
  {
    hide Hash, Compress, PaddedWith, Output, Bytes8, EightyDigits, Joined;
    var m := EightyDigits();
    output := DigestOfChunks([m[..cut], m[cut..]]);
    BothPieces(m, cut);
    DigitsPadded();
    var p := PaddedWith(m, Bytes8(640));
    DigitsBlock(p);
    TailBlock(p);
    FirstBlock(p);
    SecondBlock(p);
    DigitsCompressed(p[..64]);
    TailCompressed(p[64..128]);
    OutputOfDigits();
  }
}
