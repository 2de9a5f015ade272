/** CRC-32C, table driven, and the bit-serial definition it has to agree with. */
module Crc {
  import opened Bits

  type word = bv32

  /** The polynomial 0x1edc6f41, bit-reversed. */
  const POLY: word := 0x82f63b78

  /** Entry k of a table of sixteen. */
  function Pick(k: bv8, c0: word, c1: word, c2: word, c3: word, c4: word, c5: word, c6: word, c7: word,
                c8: word, c9: word, c10: word, c11: word, c12: word, c13: word, c14: word, c15: word): word
  {
    if k & 8 == 0 then
      if k & 4 == 0 then
        if k & 2 == 0 then (if k & 1 == 0 then c0 else c1) else if k & 1 == 0 then c2 else c3
      else
        if k & 2 == 0 then (if k & 1 == 0 then c4 else c5) else if k & 1 == 0 then c6 else c7
    else
      if k & 4 == 0 then
        if k & 2 == 0 then (if k & 1 == 0 then c8 else c9) else if k & 1 == 0 then c10 else c11
      else
        if k & 2 == 0 then (if k & 1 == 0 then c12 else c13) else if k & 1 == 0 then c14 else c15
  }

  function Row0(l: bv8): word {
    Pick(l, 0x00000000, 0xf26b8303, 0xe13b70f7, 0x1350f3f4, 0xc79a971f, 0x35f1141c, 0x26a1e7e8, 0xd4ca64eb,
            0x8ad958cf, 0x78b2dbcc, 0x6be22838, 0x9989ab3b, 0x4d43cfd0, 0xbf284cd3, 0xac78bf27, 0x5e133c24)
  }

  function Row1(l: bv8): word {
    Pick(l, 0x105ec76f, 0xe235446c, 0xf165b798, 0x030e349b, 0xd7c45070, 0x25afd373, 0x36ff2087, 0xc494a384,
            0x9a879fa0, 0x68ec1ca3, 0x7bbcef57, 0x89d76c54, 0x5d1d08bf, 0xaf768bbc, 0xbc267848, 0x4e4dfb4b)
  }

  function Row2(l: bv8): word {
    Pick(l, 0x20bd8ede, 0xd2d60ddd, 0xc186fe29, 0x33ed7d2a, 0xe72719c1, 0x154c9ac2, 0x061c6936, 0xf477ea35,
            0xaa64d611, 0x580f5512, 0x4b5fa6e6, 0xb93425e5, 0x6dfe410e, 0x9f95c20d, 0x8cc531f9, 0x7eaeb2fa)
  }

  function Row3(l: bv8): word {
    Pick(l, 0x30e349b1, 0xc288cab2, 0xd1d83946, 0x23b3ba45, 0xf779deae, 0x05125dad, 0x1642ae59, 0xe4292d5a,
            0xba3a117e, 0x4851927d, 0x5b016189, 0xa96ae28a, 0x7da08661, 0x8fcb0562, 0x9c9bf696, 0x6ef07595)
  }

  function Row4(l: bv8): word {
    Pick(l, 0x417b1dbc, 0xb3109ebf, 0xa0406d4b, 0x522bee48, 0x86e18aa3, 0x748a09a0, 0x67dafa54, 0x95b17957,
            0xcba24573, 0x39c9c670, 0x2a993584, 0xd8f2b687, 0x0c38d26c, 0xfe53516f, 0xed03a29b, 0x1f682198)
  }

  function Row5(l: bv8): word {
    Pick(l, 0x5125dad3, 0xa34e59d0, 0xb01eaa24, 0x42752927, 0x96bf4dcc, 0x64d4cecf, 0x77843d3b, 0x85efbe38,
            0xdbfc821c, 0x2997011f, 0x3ac7f2eb, 0xc8ac71e8, 0x1c661503, 0xee0d9600, 0xfd5d65f4, 0x0f36e6f7)
  }

  function Row6(l: bv8): word {
    Pick(l, 0x61c69362, 0x93ad1061, 0x80fde395, 0x72966096, 0xa65c047d, 0x5437877e, 0x4767748a, 0xb50cf789,
            0xeb1fcbad, 0x197448ae, 0x0a24bb5a, 0xf84f3859, 0x2c855cb2, 0xdeeedfb1, 0xcdbe2c45, 0x3fd5af46)
  }

  function Row7(l: bv8): word {
    Pick(l, 0x7198540d, 0x83f3d70e, 0x90a324fa, 0x62c8a7f9, 0xb602c312, 0x44694011, 0x5739b3e5, 0xa55230e6,
            0xfb410cc2, 0x092a8fc1, 0x1a7a7c35, 0xe811ff36, 0x3cdb9bdd, 0xceb018de, 0xdde0eb2a, 0x2f8b6829)
  }

  function Row8(l: bv8): word {
    Pick(l, 0x82f63b78, 0x709db87b, 0x63cd4b8f, 0x91a6c88c, 0x456cac67, 0xb7072f64, 0xa457dc90, 0x563c5f93,
            0x082f63b7, 0xfa44e0b4, 0xe9141340, 0x1b7f9043, 0xcfb5f4a8, 0x3dde77ab, 0x2e8e845f, 0xdce5075c)
  }

  function Row9(l: bv8): word {
    Pick(l, 0x92a8fc17, 0x60c37f14, 0x73938ce0, 0x81f80fe3, 0x55326b08, 0xa759e80b, 0xb4091bff, 0x466298fc,
            0x1871a4d8, 0xea1a27db, 0xf94ad42f, 0x0b21572c, 0xdfeb33c7, 0x2d80b0c4, 0x3ed04330, 0xccbbc033)
  }

  function Row10(l: bv8): word {
    Pick(l, 0xa24bb5a6, 0x502036a5, 0x4370c551, 0xb11b4652, 0x65d122b9, 0x97baa1ba, 0x84ea524e, 0x7681d14d,
            0x2892ed69, 0xdaf96e6a, 0xc9a99d9e, 0x3bc21e9d, 0xef087a76, 0x1d63f975, 0x0e330a81, 0xfc588982)
  }

  function Row11(l: bv8): word {
    Pick(l, 0xb21572c9, 0x407ef1ca, 0x532e023e, 0xa145813d, 0x758fe5d6, 0x87e466d5, 0x94b49521, 0x66df1622,
            0x38cc2a06, 0xcaa7a905, 0xd9f75af1, 0x2b9cd9f2, 0xff56bd19, 0x0d3d3e1a, 0x1e6dcdee, 0xec064eed)
  }

  function Row12(l: bv8): word {
    Pick(l, 0xc38d26c4, 0x31e6a5c7, 0x22b65633, 0xd0ddd530, 0x0417b1db, 0xf67c32d8, 0xe52cc12c, 0x1747422f,
            0x49547e0b, 0xbb3ffd08, 0xa86f0efc, 0x5a048dff, 0x8ecee914, 0x7ca56a17, 0x6ff599e3, 0x9d9e1ae0)
  }

  function Row13(l: bv8): word {
    Pick(l, 0xd3d3e1ab, 0x21b862a8, 0x32e8915c, 0xc083125f, 0x144976b4, 0xe622f5b7, 0xf5720643, 0x07198540,
            0x590ab964, 0xab613a67, 0xb831c993, 0x4a5a4a90, 0x9e902e7b, 0x6cfbad78, 0x7fab5e8c, 0x8dc0dd8f)
  }

  function Row14(l: bv8): word {
    Pick(l, 0xe330a81a, 0x115b2b19, 0x020bd8ed, 0xf0605bee, 0x24aa3f05, 0xd6c1bc06, 0xc5914ff2, 0x37faccf1,
            0x69e9f0d5, 0x9b8273d6, 0x88d28022, 0x7ab90321, 0xae7367ca, 0x5c18e4c9, 0x4f48173d, 0xbd23943e)
  }

  function Row15(l: bv8): word {
    Pick(l, 0xf36e6f75, 0x0105ec76, 0x12551f82, 0xe03e9c81, 0x34f4f86a, 0xc69f7b69, 0xd5cf889d, 0x27a40b9e,
            0x79b737ba, 0x8bdcb4b9, 0x988c474d, 0x6ae7c44e, 0xbe2da0a5, 0x4c4623a6, 0x5f16d052, 0xad7d5351)
  }

  /** The table, sixteen rows of sixteen. */
  function CrcTable(y: bv8): word {
    var l := y & 0x0f;
    Pick(y >> 4, Row0(l), Row1(l), Row2(l), Row3(l), Row4(l), Row5(l), Row6(l), Row7(l),
                 Row8(l), Row9(l), Row10(l), Row11(l), Row12(l), Row13(l), Row14(l), Row15(l))
  }

  function XorWord(a: word, b: word): word { a ^ b }

  function Half(s: word): word { s >> 1 }

  predicate Low(s: word) { s & 1 == 1 }

  function LowByte(s: word): word { s & 0xff }

  function DropByte(s: word): word { s >> 8 }

  /** One bit of the reflected shift register. */
  function Step(s: word): word { if Low(s) then XorWord(Half(s), POLY) else Half(s) }

  function Step4(s: word): word { Step(Step(Step(Step(s)))) }

  function Step8(s: word): word { Step4(Step4(s)) }

  /** The value of one bit of an index. */
  function Part(y: bv8, bit: bv8, value: word): word { if y & bit != 0 then value else 0 }

  /** The exclusive or of the values of four bits, and of all. */
  function Nibble(y: bv8, v0: word, v1: word, v2: word, v3: word): word {
    XorWord(XorWord(Part(y, 0x01, v0), Part(y, 0x02, v1)), XorWord(Part(y, 0x04, v2), Part(y, 0x08, v3)))
  }

  function Parts(y: bv8, v0: word, v1: word, v2: word, v3: word, v4: word, v5: word, v6: word, v7: word): word {
    XorWord(Nibble(y & 0x0f, v0, v1, v2, v3), Nibble(y >> 4, v4, v5, v6, v7))
  }

  lemma LowIndex(l: bv8)
    requires l & 0xf0 == 0
    ensures Widen(l) == Nibble(l, 0x01, 0x02, 0x04, 0x08)
  {}

  lemma HighIndex(h: bv8)
    requires h & 0xf0 == 0
    ensures Widen(h << 4) == Nibble(h, 0x10, 0x20, 0x40, 0x80)
  {}

  lemma IndexHalves(y: bv8)
    ensures Widen(y) == XorWord(Widen(y & 0x0f), Widen(y >> 4 << 4))
    ensures (y & 0x0f) & 0xf0 == 0 && (y >> 4) & 0xf0 == 0
  {}

  lemma IndexParts(y: bv8)
    ensures Widen(y) == Parts(y, 0x01, 0x02, 0x04, 0x08, 0x10, 0x20, 0x40, 0x80)
  {
    hide Widen, Nibble, XorWord;
    IndexHalves(y);
    LowIndex(y & 0x0f);
    HighIndex(y >> 4);
  }

  /** The first row, as what each bit of the index contributes. */
  function LowBits(l: bv8): word { Nibble(l, 0xf26b8303, 0xe13b70f7, 0xc79a971f, 0x8ad958cf) }

  // Each row of the table is linear in the low bits of the index, up to its first entry.

  lemma Rows0(l: bv8)
    ensures Row0(l) == XorWord(LowBits(l), 0x00000000)
    ensures Row1(l) == XorWord(LowBits(l), 0x105ec76f)
    ensures Row2(l) == XorWord(LowBits(l), 0x20bd8ede)
    ensures Row3(l) == XorWord(LowBits(l), 0x30e349b1)
  {}

  lemma Rows4(l: bv8)
    ensures Row4(l) == XorWord(LowBits(l), 0x417b1dbc)
    ensures Row5(l) == XorWord(LowBits(l), 0x5125dad3)
    ensures Row6(l) == XorWord(LowBits(l), 0x61c69362)
    ensures Row7(l) == XorWord(LowBits(l), 0x7198540d)
  {}

  lemma Rows8(l: bv8)
    ensures Row8(l) == XorWord(LowBits(l), 0x82f63b78)
    ensures Row9(l) == XorWord(LowBits(l), 0x92a8fc17)
    ensures Row10(l) == XorWord(LowBits(l), 0xa24bb5a6)
    ensures Row11(l) == XorWord(LowBits(l), 0xb21572c9)
  {}

  lemma Rows12(l: bv8)
    ensures Row12(l) == XorWord(LowBits(l), 0xc38d26c4)
    ensures Row13(l) == XorWord(LowBits(l), 0xd3d3e1ab)
    ensures Row14(l) == XorWord(LowBits(l), 0xe330a81a)
    ensures Row15(l) == XorWord(LowBits(l), 0xf36e6f75)
  {}

  lemma FirstColumn(k: bv8)
    ensures Pick(k, 0x00000000, 0x105ec76f, 0x20bd8ede, 0x30e349b1,
                    0x417b1dbc, 0x5125dad3, 0x61c69362, 0x7198540d,
                    0x82f63b78, 0x92a8fc17, 0xa24bb5a6, 0xb21572c9,
                    0xc38d26c4, 0xd3d3e1ab, 0xe330a81a, 0xf36e6f75)
         == Nibble(k, 0x105ec76f, 0x20bd8ede, 0x417b1dbc, 0x82f63b78)
  {}

  lemma PickXor(k: bv8, a: word, c0: word, c1: word, c2: word, c3: word, c4: word, c5: word, c6: word, c7: word,
                c8: word, c9: word, c10: word, c11: word, c12: word, c13: word, c14: word, c15: word)
    ensures Pick(k, XorWord(a, c0), XorWord(a, c1), XorWord(a, c2), XorWord(a, c3),
                    XorWord(a, c4), XorWord(a, c5), XorWord(a, c6), XorWord(a, c7),
                    XorWord(a, c8), XorWord(a, c9), XorWord(a, c10), XorWord(a, c11),
                    XorWord(a, c12), XorWord(a, c13), XorWord(a, c14), XorWord(a, c15))
         == XorWord(a, Pick(k, c0, c1, c2, c3, c4, c5, c6, c7, c8, c9, c10, c11, c12, c13, c14, c15))
  {
    hide XorWord;
  }

  /** The table is linear in the bits of the index. */
  lemma TableParts(y: bv8)
    ensures CrcTable(y) == Parts(y, 0xf26b8303, 0xe13b70f7, 0xc79a971f, 0x8ad958cf,
                                    0x105ec76f, 0x20bd8ede, 0x417b1dbc, 0x82f63b78)
  {
    hide Pick, Nibble, XorWord, Row0, Row1, Row2, Row3, Row4, Row5, Row6, Row7;
    hide Row8, Row9, Row10, Row11, Row12, Row13, Row14, Row15;
    var l := y & 0x0f;
    Rows0(l);
    Rows4(l);
    Rows8(l);
    Rows12(l);
    FirstColumn(y >> 4);
    PickXor(y >> 4, LowBits(l),
      0x00000000, 0x105ec76f, 0x20bd8ede, 0x30e349b1, 0x417b1dbc, 0x5125dad3, 0x61c69362, 0x7198540d,
      0x82f63b78, 0x92a8fc17, 0xa24bb5a6, 0xb21572c9, 0xc38d26c4, 0xd3d3e1ab, 0xe330a81a, 0xf36e6f75);
  }

  lemma StepPart(y: bv8, bit: bv8, value: word)
    ensures Step8(Part(y, bit, value)) == Part(y, bit, Step8(value))
  {
    StepsOfZero();
    hide Step8;
  }

  lemma StepsOfZero()
    ensures Step8(0) == 0
  {}

  /** And so are eight steps. */
  lemma StepNibble(y: bv8, v0: word, v1: word, v2: word, v3: word)
    ensures Step8(Nibble(y, v0, v1, v2, v3)) == Nibble(y, Step8(v0), Step8(v1), Step8(v2), Step8(v3))
  {
    hide Step8, Part, XorWord;
    StepPart(y, 0x01, v0);
    StepPart(y, 0x02, v1);
    StepPart(y, 0x04, v2);
    StepPart(y, 0x08, v3);
    var a, b, c, d := Part(y, 0x01, v0), Part(y, 0x02, v1), Part(y, 0x04, v2), Part(y, 0x08, v3);
    Step8Xor(a, b);
    Step8Xor(c, d);
    Step8Xor(XorWord(a, b), XorWord(c, d));
  }

  lemma StepParts(y: bv8, v0: word, v1: word, v2: word, v3: word, v4: word, v5: word, v6: word, v7: word)
    ensures Step8(Parts(y, v0, v1, v2, v3, v4, v5, v6, v7))
         == Parts(y, Step8(v0), Step8(v1), Step8(v2), Step8(v3), Step8(v4), Step8(v5), Step8(v6), Step8(v7))
  {
    hide Step8, Nibble, XorWord;
    StepNibble(y & 0x0f, v0, v1, v2, v3);
    StepNibble(y >> 4, v4, v5, v6, v7);
    Step8Xor(Nibble(y & 0x0f, v0, v1, v2, v3), Nibble(y >> 4, v4, v5, v6, v7));
  }

  lemma StepsOfBits()
    ensures Step8(0x01) == 0xf26b8303
    ensures Step8(0x02) == 0xe13b70f7
    ensures Step8(0x04) == 0xc79a971f
    ensures Step8(0x08) == 0x8ad958cf
    ensures Step8(0x10) == 0x105ec76f
    ensures Step8(0x20) == 0x20bd8ede
    ensures Step8(0x40) == 0x417b1dbc
    ensures Step8(0x80) == 0x82f63b78
  {
    hide Step, Step4, Step8;
    EightOf(0x01, 0x82f63b78, 0x417b1dbc, 0x20bd8ede, 0x105ec76f, 0x8ad958cf, 0xc79a971f, 0xe13b70f7, 0xf26b8303);
    EightOf(0x02, 0x00000001, 0x82f63b78, 0x417b1dbc, 0x20bd8ede, 0x105ec76f, 0x8ad958cf, 0xc79a971f, 0xe13b70f7);
    EightOf(0x04, 0x00000002, 0x00000001, 0x82f63b78, 0x417b1dbc, 0x20bd8ede, 0x105ec76f, 0x8ad958cf, 0xc79a971f);
    EightOf(0x08, 0x00000004, 0x00000002, 0x00000001, 0x82f63b78, 0x417b1dbc, 0x20bd8ede, 0x105ec76f, 0x8ad958cf);
    EightOf(0x10, 0x00000008, 0x00000004, 0x00000002, 0x00000001, 0x82f63b78, 0x417b1dbc, 0x20bd8ede, 0x105ec76f);
    EightOf(0x20, 0x00000010, 0x00000008, 0x00000004, 0x00000002, 0x00000001, 0x82f63b78, 0x417b1dbc, 0x20bd8ede);
    EightOf(0x40, 0x00000020, 0x00000010, 0x00000008, 0x00000004, 0x00000002, 0x00000001, 0x82f63b78, 0x417b1dbc);
    EightOf(0x80, 0x00000040, 0x00000020, 0x00000010, 0x00000008, 0x00000004, 0x00000002, 0x00000001, 0x82f63b78);
  }

  lemma EightOf(s: word, s1: word, s2: word, s3: word, s4: word, s5: word, s6: word, s7: word, s8: word)
    requires Moves(s, s1) && Moves(s1, s2) && Moves(s2, s3) && Moves(s3, s4)
    requires Moves(s4, s5) && Moves(s5, s6) && Moves(s6, s7) && Moves(s7, s8)
    ensures Step8(s) == s8
  {
    hide Step, Moves;
    MovesStep(s, s1);
    MovesStep(s1, s2);
    MovesStep(s2, s3);
    MovesStep(s3, s4);
    MovesStep(s4, s5);
    MovesStep(s5, s6);
    MovesStep(s6, s7);
    MovesStep(s7, s8);
  }

  predicate Moves(s: word, t: word) { t == if s & 1 == 1 then (s >> 1) ^ POLY else s >> 1 }

  lemma MovesStep(s: word, t: word)
    requires Moves(s, t)
    ensures Step(s) == t
  {}

  lemma TableIsBitSerial(y: bv8)
    ensures CrcTable(y) == Step8(Widen(y))
  {
    hide CrcTable, Step8, Parts, Widen;
    IndexParts(y);
    TableParts(y);
    StepsOfBits();
    StepParts(y, 0x01, 0x02, 0x04, 0x08, 0x10, 0x20, 0x40, 0x80);
  }

  // ---- the register is linear and loses nothing

  lemma XorWordComm(a: word, b: word)
    ensures XorWord(a, b) == XorWord(b, a)
  {}

  lemma XorWordAssoc(a: word, b: word, c: word)
    ensures XorWord(XorWord(a, b), c) == XorWord(a, XorWord(b, c))
  {}

  lemma XorWordCancel(a: word, b: word)
    ensures XorWord(XorWord(a, b), b) == a
  {}

  lemma XorWordInjective(a: word, b: word, c: word)
    ensures XorWord(a, c) == XorWord(b, c) <==> a == b
  {
    hide XorWord;
    XorWordCancel(a, c);
    XorWordCancel(b, c);
  }

  /** A constant folded into one side, or into both. */
  lemma XorWordFold(a: word, b: word, p: word)
    ensures XorWord(XorWord(a, p), XorWord(b, p)) == XorWord(a, b)
    ensures XorWord(XorWord(a, p), b) == XorWord(XorWord(a, b), p)
    ensures XorWord(a, XorWord(b, p)) == XorWord(XorWord(a, b), p)
  {
    hide XorWord;
    XorWordAssoc(a, p, b);
    XorWordAssoc(a, b, p);
    XorWordComm(p, b);
    XorWordAssoc(a, p, XorWord(b, p));
    XorWordComm(p, XorWord(b, p));
    XorWordCancel(b, p);
  }

  lemma HalfXor(a: word, b: word)
    ensures Half(XorWord(a, b)) == XorWord(Half(a), Half(b))
    ensures Low(XorWord(a, b)) <==> Low(a) != Low(b)
  {}

  lemma StepXor(a: word, b: word)
    ensures Step(XorWord(a, b)) == XorWord(Step(a), Step(b))
  {
    hide Half, Low, XorWord;
    HalfXor(a, b);
    XorWordFold(Half(a), Half(b), POLY);
  }

  lemma Step4Xor(a: word, b: word)
    ensures Step4(XorWord(a, b)) == XorWord(Step4(a), Step4(b))
  {
    hide Step, XorWord;
    StepXor(a, b);
    StepXor(Step(a), Step(b));
    StepXor(Step(Step(a)), Step(Step(b)));
    StepXor(Step(Step(Step(a))), Step(Step(Step(b))));
  }

  lemma Step8Xor(a: word, b: word)
    ensures Step8(XorWord(a, b)) == XorWord(Step8(a), Step8(b))
  {
    hide Step4, XorWord;
    Step4Xor(a, b);
    Step4Xor(Step4(a), Step4(b));
  }

  lemma StepInjective(a: word, b: word)
    ensures Step(a) == Step(b) ==> a == b
  {}

  lemma Step4Injective(a: word, b: word)
    ensures Step4(a) == Step4(b) ==> a == b
  {
    hide Step;
    StepInjective(a, b);
    StepInjective(Step(a), Step(b));
    StepInjective(Step(Step(a)), Step(Step(b)));
    StepInjective(Step(Step(Step(a))), Step(Step(Step(b))));
  }

  lemma Step8Injective(a: word, b: word)
    ensures Step8(a) == Step8(b) ==> a == b
  {
    hide Step4;
    Step4Injective(a, b);
    Step4Injective(Step4(a), Step4(b));
  }

  lemma Step8Shifts(s: word)
    requires LowByte(s) == 0
    ensures Step8(s) == DropByte(s)
  {}

  lemma SplitLowByte(s: word)
    ensures s == XorWord(LowByte(s), s & 0xffffff00)
    ensures LowByte(s & 0xffffff00) == 0 && DropByte(s & 0xffffff00) == DropByte(s)
  {}

  /** Eight steps look only at the low byte; the rest moves down. */
  lemma Step8Split(s: word)
    ensures Step8(s) == XorWord(Step8(LowByte(s)), DropByte(s))
  {
    hide Step8, XorWord, LowByte, DropByte;
    SplitLowByte(s);
    Step8Xor(LowByte(s), s & 0xffffff00);
    Step8Shifts(s & 0xffffff00);
  }

  // ---- bytes and words

  function Widen(y: bv8): word { y as word }

  function Narrow(s: word): bv8 { (s & 0xff) as bv8 }

  function WordOf(b: byte): word { Widen(ToMachine(b)) }

  function LastByte(s: word): byte { OfMachine(Narrow(s)) }

  lemma WidenFacts(y: bv8)
    ensures Narrow(Widen(y)) == y
    ensures LowByte(Widen(y)) == Widen(y) && DropByte(Widen(y)) == 0
    ensures Half(Widen(y)) == Widen(y >> 1)
    ensures Low(Widen(y)) <==> y & 1 == 1
  {}

  lemma NarrowFacts(s: word)
    ensures Widen(Narrow(s)) == LowByte(s)
  {}

  lemma WordOfFacts(b: byte)
    ensures LastByte(WordOf(b)) == b
    ensures LowByte(WordOf(b)) == WordOf(b) && DropByte(WordOf(b)) == 0
  {
    hide Narrow, Widen, ToMachine, OfMachine, LowByte, DropByte;
    WidenFacts(ToMachine(b));
  }

  lemma LastByteFacts(s: word)
    ensures WordOf(LastByte(s)) == LowByte(s)
  {
    hide Narrow, Widen, ToMachine, OfMachine, LowByte;
    NarrowFacts(s);
    MachineRoundTrip(Narrow(s));
  }

  lemma WordOfHalves(b: byte)
    ensures Half(WordOf(b)) == WordOf(b / 2)
    ensures Low(WordOf(b)) <==> b % 2 == 1
  {
    hide Widen, ToMachine, OfMachine, Half, Low;
    var y := ToMachine(b);
    WidenFacts(y);
    MachineHalf(y);
    MachineRoundTrip(y >> 1);
    LowBit(y);
  }

  lemma LowBit(y: bv8)
    ensures y & 1 == 1 <==> OfMachine(y) % 2 == 1
  {
    MachineHalf(y);
    assert y & 1 == 0 || y & 1 == 1;
    assert OfMachine(0) == 0 && OfMachine(1) == 1;
    hide OfMachine;
  }

  lemma WordOfBits()
    ensures WordOf(0) == 0 && WordOf(1) == 1
  {}

  // ---- the register over a message

  /** The reference: shift in one byte, least significant bit first. */
  function FeedBits(s: word, b: byte, k: nat): word
    decreases k
  {
    if k == 0 then s else FeedBits(Step(XorWord(s, WordOf(b % 2))), b / 2, k - 1)
  }

  function Register(s: word, data: seq<byte>): word {
    if data == [] then s
    else FeedBits(Register(s, data[..|data| - 1]), data[|data| - 1], 8)
  }

  /** Feeding the low bit and keeping the rest in the register is feeding all of b. */
  lemma FeedLowBit(s: word, b: byte)
    ensures Step(XorWord(s, WordOf(b))) == XorWord(Step(XorWord(s, WordOf(b % 2))), WordOf(b / 2))
  {
    hide XorWord, Half, Low, WordOf;
    WordOfHalves(b);
    WordOfHalves(b % 2);
    WordOfBits();
    HalfXor(s, WordOf(b));
    HalfXor(s, WordOf(b % 2));
    XorWordFold(Half(s), WordOf(b / 2), POLY);
    XorWordZero(Half(s));
  }

  lemma XorWordZero(a: word)
    ensures XorWord(a, 0) == a
  {}

  /** Feeding k bits of b is k steps on the register with all of b mixed in. */
  lemma {:induction false} FeedBitsIsSteps(s: word, b: byte, k: nat)
    requires b < Pow2(k)
    ensures FeedBits(s, b, k) == Steps(XorWord(s, WordOf(b)), k)
    decreases k
  {
    hide XorWord, Step, WordOf;
    if k == 0 {
      WordOfBits();
      XorWordZero(s);
    } else {
      FeedLowBit(s, b);
      FeedBitsIsSteps(Step(XorWord(s, WordOf(b % 2))), b / 2, k - 1);
    }
  }

  function Steps(s: word, k: nat): word
    decreases k
  {
    if k == 0 then s else Steps(Step(s), k - 1)
  }

  lemma FeedByte(s: word, b: byte)
    ensures FeedBits(s, b, 8) == Step8(XorWord(s, WordOf(b)))
  {
    hide XorWord, Step, WordOf, FeedBits;
    assert Pow2(8) == 256;
    FeedBitsIsSteps(s, b, 8);
    EightSteps(XorWord(s, WordOf(b)));
  }

  lemma EightSteps(s: word)
    ensures Steps(s, 8) == Step8(s)
  {
    hide Step;
  }

  /** One round of the table-driven loop is eight rounds of the bit-serial one. */
  lemma TableStep(crc: word, b: byte)
    ensures XorWord(CrcTable(Narrow(XorWord(crc, WordOf(b)))), DropByte(crc)) == FeedBits(crc, b, 8)
  {
    hide XorWord, Step8, WordOf, FeedBits, CrcTable, Narrow, Widen, LowByte, DropByte;
    var x := XorWord(crc, WordOf(b));
    FeedByte(crc, b);
    Step8Split(x);
    TableIsBitSerial(Narrow(x));
    NarrowFacts(x);
    DropByteXor(crc, WordOf(b));
    WordOfFacts(b);
    XorWordZero(DropByte(crc));
  }

  lemma DropByteXor(a: word, b: word)
    ensures DropByte(XorWord(a, b)) == XorWord(DropByte(a), DropByte(b))
    ensures LowByte(XorWord(a, b)) == XorWord(LowByte(a), LowByte(b))
  {}

  /** The table-driven loop. */
  method CrcUpdate(crc: word, data: seq<byte>) returns (r: word)
    ensures r == Register(crc, data)
  {
    hide XorWord, WordOf, FeedBits, CrcTable, Narrow, DropByte;
    r := crc;
    for i := 0 to |data|
      invariant r == Register(crc, data[..i])
    {
      TableStep(r, data[i]);
      assert data[..i + 1][..i] == data[..i];
      var tblIdx := Narrow(XorWord(r, WordOf(data[i])));
      r := XorWord(CrcTable(tblIdx), DropByte(r));
    }
    assert data[..|data|] == data;
  }

  // ---- whole messages

  const ONES: word := 0xffffffff

  function Crc32(data: seq<byte>): word { XorWord(Register(ONES, data), ONES) }

  method CalcCrc32(data: seq<byte>) returns (r: word)
    ensures r == Crc32(data)
  {
    r := CrcUpdate(ONES, data);
    r := XorWord(r, ONES);
  }

  lemma {:induction false} RegisterConcat(s: word, a: seq<byte>, b: seq<byte>)
    ensures Register(s, a + b) == Register(Register(s, a), b)
  {
    hide FeedBits;
    if b == [] {
      assert a + b == a;
    } else {
      var b' := b[..|b| - 1];
      assert (a + b)[..|a + b| - 1] == a + b';
      RegisterConcat(s, a, b');
    }
  }

  function Zeros(n: nat): (r: seq<byte>)
    ensures |r| == n
  {
    seq(n, _ => 0)
  }

  lemma ZerosAre(n: nat, i: nat)
    requires i < n
    ensures Zeros(n)[i] == 0
  {}

  /** The checksum of one zero block, fed sixteen bytes at a time. */
  method CreateZeroCrc(blockSize: nat) returns (crc: word)
    ensures crc == Crc32(Zeros(blockSize))
  {
    hide XorWord, Register, Zeros;
    var zeroes := Zeros(16);
    var toSend := blockSize;
    crc := ONES;
    EmptyRegister(ONES);
    while toSend >= 16
      invariant 0 <= toSend <= blockSize
      invariant crc == Register(ONES, Zeros(blockSize - toSend))
    {
      RegisterConcat(ONES, Zeros(blockSize - toSend), zeroes);
      ZerosConcat(blockSize - toSend, 16);
      toSend := toSend - 16;
      crc := CrcUpdate(crc, zeroes);
    }
    if toSend != 0 {
      RegisterConcat(ONES, Zeros(blockSize - toSend), Zeros(toSend));
      ZerosConcat(blockSize - toSend, toSend);
      ZerosPrefix(16, toSend);
      crc := CrcUpdate(crc, zeroes[..toSend]);
    }
    crc := XorWord(crc, ONES);
  }

  lemma ZerosConcat(a: nat, b: nat)
    ensures Zeros(a) + Zeros(b) == Zeros(a + b)
  {}

  lemma ZerosPrefix(a: nat, b: nat)
    requires b <= a
    ensures Zeros(a)[..b] == Zeros(b)
  {}

  lemma EmptyRegister(s: word)
    ensures Register(s, Zeros(0)) == s
  {}

  // ---- bursts of at most four bytes are always detected

  lemma {:induction false} RegisterInjective(s: word, t: word, data: seq<byte>)
    ensures Register(s, data) == Register(t, data) ==> s == t
  {
    hide XorWord, Step8, WordOf, FeedBits;
    if data != [] {
      var d, b := data[..|data| - 1], data[|data| - 1];
      RegisterInjective(s, t, d);
      FeedByte(Register(s, d), b);
      FeedByte(Register(t, d), b);
      Step8Injective(XorWord(Register(s, d), WordOf(b)), XorWord(Register(t, d), WordOf(b)));
      XorWordInjective(Register(s, d), Register(t, d), WordOf(b));
    }
  }

  function MoveUp(s: word): word { s << 8 }

  /** The bytes of w as one word, first byte lowest. */
  function Little(w: seq<byte>): word {
    if w == [] then 0 else XorWord(MoveUp(Little(w[1..])), WordOf(w[0]))
  }

  /** s has at most k significant bytes. */
  predicate Fits(s: word, k: nat) {
    if k == 0 then s == 0 else Fits(DropByte(s), k - 1)
  }

  lemma DropZero()
    ensures DropByte(0) == 0
  {}

  lemma {:induction false} FitsMore(s: word, k: nat, l: nat)
    requires Fits(s, k) && k <= l
    ensures Fits(s, l)
    decreases l
  {
    hide DropByte;
    DropZero();
    if k > 0 {
      FitsMore(DropByte(s), k - 1, l - 1);
    } else if l > 0 {
      FitsMore(0, 0, l - 1);
    }
  }

  lemma MoveUpDrop(s: word)
    requires s & 0xff000000 == 0
    ensures DropByte(MoveUp(s)) == s
  {}

  lemma MoveUpLow(s: word)
    ensures LowByte(MoveUp(s)) == 0
  {}

  lemma ThreeBytes(s: word)
    requires DropByte(DropByte(DropByte(s))) == 0
    ensures s & 0xff000000 == 0
  {}

  lemma MoveUpFacts(s: word, k: nat)
    requires Fits(s, k) && k <= 3
    ensures DropByte(MoveUp(s)) == s && LowByte(MoveUp(s)) == 0
  {
    hide DropByte, MoveUp, LowByte;
    FitsMore(s, k, 3);
    assert Fits(DropByte(s), 2);
    assert Fits(DropByte(DropByte(s)), 1);
    assert Fits(DropByte(DropByte(DropByte(s))), 0);
    ThreeBytes(s);
    MoveUpDrop(s);
    MoveUpLow(s);
  }

  lemma {:induction false} LittleFits(w: seq<byte>)
    requires |w| <= 4
    ensures Fits(Little(w), |w|)
  {
    hide XorWord, MoveUp, DropByte, WordOf;
    if w != [] {
      var l := Little(w[1..]);
      LittleFits(w[1..]);
      MoveUpFacts(l, |w| - 1);
      DropByteXor(MoveUp(l), WordOf(w[0]));
      WordOfFacts(w[0]);
      XorWordZero(l);
    }
  }

  /** Low byte and rest of Little(w). */
  lemma LittleParts(w: seq<byte>)
    requires 0 < |w| <= 4
    ensures LowByte(Little(w)) == WordOf(w[0])
    ensures DropByte(Little(w)) == Little(w[1..])
    ensures Step8(MoveUp(Little(w[1..]))) == Little(w[1..])
  {
    hide XorWord, MoveUp, WordOf, LowByte, DropByte, Fits, Step8;
    var l := Little(w[1..]);
    LittleFits(w[1..]);
    MoveUpFacts(l, |w| - 1);
    DropByteXor(MoveUp(l), WordOf(w[0]));
    WordOfFacts(w[0]);
    XorWordZero(l);
    XorWordComm(0, WordOf(w[0]));
    XorWordZero(WordOf(w[0]));
    Step8Shifts(MoveUp(l));
  }

  lemma {:induction false} LittleInjective(v: seq<byte>, w: seq<byte>)
    requires |v| == |w| <= 4 && Little(v) == Little(w)
    ensures v == w
  {
    hide XorWord, MoveUp, WordOf, LowByte, DropByte;
    if v != [] {
      LittleParts(v);
      LittleParts(w);
      WordOfFacts(v[0]);
      WordOfFacts(w[0]);
      LittleInjective(v[1..], w[1..]);
      assert v == [v[0]] + v[1..] && w == [w[0]] + w[1..];
    }
  }

  lemma RegisterHead(s: word, w: seq<byte>)
    requires w != []
    ensures Register(s, w) == Register(FeedBits(s, w[0], 8), w[1..])
  {
    hide FeedBits;
    RegisterConcat(s, [w[0]], w[1..]);
    assert w == [w[0]] + w[1..];
    RegisterOne(s, w[0]);
  }

  lemma RegisterOne(s: word, b: byte)
    ensures Register(s, [b]) == FeedBits(s, b, 8)
  {
    hide FeedBits;
    assert [b][..0] == [];
  }

  /** Up to four bytes enter the register together: feeding them is mixing them in at once. */
  lemma {:induction false} RegisterWindow(s: word, t: word, v: seq<byte>, w: seq<byte>)
    requires |v| == |w| <= 4
    requires Register(s, v) == Register(t, w)
    ensures XorWord(s, Little(v)) == XorWord(t, Little(w))
    decreases |v|
  {
    hide XorWord, Step8, WordOf, FeedBits, Register, MoveUp, Little;
    if v == [] {
      EmptyWindow(s, v);
      EmptyWindow(t, w);
    } else {
      RegisterHead(s, v);
      RegisterHead(t, w);
      RegisterWindow(FeedBits(s, v[0], 8), FeedBits(t, w[0], 8), v[1..], w[1..]);
      WindowStep(s, v);
      WindowStep(t, w);
      Step8Injective(XorWord(s, Little(v)), XorWord(t, Little(w)));
    }
  }

  lemma EmptyWindow(s: word, v: seq<byte>)
    requires v == []
    ensures Register(s, v) == s == XorWord(s, Little(v))
  {
    XorWordZero(s);
  }

  lemma WindowStep(s: word, v: seq<byte>)
    requires 0 < |v| <= 4
    ensures XorWord(FeedBits(s, v[0], 8), Little(v[1..])) == Step8(XorWord(s, Little(v)))
  {
    hide XorWord, Step8, WordOf, FeedBits, MoveUp;
    var l, b := Little(v[1..]), WordOf(v[0]);
    FeedByte(s, v[0]);
    LittleParts(v);
    XorWordComm(MoveUp(l), b);
    XorWordAssoc(s, b, MoveUp(l));
    Step8Xor(XorWord(s, b), MoveUp(l));
  }

  /** Any change confined to at most four consecutive bytes changes the checksum. */
  lemma BurstDetected(pre: seq<byte>, v: seq<byte>, w: seq<byte>, post: seq<byte>)
    requires |v| == |w| <= 4 && v != w
    ensures Crc32(pre + v + post) != Crc32(pre + w + post)
  {
    hide XorWord, Register, Little;
    var s := Register(ONES, pre);
    RegisterConcat(ONES, pre + v, post);
    RegisterConcat(ONES, pre, v);
    RegisterConcat(ONES, pre + w, post);
    RegisterConcat(ONES, pre, w);
    XorWordInjective(Register(ONES, pre + v + post), Register(ONES, pre + w + post), ONES);
    if Crc32(pre + v + post) == Crc32(pre + w + post) {
      RegisterInjective(Register(s, v), Register(s, w), post);
      RegisterWindow(s, s, v, w);
      XorWordComm(s, Little(v));
      XorWordComm(s, Little(w));
      XorWordInjective(Little(v), Little(w), s);
      LittleInjective(v, w);
    }
  }

  // ---- the residue, which fixes the start value, the inversion and the order of the bits

  /** Eight steps for every byte of a window. */
  function Windows(s: word, k: nat): word
    decreases k
  {
    if k == 0 then s else Windows(Step8(s), k - 1)
  }

  lemma {:induction false} RegisterOfWindow(s: word, v: seq<byte>)
    requires |v| <= 4
    ensures Register(s, v) == Windows(XorWord(s, Little(v)), |v|)
    decreases |v|
  {
    hide XorWord, Step8, FeedBits, Register, Little;
    if v == [] {
      EmptyWindow(s, v);
    } else {
      RegisterHead(s, v);
      RegisterOfWindow(FeedBits(s, v[0], 8), v[1..]);
      WindowStep(s, v);
    }
  }

  /** A word, least significant byte first. */
  function Bytes(s: word, k: nat): (v: seq<byte>)
    ensures |v| == k
    decreases k
  {
    if k == 0 then [] else [LastByte(s)] + Bytes(DropByte(s), k - 1)
  }

  lemma {:induction false} LittleBytes(s: word, k: nat)
    requires k <= 4 && Fits(s, k)
    ensures Little(Bytes(s, k)) == s
    decreases k
  {
    hide XorWord, MoveUp, DropByte, LowByte, LastByte, WordOf;
    if k > 0 {
      var v := Bytes(s, k);
      LittleBytes(DropByte(s), k - 1);
      assert v[1..] == Bytes(DropByte(s), k - 1);
      LittleParts(v);
      LastByteFacts(s);
      SameParts(Little(v), s);
    }
  }

  lemma SameParts(s: word, t: word)
    requires LowByte(s) == LowByte(t) && DropByte(s) == DropByte(t)
    ensures s == t
  {}

  lemma FourBytesFit(s: word)
    ensures Fits(s, 4)
  {
    var s2 := DropByte(DropByte(s));
    assert DropByte(DropByte(s2)) == 0;
    hide DropByte;
    assert Fits(DropByte(DropByte(s2)), 0);
    assert Fits(DropByte(s2), 1) && Fits(s2, 2) && Fits(DropByte(s), 3);
  }

  lemma WindowsOfOnes()
    ensures Windows(0xffffffff, 4) == 0xb798b438
  {
    hide Step8, Moves;
    OnesMove();
  }

  lemma OnesMove()
    ensures Step8(0xffffffff) == 0xad82acae && Step8(0xad82acae) == 0x0e9e882d
    ensures Step8(0x0e9e882d) == 0x9f9b5c85 && Step8(0x9f9b5c85) == 0xb798b438
  {
    hide Step8, Step;
    EightOf(0xffffffff, 0xfd09c487, 0xfc72d93b, 0xfccf57e5, 0xfc91908a, 0x7e48c845, 0xbdd25f5a, 0x5ee92fad, 0xad82acae);
    EightOf(0xad82acae, 0x56c15657, 0xa9969053, 0xd63d7351, 0xe9e882d0, 0x74f44168, 0x3a7a20b4, 0x1d3d105a, 0x0e9e882d);
    EightOf(0x0e9e882d, 0x85b97f6e, 0x42dcbfb7, 0xa39864a3, 0xd33a0929, 0xeb6b3fec, 0x75b59ff6, 0x3adacffb, 0x9f9b5c85);
    EightOf(0x9f9b5c85, 0xcd3b953a, 0x669dca9d, 0xb1b8de36, 0x58dc6f1b, 0xae980cf5, 0xd5ba3d02, 0x6add1e81, 0xb798b438);
  }

  /** Appending the checksum, least significant byte first, leaves the same residue of every message. */
  lemma Residue(data: seq<byte>)
    ensures var c := Crc32(data);
      Register(0xffffffff,
               data + [LastByte(c), LastByte(DropByte(c)), LastByte(DropByte(DropByte(c))),
                       LastByte(DropByte(DropByte(DropByte(c))))])
      == 0xb798b438
  {
    hide XorWord, Register, Little, Windows, LastByte, DropByte;
    var s, c := Register(ONES, data), Crc32(data);
    var v := Bytes(c, 4);
    assert v == [LastByte(c), LastByte(DropByte(c)), LastByte(DropByte(DropByte(c))),
                 LastByte(DropByte(DropByte(DropByte(c))))] by {
      BytesFour(c);
    }
    RegisterConcat(ONES, data, v);
    RegisterOfWindow(s, v);
    FourBytesFit(c);
    LittleBytes(c, 4);
    XorWordComm(s, ONES);
    XorWordComm(s, XorWord(ONES, s));
    XorWordCancel(ONES, s);
    WindowsOfOnes();
  }

  lemma BytesFour(c: word)
    ensures Bytes(c, 4) == [LastByte(c), LastByte(DropByte(c)), LastByte(DropByte(DropByte(c))),
                            LastByte(DropByte(DropByte(DropByte(c))))]
  {
    hide LastByte, DropByte;
    assert Bytes(c, 4) == [LastByte(c)] + Bytes(DropByte(c), 3);
    assert Bytes(DropByte(c), 3) == [LastByte(DropByte(c))] + Bytes(DropByte(DropByte(c)), 2);
    var d := DropByte(DropByte(c));
    assert Bytes(d, 2) == [LastByte(d)] + Bytes(DropByte(d), 1);
    assert Bytes(DropByte(d), 1) == [LastByte(DropByte(d))] + Bytes(DropByte(DropByte(d)), 0);
  }

  lemma NextByte(data: seq<byte>, i: nat, s: word, y: bv8, t: word)
    requires i < |data| && data[i] == OfMachine(y) && Register(ONES, data[..i]) == s && Step8(s ^ (y as word)) == t
    ensures Register(ONES, data[..i + 1]) == t
  {
    hide Step8, FeedBits, ToMachine, OfMachine;
    FeedByte(s, OfMachine(y));
    MachineRoundTrip(y);
    assert data[..i + 1][..i] == data[..i];
  }

  lemma CheckSteps()
    ensures Step8(0xffffffce) == 0x6f0a661c
    ensures Step8(0x6f0a662e) == 0x8caa3b9f
    ensures Step8(0x8caa3bac) == 0xef84d04d
    ensures Step8(0xef84d079) == 0x09c50b11
    ensures Step8(0x09c50b24) == 0xe72edcca
    ensures Step8(0xe72edcfc) == 0xbeca8e79
    ensures Step8(0xbeca8e4e) == 0xedbd6815
    ensures Step8(0xedbd682d) == 0x9f787f65
    ensures Step8(0x9f787f5c) == 0x1cf96d7c
  {
    hide Step8, Step;
    EightOf(0xffffffce, 0x7fffffe7, 0xbd09c48b, 0xdc72d93d, 0xeccf57e6, 0x7667abf3, 0xb9c5ee81, 0xde14cc38, 0x6f0a661c);
    EightOf(0x6f0a662e, 0x37853317, 0x9934a2f3, 0xce6c6a01, 0xe5c00e78, 0x72e0073c, 0x3970039e, 0x1cb801cf, 0x8caa3b9f);
    EightOf(0x8caa3bac, 0x46551dd6, 0x232a8eeb, 0x93637c0d, 0xcb47857e, 0x65a3c2bf, 0xb027da27, 0xdae5d66b, 0xef84d04d);
    EightOf(0xef84d079, 0xf5345344, 0x7a9a29a2, 0x3d4d14d1, 0x9c50b110, 0x4e285888, 0x27142c44, 0x138a1622, 0x09c50b11);
    EightOf(0x09c50b24, 0x04e28592, 0x027142c9, 0x83ce9a1c, 0x41e74d0e, 0x20f3a687, 0x928fe83b, 0xcbb1cf65, 0xe72edcca);
    EightOf(0xe72edcfc, 0x73976e7e, 0x39cbb73f, 0x9e13e0e7, 0xcdffcb0b, 0xe409defd, 0xf0f2d406, 0x78796a03, 0xbeca8e79);
    EightOf(0xbeca8e4e, 0x5f654727, 0xad4498eb, 0xd454770d, 0xe8dc00fe, 0x746e007f, 0xb8c13b47, 0xde96a6db, 0xedbd6815);
    EightOf(0xedbd682d, 0xf4288f6e, 0x7a1447b7, 0xbffc18a3, 0xdd083729, 0xec7220ec, 0x76391076, 0x3b1c883b, 0x9f787f65);
    EightOf(0x9f787f5c, 0x4fbc3fae, 0x27de1fd7, 0x91193493, 0xca7aa131, 0xe7cb6be0, 0x73e5b5f0, 0x39f2daf8, 0x1cf96d7c);
  }

  /** The check value of the checksum, that of the digits 1 to 9. */
  lemma CheckValue()
    ensures Crc32([0x31, 0x32, 0x33, 0x34, 0x35, 0x36, 0x37, 0x38, 0x39]) == 0xe3069283
  {
    hide Step8, Step, FeedBits, Register;
    var d: seq<byte> := [0x31, 0x32, 0x33, 0x34, 0x35, 0x36, 0x37, 0x38, 0x39];
    CheckSteps();
    EmptyRegister(ONES);
    assert d[..0] == Zeros(0);
    NextByte(d, 0, 0xffffffff, 0x31, 0x6f0a661c);
    NextByte(d, 1, 0x6f0a661c, 0x32, 0x8caa3b9f);
    NextByte(d, 2, 0x8caa3b9f, 0x33, 0xef84d04d);
    NextByte(d, 3, 0xef84d04d, 0x34, 0x09c50b11);
    NextByte(d, 4, 0x09c50b11, 0x35, 0xe72edcca);
    NextByte(d, 5, 0xe72edcca, 0x36, 0xbeca8e79);
    NextByte(d, 6, 0xbeca8e79, 0x37, 0xedbd6815);
    NextByte(d, 7, 0xedbd6815, 0x38, 0x9f787f65);
    NextByte(d, 8, 0x9f787f65, 0x39, 0x1cf96d7c);
    assert d[..9] == d;
  }

  // ---- big-endian storage

  function PackBe32(from: word): (to: seq<byte>)
    ensures |to| == 4
  {
    [LastByte(DropByte(DropByte(DropByte(from)))), LastByte(DropByte(DropByte(from))),
     LastByte(DropByte(from)), LastByte(from)]
  }

  function Join(b0: word, b1: word, b2: word, b3: word): word { b3 + (b2 << 8) + (b1 << 16) + (b0 << 24) }

  function UnpackBe32(from: seq<byte>): word
    requires |from| == 4
  {
    Join(WordOf(from[0]), WordOf(from[1]), WordOf(from[2]), WordOf(from[3]))
  }

  lemma Reassemble(s: word)
    ensures Join(LowByte(DropByte(DropByte(DropByte(s)))), LowByte(DropByte(DropByte(s))),
                 LowByte(DropByte(s)), LowByte(s)) == s
  {}

  lemma UnpackPack(s: word)
    ensures UnpackBe32(PackBe32(s)) == s
  {
    hide LastByte, WordOf, LowByte, DropByte, Join;
    Reassemble(s);
    LastByteFacts(s);
    LastByteFacts(DropByte(s));
    LastByteFacts(DropByte(DropByte(s)));
    LastByteFacts(DropByte(DropByte(DropByte(s))));
  }

  lemma JoinParts(b0: word, b1: word, b2: word, b3: word)
    requires LowByte(b0) == b0 && LowByte(b1) == b1 && LowByte(b2) == b2 && LowByte(b3) == b3
    ensures var s := Join(b0, b1, b2, b3);
      && LowByte(s) == b3 && LowByte(DropByte(s)) == b2
      && LowByte(DropByte(DropByte(s))) == b1 && LowByte(DropByte(DropByte(DropByte(s)))) == b0
  {}

  /** Different bytes stand for different words. */
  lemma UnpackInjective(a: seq<byte>, b: seq<byte>)
    requires |a| == |b| == 4 && UnpackBe32(a) == UnpackBe32(b)
    ensures a == b
  {
    hide WordOf, LowByte, DropByte, LastByte, Join;
    forall i | 0 <= i < 4
      ensures LowByte(WordOf(a[i])) == WordOf(a[i]) && LowByte(WordOf(b[i])) == WordOf(b[i])
      ensures WordOf(a[i]) == WordOf(b[i]) ==> a[i] == b[i]
    {
      WordOfFacts(a[i]);
      WordOfFacts(b[i]);
    }
    JoinParts(WordOf(a[0]), WordOf(a[1]), WordOf(a[2]), WordOf(a[3]));
    JoinParts(WordOf(b[0]), WordOf(b[1]), WordOf(b[2]), WordOf(b[3]));
  }

  lemma JoinIsOr(a: bv8, b: bv8, c: bv8, d: bv8)
    ensures Join(Widen(a), Widen(b), Widen(c), Widen(d))
         == ((a as word) << 24) | ((b as word) << 16) | ((c as word) << 8) | (d as word)
  {}

  lemma OrIsSum(a: bv8, b: bv8, c: bv8, d: bv8)
    ensures (((a as word) << 24) | ((b as word) << 16) | ((c as word) << 8) | (d as word)) as nat
         == (a as nat) * 0x100_0000 + (b as nat) * 0x1_0000 + (c as nat) * 0x100 + d as nat
  {}

  lemma JoinBytes(a: bv8, b: bv8, c: bv8, d: bv8)
    ensures Join(Widen(a), Widen(b), Widen(c), Widen(d)) as nat
         == OfMachine(a) as nat * 0x100_0000 + OfMachine(b) as nat * 0x1_0000 + OfMachine(c) as nat * 0x100
            + OfMachine(d) as nat
  {
    JoinIsOr(a, b, c, d);
    OrIsSum(a, b, c, d);
    hide Join, Widen;
  }

  /** The most significant byte comes first. */
  lemma UnpackBe32Is(p: seq<byte>)
    requires |p| == 4
    ensures UnpackBe32(p) as nat
         == p[0] as nat * 0x100_0000 + p[1] as nat * 0x1_0000 + p[2] as nat * 0x100 + p[3] as nat
  {
    hide Widen, ToMachine, OfMachine, Join;
    JoinBytes(ToMachine(p[0]), ToMachine(p[1]), ToMachine(p[2]), ToMachine(p[3]));
  }

  lemma PackBe32Is(w: word)
    ensures var p := PackBe32(w);
      w as nat == p[0] as nat * 0x100_0000 + p[1] as nat * 0x1_0000 + p[2] as nat * 0x100 + p[3] as nat
  {
    hide UnpackBe32, PackBe32;
    UnpackPack(w);
    UnpackBe32Is(PackBe32(w));
  }

  lemma UnpackZero()
    ensures UnpackBe32([0, 0, 0, 0]) == 0
  {
    hide WordOf;
    WordOfBits();
  }
}
