/** Values of the hash, which fix its constants, its numbers of rounds and the order of bytes and words:
    what the reference computes step by step. */
module RhashValues {
  import opened Bits
  import opened Rhash
  import opened RhashNative

  lemma {:induction false} Started()
    ensures Exor(0x03020100, 0x6c796765) == 0x6f7b6665 && Exor(0x07060504, 0x74656462) == 0x73636166
  {
    hide CopiedRound, Exor;
    assert Exor(0x03020100, 0x6c796765) == 0x6f7b6665 by { ExorBytes(0x03, 0x02, 0x01, 0x00, 0x6c, 0x79, 0x67, 0x65); }
    assert Exor(0x07060504, 0x74656462) == 0x73636166 by { ExorBytes(0x07, 0x06, 0x05, 0x04, 0x74, 0x65, 0x64, 0x62); }
  }

  lemma {:induction false} NothingLast()
    ensures ExpectedCompress(State(0x03020100, 0x07060504, 0x6f7b6665, 0x73636166), 0x00000000)
            == State(0x87c3abc0, 0xd977f316, 0x6e4fcda7, 0x58137780)
  {
    hide CopiedRound, Exor;
    assert Exor(0x73636166, 0x00000000) == 0x73636166 by { ExorBytes(0x73, 0x63, 0x61, 0x66, 0x00, 0x00, 0x00, 0x00); }
    assert Exor(0xe0c0a080, 0x0a080604) == 0xeac8a684 by { ExorBytes(0xe0, 0xc0, 0xa0, 0x80, 0x0a, 0x08, 0x06, 0x04); }
    assert Exor(0x63616673, 0xe2dec7cb) == 0x81bfa1b8 by { ExorBytes(0x63, 0x61, 0x66, 0x73, 0xe2, 0xde, 0xc7, 0xcb); }
    assert Exor(0x14d09d59, 0xcda76e4f) == 0xd977f316 by { ExorBytes(0x14, 0xd0, 0x9d, 0x59, 0xcd, 0xa7, 0x6e, 0x4f); }
    assert Exor(0xdfd0dc40, 0x87c3abc0) == 0x58137780 by { ExorBytes(0xdf, 0xd0, 0xdc, 0x40, 0x87, 0xc3, 0xab, 0xc0); }
    hide FromBytes, ExorOctet, Number;
    RoundValue(State(0x03020100, 0x07060504, 0x6f7b6665, 0x73636166),
               0x0a080604, 0xe2dec7cb, 0xe0c0a080, 0x0, 0x63616673, 0x73, 0xeac8a684, 0x81bfa1b8,
               0x06040a08, 0xa08, 0xcda76e4f, 0x14d09d59, 0x1d59, 0xdfd0dc40, 0x40, 0xcda7,
               State(0x87c3abc0, 0xd977f316, 0x6e4fcda7, 0x58137780));
    assert Exor(0x87c3abc0, 0x00000000) == 0x87c3abc0 by { ExorBytes(0x87, 0xc3, 0xab, 0xc0, 0x00, 0x00, 0x00, 0x00); }
  }

  lemma {:induction false} NothingFinal1()
    ensures CopiedRound(State(0x87c3abc0, 0xd977f316, 0x6e4fcd58, 0x58137780))
            == State(0x73eb25bb, 0xa9a8e91d, 0x40e51629, 0xf98965d1)
  {
    hide CopiedRound, Exor;
    assert Exor(0x2efe62db, 0x613b9ed6) == 0x4fc5fc0d by { ExorBytes(0x2e, 0xfe, 0x62, 0xdb, 0x61, 0x3b, 0x9e, 0xd6); }
    assert Exor(0x13778058, 0xc66344d8) == 0xd514c480 by { ExorBytes(0x13, 0x77, 0x80, 0x58, 0xc6, 0x63, 0x44, 0xd8); }
    assert Exor(0xbf81a9f8, 0x162940e5) == 0xa9a8e91d by { ExorBytes(0xbf, 0x81, 0xa9, 0xf8, 0x16, 0x29, 0x40, 0xe5); }
    assert Exor(0x8a62406a, 0x73eb25bb) == 0xf98965d1 by { ExorBytes(0x8a, 0x62, 0x40, 0x6a, 0x73, 0xeb, 0x25, 0xbb); }
    hide FromBytes, ExorOctet, Number;
    RoundValue(State(0x87c3abc0, 0xd977f316, 0x6e4fcd58, 0x58137780),
               0x613b9ed6, 0xc66344d8, 0x2efe62db, 0x1b, 0x13778058, 0x58, 0x4fc5fc0d, 0xd514c480,
               0x9ed6613b, 0x613b, 0x162940e5, 0xbf81a9f8, 0x9f8, 0x8a62406a, 0x6a, 0x1629,
               State(0x73eb25bb, 0xa9a8e91d, 0x40e51629, 0xf98965d1));
  }

  lemma {:induction false} NothingFinal2()
    ensures CopiedRound(State(0x73eb25bb, 0xa9a8e91d, 0x40e51629, 0xf98965d1))
            == State(0xc1e3c797, 0x475a0c76, 0xa96762f7, 0x4436c64e)
  {
    hide CopiedRound, Exor;
    assert Exor(0x351d23b5, 0x1d940ed8) == 0x28892d6d by { ExorBytes(0x35, 0x1d, 0x23, 0xb5, 0x1d, 0x94, 0x0e, 0xd8); }
    assert Exor(0x8965d1f9, 0x3a6e7bfa) == 0xb30baa03 by { ExorBytes(0x89, 0x65, 0xd1, 0xf9, 0x3a, 0x6e, 0x7b, 0xfa); }
    assert Exor(0x25ada511, 0x62f7a967) == 0x475a0c76 by { ExorBytes(0x25, 0xad, 0xa5, 0x11, 0x62, 0xf7, 0xa9, 0x67); }
    assert Exor(0x85d501d9, 0xc1e3c797) == 0x4436c64e by { ExorBytes(0x85, 0xd5, 0x01, 0xd9, 0xc1, 0xe3, 0xc7, 0x97); }
    hide FromBytes, ExorOctet, Number;
    RoundValue(State(0x73eb25bb, 0xa9a8e91d, 0x40e51629, 0xf98965d1),
               0x1d940ed8, 0x3a6e7bfa, 0x351d23b5, 0x15, 0x8965d1f9, 0xf9, 0x28892d6d, 0xb30baa03,
               0x0ed81d94, 0x1d94, 0x62f7a967, 0x25ada511, 0x511, 0x85d501d9, 0x59, 0x62f7,
               State(0xc1e3c797, 0x475a0c76, 0xa96762f7, 0x4436c64e));
  }

  lemma {:induction false} NothingFinal3()
    ensures CopiedRound(State(0xc1e3c797, 0x475a0c76, 0xa96762f7, 0x4436c64e))
            == State(0xaf65703e, 0x5b423845, 0x840ad01a, 0x0356f0d3)
  {
    hide CopiedRound, Exor;
    assert Exor(0xeb418ec8, 0x093dd40d) == 0xe27c5ac5 by { ExorBytes(0xeb, 0x41, 0x8e, 0xc8, 0x09, 0x3d, 0xd4, 0x0d); }
    assert Exor(0x36c64e44, 0xed9e2945) == 0xdb586701 by { ExorBytes(0x36, 0xc6, 0x4e, 0x44, 0xed, 0x9e, 0x29, 0x45); }
    assert Exor(0x8b58bc4f, 0xd01a840a) == 0x5b423845 by { ExorBytes(0x8b, 0x58, 0xbc, 0x4f, 0xd0, 0x1a, 0x84, 0x0a); }
    assert Exor(0xac3380ed, 0xaf65703e) == 0x0356f0d3 by { ExorBytes(0xac, 0x33, 0x80, 0xed, 0xaf, 0x65, 0x70, 0x3e); }
    hide FromBytes, ExorOctet, Number;
    RoundValue(State(0xc1e3c797, 0x475a0c76, 0xa96762f7, 0x4436c64e),
               0x093dd40d, 0xed9e2945, 0xeb418ec8, 0x8, 0x36c64e44, 0x44, 0xe27c5ac5, 0xdb586701,
               0xd40d093d, 0x93d, 0xd01a840a, 0x8b58bc4f, 0x1c4f, 0xac3380ed, 0x6d, 0xd01a,
               State(0xaf65703e, 0x5b423845, 0x840ad01a, 0x0356f0d3));
  }

  lemma {:induction false} NothingFinal()
    ensures Final(State(0x87c3abc0, 0xd977f316, 0x6e4fcda7, 0x58137780)) == 0x5814c896
  {
    hide CopiedRound, Exor;
    assert Exor(0x6e4fcda7, 0x000000ff) == 0x6e4fcd58 by { ExorBytes(0x6e, 0x4f, 0xcd, 0xa7, 0x00, 0x00, 0x00, 0xff); }
    NothingFinal1();
    NothingFinal2();
    NothingFinal3();
    assert Exor(0x5b423845, 0x0356f0d3) == 0x5814c896 by { ExorBytes(0x5b, 0x42, 0x38, 0x45, 0x03, 0x56, 0xf0, 0xd3); }
  }

  /** The empty message. */
  lemma {:induction false} HashOfNothing()
    ensures Hash(0x03020100, 0x07060504, []) == 0x5814c896
  {
    hide Hash, Exor, ExpectedCompress, Final;
    HashIsExpected(0x03020100, 0x07060504, []);
    NothingWords();
    Started();
    NothingLast();
    NothingFinal();
  }

  lemma {:induction false} NothingWords()
    ensures var data: seq<Byte> := [];
            && LastLe(data) == 0x00000000 && forall s :: Words(s, data) == s
  {
  }

  lemma {:induction false} OneLast()
    ensures ExpectedCompress(State(0x03020100, 0x07060504, 0x6f7b6665, 0x73636166), 0x01000000)
            == State(0x89c3abc1, 0xd877f316, 0x6e4fcca7, 0xd7137700)
  {
    hide CopiedRound, Exor;
    assert Exor(0x73636166, 0x01000000) == 0x72636166 by { ExorBytes(0x73, 0x63, 0x61, 0x66, 0x01, 0x00, 0x00, 0x00); }
    assert Exor(0xe0c0a080, 0x0a080604) == 0xeac8a684 by { ExorBytes(0xe0, 0xc0, 0xa0, 0x80, 0x0a, 0x08, 0x06, 0x04); }
    assert Exor(0x63616672, 0xe1dec7cb) == 0x82bfa1b9 by { ExorBytes(0x63, 0x61, 0x66, 0x72, 0xe1, 0xde, 0xc7, 0xcb); }
    assert Exor(0x14d09d59, 0xcca76e4f) == 0xd877f316 by { ExorBytes(0x14, 0xd0, 0x9d, 0x59, 0xcc, 0xa7, 0x6e, 0x4f); }
    assert Exor(0x5fd0dcc1, 0x88c3abc1) == 0xd7137700 by { ExorBytes(0x5f, 0xd0, 0xdc, 0xc1, 0x88, 0xc3, 0xab, 0xc1); }
    hide FromBytes, ExorOctet, Number;
    RoundValue(State(0x03020100, 0x07060504, 0x6f7b6665, 0x72636166),
               0x0a080604, 0xe1dec7cb, 0xe0c0a080, 0x0, 0x63616672, 0x72, 0xeac8a684, 0x82bfa1b9,
               0x06040a08, 0xa08, 0xcca76e4f, 0x14d09d59, 0x1d59, 0x5fd0dcc1, 0x41, 0xcca7,
               State(0x88c3abc1, 0xd877f316, 0x6e4fcca7, 0xd7137700));
    assert Exor(0x88c3abc1, 0x01000000) == 0x89c3abc1 by { ExorBytes(0x88, 0xc3, 0xab, 0xc1, 0x01, 0x00, 0x00, 0x00); }
  }

  lemma {:induction false} OneFinal1()
    ensures CopiedRound(State(0x89c3abc1, 0xd877f316, 0x6e4fcc58, 0xd7137700))
            == State(0xf4eba5ca, 0x0da8b2fc, 0x3f64b229, 0xfeca6261)
  {
    hide CopiedRound, Exor;
    assert Exor(0x0efe62db, 0x623b9ed7) == 0x6cc5fc0c by { ExorBytes(0x0e, 0xfe, 0x62, 0xdb, 0x62, 0x3b, 0x9e, 0xd7); }
    assert Exor(0x137700d7, 0x45634358) == 0x5614438f by { ExorBytes(0x13, 0x77, 0x00, 0xd7, 0x45, 0x63, 0x43, 0x58); }
    assert Exor(0xbf818d98, 0xb2293f64) == 0x0da8b2fc by { ExorBytes(0xbf, 0x81, 0x8d, 0x98, 0xb2, 0x29, 0x3f, 0x64); }
    assert Exor(0x0a21c7ab, 0xf4eba5ca) == 0xfeca6261 by { ExorBytes(0x0a, 0x21, 0xc7, 0xab, 0xf4, 0xeb, 0xa5, 0xca); }
    hide FromBytes, ExorOctet, Number;
    RoundValue(State(0x89c3abc1, 0xd877f316, 0x6e4fcc58, 0xd7137700),
               0x623b9ed7, 0x45634358, 0x0efe62db, 0x1b, 0x137700d7, 0xd7, 0x6cc5fc0c, 0x5614438f,
               0x9ed7623b, 0x623b, 0xb2293f64, 0xbf818d98, 0xd98, 0x0a21c7ab, 0x2b, 0xb229,
               State(0xf4eba5ca, 0x0da8b2fc, 0x3f64b229, 0xfeca6261));
  }

  lemma {:induction false} OneFinal2()
    ensures CopiedRound(State(0xf4eba5ca, 0x0da8b2fc, 0x3f64b229, 0xfeca6261))
            == State(0x4d137808, 0xb559ed21, 0x1bd1f5b1, 0x6ba9c272)
  {
    hide CopiedRound, Exor;
    assert Exor(0xb5165f81, 0x029458c6) == 0xb7820747 by { ExorBytes(0xb5, 0x16, 0x5f, 0x81, 0x02, 0x94, 0x58, 0xc6); }
    assert Exor(0xca6261fe, 0x3e2f148a) == 0xf44d7574 by { ExorBytes(0xca, 0x62, 0x61, 0xfe, 0x3e, 0x2f, 0x14, 0x8a); }
    assert Exor(0x40e8f6f0, 0xf5b11bd1) == 0xb559ed21 by { ExorBytes(0x40, 0xe8, 0xf6, 0xf0, 0xf5, 0xb1, 0x1b, 0xd1); }
    assert Exor(0x26baba7a, 0x4d137808) == 0x6ba9c272 by { ExorBytes(0x26, 0xba, 0xba, 0x7a, 0x4d, 0x13, 0x78, 0x08); }
    hide FromBytes, ExorOctet, Number;
    RoundValue(State(0xf4eba5ca, 0x0da8b2fc, 0x3f64b229, 0xfeca6261),
               0x029458c6, 0x3e2f148a, 0xb5165f81, 0x1, 0xca6261fe, 0xfe, 0xb7820747, 0xf44d7574,
               0x58c60294, 0x294, 0xf5b11bd1, 0x40e8f6f0, 0x16f0, 0x26baba7a, 0x7a, 0xf5b1,
               State(0x4d137808, 0xb559ed21, 0x1bd1f5b1, 0x6ba9c272));
  }

  lemma {:induction false} OneFinal3()
    ensures CopiedRound(State(0x4d137808, 0xb559ed21, 0x1bd1f5b1, 0x6ba9c272))
            == State(0x93e2ccb5, 0x28ef8c68, 0x794230cc, 0xcf07e8a2)
  {
    hide CopiedRound, Exor;
    assert Exor(0xab3da436, 0x026d6529) == 0xa950c11f by { ExorBytes(0xab, 0x3d, 0xa4, 0x36, 0x02, 0x6d, 0x65, 0x29); }
    assert Exor(0xa9c2726b, 0x877bb823) == 0x2eb9ca48 by { ExorBytes(0xa9, 0xc2, 0x72, 0x6b, 0x87, 0x7b, 0xb8, 0x23); }
    assert Exor(0x1823f52a, 0x30cc7942) == 0x28ef8c68 by { ExorBytes(0x18, 0x23, 0xf5, 0x2a, 0x30, 0xcc, 0x79, 0x42); }
    assert Exor(0x5ce52417, 0x93e2ccb5) == 0xcf07e8a2 by { ExorBytes(0x5c, 0xe5, 0x24, 0x17, 0x93, 0xe2, 0xcc, 0xb5); }
    hide FromBytes, ExorOctet, Number;
    RoundValue(State(0x4d137808, 0xb559ed21, 0x1bd1f5b1, 0x6ba9c272),
               0x026d6529, 0x877bb823, 0xab3da436, 0x16, 0xa9c2726b, 0x6b, 0xa950c11f, 0x2eb9ca48,
               0x6529026d, 0x26d, 0x30cc7942, 0x1823f52a, 0x152a, 0x5ce52417, 0x17, 0x30cc,
               State(0x93e2ccb5, 0x28ef8c68, 0x794230cc, 0xcf07e8a2));
  }

  lemma {:induction false} OneFinal()
    ensures Final(State(0x89c3abc1, 0xd877f316, 0x6e4fcca7, 0xd7137700)) == 0xe7e864ca
  {
    hide CopiedRound, Exor;
    assert Exor(0x6e4fcca7, 0x000000ff) == 0x6e4fcc58 by { ExorBytes(0x6e, 0x4f, 0xcc, 0xa7, 0x00, 0x00, 0x00, 0xff); }
    OneFinal1();
    OneFinal2();
    OneFinal3();
    assert Exor(0x28ef8c68, 0xcf07e8a2) == 0xe7e864ca by { ExorBytes(0x28, 0xef, 0x8c, 0x68, 0xcf, 0x07, 0xe8, 0xa2); }
  }

  /** One byte. */
  lemma {:induction false} HashOfOne()
    ensures Hash(0x03020100, 0x07060504, [0]) == 0xe7e864ca
  {
    hide Hash, Exor, ExpectedCompress, Final;
    HashIsExpected(0x03020100, 0x07060504, [0]);
    OneWords();
    Started();
    OneLast();
    OneFinal();
  }

  lemma {:induction false} OneWords()
    ensures var data: seq<Byte> := [0];
            && LastLe(data) == 0x01000000 && forall s :: Words(s, data) == s
  {
  }

  lemma {:induction false} TwoLast()
    ensures ExpectedCompress(State(0x03020100, 0x07060504, 0x6f7b6665, 0x73636166), 0x02000100)
            == State(0x8bc2abc2, 0xdf77f016, 0x6d4fcba7, 0x5692f783)
  {
    hide CopiedRound, Exor;
    assert Exor(0x73636166, 0x02000100) == 0x71636066 by { ExorBytes(0x73, 0x63, 0x61, 0x66, 0x02, 0x00, 0x01, 0x00); }
    assert Exor(0xe0c0a080, 0x0a080604) == 0xeac8a684 by { ExorBytes(0xe0, 0xc0, 0xa0, 0x80, 0x0a, 0x08, 0x06, 0x04); }
    assert Exor(0x63606671, 0xe0dec6cb) == 0x83bea0ba by { ExorBytes(0x63, 0x60, 0x66, 0x71, 0xe0, 0xde, 0xc6, 0xcb); }
    assert Exor(0x14d09d59, 0xcba76d4f) == 0xdf77f016 by { ExorBytes(0x14, 0xd0, 0x9d, 0x59, 0xcb, 0xa7, 0x6d, 0x4f); }
    assert Exor(0xdf505d41, 0x89c2aac2) == 0x5692f783 by { ExorBytes(0xdf, 0x50, 0x5d, 0x41, 0x89, 0xc2, 0xaa, 0xc2); }
    hide FromBytes, ExorOctet, Number;
    RoundValue(State(0x03020100, 0x07060504, 0x6f7b6665, 0x71636066),
               0x0a080604, 0xe0dec6cb, 0xe0c0a080, 0x0, 0x63606671, 0x71, 0xeac8a684, 0x83bea0ba,
               0x06040a08, 0xa08, 0xcba76d4f, 0x14d09d59, 0x1d59, 0xdf505d41, 0x41, 0xcba7,
               State(0x89c2aac2, 0xdf77f016, 0x6d4fcba7, 0x5692f783));
    assert Exor(0x89c2aac2, 0x02000100) == 0x8bc2abc2 by { ExorBytes(0x89, 0xc2, 0xaa, 0xc2, 0x02, 0x00, 0x01, 0x00); }
  }

  lemma {:induction false} TwoFinal1()
    ensures CopiedRound(State(0x8bc2abc2, 0xdf77f016, 0x6d4fcb58, 0x5692f783))
            == State(0xecedacc7, 0xda872b66, 0x5bde49a7, 0x664d6a6f)
  {
    hide CopiedRound, Exor;
    assert Exor(0xeefe02db, 0x6b3a9bd8) == 0x85c49903 by { ExorBytes(0xee, 0xfe, 0x02, 0xdb, 0x6b, 0x3a, 0x9b, 0xd8); }
    assert Exor(0x92f78356, 0xc3e2c2db) == 0x5115418d by { ExorBytes(0x92, 0xf7, 0x83, 0x56, 0xc3, 0xe2, 0xc2, 0xdb); }
    assert Exor(0x932070b8, 0x49a75bde) == 0xda872b66 by { ExorBytes(0x93, 0x20, 0x70, 0xb8, 0x49, 0xa7, 0x5b, 0xde); }
    assert Exor(0x8aa0c6a8, 0xecedacc7) == 0x664d6a6f by { ExorBytes(0x8a, 0xa0, 0xc6, 0xa8, 0xec, 0xed, 0xac, 0xc7); }
    hide FromBytes, ExorOctet, Number;
    RoundValue(State(0x8bc2abc2, 0xdf77f016, 0x6d4fcb58, 0x5692f783),
               0x6b3a9bd8, 0xc3e2c2db, 0xeefe02db, 0x1b, 0x92f78356, 0x56, 0x85c49903, 0x5115418d,
               0x9bd86b3a, 0x6b3a, 0x49a75bde, 0x932070b8, 0x10b8, 0x8aa0c6a8, 0x28, 0x49a7,
               State(0xecedacc7, 0xda872b66, 0x5bde49a7, 0x664d6a6f));
  }

  lemma {:induction false} TwoFinal2()
    ensures CopiedRound(State(0xecedacc7, 0xda872b66, 0x5bde49a7, 0x664d6a6f))
            == State(0x676fa2e4, 0x6f23bbfe, 0x690c59bd, 0xc7821aa3)
  {
    hide CopiedRound, Exor;
    assert Exor(0x50e56cdb, 0xc774d82d) == 0x9791b4f6 by { ExorBytes(0x50, 0xe5, 0x6c, 0xdb, 0xc7, 0x74, 0xd8, 0x2d); }
    assert Exor(0x4d6a6f66, 0xc22bb416) == 0x8f41db70 by { ExorBytes(0x4d, 0x6a, 0x6f, 0x66, 0xc2, 0x2b, 0xb4, 0x16); }
    assert Exor(0x369ed2f2, 0x59bd690c) == 0x6f23bbfe by { ExorBytes(0x36, 0x9e, 0xd2, 0xf2, 0x59, 0xbd, 0x69, 0x0c); }
    assert Exor(0xa0edb847, 0x676fa2e4) == 0xc7821aa3 by { ExorBytes(0xa0, 0xed, 0xb8, 0x47, 0x67, 0x6f, 0xa2, 0xe4); }
    hide FromBytes, ExorOctet, Number;
    RoundValue(State(0xecedacc7, 0xda872b66, 0x5bde49a7, 0x664d6a6f),
               0xc774d82d, 0xc22bb416, 0x50e56cdb, 0x1b, 0x4d6a6f66, 0x66, 0x9791b4f6, 0x8f41db70,
               0xd82dc774, 0xc774, 0x59bd690c, 0x369ed2f2, 0x12f2, 0xa0edb847, 0x47, 0x59bd,
               State(0x676fa2e4, 0x6f23bbfe, 0x690c59bd, 0xc7821aa3));
  }

  lemma {:induction false} TwoFinal3()
    ensures CopiedRound(State(0x676fa2e4, 0x6f23bbfe, 0x690c59bd, 0xc7821aa3))
            == State(0x1177ae3a, 0xe75773d3, 0x958f6372, 0x5b1c7de3)
  {
    hide CopiedRound, Exor;
    assert Exor(0xe4777fcd, 0xd6935ee2) == 0x32e4212f by { ExorBytes(0xe4, 0x77, 0x7f, 0xcd, 0xd6, 0x93, 0x5e, 0xe2); }
    assert Exor(0x821aa3c7, 0x308e7460) == 0xb294d7a7 by { ExorBytes(0x82, 0x1a, 0xa3, 0xc7, 0x30, 0x8e, 0x74, 0x60); }
    assert Exor(0x8425e65c, 0x6372958f) == 0xe75773d3 by { ExorBytes(0x84, 0x25, 0xe6, 0x5c, 0x63, 0x72, 0x95, 0x8f); }
    assert Exor(0x4a6bd3d9, 0x1177ae3a) == 0x5b1c7de3 by { ExorBytes(0x4a, 0x6b, 0xd3, 0xd9, 0x11, 0x77, 0xae, 0x3a); }
    hide FromBytes, ExorOctet, Number;
    RoundValue(State(0x676fa2e4, 0x6f23bbfe, 0x690c59bd, 0xc7821aa3),
               0xd6935ee2, 0x308e7460, 0xe4777fcd, 0xd, 0x821aa3c7, 0xc7, 0x32e4212f, 0xb294d7a7,
               0x5ee2d693, 0xd693, 0x6372958f, 0x8425e65c, 0x65c, 0x4a6bd3d9, 0x59, 0x6372,
               State(0x1177ae3a, 0xe75773d3, 0x958f6372, 0x5b1c7de3));
  }

  lemma {:induction false} TwoFinal()
    ensures Final(State(0x8bc2abc2, 0xdf77f016, 0x6d4fcba7, 0x5692f783)) == 0xbc4b0e30
  {
    hide CopiedRound, Exor;
    assert Exor(0x6d4fcba7, 0x000000ff) == 0x6d4fcb58 by { ExorBytes(0x6d, 0x4f, 0xcb, 0xa7, 0x00, 0x00, 0x00, 0xff); }
    TwoFinal1();
    TwoFinal2();
    TwoFinal3();
    assert Exor(0xe75773d3, 0x5b1c7de3) == 0xbc4b0e30 by { ExorBytes(0xe7, 0x57, 0x73, 0xd3, 0x5b, 0x1c, 0x7d, 0xe3); }
  }

  /** Two bytes. */
  lemma {:induction false} HashOfTwo()
    ensures Hash(0x03020100, 0x07060504, [0, 1]) == 0xbc4b0e30
  {
    hide Hash, Exor, ExpectedCompress, Final;
    HashIsExpected(0x03020100, 0x07060504, [0, 1]);
    TwoWords();
    Started();
    TwoLast();
    TwoFinal();
  }

  lemma {:induction false} TwoWords()
    ensures var data: seq<Byte> := [0, 1];
            && LastLe(data) == 0x02000100 && forall s :: Words(s, data) == s
  {
  }

  lemma {:induction false} SevenWord()
    ensures ExpectedCompress(State(0x03020100, 0x07060504, 0x6f7b6665, 0x73636166), 0x03020100)
            == State(0xc7c2abc3, 0xde75f016, 0x6d4fcaa5, 0x9a90f71c)
  {
    hide CopiedRound, Exor;
    assert Exor(0x73636166, 0x03020100) == 0x70616066 by { ExorBytes(0x73, 0x63, 0x61, 0x66, 0x03, 0x02, 0x01, 0x00); }
    assert Exor(0xe0c0a080, 0x0a080604) == 0xeac8a684 by { ExorBytes(0xe0, 0xc0, 0xa0, 0x80, 0x0a, 0x08, 0x06, 0x04); }
    assert Exor(0x61606670, 0xdfdcc6cb) == 0xbebca0bb by { ExorBytes(0x61, 0x60, 0x66, 0x70, 0xdf, 0xdc, 0xc6, 0xcb); }
    assert Exor(0x14d09d59, 0xcaa56d4f) == 0xde75f016 by { ExorBytes(0x14, 0xd0, 0x9d, 0x59, 0xca, 0xa5, 0x6d, 0x4f); }
    assert Exor(0x5e505ddf, 0xc4c0aac3) == 0x9a90f71c by { ExorBytes(0x5e, 0x50, 0x5d, 0xdf, 0xc4, 0xc0, 0xaa, 0xc3); }
    hide FromBytes, ExorOctet, Number;
    RoundValue(State(0x03020100, 0x07060504, 0x6f7b6665, 0x70616066),
               0x0a080604, 0xdfdcc6cb, 0xe0c0a080, 0x0, 0x61606670, 0x70, 0xeac8a684, 0xbebca0bb,
               0x06040a08, 0xa08, 0xcaa56d4f, 0x14d09d59, 0x1d59, 0x5e505ddf, 0x5f, 0xcaa5,
               State(0xc4c0aac3, 0xde75f016, 0x6d4fcaa5, 0x9a90f71c));
    assert Exor(0xc4c0aac3, 0x03020100) == 0xc7c2abc3 by { ExorBytes(0xc4, 0xc0, 0xaa, 0xc3, 0x03, 0x02, 0x01, 0x00); }
  }

  lemma {:induction false} SevenLast()
    ensures ExpectedCompress(State(0xc7c2abc3, 0xde75f016, 0x6d4fcaa5, 0x9a90f71c), 0x07060504)
            == State(0x30e84f5c, 0xa04d18af, 0x55bf736d, 0x3dbc5a16)
  {
    hide CopiedRound, Exor;
    assert Exor(0x9a90f71c, 0x07060504) == 0x9d96f218 by { ExorBytes(0x9a, 0x90, 0xf7, 0x1c, 0x07, 0x06, 0x05, 0x04); }
    assert Exor(0xcebe02db, 0xa6389bd9) == 0x68869902 by { ExorBytes(0xce, 0xbe, 0x02, 0xdb, 0xa6, 0x38, 0x9b, 0xd9); }
    assert Exor(0x96f2189d, 0x0ae6bcbd) == 0x9c14a420 by { ExorBytes(0x96, 0xf2, 0x18, 0x9d, 0x0a, 0xe6, 0xbc, 0xbd); }
    assert Exor(0xd3204d10, 0x736d55bf) == 0xa04d18af by { ExorBytes(0xd3, 0x20, 0x4d, 0x10, 0x73, 0x6d, 0x55, 0xbf); }
    assert Exor(0x0a52104e, 0x37ee4a58) == 0x3dbc5a16 by { ExorBytes(0x0a, 0x52, 0x10, 0x4e, 0x37, 0xee, 0x4a, 0x58); }
    hide FromBytes, ExorOctet, Number;
    RoundValue(State(0xc7c2abc3, 0xde75f016, 0x6d4fcaa5, 0x9d96f218),
               0xa6389bd9, 0x0ae6bcbd, 0xcebe02db, 0x1b, 0x96f2189d, 0x9d, 0x68869902, 0x9c14a420,
               0x9bd9a638, 0xa638, 0x736d55bf, 0xd3204d10, 0xd10, 0x0a52104e, 0x4e, 0x736d,
               State(0x37ee4a58, 0xa04d18af, 0x55bf736d, 0x3dbc5a16));
    assert Exor(0x37ee4a58, 0x07060504) == 0x30e84f5c by { ExorBytes(0x37, 0xee, 0x4a, 0x58, 0x07, 0x06, 0x05, 0x04); }
  }

  lemma {:induction false} SevenFinal1()
    ensures CopiedRound(State(0x30e84f5c, 0xa04d18af, 0x55bf7392, 0x3dbc5a16))
            == State(0x972dacca, 0xa3adb0b5, 0x4ba76c12, 0x07c0665d)
  {
    hide CopiedRound, Exor;
    assert Exor(0x09a315f4, 0xd135680b) == 0xd8967dff by { ExorBytes(0x09, 0xa3, 0x15, 0xf4, 0xd1, 0x35, 0x68, 0x0b); }
    assert Exor(0xbc5a163d, 0x937bcda8) == 0x2f21db95 by { ExorBytes(0xbc, 0x5a, 0x16, 0x3d, 0x93, 0x7b, 0xcd, 0xa8); }
    assert Exor(0xcfbffb12, 0x6c124ba7) == 0xa3adb0b5 by { ExorBytes(0xcf, 0xbf, 0xfb, 0x12, 0x6c, 0x12, 0x4b, 0xa7); }
    assert Exor(0x90edca97, 0x972dacca) == 0x07c0665d by { ExorBytes(0x90, 0xed, 0xca, 0x97, 0x97, 0x2d, 0xac, 0xca); }
    hide FromBytes, ExorOctet, Number;
    RoundValue(State(0x30e84f5c, 0xa04d18af, 0x55bf7392, 0x3dbc5a16),
               0xd135680b, 0x937bcda8, 0x09a315f4, 0x14, 0xbc5a163d, 0x3d, 0xd8967dff, 0x2f21db95,
               0x680bd135, 0xd135, 0x6c124ba7, 0xcfbffb12, 0x1b12, 0x90edca97, 0x17, 0x6c12,
               State(0x972dacca, 0xa3adb0b5, 0x4ba76c12, 0x07c0665d));
  }

  lemma {:induction false} SevenFinal2()
    ensures CopiedRound(State(0x972dacca, 0xa3adb0b5, 0x4ba76c12, 0x07c0665d))
            == State(0xf080ca43, 0x0bac77d7, 0x1e3aa2d5, 0x70477e0a)
  {
    hide CopiedRound, Exor;
    assert Exor(0x75b616b4, 0x3adb5d7f) == 0x4f6d4bcb by { ExorBytes(0x75, 0xb6, 0x16, 0xb4, 0x3a, 0xdb, 0x5d, 0x7f); }
    assert Exor(0xc0665d07, 0x5367d26f) == 0x93018f68 by { ExorBytes(0xc0, 0x66, 0x5d, 0x07, 0x53, 0x67, 0xd2, 0x6f); }
    assert Exor(0xa97969ed, 0xa2d51e3a) == 0x0bac77d7 by { ExorBytes(0xa9, 0x79, 0x69, 0xed, 0xa2, 0xd5, 0x1e, 0x3a); }
    assert Exor(0x80c7b449, 0xf080ca43) == 0x70477e0a by { ExorBytes(0x80, 0xc7, 0xb4, 0x49, 0xf0, 0x80, 0xca, 0x43); }
    hide FromBytes, ExorOctet, Number;
    RoundValue(State(0x972dacca, 0xa3adb0b5, 0x4ba76c12, 0x07c0665d),
               0x3adb5d7f, 0x5367d26f, 0x75b616b4, 0x14, 0xc0665d07, 0x7, 0x4f6d4bcb, 0x93018f68,
               0x5d7f3adb, 0x3adb, 0xa2d51e3a, 0xa97969ed, 0x9ed, 0x80c7b449, 0x49, 0xa2d5,
               State(0xf080ca43, 0x0bac77d7, 0x1e3aa2d5, 0x70477e0a));
  }

  lemma {:induction false} SevenFinal3()
    ensures CopiedRound(State(0xf080ca43, 0x0bac77d7, 0x1e3aa2d5, 0x70477e0a))
            == State(0x0c1726dc, 0x6f3aa8ee, 0xd9da1825, 0xf2027138)
  {
    hide CopiedRound, Exor;
    assert Exor(0x758efae1, 0xfc2d421a) == 0x89a3b8fb by { ExorBytes(0x75, 0x8e, 0xfa, 0xe1, 0xfc, 0x2d, 0x42, 0x1a); }
    assert Exor(0x477e0a70, 0x8e8220df) == 0xc9fc2aaf by { ExorBytes(0x47, 0x7e, 0x0a, 0x70, 0x8e, 0x82, 0x20, 0xdf); }
    assert Exor(0x771f7134, 0x1825d9da) == 0x6f3aa8ee by { ExorBytes(0x77, 0x1f, 0x71, 0x34, 0x18, 0x25, 0xd9, 0xda); }
    assert Exor(0xfe1557e4, 0x0c1726dc) == 0xf2027138 by { ExorBytes(0xfe, 0x15, 0x57, 0xe4, 0x0c, 0x17, 0x26, 0xdc); }
    hide FromBytes, ExorOctet, Number;
    RoundValue(State(0xf080ca43, 0x0bac77d7, 0x1e3aa2d5, 0x70477e0a),
               0xfc2d421a, 0x8e8220df, 0x758efae1, 0x1, 0x477e0a70, 0x70, 0x89a3b8fb, 0xc9fc2aaf,
               0x421afc2d, 0xfc2d, 0x1825d9da, 0x771f7134, 0x1134, 0xfe1557e4, 0x64, 0x1825,
               State(0x0c1726dc, 0x6f3aa8ee, 0xd9da1825, 0xf2027138));
  }

  lemma {:induction false} SevenFinal()
    ensures Final(State(0x30e84f5c, 0xa04d18af, 0x55bf736d, 0x3dbc5a16)) == 0x9d38d9d6
  {
    hide CopiedRound, Exor;
    assert Exor(0x55bf736d, 0x000000ff) == 0x55bf7392 by { ExorBytes(0x55, 0xbf, 0x73, 0x6d, 0x00, 0x00, 0x00, 0xff); }
    SevenFinal1();
    SevenFinal2();
    SevenFinal3();
    assert Exor(0x6f3aa8ee, 0xf2027138) == 0x9d38d9d6 by { ExorBytes(0x6f, 0x3a, 0xa8, 0xee, 0xf2, 0x02, 0x71, 0x38); }
  }

  /** A whole word and a tail of three bytes. */
  lemma {:induction false} HashOfSeven()
    ensures Hash(0x03020100, 0x07060504, [0, 1, 2, 3, 4, 5, 6]) == 0x9d38d9d6
  {
    hide Hash, Exor, ExpectedCompress, Final;
    HashIsExpected(0x03020100, 0x07060504, [0, 1, 2, 3, 4, 5, 6]);
    SevenWords();
    Started();
    SevenWord();
    SevenLast();
    SevenFinal();
  }

  lemma {:induction false} SevenWords()
    ensures var data: seq<Byte> := [0, 1, 2, 3, 4, 5, 6];
            && WordLe(data, 0) == 0x03020100 && LastLe(data) == 0x07060504
            && forall s :: Words(s, data) == ExpectedCompress(s, WordLe(data, 0))
  {
  }
}
