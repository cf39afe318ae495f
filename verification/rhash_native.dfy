/** The hash of rat/src/rat_rhash.c against the reference of tests/test_rhash.c:12-73, which reads the
    message in one go, on words with built-in arithmetic. */
module RhashNative {
  import opened Bits
  import opened Rhash

  // ---- Built-in operations -------------------------------------------------------------------

  /** The low byte of a word. */
  function Octet(v: nat): bv8 {
    Bits8(v % 256)
  }

  /** The bits of a number below 256. */
  function Bits8(n: nat): bv8 {
    if n == 0 then 0 else Shifted(Bits8(n / 2), n % 2)
  }

  function Shifted(x: bv8, bit: nat): bv8 {
    (x << 1) | if bit == 0 then 0 else 1
  }

  function ExorOctet(x: bv8, y: bv8): bv8 {
    x ^ y
  }

  function Number(x: bv8): (n: nat)
    ensures n < 256
  {
    x as nat
  }

  /** Exclusive or of two words, a byte at a time. */
  function Exor(a: Word, b: Word): Word {
    ExorByte(a, b, 1) + 0x100 * ExorByte(a, b, 0x100)
    + 0x1_0000 * ExorByte(a, b, 0x1_0000) + 0x100_0000 * ExorByte(a, b, 0x100_0000)
  }

  function ExorByte(a: Word, b: Word, weight: nat): nat
    requires weight > 0
  {
    Number(ExorOctet(Octet(a / weight), Octet(b / weight)))
  }

  function Plus(a: Word, b: Word): Word {
    (a + b) % 0x1_0000_0000
  }

  /** A rotation by `n` bits, where `p` is 2^n and `q` is 2^(32 - n). */
  function Rol(v: Word, p: nat, q: nat): Word
    requires q > 0
  {
    (v * p + v / q) % 0x1_0000_0000
  }

  lemma {:induction false} RotlIsArithmetic(v: Word, n: nat)
    requires 0 < n < WORD_BITS
    ensures Pow2(n) > 0 && Pow2(WORD_BITS - n) > 0
    ensures Rotl(v, n) == v * Pow2(n) % 0x1_0000_0000 + v / Pow2(WORD_BITS - n)
  {
    RotlShifts(v, n);
    ShiftsAreArithmetic(v, WORD_BITS - n);
    ShiftsAreArithmetic(v, n);
    hide Shl, Shr, Low, Rotl;
  }

  lemma {:induction false} RotlShifts(v: Word, n: nat)
    requires 0 < n < WORD_BITS
    ensures Rotl(v, n) == Shl(v, n) % 0x1_0000_0000 + Shr(v, WORD_BITS - n)
  {
    hide Shl, Shr, Low, Or;
    var k := WORD_BITS - n;
    var hi, lo := Shr(v, k), Low(v, k);
    Pow2Word();
    RotlParts(v, n);
    ShlSum(Shl(hi, k), lo, n);
    ShlShl(hi, k, n);
    ShlIsTimes(hi, WORD_BITS);
    ShlBound(lo, k, n);
    Divided(Shl(v, n), 0x1_0000_0000, hi, Shl(lo, n));
  }

  // ---- The reference -------------------------------------------------------------------------

  /** copied_round, statement by statement. */
  function CopiedRound(s: State): State {
    var s1 := s.(v0 := Plus(s.v0, s.v1));
    var s2 := s1.(v1 := Exor(Rol(s1.v1, 0x20, 0x800_0000), s1.v0));
    var s3 := s2.(v0 := Rol(s2.v0, 0x1_0000, 0x1_0000));
    var s4 := s3.(v2 := Plus(s3.v2, s3.v3));
    var s5 := s4.(v3 := Exor(Rol(s4.v3, 0x100, 0x100_0000), s4.v2));
    var s6 := s5.(v0 := Plus(s5.v0, s5.v3));
    var s7 := s6.(v3 := Exor(Rol(s6.v3, 0x80, 0x200_0000), s6.v0));
    var s8 := s7.(v2 := Plus(s7.v2, s7.v1));
    var s9 := s8.(v1 := Exor(Rol(s8.v1, 0x2000, 0x8_0000), s8.v2));
    s9.(v2 := Rol(s9.v2, 0x1_0000, 0x1_0000))
  }

  function ExpectedCompress(s: State, word: Word): State {
    var t := CopiedRound(s.(v3 := Exor(s.v3, word)));
    t.(v0 := Exor(t.v0, word))
  }

  /** The byte at position `k`, if there is one, in its place in a word. */
  function Placed(data: seq<Byte>, k: nat, weight: nat): (n: nat)
    ensures n <= 255 * weight
  {
    if k < |data| then data[k] as nat * weight else 0
  }

  /** Up to four bytes from position `k` on as a little-endian word. */
  function WordLe(data: seq<Byte>, k: nat): Word {
    Placed(data, k, 1) + Placed(data, k + 1, 0x100) + Placed(data, k + 2, 0x1_0000) + Placed(data, k + 3, 0x100_0000)
  }

  /** All whole words of the message. */
  function Words(s: State, data: seq<Byte>): State
    decreases |data|
  {
    if |data| < 4 then s else Words(ExpectedCompress(s, WordLe(data, 0)), data[4..])
  }

  /** What is left of the message, and the low byte of its size on top. */
  function LastLe(data: seq<Byte>): Word {
    WordLe(data, |data| - |data| % 4) + |data| % 256 * 0x100_0000
  }

  /** expected_rhash_calc: the hash of a message. */
  function Expected(key0: Word, key1: Word, data: seq<Byte>): Word {
    var s := Words(State(key0, key1, Exor(key0, 0x6c796765), Exor(key1, 0x74656462)), data);
    Final(ExpectedCompress(s, LastLe(data)))
  }

  function Final(s: State): Word {
    var t := CopiedRound(CopiedRound(CopiedRound(s.(v2 := Exor(s.v2, 0xFF)))));
    Exor(t.v1, t.v3)
  }

  // ---- Exclusive or, a byte at a time ----------------------------------------------------------

  function Half(x: bv8): bv8 {
    x >> 1
  }

  function Odd(x: bv8): nat {
    (x & 1) as nat
  }

  lemma {:induction false} HalfAndOdd(x: bv8)
    ensures Number(x) == 2 * Number(Half(x)) + Odd(x) && Odd(x) < 2
    ensures Number(x) / 2 == Number(Half(x)) && Number(x) % 2 == Odd(x)
  {
  }

  lemma {:induction false} ExorParts(x: bv8, y: bv8)
    ensures Half(ExorOctet(x, y)) == ExorOctet(Half(x), Half(y))
    ensures Odd(ExorOctet(x, y)) == (Odd(x) + Odd(y)) % 2
    ensures Number(x) == 0 ==> ExorOctet(x, y) == y
    ensures Number(y) == 0 ==> ExorOctet(x, y) == x
  {
  }

  lemma {:induction false} XorOctet(x: bv8, y: bv8)
    ensures Xor(Number(x), Number(y)) == Number(ExorOctet(x, y))
    decreases Number(x)
  {
    HalfAndOdd(x);
    HalfAndOdd(y);
    HalfAndOdd(ExorOctet(x, y));
    ExorParts(x, y);
    XorZero(Number(x));
    XorZero(Number(y));
    hide Number, Half, Odd, ExorOctet, Xor;
    if Number(x) > 0 && Number(y) > 0 {
      XorOctet(Half(x), Half(y));
      XorHalves(Number(x), Number(y));
    }
  }

  lemma {:induction false} OctetNumber(v: nat)
    ensures Number(Octet(v)) == v % 256
  {
    OctetRound(v % 256);
  }

  lemma {:induction false} ShiftedNumber(x: bv8, bit: nat)
    requires Number(x) < 128 && bit < 2
    ensures Number(Shifted(x, bit)) == 2 * Number(x) + bit
  {
  }

  lemma {:induction false} OctetRound(n: nat)
    requires n < 256
    ensures Number(Bits8(n)) == n
  {
    if n == 0 {
      assert Bits8(0) == 0;
    } else {
      OctetRound(n / 2);
      ShiftedNumber(Bits8(n / 2), n % 2);
      hide Number, Shifted;
    }
  }

  /** The lowest bytes, and the rest. */
  lemma {:induction false} XorOnByte(a: nat, b: nat)
    ensures Xor(a, b) == 256 * Xor(a / 256, b / 256) + Number(ExorOctet(Octet(a), Octet(b)))
  {
    hide Xor, Shl, Octet, Number, ExorOctet;
    OctetNumber(a);
    OctetNumber(b);
    XorOctet(Octet(a), Octet(b));
    Pow2Byte();
    ShlByte(a / 256);
    ShlByte(b / 256);
    ShlByte(Xor(a / 256, b / 256));
    XorJoin(a / 256, a % 256, b / 256, b % 256, CHAR_BIT);
  }

  lemma {:induction false} ExorIsMix(a: Word, b: Word)
    ensures Exor(a, b) == Mix(a, b)
  {
    hide Xor, Octet, Number, ExorOctet;
    XorOnByte(a, b);
    XorOnByte(a / 0x100, b / 0x100);
    XorOnByte(a / 0x1_0000, b / 0x1_0000);
    XorOnByte(a / 0x100_0000, b / 0x100_0000);
    NextByte(a);
    NextByte(b);
    XorZero(0);
  }

  lemma {:induction false} NextByte(a: Word)
    ensures a / 1 == a && a / 0x100 / 256 == a / 0x1_0000
    ensures a / 0x1_0000 / 256 == a / 0x100_0000 && a / 0x100_0000 / 256 == 0
  {
  }

  // ---- The hash is that of the reference -------------------------------------------------------

  lemma {:induction false} Rotations(v: Word)
    ensures Rol(v, 0x20, 0x800_0000) == Rotl(v, 5) && Rol(v, 0x80, 0x200_0000) == Rotl(v, 7)
    ensures Rol(v, 0x100, 0x100_0000) == Rotl(v, 8) && Rol(v, 0x2000, 0x8_0000) == Rotl(v, 13)
    ensures Rol(v, 0x1_0000, 0x1_0000) == Rotl(v, 16)
  {
    Powers();
    hide Shl, Rotl;
    RotlIsRol(v, 5);
    RotlIsRol(v, 7);
    RotlIsRol(v, 8);
    RotlIsRol(v, 13);
    RotlIsRol(v, 16);
  }

  lemma {:induction false} RotlIsRol(v: Word, n: nat)
    requires 0 < n < WORD_BITS
    ensures Pow2(n) > 0 && Pow2(WORD_BITS - n) > 0 && Rol(v, Pow2(n), Pow2(WORD_BITS - n)) == Rotl(v, n)
  {
    hide Shl, Rotl;
    RotlIsArithmetic(v, n);
    WrapOnce(v * Pow2(n), v / Pow2(WORD_BITS - n));
  }

  lemma {:induction false} WrapOnce(x: nat, y: nat)
    requires x % 0x1_0000_0000 + y < 0x1_0000_0000
    ensures (x + y) % 0x1_0000_0000 == x % 0x1_0000_0000 + y
  {
  }

  lemma {:induction false} Powers()
    ensures Pow2(5) == 0x20 && Pow2(7) == 0x80 && Pow2(8) == 0x100 && Pow2(13) == 0x2000 && Pow2(16) == 0x1_0000
    ensures Pow2(19) == 0x8_0000 && Pow2(24) == 0x100_0000 && Pow2(25) == 0x200_0000 && Pow2(27) == 0x800_0000
  {
  }

  lemma {:induction false} RoundIsCopiedRound(s: State)
    ensures Round(s) == CopiedRound(s)
  {
    hide Rotl, Mix, Rol, Exor;
    var v0, v1, v2, v3 := Add(s.v0, s.v1), s.v1, Add(s.v2, s.v3), s.v3;
    Rotations(v0);
    Rotations(v1);
    Rotations(v3);
    ExorIsMix(Rotl(v1, 5), v0);
    ExorIsMix(Rotl(v3, 8), v2);
    var a1, a3 := Mix(Rotl(v1, 5), v0), Mix(Rotl(v3, 8), v2);
    var b0, b2 := Add(Rotl(v0, 16), a3), Add(v2, a1);
    Rotations(a1);
    Rotations(a3);
    Rotations(b2);
    ExorIsMix(Rotl(a1, 13), b2);
    ExorIsMix(Rotl(a3, 7), b0);
  }

  lemma {:induction false} CompressIsExpected(s: State, word: Word)
    ensures Compress(s, word) == ExpectedCompress(s, word)
  {
    hide Round, CopiedRound, Mix, Exor;
    ExorIsMix(s.v3, word);
    var t := s.(v3 := Mix(s.v3, word));
    RoundIsCopiedRound(t);
    assert Rounds(t, 1) == Round(t);
    ExorIsMix(Round(t).v0, word);
  }

  lemma {:induction false} AbsorbIsWords(s: State, data: seq<Byte>)
    ensures Absorb(s, data) == Words(s, data)
    decreases |data|
  {
    hide Compress, ExpectedCompress, Load, WordLe;
    if |data| >= 4 {
      WholeWord(data);
      CompressIsExpected(s, WordLe(data, 0));
      AbsorbIsWords(ExpectedCompress(s, WordLe(data, 0)), data[4..]);
    }
  }

  /** Bytes make a little-endian word. */
  lemma {:induction false} LoadBytes(bytes: seq<Byte>)
    requires |bytes| <= 4
    ensures Load(bytes) == WordLe(bytes, 0)
    decreases |bytes|
  {
    hide Shl, Or;
    if bytes != [] {
      var n := |bytes| - 1;
      LoadBytes(bytes[..n]);
      LoadStep(bytes[n], Load(bytes[..n]), n);
      ByteAt(bytes[n]);
    }
  }

  lemma {:induction false} ByteAt(b: nat)
    ensures Shl(b, 0) == b && Shl(b, 8) == 0x100 * b && Shl(b, 16) == 0x1_0000 * b && Shl(b, 24) == 0x100_0000 * b
  {
    Powers();
    ShiftsAreArithmetic(b, 8);
    ShiftsAreArithmetic(b, 16);
    ShiftsAreArithmetic(b, 24);
  }

  lemma {:induction false} WholeWord(data: seq<Byte>)
    requires |data| >= 4
    ensures Load(data[..4]) == WordLe(data, 0)
  {
    hide Load;
    LoadBytes(data[..4]);
  }

  lemma {:induction false} LastWordIsLast(data: seq<Byte>)
    ensures LastWord(data) == LastLe(data)
  {
    hide Load, Shl;
    LoadBytes(Tail(data));
    ByteAt(|data| % 256);
  }

  lemma {:induction false} FinalizeIsFinal(s: State, last: Word)
    ensures Finalize(s, last) == Final(ExpectedCompress(s, last))
  {
    hide Round, CopiedRound, Mix, Exor, Compress, ExpectedCompress;
    CompressIsExpected(s, last);
    var t := ExpectedCompress(s, last);
    ExorIsMix(t.v2, 0xFF);
    var u := t.(v2 := Mix(t.v2, 0xFF));
    RoundIsCopiedRound(u);
    RoundIsCopiedRound(Round(u));
    RoundIsCopiedRound(Round(Round(u)));
    ThreeRounds(u);
    var w := Round(Round(Round(u)));
    ExorIsMix(w.v1, w.v3);
  }

  lemma {:induction false} ThreeRounds(s: State)
    ensures Rounds(s, 3) == Round(Round(Round(s)))
  {
    hide Round;
    assert Rounds(s, 3) == Rounds(Round(s), 2);
    assert Rounds(Round(s), 2) == Rounds(Round(Round(s)), 1);
  }

  /** The hash of every message under every key is that of the reference. */
  lemma {:induction false} HashIsExpected(key0: Word, key1: Word, data: seq<Byte>)
    ensures Hash(key0, key1, data) == Expected(key0, key1, data)
  {
    hide Mix, Exor, Compress, ExpectedCompress, Absorb, Words, Finalize, Final, LastWord, LastLe;
    ExorIsMix(key0, 0x6c796765);
    ExorIsMix(key1, 0x74656462);
    var s := Start(key0, key1);
    AbsorbIsWords(s, data);
    LastWordIsLast(data);
    FinalizeIsFinal(Absorb(s, data), LastWord(data));
  }

  // ---- Values --------------------------------------------------------------------------------

  function FromBytes(b3: bv8, b2: bv8, b1: bv8, b0: bv8): Word {
    0x100_0000 * Number(b3) + 0x1_0000 * Number(b2) + 0x100 * Number(b1) + Number(b0)
  }

  lemma {:induction false} ShiftedBack(b: bv8)
    ensures Shifted(Half(b), Odd(b)) == b
  {
  }

  lemma {:induction false} BitsBack(b: bv8)
    ensures Bits8(Number(b)) == b
    decreases Number(b)
  {
    HalfAndOdd(b);
    ShiftedBack(b);
    NumberZero(b);
    hide Number, Half, Odd, Shifted;
    if Number(b) > 0 {
      BitsBack(Half(b));
    }
  }

  lemma {:induction false} NumberZero(b: bv8)
    ensures Number(b) == 0 <==> b == 0
  {
  }

  lemma {:induction false} OctetBack(v: nat, b: bv8)
    requires v % 256 == Number(b)
    ensures Octet(v) == b
  {
    hide Bits8, Number;
    BitsBack(b);
  }

  lemma {:induction false} Chopped(n3: nat, n2: nat, n1: nat, n0: nat)
    requires n3 < 256 && n2 < 256 && n1 < 256 && n0 < 256
    ensures var v := 0x100_0000 * n3 + 0x1_0000 * n2 + 0x100 * n1 + n0;
            && v / 1 % 256 == n0 && v / 0x100 % 256 == n1
            && v / 0x1_0000 % 256 == n2 && v / 0x100_0000 % 256 == n3
  {
    var v := 0x100_0000 * n3 + 0x1_0000 * n2 + 0x100 * n1 + n0;
    assert v / 0x100 == 256 * (256 * n3 + n2) + n1;
    assert v / 0x1_0000 == 256 * n3 + n2;
    assert v / 0x100_0000 == n3;
  }

  lemma {:induction false} OctetsOf(v: Word, b3: bv8, b2: bv8, b1: bv8, b0: bv8)
    requires v == FromBytes(b3, b2, b1, b0)
    ensures Octet(v / 1) == b0 && Octet(v / 0x100) == b1 && Octet(v / 0x1_0000) == b2 && Octet(v / 0x100_0000) == b3
  {
    hide Octet, Number;
    FromBytesChopped(v, b3, b2, b1, b0);
    hide FromBytes;
    OctetBack(v / 1, b0);
    OctetBack(v / 0x100, b1);
    OctetBack(v / 0x1_0000, b2);
    OctetBack(v / 0x100_0000, b3);
  }

  lemma {:induction false} FromBytesChopped(v: Word, b3: bv8, b2: bv8, b1: bv8, b0: bv8)
    requires v == FromBytes(b3, b2, b1, b0)
    ensures v / 1 % 256 == Number(b0) && v / 0x100 % 256 == Number(b1)
    ensures v / 0x1_0000 % 256 == Number(b2) && v / 0x100_0000 % 256 == Number(b3)
  {
    hide Number;
    Chopped(Number(b3), Number(b2), Number(b1), Number(b0));
  }

  /** Exclusive or of words given by their bytes. */
  lemma {:induction false} ExorBytes(a3: bv8, a2: bv8, a1: bv8, a0: bv8, b3: bv8, b2: bv8, b1: bv8, b0: bv8)
    ensures Exor(FromBytes(a3, a2, a1, a0), FromBytes(b3, b2, b1, b0))
            == FromBytes(ExorOctet(a3, b3), ExorOctet(a2, b2), ExorOctet(a1, b1), ExorOctet(a0, b0))
  {
    OctetsOf(FromBytes(a3, a2, a1, a0), a3, a2, a1, a0);
    OctetsOf(FromBytes(b3, b2, b1, b0), b3, b2, b1, b0);
    hide Octet, ExorOctet, Number;
  }

  /** A rotation, given the bits `h` that it moves to the bottom: no division is left to be done. */
  predicate Turned(v: Word, p: nat, q: nat, h: nat, r: Word) {
    h * q <= v < h * q + q && r == (v - h * q) * p + h
  }

  predicate Summed(a: Word, b: Word, sum: Word) {
    a + b == sum || a + b == sum + 0x1_0000_0000
  }

  lemma {:induction false} SummedIsPlus(a: Word, b: Word, sum: Word)
    requires Summed(a, b, sum)
    ensures Plus(a, b) == sum
  {
  }

  lemma {:induction false} TurnedIsRol(v: Word, p: nat, q: nat, h: nat, r: Word)
    requires p > 0 && q > 0 && p * q == 0x1_0000_0000 && Turned(v, p, q, h, r)
    ensures Rol(v, p, q) == r
  {
    var l := v - h * q;
    Divided(v, q, h, l);
    assert v * p == h * (p * q) + l * p;
    assert v * p + h == h * 0x1_0000_0000 + r;
    Divided(v * p + h, 0x1_0000_0000, h, r);
  }

  /** One round, given what it computes on the way: sums, rotations with the bits that they move to the
      bottom, and exclusive ors. */
  lemma {:induction false} RoundValue(s: State, a0: Word, a2: Word, r1: Word, h1: nat, r3: Word, h3: nat,
                                      a1: Word, a3: Word, r0: Word, h0: nat, b2: Word, c1: Word, k1: nat,
                                      c3: Word, k3: nat, k2: nat, t: State)
    requires Summed(s.v0, s.v1, a0) && Summed(s.v2, s.v3, a2)
    requires Turned(s.v1, 0x20, 0x800_0000, h1, r1) && Turned(s.v3, 0x100, 0x100_0000, h3, r3)
    requires a1 == Exor(r1, a0) && a3 == Exor(r3, a2)
    requires Turned(a0, 0x1_0000, 0x1_0000, h0, r0) && Summed(r0, a3, t.v0) && Summed(a2, a1, b2)
    requires Turned(a1, 0x2000, 0x8_0000, k1, c1) && Turned(a3, 0x80, 0x200_0000, k3, c3)
    requires Turned(b2, 0x1_0000, 0x1_0000, k2, t.v2) && t.v1 == Exor(c1, b2) && t.v3 == Exor(c3, t.v0)
    ensures CopiedRound(s) == t
  {
    TurnedIsRol(s.v1, 0x20, 0x800_0000, h1, r1);
    TurnedIsRol(s.v3, 0x100, 0x100_0000, h3, r3);
    TurnedIsRol(a0, 0x1_0000, 0x1_0000, h0, r0);
    TurnedIsRol(a1, 0x2000, 0x8_0000, k1, c1);
    TurnedIsRol(a3, 0x80, 0x200_0000, k3, c3);
    TurnedIsRol(b2, 0x1_0000, 0x1_0000, k2, t.v2);
    SummedIsPlus(s.v0, s.v1, a0);
    SummedIsPlus(s.v2, s.v3, a2);
    SummedIsPlus(r0, a3, t.v0);
    SummedIsPlus(a2, a1, b2);
    hide Exor, Rol, Plus, Turned, Summed;
  }
}
