/** rat/src/rat_rhash.c: streaming HalfSipHash-1-3-32, on a little-endian machine. A rhash_val is
    a 32-bit word, kept as a natural number below 2^32. */
module Rhash {
  import opened Bits

  const CROUNDS: nat := 1
  const DROUNDS: nat := 3
  const WORD_BITS: nat := 32

  type Word = w: nat | w < 0x1_0000_0000

  lemma {:induction false} Pow2Word()
    ensures Pow2(CHAR_BIT) == 256 && Pow2(WORD_BITS) == 0x1_0000_0000
  {
    Pow2Byte();
    ShlShl(1, 8, 4);
    assert Shl(256, 4) == 0x1000;
    ShlShl(1, 12, 4);
    assert Shl(0x1000, 4) == 0x1_0000;
    ShlShl(1, 16, 4);
    assert Shl(0x1_0000, 4) == 0x10_0000;
    ShlShl(1, 20, 4);
    assert Shl(0x10_0000, 4) == 0x100_0000;
    ShlShl(1, 24, 4);
    assert Shl(0x100_0000, 4) == 0x1000_0000;
    ShlShl(1, 28, 4);
    assert Shl(0x1000_0000, 4) == 0x1_0000_0000;
  }

  // ---- Words ---------------------------------------------------------------------------------

  function Add(a: Word, b: Word): Word {
    (a + b) % 0x1_0000_0000
  }

  function Sub(a: Word, b: Word): Word {
    (a - b) % 0x1_0000_0000
  }

  function Mix(a: Word, b: Word): Word {
    Pow2Word();
    XorBound(a, b, WORD_BITS);
    Xor(a, b)
  }

  /** ROTL */
  function Rotl(v: Word, n: nat): Word
    requires 0 < n < WORD_BITS
  {
    RotlParts(v, n);
    Or(Low(Shl(v, n), WORD_BITS), Shr(v, WORD_BITS - n))
  }

  /** A rotation swaps the two parts of a word. */
  lemma {:induction false} RotlParts(v: Word, n: nat)
    requires 0 < n < WORD_BITS
    ensures var hi, lo := Shr(v, WORD_BITS - n), Low(v, WORD_BITS - n);
            && v == Shl(hi, WORD_BITS - n) + lo && hi < Pow2(n) && lo < Pow2(WORD_BITS - n)
            && Or(Low(Shl(v, n), WORD_BITS), hi) == Shl(lo, n) + hi < 0x1_0000_0000
  {
    hide Shl, Shr, Low, Or;
    var k := WORD_BITS - n;
    var hi, lo := Shr(v, k), Low(v, k);
    Pow2Word();
    Split(v, k);
    ShrBelow(v, n, k);
    ShlSum(Shl(hi, k), lo, n);
    ShlShl(hi, k, n);
    ShlBound(lo, k, n);
    Join(hi, Shl(lo, n), WORD_BITS);
    OrDisjoint(hi, lo, n);
    ShlBelow(lo, hi, k, n);
  }

  /** Rotating on by the remaining bits undoes a rotation. */
  lemma {:induction false} RotlBack(v: Word, n: nat)
    requires 0 < n < WORD_BITS
    ensures Rotl(Rotl(v, n), WORD_BITS - n) == v
  {
    hide Shl, Shr, Low, Or;
    var k := WORD_BITS - n;
    var hi, lo := Shr(v, k), Low(v, k);
    RotlParts(v, n);
    Join(lo, hi, n);
    RotlParts(Rotl(v, n), k);
  }

  lemma {:induction false} MixCancel(a: Word, b: Word)
    ensures Mix(Mix(a, b), b) == a
  {
    XorCancel(a, b);
  }

  lemma {:induction false} AddCancel(a: Word, b: Word)
    ensures Sub(Add(a, b), b) == a && Add(Sub(a, b), b) == a
  {
  }

  // ---- Specification: HalfSipHash ----------------------------------------------------------

  /** The four words of hash state. */
  datatype State = State(v0: Word, v1: Word, v2: Word, v3: Word)

  /** One SipRound on 32-bit words. */
  function Round(s: State): State {
    var a0 := Add(s.v0, s.v1);
    var a1 := Mix(Rotl(s.v1, 5), a0);
    var a2 := Add(s.v2, s.v3);
    var a3 := Mix(Rotl(s.v3, 8), a2);
    var b0 := Add(Rotl(a0, 16), a3);
    var b2 := Add(a2, a1);
    State(b0, Mix(Rotl(a1, 13), b2), Rotl(b2, 16), Mix(Rotl(a3, 7), b0))
  }

  function Rounds(s: State, n: nat): State
    decreases n
  {
    if n == 0 then s else Rounds(Round(s), n - 1)
  }

  /** Up to four bytes as a little-endian word, zeros above. */
  function Load(bytes: seq<Byte>): (w: Word)
    requires |bytes| <= 4
    ensures w < Pow2(CHAR_BIT * |bytes|)
    decreases |bytes|
  {
    if bytes == [] then 0
    else
      var n := |bytes| - 1;
      LoadStep(bytes[n], Load(bytes[..n]), n);
      Or(Load(bytes[..n]), Shl(bytes[n], CHAR_BIT * n))
  }

  lemma {:induction false} LoadStep(b: Byte, w: nat, n: nat)
    requires n < 4 && w < Pow2(CHAR_BIT * n)
    ensures Or(w, Shl(b, CHAR_BIT * n)) == Shl(b, CHAR_BIT * n) + w < Pow2(CHAR_BIT * (n + 1)) <= 0x1_0000_0000
  {
    hide Shl, Or;
    Pow2Word();
    OrDisjoint(w, b, CHAR_BIT * n);
    ShlBelow(b, w, CHAR_BIT, CHAR_BIT * n);
    Pow2Grows(CHAR_BIT * (n + 1), WORD_BITS);
  }

  /** Compression of one message word. */
  function Compress(s: State, m: Word): State {
    var t := Rounds(s.(v3 := Mix(s.v3, m)), CROUNDS);
    t.(v0 := Mix(t.v0, m))
  }

  function Start(key0: Word, key1: Word): State {
    State(key0, key1, Mix(key0, 0x6c796765), Mix(key1, 0x74656462))
  }

  /** Compression of the whole words of a message. */
  function Absorb(s: State, msg: seq<Byte>): State
    decreases |msg|
  {
    if |msg| < 4 then s else Absorb(Compress(s, Load(msg[..4])), msg[4..])
  }

  /** The bytes behind the last whole word. */
  function Tail(msg: seq<Byte>): (t: seq<Byte>)
    ensures |t| == |msg| % 4
  {
    msg[|msg| - |msg| % 4..]
  }

  /** The last word: the remaining bytes, zeros, and the message length modulo 256 on top. */
  function LastWord(msg: seq<Byte>): Word {
    var t := Tail(msg);
    LengthOnTop(Load(t), |t|, |msg|);
    Shl(|msg| % 256, 24) + Load(t)
  }

  lemma {:induction false} LengthOnTop(rem: Word, n: nat, total: nat)
    requires n < 4 && rem < Pow2(CHAR_BIT * n)
    ensures Or(rem, Low(Shl(Low(total, WORD_BITS), 24), WORD_BITS)) == Shl(total % 256, 24) + rem < 0x1_0000_0000
  {
    hide Shl, Or, Low;
    Pow2Word();
    var low := Low(total, WORD_BITS);
    LowIsMod(total);
    LowLow(total, CHAR_BIT, WORD_BITS);
    Split(low, CHAR_BIT);
    ShlSum(Shl(Shr(low, CHAR_BIT), CHAR_BIT), total % 256, 24);
    ShlShl(Shr(low, CHAR_BIT), CHAR_BIT, 24);
    ShlBound(total % 256, CHAR_BIT, 24);
    Join(Shr(low, CHAR_BIT), Shl(total % 256, 24), WORD_BITS);
    Pow2Grows(CHAR_BIT * n, 24);
    OrDisjoint(rem, total % 256, 24);
    ShlBelow(total % 256, rem, CHAR_BIT, 24);
  }

  lemma {:induction false} LowIsMod(v: nat)
    ensures Low(v, CHAR_BIT) == v % 256
  {
    hide Low, Shl, Shr;
    Pow2Byte();
    Split(v, CHAR_BIT);
    ShlByte(Shr(v, CHAR_BIT));
  }

  function Finalize(s: State, last: Word): Word {
    var t := Compress(s, last);
    var u := Rounds(t.(v2 := Mix(t.v2, 0xFF)), DROUNDS);
    Mix(u.v1, u.v3)
  }

  /** HalfSipHash-1-3-32 of a message. */
  function Hash(key0: Word, key1: Word, msg: seq<Byte>): Word {
    Finalize(Absorb(Start(key0, key1), msg), LastWord(msg))
  }

  // ---- SipRound is a bijection ---------------------------------------------------------------

  /** The round run backwards. */
  function Unround(s: State): State {
    var b2 := Rotl(s.v2, 16);
    var a1 := Rotl(Mix(s.v1, b2), 19);
    var a2 := Sub(b2, a1);
    var a3 := Rotl(Mix(s.v3, s.v0), 25);
    var a0 := Rotl(Sub(s.v0, a3), 16);
    var v3 := Rotl(Mix(a3, a2), 24);
    var v1 := Rotl(Mix(a1, a0), 27);
    State(Sub(a0, v1), v1, Sub(a2, v3), v3)
  }

  /** sipround is a bijection on the four words. */
  lemma {:induction false} RoundIsBijection(s: State)
    ensures Unround(Round(s)) == s
    ensures Round(Unround(s)) == s
  {
    RoundThenBack(s);
    BackThenRound(s);
  }

  lemma {:induction false} RoundThenBack(s: State)
    ensures Unround(Round(s)) == s
  {
    hide Rotl, Add, Sub, Mix;
    var a0 := Add(s.v0, s.v1);
    var a1 := Mix(Rotl(s.v1, 5), a0);
    var a2 := Add(s.v2, s.v3);
    var a3 := Mix(Rotl(s.v3, 8), a2);
    var b0 := Add(Rotl(a0, 16), a3);
    var b2 := Add(a2, a1);
    RotlBack(b2, 16);
    MixCancel(Rotl(a1, 13), b2);
    RotlBack(a1, 13);
    AddCancel(a2, a1);
    MixCancel(Rotl(a3, 7), b0);
    RotlBack(a3, 7);
    AddCancel(Rotl(a0, 16), a3);
    RotlBack(a0, 16);
    MixCancel(Rotl(s.v3, 8), a2);
    RotlBack(s.v3, 8);
    MixCancel(Rotl(s.v1, 5), a0);
    RotlBack(s.v1, 5);
    AddCancel(s.v0, s.v1);
    AddCancel(s.v2, s.v3);
  }

  lemma {:induction false} BackThenRound(s: State)
    ensures Round(Unround(s)) == s
  {
    hide Rotl, Add, Sub, Mix;
    var b2 := Rotl(s.v2, 16);
    var a1 := Rotl(Mix(s.v1, b2), 19);
    var a2 := Sub(b2, a1);
    var a3 := Rotl(Mix(s.v3, s.v0), 25);
    var a0 := Rotl(Sub(s.v0, a3), 16);
    var v3 := Rotl(Mix(a3, a2), 24);
    var v1 := Rotl(Mix(a1, a0), 27);
    AddCancel(a0, v1);
    AddCancel(a2, v3);
    RotlBack(Mix(a1, a0), 27);
    MixCancel(a1, a0);
    RotlBack(Mix(a3, a2), 24);
    MixCancel(a3, a2);
    RotlBack(Sub(s.v0, a3), 16);
    AddCancel(s.v0, a3);
    AddCancel(b2, a1);
    RotlBack(Mix(s.v1, b2), 19);
    MixCancel(s.v1, b2);
    RotlBack(s.v2, 16);
    RotlBack(Mix(s.v3, s.v0), 25);
    MixCancel(s.v3, s.v0);
  }

  // ---- Absorbing a message piece by piece ------------------------------------------------------

  lemma {:induction false} AbsorbConcat(s: State, a: seq<Byte>, b: seq<Byte>)
    requires |a| % 4 == 0
    ensures Absorb(s, a + b) == Absorb(Absorb(s, a), b)
    decreases |a|
  {
    hide Compress, Load;
    if |a| == 0 {
      assert a + b == b;
    } else {
      assert (a + b)[..4] == a[..4] && (a + b)[4..] == a[4..] + b;
      AbsorbConcat(Compress(s, Load(a[..4])), a[4..], b);
    }
  }

  lemma {:induction false} AbsorbWord(s: State, a: seq<Byte>, w: seq<Byte>)
    requires |a| % 4 == 0 && |w| == 4
    ensures Absorb(s, a + w) == Compress(Absorb(s, a), Load(w))
  {
    hide Compress, Load;
    AbsorbConcat(s, a, w);
    assert w[..4] == w && w[4..] == [];
  }

  lemma {:induction false} AbsorbShort(s: State, a: seq<Byte>, t: seq<Byte>)
    requires |a| % 4 == 0 && |t| < 4
    ensures Absorb(s, a + t) == Absorb(s, a) && Tail(a + t) == t
  {
    hide Compress, Load;
    AbsorbConcat(s, a, t);
    assert Absorb(Absorb(s, a), t) == Absorb(s, a);
  }

  /** A message is its whole words and its tail. */
  lemma {:induction false} WholeAndTail(msg: seq<Byte>) returns (a: seq<Byte>)
    ensures |a| % 4 == 0 && msg == a + Tail(msg)
  {
    a := msg[..|msg| - |msg| % 4];
  }

  // ---- The code ------------------------------------------------------------------------------

  /** sipround, which updates the four words through pointers. */
  method SipRound(s: State) returns (t: State)
    ensures t == Round(s)
  {
    var v0, v1, v2, v3 := s.v0, s.v1, s.v2, s.v3;
    v0 := Add(v0, v1);
    v1 := Mix(Rotl(v1, 5), v0);
    v0 := Rotl(v0, 16);

    v2 := Add(v2, v3);
    v3 := Mix(Rotl(v3, 8), v2);

    v0 := Add(v0, v3);
    v3 := Mix(Rotl(v3, 7), v0);

    v2 := Add(v2, v1);
    v1 := Mix(Rotl(v1, 13), v2);

    v2 := Rotl(v2, 16);
    t := State(v0, v1, v2, v3);
  }

  method SipRounds(s: State, n: nat) returns (t: State)
    ensures t == Rounds(s, n)
  {
    t := s;
    for j := 0 to n
      invariant Rounds(t, n - j) == Rounds(s, n)
    {
      t := SipRound(t);
    }
  }

  /** The three steps around each message word. */
  method CompressWord(s: State, word: Word) returns (t: State)
    ensures t == Compress(s, word)
  {
    t := s.(v3 := Mix(s.v3, word));
    t := SipRounds(t, CROUNDS);
    t := t.(v0 := Mix(t.v0, word));
  }

  /** The byte loops: `bytes` is put behind the `oldSize` bytes that `word` holds. */
  method Gather(word: Word, oldSize: nat, bytes: seq<Byte>, ghost held: seq<Byte>) returns (result: Word)
    requires oldSize == |held| && |held| + |bytes| <= 4 && word == Load(held)
    ensures result == Load(held + bytes)
  {
    result := word;
    assert held + bytes[..0] == held;
    for i := 0 to |bytes|
      invariant result == Load(held + bytes[..i])
    {
      ghost var longer := held + bytes[..i + 1];
      assert longer[..|longer| - 1] == held + bytes[..i] && longer[|longer| - 1] == bytes[i];
      LoadStep(bytes[i], result, |held| + i);
      result := Or(result, Shl(bytes[i], CHAR_BIT * (oldSize + i)));
    }
    assert bytes[..|bytes|] == bytes;
  }

  class Rhash {
    ghost const key0: Word
    ghost const key1: Word
    var val: State
    var rem: Word
    var totalSize: nat
    /** The message so far. */
    ghost var msg: seq<Byte>

    /** `val` has taken in the whole words, `rem` holds exactly the bytes behind them. */
    ghost predicate Valid()
      reads this
    {
      && val == Absorb(Start(key0, key1), msg)
      && rem == Load(Tail(msg))
      && totalSize == |msg|
    }

    /** rhash_init */
    constructor (key0: Word, key1: Word)
      ensures Valid() && msg == [] && this.key0 == key0 && this.key1 == key1
    {
      this.key0, this.key1 := key0, key1;
      val := State(key0, key1, Mix(key0, 0x6c796765), Mix(key1, 0x74656462));
      rem, totalSize, msg := 0, 0, [];
    }

    /** rhash_add */
    method Add(buf: seq<Byte>)
      requires Valid()
      modifies this
      ensures Valid() && msg == old(msg) + buf
      ensures rem < Pow2(CHAR_BIT * (totalSize % 4))
    {
      hide Load, Absorb, Compress, Start, Shl;
      ghost var front := Start(key0, key1);
      ghost var tail := Tail(msg);
      ghost var done := WholeAndTail(msg);
      AbsorbShort(front, done, tail);
      var v := val;
      var words := buf;
      var oldRemSize := totalSize % 4;
      totalSize := totalSize + |buf|;
      msg := msg + buf;
      if oldRemSize > 0 {
        var needSize := 4 - oldRemSize;
        if needSize > |buf| {
          rem := Gather(rem, oldRemSize, buf, tail);
          assert msg == done + (tail + buf);
          AbsorbShort(front, done, tail + buf);
          return;
        }
        var word := Gather(rem, oldRemSize, buf[..needSize], tail);
        v := CompressWord(v, word);
        AbsorbWord(front, done, tail + buf[..needSize]);
        done := done + (tail + buf[..needSize]);
        words := buf[needSize..];
        assert msg == done + words;
      } else {
        assert msg == done + words;
      }
      WordLoop(v, words, done);
    }

    /** The word loop of rhash_add and what follows it; `done` has been taken in. */
    method WordLoop(start: State, words: seq<Byte>, ghost done: seq<Byte>)
      requires |done| % 4 == 0 && msg == done + words && totalSize == |msg|
      requires start == Absorb(Start(key0, key1), done)
      modifies this`val, this`rem
      ensures Valid()
    {
      hide Load, Absorb, Compress, Start, Tail;
      ghost var front := Start(key0, key1);
      var wordCount := |words| / 4;
      var v := start;
      assert done + words[..0] == done;
      for i := 0 to wordCount
        invariant v == Absorb(front, done + words[..4 * i])
      {
        var word := Load(words[4 * i..4 * i + 4]);
        v := CompressWord(v, word);
        AbsorbWord(front, done + words[..4 * i], words[4 * i..4 * i + 4]);
        assert done + words[..4 * (i + 1)] == done + words[..4 * i] + words[4 * i..4 * i + 4];
      }
      val := v;
      var rest := words[4 * wordCount..];
      LoadNone();
      rem := Gather(0, 0, rest, []);
      assert [] + rest == rest;
      AbsorbShort(front, done + words[..4 * wordCount], rest);
      assert msg == done + words[..4 * wordCount] + rest;
    }

    /** rhash_result, which leaves the state alone. */
    method Result() returns (hash: Word)
      requires Valid()
      ensures hash == Hash(key0, key1, msg)
    {
      hide Absorb, Load, Rounds, Compress, Tail, Shl, Or, Low, Mix, Start;
      LengthOnTop(rem, |Tail(msg)|, |msg|);
      var word := Or(rem, Low(Shl(Low(totalSize, WORD_BITS), 24), WORD_BITS));
      var v := CompressWord(val, word);
      v := v.(v2 := Mix(v.v2, 0xFF));
      v := SipRounds(v, DROUNDS);
      hash := Mix(v.v1, v.v3);
    }
  }

  lemma {:induction false} LoadNone()
    ensures Load([]) == 0
  {
  }

  /** rhash_calc */
  method Calc(key0: Word, key1: Word, buf: seq<Byte>) returns (hash: Word)
    ensures hash == Hash(key0, key1, buf)
  {
    var h := new Rhash(key0, key1);
    h.Add(buf);
    assert [] + buf == buf;
    hash := h.Result();
  }

  // ---- Streaming is invisible -----------------------------------------------------------------

  function Concatenated(pieces: seq<seq<Byte>>): seq<Byte> {
    if pieces == [] then [] else Concatenated(pieces[..|pieces| - 1]) + pieces[|pieces| - 1]
  }

  /** However a message is cut, the pieces yield the state and the hash of the whole. */
  method HashPieces(key0: Word, key1: Word, pieces: seq<seq<Byte>>) returns (h: Rhash, hash: Word)
    ensures h.Valid() && h.key0 == key0 && h.key1 == key1
    ensures h.val == Absorb(Start(key0, key1), Concatenated(pieces)) && h.rem == Load(Tail(Concatenated(pieces)))
    ensures h.totalSize == |Concatenated(pieces)|
    ensures hash == Hash(key0, key1, Concatenated(pieces))
  {
    h := new Rhash(key0, key1);
    for i := 0 to |pieces|
      invariant h.Valid() && h.key0 == key0 && h.key1 == key1 && fresh(h)
      invariant h.msg == Concatenated(pieces[..i])
    {
      h.Add(pieces[i]);
      assert pieces[..i + 1][..i] == pieces[..i];
    }
    assert pieces[..|pieces|] == pieces;
    hash := h.Result();
  }
}
