/** What the checksum of rat/src/rat_rcrc.c means: polynomial division, the usual register form,
    and the algebra that callers rely on. */
module RcrcTheory {
  import opened Bits
  import opened Gf2
  import opened Rcrc

  // ---- Reflection and the final exclusive or lose nothing ------------------------------------

  lemma {:induction false} FinishInjective(p: Params, r: nat, s: nat)
    requires p.Ok() && r < Pow2(p.width) && s < Pow2(p.width)
    ensures p.Finish(r) == p.Finish(s) <==> r == s
  {
    hide Xor, Reverse;
    var u := if p.refOut then Reverse(r, p.width) else r;
    var v := if p.refOut then Reverse(s, p.width) else s;
    XorCancel(u, p.xorOut);
    XorCancel(v, p.xorOut);
    ReverseTwice(r, p.width);
    ReverseTwice(s, p.width);
  }

  /** The result is the reflected and complemented remainder of the folded message times x^w, and
      of nothing else. */
  lemma {:induction false} ChecksumIsRemainder(p: Params, msg: seq<Byte>, r: nat)
    requires p.Ok() && r < Pow2(p.width)
    ensures p.Checksum(msg) == p.Finish(r) <==> IsRemainder(p.width, p.poly, Shl(p.Folded(msg), p.width), r)
  {
    var m := Shl(p.Folded(msg), p.width);
    RemIsTheRemainder(p.width, p.poly, m, r);
    RemBound(p.width, p.poly, m);
    FinishInjective(p, Rem(p.width, p.poly, m), r);
  }

  // ---- Which bit is which --------------------------------------------------------------------

  /** Bit `j` of byte `k` is a coefficient of the message polynomial: the first byte first, and in each
      byte the highest bit first, or the lowest if the input is reflected. */
  lemma {:induction false} MessageBit(p: Params, msg: seq<Byte>, k: nat, j: nat)
    requires k < |msg| && j < CHAR_BIT
    ensures Bit(p.Message(msg), CHAR_BIT * (|msg| - 1 - k) + j) == Bit(msg[k], if p.refIn then CHAR_BIT - 1 - j else j)
    decreases |msg|
  {
    hide Shl, Shr, Reverse;
    var front, last := msg[..|msg| - 1], msg[|msg| - 1];
    FedBound(p, last);
    Pow2Byte();
    if k < |front| {
      MessageBit(p, front, k, j);
      BitAbove(p.Message(front), p.Fed(last), CHAR_BIT, CHAR_BIT * (|front| - 1 - k) + j);
    } else {
      BitBelow(p.Message(front), p.Fed(last), CHAR_BIT, j);
      ReverseBit(last, CHAR_BIT, j);
    }
  }

  lemma {:induction false} BitAbove(a: nat, x: nat, k: nat, i: nat)
    requires x < Pow2(k)
    ensures Bit(Shl(a, k) + x, k + i) == Bit(a, i)
  {
    hide Shl, Shr, Low;
    Join(a, x, k);
    ShrShr(Shl(a, k) + x, k, i);
  }

  /** The generator is x^w and the terms of `poly`. */
  lemma {:induction false} GeneratorBit(w: nat, poly: nat, i: nat)
    requires poly < Pow2(w) && i <= w
    ensures Bit(Generator(w, poly), i) == if i < w then Bit(poly, i) else 1
  {
    hide Shl, Shr;
    if i < w {
      BitBelow(1, poly, w, i);
    } else {
      BitAbove(1, poly, w, 0);
      ShrNone(1);
    }
  }

  /** Bit `i` of the checksum is that of the final exclusive or, and bit `i` of the remainder of the
      division, or bit `i` from the top if the output is reflected; no bit stands above the width. */
  lemma {:induction false} ChecksumBit(p: Params, msg: seq<Byte>, r: nat, i: nat)
    requires p.Ok() && i < p.width && IsRemainder(p.width, p.poly, Shl(p.Folded(msg), p.width), r)
    ensures Bit(p.Checksum(msg), i) == (Bit(r, if p.refOut then p.width - 1 - i else i) + Bit(p.xorOut, i)) % 2
    ensures p.Checksum(msg) < Pow2(p.width)
  {
    var w, m := p.width, Shl(p.Folded(msg), p.width);
    RemIsTheRemainder(w, p.poly, m, r);
    RemBound(w, p.poly, m);
    hide Shl, Shr, Xor, Rem, Reverse;
    ReverseBit(r, w, i);
    ReverseBound(r, w);
    XorBit(if p.refOut then Reverse(r, w) else r, p.xorOut, i);
    XorBound(if p.refOut then Reverse(r, w) else r, p.xorOut, w);
  }

  // ---- The reference register ------------------------------------------------------------------

  /** One reference step: a shift with reduction, and the new bit times x^w. */
  lemma {:induction false} DirectStep(p: Params, reg: nat, bit: nat)
    requires p.Ok() && reg < Pow2(p.width) && bit < 2
    ensures p.DirectBit(reg, bit) == Xor(Reduce(p.width, p.poly, 2 * reg), bit * p.poly)
  {
    hide Xor, Low, Shl, Shr;
    var w := p.width;
    var top, low := Bit(reg, w - 1), Low(reg, w - 1);
    DoubledLow(w, reg, 0);
    LowSmall(reg, w);
    ReduceValue(w, p.poly, 2 * reg, top, 2 * low);
    XorZero(2 * low);
    XorZero(Xor(2 * low, p.poly));
    XorCancel(2 * low, p.poly);
  }

  lemma {:induction false} BitOfPoly(w: nat, poly: nat, bit: nat)
    requires poly < Pow2(w) && bit < 2
    ensures Rem(w, poly, Shl(bit, w)) == bit * poly
  {
    RemPow2(w, poly);
    ShlZero(w);
  }

  /** The reference register holds the remainder of m * x^w + init * x^n. */
  lemma {:induction false} DirectIsRemainder(p: Params, m: nat, n: nat)
    requires p.Ok() && m < Pow2(n)
    ensures p.DirectBits(m, n) == Rem(p.width, p.poly, Xor(Shl(m, p.width), Shl(p.init, n)))
    ensures p.DirectBits(m, n) < Pow2(p.width)
  {
    if n == 0 {
      ShlZero(p.width);
      RemSmall(p.width, p.poly, p.init);
    } else {
      DirectIsRemainder(p, m / 2, n - 1);
      DirectIsRemainderStep(p, m, n);
    }
  }

  lemma {:induction false} DirectIsRemainderStep(p: Params, m: nat, n: nat)
    requires p.Ok() && n > 0
    requires p.DirectBits(m / 2, n - 1) == Rem(p.width, p.poly, Xor(Shl(m / 2, p.width), Shl(p.init, n - 1)))
    ensures p.DirectBits(m, n) == Rem(p.width, p.poly, Xor(Shl(m, p.width), Shl(p.init, n)))
    ensures p.DirectBits(m, n) < Pow2(p.width)
  {
    hide Xor, Shl, Rem, Reduce;
    var w := p.width;
    var h, bit := m / 2, m % 2;
    var before := Xor(Shl(h, w), Shl(p.init, n - 1));
    RemBound(w, p.poly, before);
    DirectStep(p, Rem(w, p.poly, before), bit);
    RemStep(w, p.poly, before, 0);
    BitOfPoly(w, p.poly, bit);
    RemLinear(w, p.poly, 2 * before, Shl(bit, w));
    // 2 * before + bit * x^w regroups to m * x^w + init * x^n
    DoubleXor(Shl(h, w), Shl(p.init, n - 1));
    DoubleShl(p.init, n - 1);
    ShlOfDouble(h, bit, w);
    XorSwapThree(2 * Shl(h, w), Shl(p.init, n), Shl(bit, w));
    RemBound(w, p.poly, Xor(Shl(m, w), Shl(p.init, n)));
  }

  lemma {:induction false} DoubleXor(a: nat, b: nat)
    ensures Xor(2 * a, 2 * b) == 2 * Xor(a, b)
  {
    hide Xor;
    assert (2 * a) / 2 == a && (2 * b) / 2 == b && (2 * Xor(a, b)) / 2 == Xor(a, b);
    FromHalves(2 * Xor(a, b), 2 * a, 2 * b);
  }

  lemma {:induction false} ShlOfDouble(h: nat, bit: nat, w: nat)
    requires bit < 2
    ensures Shl(2 * h + bit, w) == Xor(2 * Shl(h, w), Shl(bit, w))
  {
    hide Xor, Shl;
    ShlShl(h, w, 1);
    ShlShl(h, 1, w);
    OneShl(h);
    OneShl(Shl(h, w));
    OneShl(1);
    XorDisjoint(h, bit, 1);
    XorShl(2 * h, bit, w);
  }

  lemma {:induction false} OneShl(v: nat)
    ensures Shl(v, 1) == 2 * v
  {
  }

  lemma {:induction false} XorSwapThree(a: nat, b: nat, c: nat)
    ensures Xor(Xor(a, b), c) == Xor(Xor(a, c), b)
  {
    XorAssoc(a, b, c);
    XorComm(b, c);
    XorAssoc(a, c, b);
  }

  lemma {:induction false} MessageBound(p: Params, msg: seq<Byte>)
    ensures p.Message(msg) < Pow2(CHAR_BIT * |msg|)
  {
    if msg != [] {
      var front := msg[..|msg| - 1];
      MessageBound(p, front);
      FedBound(p, msg[|msg| - 1]);
      Pow2Byte();
      ShlBelow(p.Message(front), p.Fed(msg[|msg| - 1]), CHAR_BIT * |front|, CHAR_BIT);
    }
  }

  // ---- Folding the initial value in lazily ------------------------------------------------------

  /** The bits of the initial value that a message of n bits is too short to meet. */
  function Unmet(p: Params, n: nat): nat {
    if n >= p.width then 0 else Low(p.init, p.width - n)
  }

  /** The lazy form misses exactly the unmet bits. */
  lemma {:induction false} FoldedShl(p: Params, msg: seq<Byte>)
    requires p.Ok()
    ensures var w, n := p.width, CHAR_BIT * |msg|;
            && Xor(Shl(p.Message(msg), w), Shl(p.init, n)) == Xor(Shl(p.Folded(msg), w), Shl(Unmet(p, n), n))
            && Shl(Unmet(p, n), n) < Pow2(w)
            && (Shl(Unmet(p, n), n) == 0 <==> Unmet(p, n) == 0)
  {
    hide Xor, Shl, Shr, Low;
    var w, n := p.width, CHAR_BIT * |msg|;
    var part, unmet := p.InitPart(n), Unmet(p, n);
    XorShl(p.Message(msg), part, w);
    Pow2Grows(0, w);
    ShlZero(n);
    if n >= w {
      ShlShl(p.init, n - w, w);
      XorZero(Xor(Shl(p.Message(msg), w), Shl(p.init, n)));
    } else {
      Split(p.init, w - n);
      ShlSum(Shl(part, w - n), unmet, n);
      ShlShl(part, w - n, n);
      ShlBound(unmet, w - n, n);
      XorDisjoint(part, Shl(unmet, n), w);
      XorAssoc(Shl(p.Message(msg), w), Shl(part, w), Shl(unmet, n));
    }
  }

  /** The library's result is the reference result exactly for messages of at least `width` bits,
      and for shorter ones whose unmet initial bits are all zero. */
  lemma {:induction false} MatchesReference(p: Params, msg: seq<Byte>)
    requires p.Ok()
    ensures p.Checksum(msg) == p.Reference(msg) <==>
            CHAR_BIT * |msg| >= p.width || Low(p.init, p.width - CHAR_BIT * |msg|) == 0
  {
    hide Xor, Shl, Shr, Low, Rem;
    var w, n := p.width, CHAR_BIT * |msg|;
    MessageBound(p, msg);
    DirectIsRemainder(p, p.Message(msg), n);
    FoldedShl(p, msg);
    var lazy, missing := Shl(p.Folded(msg), w), Shl(Unmet(p, n), n);
    RemLinear(w, p.poly, lazy, missing);
    RemSmall(w, p.poly, missing);
    RemBound(w, p.poly, lazy);
    var r := Rem(w, p.poly, lazy);
    XorBound(r, missing, w);
    FinishInjective(p, r, Xor(r, missing));
    XorZero(r);
    XorComm(r, missing);
    XorCancel(missing, r);
    XorSelf(r);
  }

  lemma {:induction false} Pow2TwoBytes()
    ensures Pow2(16) == 0x10000
  {
    hide Shl;
    Pow2Byte();
    ShlShl(1, CHAR_BIT, CHAR_BIT);
    ShlByte(256);
  }

  lemma {:induction false} OddLow(v: nat, k: nat)
    requires k > 0 && v % 2 == 1
    ensures Low(v, k) != 0
  {
  }

  /** CRC-16/IBM-3740 (poly 0x1021, init 0xFFFF) of the empty message and of one byte differ from
      the reference form. */
  lemma {:induction false} ShortMessageWitness(b: Byte)
    ensures var p := Params(16, 0x1021, 0xFFFF, false, false, 0);
            p.Ok() && p.Checksum([]) != p.Reference([]) && p.Checksum([b]) != p.Reference([b])
  {
    var p := Params(16, 0x1021, 0xFFFF, false, false, 0);
    Pow2TwoBytes();
    OddLow(0xFFFF, 16);
    OddLow(0xFFFF, 8);
    hide Low, Shl, Shr, Xor, Rem, Reverse;
    MatchesReference(p, []);
    MatchesReference(p, [b]);
  }

  // ---- Appending the checksum ---------------------------------------------------------------

  /** The `k` low bytes of `v`, most significant first. */
  function BigEndian(v: nat, k: nat): (bytes: seq<Byte>)
    ensures |bytes| == k
    decreases k
  {
    if k == 0 then [] else
    Pow2Byte();
    Split(v, CHAR_BIT);
    BigEndian(Shr(v, CHAR_BIT), k - 1) + [Low(v, CHAR_BIT)]
  }

  lemma {:induction false} MessageOfBigEndian(p: Params, msg: seq<Byte>, v: nat, k: nat)
    requires !p.refIn && v < Pow2(CHAR_BIT * k)
    ensures p.Message(msg + BigEndian(v, k)) == Shl(p.Message(msg), CHAR_BIT * k) + v
    decreases k
  {
    hide Shl, Shr, Low;
    if k == 0 {
      assert msg + [] == msg;
      ShlNone(1);
      ShlNone(p.Message(msg));
    } else {
      var h, b := Shr(v, CHAR_BIT), Low(v, CHAR_BIT);
      var longer := msg + BigEndian(v, k);
      Split(v, CHAR_BIT);
      ShrBelow(v, CHAR_BIT * (k - 1), CHAR_BIT);
      assert longer[..|longer| - 1] == msg + BigEndian(h, k - 1);
      MessageOfBigEndian(p, msg, h, k - 1);
      ShlSum(Shl(p.Message(msg), CHAR_BIT * (k - 1)), h, CHAR_BIT);
      ShlShl(p.Message(msg), CHAR_BIT * (k - 1), CHAR_BIT);
    }
  }

  /** The `k` low bytes of `v`, least significant first. */
  function LittleEndian(v: nat, k: nat): (bytes: seq<Byte>)
    ensures |bytes| == k
    decreases k
  {
    if k == 0 then [] else
    Pow2Byte();
    Split(v, CHAR_BIT);
    [Low(v, CHAR_BIT)] + LittleEndian(Shr(v, CHAR_BIT), k - 1)
  }

  lemma {:induction false} MessageOfLittleEndian(p: Params, msg: seq<Byte>, v: nat, k: nat)
    requires p.refIn
    ensures p.Message(msg + LittleEndian(v, k)) == Shl(p.Message(msg), CHAR_BIT * k) + Reverse(v, CHAR_BIT * k)
    decreases k
  {
    hide Shl, Shr, Low, Reverse, LittleEndian, Params.Message, Params.Fed;
    if k == 0 {
      NoBytes(msg, v);
      ShlNone(p.Message(msg));
      ReverseNone(v);
    } else {
      var b := LowByteFirst(msg, v, k);
      ReflectedByte(p, msg, b);
      MessageOfLittleEndian(p, msg + [b], Shr(v, CHAR_BIT), k - 1);
      ReversedBytes(p.Message(msg), v, CHAR_BIT * (k - 1));
    }
  }

  lemma {:induction false} NoBytes(msg: seq<Byte>, v: nat)
    ensures msg + LittleEndian(v, 0) == msg
  {
  }

  lemma {:induction false} LowByteFirst(msg: seq<Byte>, v: nat, k: nat) returns (b: Byte)
    requires k > 0
    ensures b == Low(v, CHAR_BIT) && msg + LittleEndian(v, k) == msg + [b] + LittleEndian(Shr(v, CHAR_BIT), k - 1)
  {
    hide Shl, Shr, Low;
    b := LittleEndian(v, k)[0];
  }

  lemma {:induction false} ReflectedByte(p: Params, msg: seq<Byte>, b: Byte)
    requires p.refIn
    ensures p.Message(msg + [b]) == Shl(p.Message(msg), CHAR_BIT) + Reverse(b, CHAR_BIT)
  {
    assert (msg + [b])[..|msg|] == msg;
  }

  lemma {:induction false} ReversedBytes(m: nat, v: nat, rest: nat)
    ensures Shl(Shl(m, CHAR_BIT) + Reverse(Low(v, CHAR_BIT), CHAR_BIT), rest) + Reverse(Shr(v, CHAR_BIT), rest)
            == Shl(m, rest + CHAR_BIT) + Reverse(v, rest + CHAR_BIT)
  {
    hide Shl, Shr, Low, Reverse;
    ShlSum(Shl(m, CHAR_BIT), Reverse(Low(v, CHAR_BIT), CHAR_BIT), rest);
    ShlShl(m, CHAR_BIT, rest);
    ReverseSplit(v, rest, CHAR_BIT);
  }

  lemma {:induction false} ReverseNone(v: nat)
    ensures Reverse(v, 0) == 0
  {
  }

  /** A checksum of whole bytes as it is put behind a message: least significant byte first for
      reflected algorithms, last for the others. */
  function Appendix(p: Params, checksum: nat): seq<Byte> {
    if p.refOut then LittleEndian(checksum, p.width / CHAR_BIT) else BigEndian(checksum, p.width / CHAR_BIT)
  }

  /** The final exclusive or before reflection. */
  function Unfinished(p: Params): nat {
    if p.refOut then Reverse(p.xorOut, p.width) else p.xorOut
  }

  /** Algorithms of whole bytes that feed and show bits in the same order. */
  ghost predicate Appendable(p: Params) {
    p.Ok() && p.width % CHAR_BIT == 0 && p.refIn == p.refOut
  }

  /** Put behind a message, the finished remainder `c` adds itself and the final exclusive or. */
  lemma {:induction false} MessageOfAppendix(p: Params, msg: seq<Byte>, c: nat)
    requires Appendable(p) && c < Pow2(p.width)
    ensures Xor(c, Unfinished(p)) < Pow2(p.width)
    ensures p.Message(msg + Appendix(p, p.Finish(c))) == Shl(p.Message(msg), p.width) + Xor(c, Unfinished(p))
  {
    hide Shl, Shr, Low, Xor, Reverse;
    var w := p.width;
    XorBound(c, p.xorOut, w);
    if p.refOut {
      ReverseTwice(c, w);
      ReverseBound(p.xorOut, w);
      XorBound(c, Unfinished(p), w);
      ReverseXor(Reverse(c, w), p.xorOut, w);
      MessageOfLittleEndian(p, msg, p.Finish(c), w / CHAR_BIT);
    } else {
      MessageOfBigEndian(p, msg, p.Finish(c), w / CHAR_BIT);
    }
  }

  /** A message followed by its own checksum leaves the final exclusive or behind, and the unmet bits
      of the initial value. */
  lemma {:induction false} AppendedRemainder(p: Params, msg: seq<Byte>)
    requires Appendable(p)
    ensures var n := CHAR_BIT * |msg|;
            Rem(p.width, p.poly, p.Folded(msg + Appendix(p, p.Checksum(msg))))
            == Xor(Unfinished(p), Shl(Unmet(p, n), n)) < Pow2(p.width)
  {
    hide Shl, Shr, Low, Xor, Rem, Reverse, Unmet, Unfinished;
    var w, n := p.width, CHAR_BIT * |msg|;
    var folded, missing := Shl(p.Folded(msg), w), Shl(Unmet(p, n), n);
    var c := Rem(w, p.poly, folded);
    RemBound(w, p.poly, folded);
    var e := Xor(c, Unfinished(p));
    RemBound(w, p.poly, p.Folded(msg + Appendix(p, p.Checksum(msg))));
    var longer := msg + Appendix(p, p.Checksum(msg));
    MessageOfAppendix(p, msg, c);
    assert CHAR_BIT * |longer| == n + w;
    // M * x^w + e + init * x^n == Folded(msg) * x^w + missing + e
    FoldedShl(p, msg);
    XorDisjoint(p.Message(msg), e, w);
    XorSwapThree(Shl(p.Message(msg), w), e, Shl(p.init, n));
    XorSwapThree(folded, missing, e);
    assert p.Folded(longer) == Xor(Xor(folded, e), missing);
    RemLinear(w, p.poly, Xor(folded, e), missing);
    RemLinear(w, p.poly, folded, e);
    RemSmall(w, p.poly, e);
    RemSmall(w, p.poly, missing);
    XorComm(c, e);
    XorComm(c, Unfinished(p));
    XorCancel(Unfinished(p), c);
  }

  /** The checksum that long messages have together with their own: the final exclusive or, fed
      through the register once more. */
  function Residue(p: Params): nat {
    p.Finish(Rem(p.width, p.poly, Shl(Unfinished(p), p.width)))
  }

  /** The checksum of a message followed by its own checksum is the same for all messages that have
      met the whole initial value, and, for the odd polynomials that are in use, only for those. */
  lemma {:induction false} AppendedChecksum(p: Params, msg: seq<Byte>)
    requires Appendable(p)
    ensures var w, n := p.width, CHAR_BIT * |msg|;
            var again := p.Checksum(msg + Appendix(p, p.Checksum(msg)));
            && again == p.Finish(Rem(w, p.poly, Shl(Xor(Unfinished(p), Shl(Unmet(p, n), n)), w)))
            && (Unmet(p, n) == 0 ==> again == Residue(p))
            && (p.poly % 2 == 1 ==> (again == Residue(p) <==> Unmet(p, n) == 0))
  {
    hide Shl, Shr, Low, Xor, Rem, Reverse, Unmet, Unfinished;
    var w, n, u := p.width, CHAR_BIT * |msg|, Unfinished(p);
    var missing := Shl(Unmet(p, n), n);
    AppendedRemainder(p, msg);
    RemShl(w, p.poly, p.Folded(msg + Appendix(p, p.Checksum(msg))), w);
    FoldedShl(p, msg);
    XorZero(u);
    XorShl(u, missing, w);
    RemLinear(w, p.poly, Shl(u, w), Shl(missing, w));
    var r, s := Rem(w, p.poly, Shl(u, w)), Rem(w, p.poly, Shl(missing, w));
    RemBound(w, p.poly, Shl(u, w));
    RemBound(w, p.poly, Shl(missing, w));
    XorBound(r, s, w);
    FinishInjective(p, Xor(r, s), r);
    XorIsSame(r, s);
    RemSmall(w, p.poly, missing);
    if p.poly % 2 == 1 {
      RemShlIsZero(w, p.poly, missing, w);
    }
  }

  lemma {:induction false} XorIsSame(r: nat, s: nat)
    ensures Xor(r, s) == r <==> s == 0
  {
    hide Xor;
    XorComm(r, s);
    XorCancel(s, r);
    XorSelf(r);
    XorZero(r);
  }

  /** Without a final exclusive or the residue is zero. */
  lemma {:induction false} PlainResidue(p: Params)
    requires p.Ok() && p.xorOut == 0
    ensures Residue(p) == 0
  {
    var w := p.width;
    ReverseZero(w);
    ShlZero(w);
    Pow2Grows(0, w);
    RemSmall(w, p.poly, 0);
    XorZero(0);
  }

  lemma {:induction false} ReverseZero(n: nat)
    ensures Reverse(0, n) == 0
  {
    if n > 0 {
      ReverseZero(n - 1);
      ShlZero(n - 1);
    }
  }

  /** CRC-16/IBM-3740 of the empty message and its checksum together is not the residue, which is 0. */
  lemma {:induction false} AppendedWitness()
    ensures var p := Params(16, 0x1021, 0xFFFF, false, false, 0);
            Appendable(p) && Residue(p) == 0 && p.Checksum([] + Appendix(p, p.Checksum([]))) != 0
  {
    var p := Params(16, 0x1021, 0xFFFF, false, false, 0);
    Pow2TwoBytes();
    OddLow(0xFFFF, 16);
    hide Low, Shl, Shr, Xor, Rem, Reverse;
    AppendedChecksum(p, []);
    PlainResidue(p);
  }

  // ---- Bursts ----------------------------------------------------------------------------------

  /** Messages of one length that differ within `width` consecutive bits have different checksums. */
  lemma {:induction false} BurstDetected(p: Params, a: seq<Byte>, b: seq<Byte>, e: nat, k: nat)
    requires p.Ok() && p.poly % 2 == 1 && |a| == |b|
    requires 0 < e < Pow2(p.width) && Xor(p.Message(a), p.Message(b)) == Shl(e, k)
    ensures p.Checksum(a) != p.Checksum(b)
  {
    hide Shl, Xor, Rem;
    var w, i := p.width, p.InitPart(CHAR_BIT * |a|);
    var x, y := Shl(p.Folded(a), w), Shl(p.Folded(b), w);
    // the parts of the initial value cancel: what is divided differs by e * x^(k + w)
    XorSwap(p.Message(a), i, p.Message(b), i);
    XorSelf(i);
    XorZero(Shl(e, k));
    XorShl(p.Folded(a), p.Folded(b), w);
    ShlShl(e, k, w);
    RemLinear(w, p.poly, x, y);
    RemSmall(w, p.poly, e);
    RemShlIsZero(w, p.poly, e, k + w);
    RemBound(w, p.poly, x);
    RemBound(w, p.poly, y);
    XorSelf(Rem(w, p.poly, x));
    FinishInjective(p, Rem(w, p.poly, x), Rem(w, p.poly, y));
  }

  // ---- Affinity ------------------------------------------------------------------------------

  function Xor3(a: nat, b: nat, c: nat): nat {
    Xor(Xor(a, b), c)
  }

  /** Byte-wise exclusive or of messages of one length. */
  function XorBytes(a: seq<Byte>, b: seq<Byte>): (m: seq<Byte>)
    requires |a| == |b|
    ensures |m| == |a|
  {
    seq(|a|, i requires 0 <= i < |a| => XorByte(a[i], b[i]))
  }

  function XorByte(a: Byte, b: Byte): Byte {
    Pow2Byte();
    XorBound(a, b, CHAR_BIT);
    Xor(a, b)
  }

  lemma {:induction false} MessageXor(p: Params, a: seq<Byte>, b: seq<Byte>)
    requires |a| == |b|
    ensures p.Message(XorBytes(a, b)) == Xor(p.Message(a), p.Message(b))
  {
    hide Xor, Shl, Reverse;
    var k := |a| - 1;
    if k >= 0 {
      assert XorBytes(a, b)[..k] == XorBytes(a[..k], b[..k]);
      MessageXor(p, a[..k], b[..k]);
      FedBound(p, a[k]);
      FedBound(p, b[k]);
      Pow2Byte();
      ReverseXor(a[k], b[k], CHAR_BIT);
      XorJoin(p.Message(a[..k]), p.Fed(a[k]), p.Message(b[..k]), p.Fed(b[k]), CHAR_BIT);
    } else {
      XorZero(0);
    }
  }

  lemma {:induction false} Xor3With(a: nat, b: nat, c: nat, i: nat)
    ensures Xor3(Xor(a, i), Xor(b, i), Xor(c, i)) == Xor(Xor3(a, b, c), i)
  {
    XorSwap(a, i, b, i);
    XorSelf(i);
    XorZero(Xor(a, b));
    XorAssoc(Xor(a, b), c, i);
  }

  lemma {:induction false} Xor3Shl(a: nat, b: nat, c: nat, k: nat)
    ensures Shl(Xor3(a, b, c), k) == Xor3(Shl(a, k), Shl(b, k), Shl(c, k))
  {
    XorShl(a, b, k);
    XorShl(Xor(a, b), c, k);
  }

  lemma {:induction false} Xor3Rem(w: nat, poly: nat, a: nat, b: nat, c: nat)
    requires poly < Pow2(w)
    ensures Rem(w, poly, Xor3(a, b, c)) == Xor3(Rem(w, poly, a), Rem(w, poly, b), Rem(w, poly, c))
  {
    RemLinear(w, poly, a, b);
    RemLinear(w, poly, Xor(a, b), c);
  }

  lemma {:induction false} Xor3Finish(p: Params, a: nat, b: nat, c: nat)
    ensures p.Finish(Xor3(a, b, c)) == Xor3(p.Finish(a), p.Finish(b), p.Finish(c))
  {
    var w := p.width;
    if p.refOut {
      ReverseXor(a, b, w);
      ReverseXor(Xor(a, b), c, w);
      Xor3With(Reverse(a, w), Reverse(b, w), Reverse(c, w), p.xorOut);
    } else {
      Xor3With(a, b, c, p.xorOut);
    }
  }

  /** The checksum is affine: it commutes with the exclusive or of three messages of one length. */
  lemma {:induction false} ChecksumAffine(p: Params, a: seq<Byte>, b: seq<Byte>, c: seq<Byte>)
    requires p.Ok() && |a| == |b| == |c|
    ensures p.Checksum(XorBytes(XorBytes(a, b), c)) == Xor3(p.Checksum(a), p.Checksum(b), p.Checksum(c))
  {
    hide Xor, Shl, Rem, Reverse;
    var w, i := p.width, p.InitPart(CHAR_BIT * |a|);
    MessageXor(p, a, b);
    MessageXor(p, XorBytes(a, b), c);
    Xor3With(p.Message(a), p.Message(b), p.Message(c), i);
    Xor3Shl(p.Folded(a), p.Folded(b), p.Folded(c), w);
    Xor3Rem(w, p.poly, Shl(p.Folded(a), w), Shl(p.Folded(b), w), Shl(p.Folded(c), w));
    Xor3Finish(p, Rem(w, p.poly, Shl(p.Folded(a), w)), Rem(w, p.poly, Shl(p.Folded(b), w)),
               Rem(w, p.poly, Shl(p.Folded(c), w)));
  }
}
