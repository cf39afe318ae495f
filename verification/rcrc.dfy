/** rat/src/rat_rcrc.c: a bit-serial CRC that feeds zeros behind the message and folds the initial
    register value into the first message bits. uintmax_t is 64 bits wide. */
module Rcrc {
  import opened Bits
  import opened Gf2

  const WORD: nat := 64

  /** The parameters of one CRC algorithm, as rcrc_init demands them. */
  datatype Params = Params(width: nat, poly: nat, init: nat, refIn: bool, refOut: bool, xorOut: nat) {
    ghost predicate Ok() {
      0 < width <= WORD && poly < Pow2(width) && init < Pow2(width) && xorOut < Pow2(width)
    }

    /** A byte in the order in which its bits are fed. */
    function Fed(b: Byte): nat {
      if refIn then Reverse(b, CHAR_BIT) else b
    }

    /** The message as a polynomial, first bit first. */
    function Message(msg: seq<Byte>): nat {
      if msg == [] then 0 else Shl(Message(msg[..|msg| - 1]), CHAR_BIT) + Fed(msg[|msg| - 1])
    }

    /** The part of the initial value that `n` message bits have met. */
    function InitPart(n: nat): nat {
      if n >= width then Shl(init, n - width) else Shr(init, width - n)
    }

    function Folded(msg: seq<Byte>): nat {
      Xor(Message(msg), InitPart(CHAR_BIT * |msg|))
    }

    /** Reflection and final exclusive or of a remainder. */
    function Finish(r: nat): nat {
      Xor(if refOut then Reverse(r, width) else r, xorOut)
    }

    /** What the library computes. */
    function Checksum(msg: seq<Byte>): nat {
      Finish(Rem(width, poly, Shl(Folded(msg), width)))
    }

    /** The reference form: the register starts as `init`, and each message bit meets its top. */
    function DirectBit(reg: nat, bit: nat): nat
      requires width > 0
    {
      Xor(Low(2 * reg, width), if (Bit(reg, width - 1) + bit) % 2 == 1 then poly else 0)
    }

    /** The reference register after the `n` bits of `m`, first bit first. */
    function DirectBits(m: nat, n: nat): nat
      requires width > 0
    {
      if n == 0 then init else DirectBit(DirectBits(m / 2, n - 1), m % 2)
    }

    function Reference(msg: seq<Byte>): nat
      requires width > 0
    {
      Finish(DirectBits(Message(msg), CHAR_BIT * |msg|))
    }
  }

  // ---- One bit -------------------------------------------------------------------------------

  /** The register update of rcrc_addByte and rcrc_result, in uintmax_t arithmetic. */
  function RegisterStep(w: nat, poly: nat, value: nat, bit: nat): nat
    requires 0 < w
  {
    Xor(Or(Low(2 * value, WORD), bit), Bit(value, w - 1) * poly)
  }

  /** Whatever lies above the low w bits, one step divides those by the generator. */
  lemma {:induction false} RegisterStepReduces(w: nat, poly: nat, value: nat, bit: nat)
    requires 0 < w <= WORD && poly < Pow2(w) && bit < 2 && value < Pow2(WORD)
    ensures Low(RegisterStep(w, poly, value, bit), w) == Reduce(w, poly, 2 * Low(value, w) + bit)
    ensures RegisterStep(w, poly, value, bit) < Pow2(WORD)
  {
    hide Xor, Reduce, Or, Low, Shl;
    var top, low := Bit(value, w - 1), Low(value, w - 1);
    RegisterStepLow(w, poly, value, bit);
    DoubledLow(w, value, bit);
    ReduceValue(w, poly, 2 * Low(value, w) + bit, top, 2 * low + bit);
    XorZero(2 * low + bit);
  }

  lemma {:induction false} RegisterStepLow(w: nat, poly: nat, value: nat, bit: nat)
    requires 0 < w <= WORD && poly < Pow2(w) && bit < 2 && value < Pow2(WORD)
    ensures Low(RegisterStep(w, poly, value, bit), w) == Xor(Low(2 * value + bit, w), Bit(value, w - 1) * poly)
    ensures RegisterStep(w, poly, value, bit) < Pow2(WORD)
  {
    hide Xor, Or, Low, Shl, Shr;
    var top := Bit(value, w - 1);
    var add := if top == 1 then poly else 0;
    assert add == top * poly;
    var shifted := Or(Low(2 * value, WORD), bit);
    ShiftedIn(value, bit, WORD - 1);
    LowLow(2 * value + bit, w, WORD);
    Pow2Grows(0, w);
    Pow2Grows(w, WORD);
    LowSmall(add, w);
    XorLow(shifted, add, w);
    XorBound(shifted, add, WORD);
  }

  lemma {:induction false} DoubledLow(w: nat, value: nat, bit: nat)
    requires w > 0 && bit < 2
    ensures var top, low := Bit(value, w - 1), Low(value, w - 1);
            && 2 * Low(value, w) + bit == Shl(top, w) + (2 * low + bit)
            && Low(2 * value + bit, w) == 2 * low + bit < Pow2(w)
  {
    LowStep(value, w - 1);
    Split(value, w - 1);
    assert (2 * value + bit) / 2 == value && (2 * value + bit) % 2 == bit;
  }

  lemma {:induction false} LowOdd(value: nat, bit: nat, k: nat)
    requires bit < 2
    ensures Low(2 * value, k + 1) == 2 * Low(value, k)
    ensures Low(2 * value + bit, k + 1) == bit + 2 * Low(value, k)
  {
    assert (2 * value + bit) / 2 == value && (2 * value + bit) % 2 == bit;
  }

  /** The shift of a register of `k + 1` bits makes room for the new bit. */
  lemma {:induction false} ShiftedIn(value: nat, bit: nat, k: nat)
    requires bit < 2
    ensures Or(Low(2 * value, k + 1), bit) == Low(2 * value, k + 1) + bit == Low(2 * value + bit, k + 1) < Pow2(k + 1)
  {
    hide Low, Or;
    LowOdd(value, bit, k);
    OrDisjoint(bit, Low(value, k), 1);
    Split(2 * value + bit, k + 1);
  }

  // ---- One byte ------------------------------------------------------------------------------

  /** The register holds the remainder of the `i` leading bits of `b` behind `m`; `b` has been
      shifted left that far. */
  lemma {:induction false} NextBit(b: nat, i: nat)
    requires b < 256 && i < CHAR_BIT
    ensures var shifted := Shl(Low(b, CHAR_BIT - i), i);
            && Bit(shifted, CHAR_BIT - 1) == Bit(b, CHAR_BIT - i - 1)
            && Low(2 * shifted, CHAR_BIT) == Shl(Low(b, CHAR_BIT - i - 1), i + 1)
            && Shr(b, CHAR_BIT - i - 1) == 2 * Shr(b, CHAR_BIT - i) + Bit(b, CHAR_BIT - i - 1)
  {
    hide Low, Shl, Shr;
    var k := CHAR_BIT - i - 1;
    var bit, low := Bit(b, k), Low(b, k);
    LowStep(b, k);
    Split(b, k);
    ShlSum(Shl(bit, k), low, i);
    ShlShl(bit, k, i);
    ShlBound(low, k, i);
    Join(bit, Shl(low, i), CHAR_BIT - 1);
    DoubleShl(bit, CHAR_BIT - 1);
    DoubleShl(low, i);
    ShlBound(low, k, i + 1);
    Join(bit, Shl(low, i + 1), CHAR_BIT);
    ShrStep(b, k);
  }

  lemma {:induction false} DoubleShl(v: nat, k: nat)
    ensures Shl(v, k + 1) == 2 * Shl(v, k)
  {
  }

  /** The initial value's bits that message bits n to n + 7 meet. */
  function InitBits(p: Params, n: nat): nat {
    if n < p.width then Low(p.InitPart(n + CHAR_BIT), CHAR_BIT) else 0
  }

  lemma {:induction false} InitPartStep(p: Params, n: nat)
    requires p.Ok()
    ensures p.InitPart(n + CHAR_BIT) == Shl(p.InitPart(n), CHAR_BIT) + InitBits(p, n)
    ensures InitBits(p, n) < 256
  {
    hide Low, Shl, Shr;
    var w := p.width;
    assert Pow2(CHAR_BIT) == 256 by { Pow2Byte(); }
    Split(p.InitPart(n + CHAR_BIT), CHAR_BIT);
    if n >= w {
      ShlShl(p.init, n - w, CHAR_BIT);
    } else if n + CHAR_BIT < w {
      ShrShr(p.init, w - n - CHAR_BIT, CHAR_BIT);
    } else {
      var s := n + CHAR_BIT - w;
      ShrShl(p.init, s, CHAR_BIT - s);
    }
  }

  lemma {:induction false} FedBound(p: Params, b: Byte)
    ensures p.Fed(b) < 256
  {
    Pow2Byte();
    ReverseBound(b, CHAR_BIT);
  }

  /** Folding in the initial value byte by byte. */
  lemma {:induction false} FoldStep(p: Params, msg: seq<Byte>, b: Byte)
    requires p.Ok()
    ensures var n := CHAR_BIT * |msg|;
            && p.Folded(msg + [b]) == Shl(p.Folded(msg), CHAR_BIT) + Xor(p.Fed(b), InitBits(p, n))
            && Xor(p.Fed(b), InitBits(p, n)) < 256
  {
    hide Xor, Shl, Shr, Low, Reverse, InitBits;
    var n := CHAR_BIT * |msg|;
    assert (msg + [b])[..|msg|] == msg;
    Pow2Byte();
    FedBound(p, b);
    InitPartStep(p, n);
    XorJoin(p.Message(msg), p.Fed(b), p.InitPart(n), InitBits(p, n), CHAR_BIT);
  }

  lemma {:induction false} LowZero(k: nat)
    ensures Low(0, k) == 0
  {
    if k > 0 {
      LowZero(k - 1);
    }
  }

  // ---- The code ------------------------------------------------------------------------------

  /** reflect */
  method Reflect(value: nat, bits: nat) returns (result: nat)
    requires bits <= WORD
    ensures result == Reverse(value, bits)
  {
    result := 0;
    for i := 0 to bits
      invariant result == Reverse(Shr(value, bits - i), i)
    {
      var k := bits - 1 - i;
      ShrStep(value, k);
      ReverseBound(Shr(value, k + 1), i);
      OrDisjoint(result, Bit(value, k), i);
      ShlZero(i);
      result := Or(result, if Bit(value, k) == 0 then 0 else Shl(1, i));
    }
  }

  /** mask */
  function Mask(bits: nat): nat
    requires bits <= WORD
  {
    Pow2Grows(0, bits);
    if bits == WORD then Pow2(WORD) - 1 else Pow2(bits) - 1
  }

  /** What is folded into the byte `b` of the message, `n` bits of which precede it. */
  lemma {:induction false} InitFolded(p: Params, n: nat, b: nat)
    requires p.Ok()
    ensures var end := n + CHAR_BIT;
            && (n < p.width && p.width <= end ==>
                  Xor(b, Low(Low(Shl(p.init, end - p.width), WORD), CHAR_BIT)) == Xor(b, InitBits(p, n)))
            && (n < p.width && p.width > end ==>
                  Xor(b, Low(Shr(p.init, p.width - end), CHAR_BIT)) == Xor(b, InitBits(p, n)))
            && (n >= p.width ==> b == Xor(b, InitBits(p, n)))
  {
    hide Low, Shl, Shr, Xor;
    if n >= p.width {
      XorZero(b);
    } else if p.width <= n + CHAR_BIT {
      LowLow(Shl(p.init, n + CHAR_BIT - p.width), CHAR_BIT, WORD);
    }
  }

  class Rcrc {
    const p: Params
    var value: nat
    var initOffset: nat
    /** The message so far. */
    ghost var msg: seq<Byte>

    ghost predicate Valid()
      reads this
    {
      && p.Ok() && value < Pow2(WORD)
      && Low(value, p.width) == Rem(p.width, p.poly, p.Folded(msg))
      && initOffset < p.width + CHAR_BIT
      && (initOffset < p.width <==> CHAR_BIT * |msg| < p.width)
      && (initOffset < p.width ==> initOffset == CHAR_BIT * |msg|)
    }

    /** rcrc_init */
    constructor (p: Params)
      requires p.Ok()
      ensures Valid() && this.p == p && msg == []
    {
      this.p := p;
      value, initOffset, msg := 0, 0, [];
      Pow2Grows(0, WORD);
      LowZero(p.width);
      LowSmall(p.init, p.width);
    }

    /** rcrc_addByte */
    method AddByte(byte: Byte)
      requires Valid()
      modifies this
      ensures Valid() && msg == old(msg) + [byte]
    {
      hide Low, Shl, Shr, Rem, Xor, InitBits;
      var b: nat := byte;
      if p.refIn {
        b := Reflect(b, CHAR_BIT);
      }
      InitFolded(p, CHAR_BIT * |msg|, p.Fed(byte));
      if initOffset < p.width {
        initOffset := initOffset + CHAR_BIT;
        if p.width <= initOffset {
          b := Xor(b, Low(Low(Shl(p.init, initOffset - p.width), WORD), CHAR_BIT));
        } else {
          b := Xor(b, Low(Shr(p.init, p.width - initOffset), CHAR_BIT));
        }
      }
      FoldStep(p, msg, byte);
      FeedBits(b, p.Folded(msg));
      msg := msg + [byte];
    }

    /** The bit loop of rcrc_addByte. */
    method FeedBits(byte: nat, ghost folded: nat)
      requires p.Ok() && value < Pow2(WORD) && byte < 256
      requires Low(value, p.width) == Rem(p.width, p.poly, folded)
      modifies this`value
      ensures value < Pow2(WORD)
      ensures Low(value, p.width) == Rem(p.width, p.poly, Shl(folded, CHAR_BIT) + byte)
    {
      hide Low, Shl, Shr, Rem, Reduce, Xor, Or;
      var b := byte;
      FeedStart(byte);
      for i := 0 to CHAR_BIT
        invariant value < Pow2(WORD) && b == Shl(Low(byte, CHAR_BIT - i), i)
        invariant Low(value, p.width) == Rem(p.width, p.poly, Shl(folded, i) + Shr(byte, CHAR_BIT - i))
      {
        var bit := Bit(b, CHAR_BIT - 1);
        NextBit(byte, i);
        RegisterStepReduces(p.width, p.poly, value, bit);
        RemStep(p.width, p.poly, Shl(folded, i) + Shr(byte, CHAR_BIT - i), bit);
        DoubleShl(folded, i);
        value := Xor(Or(Low(2 * value, WORD), bit), Bit(value, p.width - 1) * p.poly);
        b := Low(2 * b, CHAR_BIT);
      }
      ShrNone(byte);
    }

    /** rcrc_add */
    method Add(buf: seq<Byte>)
      requires Valid()
      modifies this
      ensures Valid() && msg == old(msg) + buf
    {
      for i := 0 to |buf|
        invariant Valid() && msg == old(msg) + buf[..i]
      {
        AddByte(buf[i]);
        assert buf[..i + 1] == buf[..i] + [buf[i]];
      }
      assert buf[..|buf|] == buf;
    }

    /** rcrc_result */
    method Result() returns (result: nat)
      requires Valid()
      ensures result == p.Checksum(msg)
    {
      hide Low, Shl, Shr, Rem, Reduce, Xor, Or, And, Reverse;
      ghost var folded := p.Folded(msg);
      result := value;
      ShlNone(folded);
      for i := 0 to p.width
        invariant result < Pow2(WORD)
        invariant Low(result, p.width) == Rem(p.width, p.poly, Shl(folded, i))
      {
        RegisterStepReduces(p.width, p.poly, result, 0);
        OrZero(Low(2 * result, WORD));
        RemStep(p.width, p.poly, Shl(folded, i), 0);
        DoubleShl(folded, i);
        result := Xor(Low(2 * result, WORD), Bit(result, p.width - 1) * p.poly);
      }
      AndMask(result, p.width);
      result := And(result, Mask(p.width));
      if p.refOut {
        result := Reflect(result, p.width);
      }
      result := Xor(result, p.xorOut);
    }
  }

  lemma {:induction false} FeedStart(byte: nat)
    requires byte < 256
    ensures Shl(Low(byte, CHAR_BIT), 0) == byte && Shr(byte, CHAR_BIT) == 0
    ensures forall v :: Shl(v, 0) == v
  {
    Pow2Byte();
    LowSmall(byte, CHAR_BIT);
  }

  lemma {:induction false} ShrNone(v: nat)
    ensures Shr(v, 0) == v
  {
  }

  lemma {:induction false} ShlNone(v: nat)
    ensures Shl(v, 0) == v
  {
  }

  /** rcrc_calc */
  method Calc(p: Params, buf: seq<Byte>) returns (result: nat)
    requires p.Ok()
    ensures result == p.Checksum(buf)
  {
    var state := new Rcrc(p);
    state.Add(buf);
    assert [] + buf == buf;
    result := state.Result();
  }
}
