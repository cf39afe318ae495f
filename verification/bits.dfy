/** Unsigned words as natural numbers: shifts, truncation, and bitwise operations, each defined
    one bit at a time. `Shl(v, k)` is v * 2^k, `Shr(v, k)` is v / 2^k, `Low(v, k)` is v % 2^k. */
module Bits {
  import opened Numbers

  const CHAR_BIT: nat := 8

  type Byte = b: nat | b < 256

  function Shl(v: nat, k: nat): nat {
    if k == 0 then v else 2 * Shl(v, k - 1)
  }

  function Shr(v: nat, k: nat): nat {
    if k == 0 then v else Shr(v / 2, k - 1)
  }

  /** The low `k` bits; with k = 64 this is the wrap-around of uintmax_t. */
  function Low(v: nat, k: nat): nat {
    if k == 0 then 0 else v % 2 + 2 * Low(v / 2, k - 1)
  }

  function Pow2(k: nat): nat {
    Shl(1, k)
  }

  /** RBIT_FLAG_GET: bit `k` of `v`. */
  function Bit(v: nat, k: nat): (b: nat)
    ensures b < 2
  {
    Shr(v, k) % 2
  }

  function Xor(a: nat, b: nat): nat
    decreases a + b
  {
    if a == 0 then b else if b == 0 then a else (a + b) % 2 + 2 * Xor(a / 2, b / 2)
  }

  function Or(a: nat, b: nat): nat
    decreases a + b
  {
    if a == 0 then b else if b == 0 then a else (if (a + b) % 2 == 1 || a % 2 == 1 then 1 else 0) + 2 * Or(a / 2, b / 2)
  }

  function And(a: nat, b: nat): nat
    decreases a + b
  {
    if a == 0 || b == 0 then 0 else (if (a + b) % 2 == 0 && a % 2 == 1 then 1 else 0) + 2 * And(a / 2, b / 2)
  }

  // ---- Splitting a word at a bit ---------------------------------------------------------

  lemma {:induction false} Split(v: nat, k: nat)
    ensures v == Shl(Shr(v, k), k) + Low(v, k)
    ensures Low(v, k) < Pow2(k)
  {
    if k > 0 {
      Split(v / 2, k - 1);
    }
  }

  lemma {:induction false} Join(a: nat, x: nat, k: nat)
    requires x < Pow2(k)
    ensures Shr(Shl(a, k) + x, k) == a
    ensures Low(Shl(a, k) + x, k) == x
  {
    if k > 0 {
      assert (Shl(a, k) + x) / 2 == Shl(a, k - 1) + x / 2;
      Join(a, x / 2, k - 1);
    }
  }

  lemma {:induction false} ShlSum(a: nat, b: nat, k: nat)
    ensures Shl(a + b, k) == Shl(a, k) + Shl(b, k)
  {
    if k > 0 {
      ShlSum(a, b, k - 1);
    }
  }

  lemma {:induction false} ShlShl(a: nat, j: nat, k: nat)
    ensures Shl(Shl(a, j), k) == Shl(a, j + k)
  {
    if k > 0 {
      ShlShl(a, j, k - 1);
    }
  }

  lemma {:induction false} Pow2Byte()
    ensures Pow2(CHAR_BIT) == 256
  {
    assert Pow2(4) == 16;
    ShlShl(1, 4, 4);
    assert Shl(16, 4) == 256;
  }

  lemma {:induction false} ShlNibble(v: nat)
    ensures Shl(v, 4) == 16 * v
  {
    assert Shl(v, 1) == 2 * v;
    assert Shl(v, 2) == 2 * Shl(v, 1);
    assert Shl(v, 3) == 2 * Shl(v, 2);
  }

  lemma {:induction false} ShlByte(v: nat)
    ensures Shl(v, CHAR_BIT) == 256 * v
  {
    hide Shl;
    ShlShl(v, 4, 4);
    ShlNibble(v);
    ShlNibble(16 * v);
  }

  lemma {:induction false} ShrShr(a: nat, j: nat, k: nat)
    ensures Shr(Shr(a, j), k) == Shr(a, j + k)
  {
    if j > 0 {
      ShrShr(a / 2, j - 1, k);
    }
  }

  lemma {:induction false} ShlBound(a: nat, j: nat, k: nat)
    ensures a < Pow2(j) ==> Shl(a, k) < Pow2(j + k)
    ensures a <= Shl(a, k)
  {
    if k > 0 {
      ShlBound(a, j, k - 1);
    }
  }

  lemma {:induction false} Pow2Grows(j: nat, k: nat)
    requires j <= k
    ensures 0 < Pow2(j) <= Pow2(k)
    decreases k
  {
    if j < k {
      Pow2Grows(j, k - 1);
    } else if k > 0 {
      Pow2Grows(j - 1, k - 1);
    }
  }

  /** A word below 2^k is its own low part; a word with k more bits than j keeps its low j. */
  lemma {:induction false} LowLow(v: nat, j: nat, k: nat)
    requires j <= k
    ensures Low(Low(v, k), j) == Low(v, j)
  {
    if j > 0 {
      LowLow(v / 2, j - 1, k - 1);
    }
  }

  lemma {:induction false} LowSmall(v: nat, k: nat)
    requires v < Pow2(k)
    ensures Low(v, k) == v && Shr(v, k) == 0
  {
    Join(0, v, k);
    ShlZero(k);
  }

  lemma {:induction false} ShlZero(k: nat)
    ensures Shl(0, k) == 0
  {
    if k > 0 {
      ShlZero(k - 1);
    }
  }

  lemma {:induction false} ShrStep(v: nat, k: nat)
    ensures Shr(v, k + 1) == Shr(v, k) / 2
    ensures Shr(v, k) == 2 * Shr(v, k + 1) + Bit(v, k)
  {
    if k > 0 {
      ShrStep(v / 2, k - 1);
    }
  }

  lemma {:induction false} LowStep(v: nat, k: nat)
    ensures Low(v, k + 1) == Shl(Bit(v, k), k) + Low(v, k)
  {
    if k > 0 {
      LowStep(v / 2, k - 1);
    }
  }

  lemma {:induction false} ShrShl(a: nat, s: nat, k: nat)
    ensures Shr(Shl(a, s), s + k) == Shr(a, k)
  {
    Pow2Grows(0, s);
    Join(a, 0, s);
    ShrShr(Shl(a, s), s, k);
  }

  lemma {:induction false} ShlBelow(a: nat, x: nat, j: nat, k: nat)
    requires a < Pow2(j) && x < Pow2(k)
    ensures Shl(a, k) + x < Pow2(j + k)
  {
    if k > 0 {
      ShlBelow(a, x / 2, j, k - 1);
    }
  }

  lemma {:induction false} ShrBelow(v: nat, j: nat, k: nat)
    requires v < Pow2(j + k)
    ensures Shr(v, k) < Pow2(j)
  {
    if k > 0 {
      ShrBelow(v / 2, j, k - 1);
    }
  }

  // ---- Exclusive or ------------------------------------------------------------------------

  lemma {:induction false} XorHalves(a: nat, b: nat)
    ensures Xor(a, b) / 2 == Xor(a / 2, b / 2) && Xor(a, b) % 2 == (a + b) % 2
  {
  }

  lemma {:induction false} XorComm(a: nat, b: nat)
    ensures Xor(a, b) == Xor(b, a)
    decreases a + b
  {
    if a > 0 && b > 0 {
      XorComm(a / 2, b / 2);
    }
  }

  lemma {:induction false} XorZero(a: nat)
    ensures Xor(a, 0) == a && Xor(0, a) == a
  {
  }

  lemma {:induction false} XorSelf(a: nat)
    ensures Xor(a, a) == 0
  {
    if a > 0 {
      XorSelf(a / 2);
    }
  }

  lemma {:induction false} FromHalves(z: nat, a: nat, b: nat)
    requires z / 2 == Xor(a / 2, b / 2) && z % 2 == (a + b) % 2
    ensures z == Xor(a, b)
  {
    XorHalves(a, b);
  }

  lemma {:induction false} XorAssoc(a: nat, b: nat, c: nat)
    ensures Xor(Xor(a, b), c) == Xor(a, Xor(b, c))
    decreases a + b + c
  {
    if a > 0 && b > 0 && c > 0 {
      XorAssoc(a / 2, b / 2, c / 2);
      AssocStep(a, b, c);
    }
  }

  lemma {:induction false} AssocStep(a: nat, b: nat, c: nat)
    requires Xor(Xor(a / 2, b / 2), c / 2) == Xor(a / 2, Xor(b / 2, c / 2))
    ensures Xor(Xor(a, b), c) == Xor(a, Xor(b, c))
  {
    hide Xor;
    XorHalves(a, b);
    XorHalves(b, c);
    XorHalves(a, Xor(b, c));
    FromHalves(Xor(a, Xor(b, c)), Xor(a, b), c);
  }

  /** Exclusive or of four terms, regrouped. */
  lemma {:induction false} XorSwap(a: nat, b: nat, c: nat, d: nat)
    ensures Xor(Xor(a, b), Xor(c, d)) == Xor(Xor(a, c), Xor(b, d))
  {
    XorAssoc(a, b, Xor(c, d));
    XorAssoc(b, c, d);
    XorComm(b, c);
    XorAssoc(c, b, d);
    XorAssoc(a, c, Xor(b, d));
  }

  lemma {:induction false} XorCancel(a: nat, b: nat)
    ensures Xor(Xor(a, b), b) == a
  {
    XorAssoc(a, b, b);
    XorSelf(b);
  }

  /** Exclusive or works on the two parts of a word separately. */
  lemma {:induction false} XorJoin(a: nat, x: nat, b: nat, y: nat, k: nat)
    requires x < Pow2(k) && y < Pow2(k)
    ensures Xor(Shl(a, k) + x, Shl(b, k) + y) == Shl(Xor(a, b), k) + Xor(x, y)
    ensures Xor(x, y) < Pow2(k)
  {
    if k > 0 {
      XorJoin(a, x / 2, b, y / 2, k - 1);
      JoinStep(a, x, b, y, k);
    }
  }

  lemma {:induction false} JoinStep(a: nat, x: nat, b: nat, y: nat, k: nat)
    requires k > 0 && Xor(x / 2, y / 2) < Pow2(k - 1)
    requires Xor(Shl(a, k - 1) + x / 2, Shl(b, k - 1) + y / 2) == Shl(Xor(a, b), k - 1) + Xor(x / 2, y / 2)
    ensures Xor(Shl(a, k) + x, Shl(b, k) + y) == Shl(Xor(a, b), k) + Xor(x, y)
    ensures Xor(x, y) < Pow2(k)
  {
    hide Xor;
    XorHalves(x, y);
    var u, v := Shl(a, k) + x, Shl(b, k) + y;
    assert u / 2 == Shl(a, k - 1) + x / 2 && v / 2 == Shl(b, k - 1) + y / 2;
    FromHalves(Shl(Xor(a, b), k) + Xor(x, y), u, v);
  }

  lemma {:induction false} XorBound(x: nat, y: nat, k: nat)
    requires x < Pow2(k) && y < Pow2(k)
    ensures Xor(x, y) < Pow2(k)
  {
    XorJoin(0, x, 0, y, k);
  }

  /** Parts that share no bit add up. */
  lemma {:induction false} XorDisjoint(a: nat, x: nat, k: nat)
    requires x < Pow2(k)
    ensures Xor(Shl(a, k), x) == Shl(a, k) + x
  {
    XorJoin(a, 0, 0, x, k);
    ShlZero(k);
  }

  lemma {:induction false} XorShl(a: nat, b: nat, k: nat)
    ensures Xor(Shl(a, k), Shl(b, k)) == Shl(Xor(a, b), k)
  {
    Pow2Grows(0, k);
    XorJoin(a, 0, b, 0, k);
  }

  lemma {:induction false} XorLow(a: nat, b: nat, k: nat)
    ensures Low(Xor(a, b), k) == Xor(Low(a, k), Low(b, k))
    ensures Shr(Xor(a, b), k) == Xor(Shr(a, k), Shr(b, k))
  {
    Split(a, k);
    Split(b, k);
    XorJoin(Shr(a, k), Low(a, k), Shr(b, k), Low(b, k), k);
    Join(Xor(Shr(a, k), Shr(b, k)), Xor(Low(a, k), Low(b, k)), k);
  }

  // ---- Or and And, where the code uses them ------------------------------------------------

  lemma {:induction false} OrDisjoint(x: nat, a: nat, k: nat)
    requires x < Pow2(k)
    ensures Or(x, Shl(a, k)) == Or(Shl(a, k), x) == Shl(a, k) + x
  {
    if k > 0 {
      OrDisjoint(x / 2, a, k - 1);
      assert Shl(a, k) == 2 * Shl(a, k - 1) && x / 2 < Pow2(k - 1);
      OrHalves(x, Shl(a, k));
      OrHalves(Shl(a, k), x);
      hide Or, Shl;
    } else {
      OrZero(a);
    }
  }

  lemma {:induction false} OrZero(v: nat)
    ensures Or(v, 0) == Or(0, v) == v
  {
  }

  lemma {:induction false} OrHalves(a: nat, b: nat)
    ensures Or(a, b) == (if a % 2 == 1 || b % 2 == 1 then 1 else 0) + 2 * Or(a / 2, b / 2)
  {
    if a == 0 || b == 0 {
      hide Or;
      OrZero(a);
      OrZero(b);
      OrZero(a / 2);
      OrZero(b / 2);
    } else {
      OrBits(a, b);
      hide Or;
    }
  }

  lemma {:induction false} OrBits(a: nat, b: nat)
    requires a > 0 && b > 0
    ensures Or(a, b) == (if (a + b) % 2 == 1 || a % 2 == 1 then 1 else 0) + 2 * Or(a / 2, b / 2)
  {
  }

  /** Masking with 2^k - 1 keeps the low k bits. */
  lemma {:induction false} AndMask(v: nat, k: nat)
    ensures Pow2(k) > 0 && And(v, Pow2(k) - 1) == Low(v, k)
  {
    if k > 0 {
      AndMask(v / 2, k - 1);
      AndMaskStep(v, Pow2(k - 1));
      if v == 0 {
        LowSmall(0, k);
      }
    }
  }

  lemma {:induction false} AndMaskStep(v: nat, m: nat)
    requires m > 0
    ensures And(v, 2 * m - 1) == if v == 0 then 0 else v % 2 + 2 * And(v / 2, m - 1)
  {
    assert (2 * m - 1) / 2 == m - 1 && (2 * m - 1) % 2 == 1;
  }

  // ---- What the operations compute -----------------------------------------------------------

  /** Shifts and truncation are multiplication, division and remainder. */
  lemma {:induction false} ShiftsAreArithmetic(v: nat, k: nat)
    ensures Pow2(k) > 0 && Pow2(k + 1) == 2 * Pow2(k)
    ensures Shl(v, k) == v * Pow2(k) && Shr(v, k) == v / Pow2(k) && Low(v, k) == v % Pow2(k)
  {
    hide Shr, Low;
    Pow2Grows(0, k);
    ShlIsTimes(v, k);
    ShlIsTimes(Shr(v, k), k);
    Split(v, k);
    Divided(v, Pow2(k), Shr(v, k), Low(v, k));
  }

  lemma {:induction false} ShlIsTimes(v: nat, k: nat)
    ensures Shl(v, k) == v * Pow2(k)
  {
    if k > 0 {
      ShlIsTimes(v, k - 1);
      assert 2 * (v * Pow2(k - 1)) == v * (2 * Pow2(k - 1));
    }
  }

  lemma {:induction false} Divided(v: nat, d: nat, q: nat, r: nat)
    requires d > 0 && v == q * d + r && r < d
    ensures v / d == q && v % d == r
  {
    var a := v / d;
    assert v == a * d + v % d;
    assert (a + 1) * d == a * d + d && (q + 1) * d == q * d + d;
    if a < q {
      TimesMonotone(a + 1, q, d);
    } else if q < a {
      TimesMonotone(q + 1, a, d);
    }
  }

  /** Bit by bit, exclusive or tells whether the bits differ. */
  lemma {:induction false} XorBit(a: nat, b: nat, i: nat)
    ensures Bit(Xor(a, b), i) == (Bit(a, i) + Bit(b, i)) % 2
  {
    XorHalves(a, b);
    if i > 0 {
      XorBit(a / 2, b / 2, i - 1);
    }
  }

  // ---- Bit reversal --------------------------------------------------------------------------

  /** The low `n` bits of `v` in reverse order. */
  function Reverse(v: nat, n: nat): nat {
    if n == 0 then 0 else Shl(v % 2, n - 1) + Reverse(v / 2, n - 1)
  }

  lemma {:induction false} ReverseBound(v: nat, n: nat)
    ensures Reverse(v, n) < Pow2(n)
  {
    if n > 0 {
      ReverseBound(v / 2, n - 1);
      assert Shl(v % 2, n - 1) <= Pow2(n - 1) by {
        ShlZero(n - 1);
      }
    }
  }

  lemma {:induction false} ReverseTop(b: nat, x: nat, n: nat)
    requires n > 0 && b < 2 && x < Pow2(n - 1)
    ensures Reverse(Shl(b, n - 1) + x, n) == 2 * Reverse(x, n - 1) + b
  {
    var v := Shl(b, n - 1) + x;
    if n > 1 {
      assert v % 2 == x % 2 && v / 2 == Shl(b, n - 2) + x / 2;
      ReverseTop(b, x / 2, n - 1);
    }
  }

  /** Reversing twice restores a word of `n` bits. */
  lemma {:induction false} ReverseTwice(v: nat, n: nat)
    requires v < Pow2(n)
    ensures Reverse(Reverse(v, n), n) == v
  {
    if n > 0 {
      ReverseTwice(v / 2, n - 1);
      ReverseBound(v / 2, n - 1);
      ReverseTop(v % 2, Reverse(v / 2, n - 1), n);
    }
  }

  lemma {:induction false} ReverseXor(a: nat, b: nat, n: nat)
    ensures Reverse(Xor(a, b), n) == Xor(Reverse(a, n), Reverse(b, n))
  {
    if n > 0 {
      ReverseXor(a / 2, b / 2, n - 1);
      ReverseXorStep(a, b, n);
    }
  }

  lemma {:induction false} ReverseXorStep(a: nat, b: nat, n: nat)
    requires n > 0 && Reverse(Xor(a / 2, b / 2), n - 1) == Xor(Reverse(a / 2, n - 1), Reverse(b / 2, n - 1))
    ensures Reverse(Xor(a, b), n) == Xor(Reverse(a, n), Reverse(b, n))
  {
    hide Xor, Shl;
    XorHalves(a, b);
    ReverseBound(a / 2, n - 1);
    ReverseBound(b / 2, n - 1);
    XorJoin(a % 2, Reverse(a / 2, n - 1), b % 2, Reverse(b / 2, n - 1), n - 1);
    XorBits(a % 2, b % 2);
  }

  lemma {:induction false} XorBits(x: nat, y: nat)
    requires x < 2 && y < 2
    ensures Xor(x, y) == (x + y) % 2
  {
  }

  /** The low bits, reversed, come first, and then the others. */
  lemma {:induction false} ReverseSplit(v: nat, m: nat, n: nat)
    ensures Reverse(v, m + n) == Shl(Reverse(Low(v, n), n), m) + Reverse(Shr(v, n), m)
  {
    if n == 0 {
      ShlZero(m);
    } else {
      ReverseSplit(v / 2, m, n - 1);
      ShlShl(v % 2, n - 1, m);
      ShlSum(Shl(v % 2, n - 1), Reverse(Low(v / 2, n - 1), n - 1), m);
      assert Low(v, n) / 2 == Low(v / 2, n - 1) && Low(v, n) % 2 == v % 2;
    }
  }

  /** Bit `i` of the reversal is bit `n - 1 - i` of the word. */
  lemma {:induction false} ReverseBit(v: nat, n: nat, i: nat)
    requires i < n
    ensures Bit(Reverse(v, n), i) == Bit(v, n - 1 - i)
  {
    ReverseBound(v / 2, n - 1);
    Join(v % 2, Reverse(v / 2, n - 1), n - 1);
    if i < n - 1 {
      ReverseBit(v / 2, n - 1, i);
      BitBelow(v % 2, Reverse(v / 2, n - 1), n - 1, i);
    }
  }

  lemma {:induction false} BitBelow(a: nat, x: nat, k: nat, i: nat)
    requires i < k
    ensures Bit(Shl(a, k) + x, i) == Bit(x, i)
  {
    if i > 0 {
      assert (Shl(a, k) + x) / 2 == Shl(a, k - 1) + x / 2;
      BitBelow(a, x / 2, k - 1, i - 1);
    }
  }
}
