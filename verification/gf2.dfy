/** Polynomials over GF(2), with a natural number for the polynomial whose coefficients are its
    bits. Addition is `Xor`, multiplication by x^k is `Shl(_, k)`. The divisor is always the monic
    polynomial x^w + poly with poly < 2^w: the generator of a CRC of width w. */
module Gf2 {
  import opened Bits

  function Generator(w: nat, poly: nat): nat {
    Pow2(w) + poly
  }

  /** The product of two polynomials. */
  function Mul(q: nat, g: nat): nat {
    if q == 0 then 0 else Xor(if q % 2 == 1 then g else 0, 2 * Mul(q / 2, g))
  }

  /** `r` is the remainder of `m`: it has degree below w, and differs from `m` by a multiple of
      the generator. */
  ghost predicate IsRemainder(w: nat, poly: nat, m: nat, r: nat) {
    r < Pow2(w) && exists q :: m == Xor(Mul(q, Generator(w, poly)), r)
  }

  /** One step of long division: at most one subtraction of the generator. */
  function Reduce(w: nat, poly: nat, x: nat): nat {
    if x >= Pow2(w) then Xor(x, Generator(w, poly)) else x
  }

  /** The remainder by long division, one bit of the dividend at a time. */
  function Rem(w: nat, poly: nat, m: nat): nat {
    if m == 0 then 0 else Reduce(w, poly, 2 * Rem(w, poly, m / 2) + m % 2)
  }

  // ---- Reduce --------------------------------------------------------------------------------

  lemma {:induction false} ReduceValue(w: nat, poly: nat, x: nat, top: nat, low: nat)
    requires poly < Pow2(w) && top < 2 && low < Pow2(w) && x == Shl(top, w) + low
    ensures Reduce(w, poly, x) == (if top == 1 then Xor(low, poly) else low) < Pow2(w)
  {
    ShlZero(w);
    if top == 1 {
      XorJoin(1, low, 1, poly, w);
      XorSelf(1);
    }
  }

  lemma {:induction false} TopBit(w: nat, x: nat) returns (top: nat, low: nat)
    requires x < 2 * Pow2(w)
    ensures top < 2 && low < Pow2(w) && x == Shl(top, w) + low
  {
    ShlZero(w);
    if x >= Pow2(w) {
      top, low := 1, x - Pow2(w);
    } else {
      top, low := 0, x;
    }
  }

  lemma {:induction false} ReduceLinear(w: nat, poly: nat, x: nat, y: nat)
    requires poly < Pow2(w) && x < 2 * Pow2(w) && y < 2 * Pow2(w)
    ensures Reduce(w, poly, Xor(x, y)) == Xor(Reduce(w, poly, x), Reduce(w, poly, y))
  {
    var s, u := TopBit(w, x);
    var t, v := TopBit(w, y);
    XorJoin(s, u, t, v, w);
    XorBits(s, t);
    ReduceValue(w, poly, x, s, u);
    ReduceValue(w, poly, y, t, v);
    ReduceValue(w, poly, Xor(x, y), (s + t) % 2, Xor(u, v));
    if s == 1 && t == 1 {
      XorSwap(u, poly, v, poly);
      XorSelf(poly);
    } else if s == 1 {
      XorAssoc(u, poly, v);
      XorComm(poly, v);
      XorAssoc(u, v, poly);
    } else if t == 1 {
      XorAssoc(u, v, poly);
    }
  }

  // ---- Rem ---------------------------------------------------------------------------------

  lemma {:induction false} RemBound(w: nat, poly: nat, m: nat)
    requires poly < Pow2(w)
    ensures Rem(w, poly, m) < Pow2(w)
  {
    if m == 0 {
      Pow2Grows(0, w);
    } else {
      RemBound(w, poly, m / 2);
      var x := 2 * Rem(w, poly, m / 2) + m % 2;
      var top, low := TopBit(w, x);
      ReduceValue(w, poly, x, top, low);
    }
  }

  /** Feeding one more message bit. */
  lemma {:induction false} RemStep(w: nat, poly: nat, m: nat, bit: nat)
    requires poly < Pow2(w) && bit < 2
    ensures Rem(w, poly, 2 * m + bit) == Reduce(w, poly, 2 * Rem(w, poly, m) + bit)
  {
    Pow2Grows(0, w);
    assert (2 * m + bit) / 2 == m && (2 * m + bit) % 2 == bit;
  }

  lemma {:induction false} RemSmall(w: nat, poly: nat, r: nat)
    requires r < Pow2(w)
    ensures Rem(w, poly, r) == r
  {
    if r > 0 {
      RemSmall(w, poly, r / 2);
    }
  }

  lemma {:induction false} RemLinear(w: nat, poly: nat, a: nat, b: nat)
    requires poly < Pow2(w)
    ensures Rem(w, poly, Xor(a, b)) == Xor(Rem(w, poly, a), Rem(w, poly, b))
    decreases a + b
  {
    if a > 0 && b > 0 {
      RemLinear(w, poly, a / 2, b / 2);
      LinearStep(w, poly, a, b);
    }
  }

  lemma {:induction false} LinearStep(w: nat, poly: nat, a: nat, b: nat)
    requires poly < Pow2(w)
    requires Rem(w, poly, Xor(a / 2, b / 2)) == Xor(Rem(w, poly, a / 2), Rem(w, poly, b / 2))
    ensures Rem(w, poly, Xor(a, b)) == Xor(Rem(w, poly, a), Rem(w, poly, b))
  {
    hide Xor, Rem, Reduce, Shl;
    var ra, rb := Rem(w, poly, a / 2), Rem(w, poly, b / 2);
    RemBound(w, poly, a / 2);
    RemBound(w, poly, b / 2);
    XorHalves(a, b);
    RemStep(w, poly, a / 2, a % 2);
    RemStep(w, poly, b / 2, b % 2);
    RemStep(w, poly, Xor(a / 2, b / 2), (a + b) % 2);
    FromHalves(2 * Xor(ra, rb) + (a + b) % 2, 2 * ra + a % 2, 2 * rb + b % 2);
    ReduceLinear(w, poly, 2 * ra + a % 2, 2 * rb + b % 2);
  }

  /** Only the remainder of a message matters to what follows. */
  lemma {:induction false} RemShl(w: nat, poly: nat, m: nat, k: nat)
    requires poly < Pow2(w)
    ensures Rem(w, poly, Shl(m, k)) == Rem(w, poly, Shl(Rem(w, poly, m), k))
  {
    hide Rem, Reduce;
    if k == 0 {
      RemBound(w, poly, m);
      RemSmall(w, poly, Rem(w, poly, m));
    } else {
      RemShl(w, poly, m, k - 1);
      RemStep(w, poly, Shl(m, k - 1), 0);
      RemStep(w, poly, Shl(Rem(w, poly, m), k - 1), 0);
    }
  }

  /** Over an odd polynomial, multiplying by x loses nothing. */
  lemma {:induction false} ReduceIsInjective(w: nat, poly: nat, r: nat)
    requires w > 0 && poly < Pow2(w) && poly % 2 == 1 && r < Pow2(w)
    ensures Reduce(w, poly, 2 * r) == 0 <==> r == 0
  {
    var top, low := TopBit(w, 2 * r);
    assert Shl(top, w) == 2 * Shl(top, w - 1);
    ReduceValue(w, poly, 2 * r, top, low);
    XorHalves(low, poly);
    ShlZero(w);
  }

  lemma {:induction false} RemShlIsZero(w: nat, poly: nat, m: nat, k: nat)
    requires w > 0 && poly < Pow2(w) && poly % 2 == 1
    ensures Rem(w, poly, Shl(m, k)) == 0 <==> Rem(w, poly, m) == 0
  {
    hide Rem, Reduce;
    if k > 0 {
      RemShlIsZero(w, poly, m, k - 1);
      RemStep(w, poly, Shl(m, k - 1), 0);
      RemBound(w, poly, Shl(m, k - 1));
      ReduceIsInjective(w, poly, Rem(w, poly, Shl(m, k - 1)));
    }
  }

  // ---- Rem is the remainder of the division ---------------------------------------------------

  /** The generator divides its multiples. */
  lemma {:induction false} RemMul(w: nat, poly: nat, q: nat)
    requires poly < Pow2(w)
    ensures Rem(w, poly, Mul(q, Generator(w, poly))) == 0
  {
    var g := Generator(w, poly);
    if q > 0 {
      RemMul(w, poly, q / 2);
      RemGenerator(w, poly);
      RemStep(w, poly, Mul(q / 2, g), 0);
      Pow2Grows(0, w);
      RemLinear(w, poly, if q % 2 == 1 then g else 0, 2 * Mul(q / 2, g));
    }
  }

  lemma {:induction false} RemGenerator(w: nat, poly: nat)
    requires poly < Pow2(w)
    ensures Rem(w, poly, Generator(w, poly)) == 0
    ensures Rem(w, poly, Pow2(w)) == poly
  {
    RemPow2(w, poly);
    RemSmall(w, poly, poly);
    XorDisjoint(1, poly, w);
    RemLinear(w, poly, Pow2(w), poly);
    XorSelf(poly);
  }

  /** x^w leaves poly. */
  lemma {:induction false} RemPow2(w: nat, poly: nat)
    requires poly < Pow2(w)
    ensures Rem(w, poly, Pow2(w)) == poly
  {
    if w == 0 {
      RemStep(w, poly, 0, 1);
    } else {
      RemSmall(w, poly, Pow2(w - 1));
      RemStep(w, poly, Pow2(w - 1), 0);
    }
    ReduceValue(w, poly, Pow2(w), 1, 0);
    assert Reduce(w, poly, Pow2(w)) == poly;
  }

  lemma {:induction false} Quotient(w: nat, poly: nat, m: nat) returns (q: nat)
    requires poly < Pow2(w)
    ensures m == Xor(Mul(q, Generator(w, poly)), Rem(w, poly, m))
  {
    if m == 0 {
      q := 0;
    } else {
      var h := Quotient(w, poly, m / 2);
      var x := 2 * Rem(w, poly, m / 2) + m % 2;
      q := if x >= Pow2(w) then 2 * h + 1 else 2 * h;
      QuotientStep(w, poly, m, h, q);
    }
  }

  lemma {:induction false} QuotientStep(w: nat, poly: nat, m: nat, h: nat, q: nat)
    requires poly < Pow2(w) && m > 0
    requires m / 2 == Xor(Mul(h, Generator(w, poly)), Rem(w, poly, m / 2))
    requires var x := 2 * Rem(w, poly, m / 2) + m % 2; q == if x >= Pow2(w) then 2 * h + 1 else 2 * h
    ensures m == Xor(Mul(q, Generator(w, poly)), Rem(w, poly, m))
  {
    hide Xor, Shl, Rem, Mul;
    var g := Generator(w, poly);
    var x := 2 * Rem(w, poly, m / 2) + m % 2;
    var y := 2 * Mul(h, g);
    DoubleMul(h, g);
    RemStep(w, poly, m / 2, m % 2);
    FromHalves(m, y, x);
    if x >= Pow2(w) {
      // m == y + x == (y + g) + (x + g)
      XorComm(g, y);
      XorSwap(y, g, x, g);
      XorSelf(g);
      XorZero(m);
    }
  }

  lemma {:induction false} DoubleMul(h: nat, g: nat)
    ensures Mul(2 * h, g) == 2 * Mul(h, g)
    ensures Mul(2 * h + 1, g) == Xor(g, 2 * Mul(h, g))
  {
    assert (2 * h + 1) / 2 == h;
  }

  /** Long division computes the one and only remainder. */
  lemma {:induction false} RemIsTheRemainder(w: nat, poly: nat, m: nat, r: nat)
    requires poly < Pow2(w)
    ensures IsRemainder(w, poly, m, r) <==> r == Rem(w, poly, m)
  {
    RemBound(w, poly, m);
    var q := Quotient(w, poly, m);
    if IsRemainder(w, poly, m, r) {
      var q' :| m == Xor(Mul(q', Generator(w, poly)), r);
      RemLinear(w, poly, Mul(q', Generator(w, poly)), r);
      RemMul(w, poly, q');
      RemSmall(w, poly, r);
    }
  }
}
