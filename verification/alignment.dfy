/** Multiples of the platform alignment, and RAT_ALIGN (rat/include/rat/extra.h). */
module Alignment {

  /** `n` is a multiple of `a`. Recursive, so that no proof meets a symbolic remainder. */
  ghost predicate Multiple(a: nat, n: nat)
    requires a > 0
    decreases n
  {
    n == 0 || (a <= n && Multiple(a, n - a))
  }

  /** RAT_ALIGN: `size` rounded up to the alignment `a`. */
  function AlignUp(a: nat, size: nat): nat
    requires a > 0
  {
    (size + a - 1) / a * a
  }

  lemma {:induction false} MultipleSum(a: nat, m: nat, n: nat)
    requires a > 0 && Multiple(a, m)
    ensures Multiple(a, m + n) <==> Multiple(a, n)
    decreases m
  {
    if m > 0 {
      MultipleSum(a, m - a, n);
      assert Multiple(a, m + n) <==> Multiple(a, m + n - a);
    }
  }

  lemma {:induction false} MultipleIsEven(a: nat, n: nat)
    requires a > 0 && a % 2 == 0 && Multiple(a, n)
    ensures n % 2 == 0
    decreases n
  {
    if n > 0 {
      MultipleIsEven(a, n - a);
    }
  }

  lemma {:induction false} MultipleTimes(a: nat, n: nat, k: nat)
    requires a > 0 && Multiple(a, n)
    ensures k * n >= 0 && Multiple(a, k * n)
    decreases k
  {
    if k > 0 {
      MultipleTimes(a, n, k - 1);
      assert k * n == (k - 1) * n + n;
      MultipleSum(a, n, (k - 1) * n);
    }
  }

  /** RAT_ALIGN yields the least multiple that is no smaller than its argument. */
  lemma {:induction false} AlignUpIsLeast(a: nat, size: nat)
    requires a > 0
    ensures Multiple(a, AlignUp(a, size))
    ensures size <= AlignUp(a, size) < size + a
    ensures Multiple(a, size) ==> AlignUp(a, size) == size
  {
    var q := (size + a - 1) / a;
    assert q * a <= size + a - 1 < q * a + a;
    MultipleTimes(a, a, q);
    if Multiple(a, size) {
      MultipleSum(a, size, q * a - size);
    }
  }
}
