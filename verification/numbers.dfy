/** Arithmetic that several modules need. */
module Numbers {

  function Least(a: nat, b: nat): nat {
    if a <= b then a else b
  }

  lemma {:induction false} TimesMonotone(m: nat, n: nat, k: nat)
    requires m <= n
    ensures m * k <= n * k
    decreases n - m
  {
    if m < n {
      TimesMonotone(m + 1, n, k);
      assert (m + 1) * k == m * k + k;
    }
  }
}
