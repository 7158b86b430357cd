/** Small facts about multiplication and division by a positive step. */
module Arith {

  lemma MulMono(a: int, b: int, k: nat)
    requires a <= b
    ensures a * k <= b * k
  {
  }

  lemma MulSucc(a: int, k: int)
    ensures (a + 1) * k == a * k + k
  {
  }

  /** Floor division is pinned down by the interval its dividend lies in. */
  lemma DivUnique(n: int, k: nat, q: int)
    requires k > 0 && q * k <= n < q * k + k
    ensures n / k == q
  {
    var q' := n / k;
    assert q' * k <= n < q' * k + k;
    if q' < q {
      MulMono(q' + 1, q, k);
      MulSucc(q', k);
    } else if q' > q {
      MulMono(q + 1, q', k);
      MulSucc(q, k);
    }
  }

  /** The remainder is what is left above the largest multiple not exceeding the dividend. */
  lemma ModUnique(n: int, k: nat, q: int)
    requires k > 0 && q * k <= n < q * k + k
    ensures n / k == q && n % k == n - q * k
  {
    DivUnique(n, k, q);
    assert n == (n / k) * k + n % k;
  }

  /**
   * i * k computed by repeated addition: positions of evenly spaced items,
   * which the solver can reason about without nonlinear arithmetic.
   */
  function Times(i: nat, k: nat): nat
  {
    if i == 0 then 0 else Times(i - 1, k) + k
  }

  /** Repeated addition is multiplication. */
  lemma {:induction false} TimesIsProduct(i: nat, k: nat)
    ensures Times(i, k) == i * k
  {
    if i > 0 {
      TimesIsProduct(i - 1, k);
      MulSucc(i - 1, k);
    }
  }

  /** Later positions are at least one step further on. */
  lemma {:induction false} TimesMono(i: nat, j: nat, k: nat)
    ensures i < j ==> Times(i, k) + k <= Times(j, k)
    decreases j
  {
    if i < j - 1 {
      TimesMono(i, j - 1, k);
    }
  }

  /** Positions add up: i + j steps are i steps followed by j steps. */
  lemma {:induction false} TimesAdd(i: nat, j: nat, k: nat)
    ensures Times(i + j, k) == Times(i, k) + Times(j, k)
    decreases j
  {
    if j > 0 {
      TimesAdd(i, j - 1, k);
    }
  }
}
