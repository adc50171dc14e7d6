/** Products and quotients in the few forms the proofs need. */
module Arith {
  function Abs(a: int): nat { if a < 0 then -a else a }

  function Max(a: nat, b: nat): nat { if a > b then a else b }

  /** a * n as repeated addition, which keeps products out of the proofs. */
  function Times(a: nat, n: nat): nat { if n == 0 then 0 else Times(a, n - 1) + a }

  lemma {:induction false} TimesIsProduct(a: nat, n: nat)
    ensures Times(a, n) == a * n
    decreases n
  {
    if n > 0 { TimesIsProduct(a, n - 1); }
  }

  lemma {:induction false} TimesMore(a: nat, m: nat, n: nat)
    requires m <= n
    ensures Times(a, m) <= Times(a, n)
    ensures m < n ==> Times(a, m) + a <= Times(a, n)
    decreases n
  {
    if m < n { TimesMore(a, m, n - 1); }
  }

  lemma TimesTurned(a: nat, b: nat)
    ensures Times(a, b) == Times(b, a)
  {
    TimesIsProduct(a, b);
    TimesIsProduct(b, a);
  }

  lemma ProductLe(a: nat, b: nat, d: nat)
    requires a <= b
    ensures a * d <= b * d
  {
  }

  lemma QuotientIs(x: nat, d: nat, q: nat, r: nat)
    requires r < d && x == q * d + r
    ensures x / d == q
  {
    var k := x / d;
    assert x == k * d + x % d;
    if k < q { ProductLe(k + 1, q, d); } else if q < k { ProductLe(q + 1, k, d); }
  }
}
