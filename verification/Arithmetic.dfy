/** Facts about products and quotients of naturals. */
module Arithmetic {
  function Abs(n: int): nat {
    if n < 0 then -n else n
  }

  lemma {:induction false} CancelFactor(d: nat, x: nat, y: nat)
    requires d > 0 && d * x <= d * y
    ensures x <= y
  {
    if x > 0 {
      if y == 0 {
        PositiveProduct(d, x);
      } else {
        Decrement(d, x);
        Decrement(d, y);
        CancelFactor(d, x - 1, y - 1);
      }
    }
  }

  lemma PositiveProduct(d: nat, x: nat)
    requires d > 0 && x > 0
    ensures d * x > 0
  {
  }

  lemma Decrement(d: nat, x: nat)
    requires x > 0
    ensures d * (x - 1) == d * x - d
  {
  }

  lemma SwapFactors(g: nat, d: nat, q: nat)
    ensures g * (d * q) == d * (g * q)
  {
  }

  lemma QuotientUnique(n: nat, d: nat, q: nat, r: nat)
    requires d > 0 && n == d * q + r && r < d
    ensures n / d == q && n % d == r
  {
    var p := n / d;
    assert n == d * p + n % d;
    assert d * (q + 1) == d * q + d && d * (p + 1) == d * p + d;
    CancelFactor(d, p, q + 1);
    CancelFactor(d, q, p + 1);
  }

  lemma MulSucc(m: nat, n: nat)
    ensures (m + 1) * n == m * n + n
  {
  }

  lemma {:induction false} MulMonotone(i: nat, m: nat, n: nat)
    requires i <= m
    ensures i * n <= m * n
  {
    if i < m {
      MulSucc(m - 1, n);
      MulMonotone(i, m - 1, n);
    }
  }
}
