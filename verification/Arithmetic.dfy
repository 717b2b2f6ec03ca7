/**
 Division facts that the solver does not find for a divisor that is not a literal.
 */
module Arithmetic {

  lemma {:induction false} MulOrder(p: nat, q: nat, m: nat)
    ensures p < q ==> p * m + m <= q * m
    decreases q
  {
    if p < q {
      assert q * m == (q - 1) * m + m;
      MulOrder(p, q - 1, m);
    }
  }

  /* Quotient and remainder are determined by n == q * m + r. */
  lemma DivModUnique(n: nat, q: nat, r: nat, m: nat)
    requires r < m && n == q * m + r
    ensures n / m == q && n % m == r
  {
    var p := n / m;
    assert n == p * m + n % m;
    MulOrder(p, q, m);
    MulOrder(q, p, m);
  }

  lemma Distribute(a: int, b: int, m: int)
    ensures (a + b) * m == a * m + b * m
  {
  }

  lemma Associate(a: int, b: int, c: int)
    ensures (a * b) * c == a * (c * b)
  {
  }

  lemma ModOfSum(n: nat, k: nat, m: nat)
    requires m > 0 && n % m == 0
    ensures (n + k) % m == k % m
  {
    var q, p := n / m, k / m;
    Distribute(q, p, m);
    DivModUnique(n + k, q + p, k % m, m);
  }

  lemma DivTwice(n: nat, d: nat, e: nat)
    requires d > 0 && e > 0
    ensures d * e > 0 && n / d / e == n / (d * e)
  {
    MulPositive(d, e);
    var q := n / d;
    var p := q / e;
    var m := TwoRemainders(n, d, e, q, n % d, p, q % e);
    DivModUnique(n, p, m, d * e);
  }

  lemma TwoRemainders(n: nat, d: nat, e: nat, q: nat, r: nat, p: nat, s: nat) returns (m: nat)
    requires n == q * d + r && r < d
    requires q == p * e + s && s < e
    ensures n == p * (d * e) + m && m < d * e
  {
    m := s * d + r;
    Distribute(p * e, s, d);
    Associate(p, e, d);
    BelowProduct(s, r, d, e);
  }

  lemma BelowProduct(s: nat, r: nat, d: nat, e: nat)
    requires s < e && r < d
    ensures s * d + r < d * e
  {
    MulOrder(s, e, d);
    assert e * d == d * e;
  }

  lemma MulPositive(a: nat, b: nat)
    requires a > 0 && b > 0
    ensures a * b > 0
  {
  }
}
