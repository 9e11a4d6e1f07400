/** Small facts about products and quotients, so that no other proof reasons about them. */
module Arith {

  lemma MulAtLeast(m: nat, k: nat)
    requires k >= 1
    ensures m * k >= m
  {
    assert m * (k - 1) >= 0;
  }

  lemma DivModUnique(m: int, q: int, r: int, q': int, r': int)
    requires 0 <= r < m && 0 <= r' < m && m * q + r == m * q' + r'
    ensures q == q' && r == r'
  {
    if q > q' {
      MulAtLeast(m, q - q');
    } else if q < q' {
      MulAtLeast(m, q' - q);
    }
  }

  lemma ModUnique(n: int, m: int, q: int, r: int)
    requires 0 <= r < m && n == m * q + r
    ensures n % m == r && n / m == q
  {
    DivModUnique(m, q, r, n / m, n % m);
  }

  /** q * d. */
  function Times(q: nat, d: nat): nat {
    if q == 0 then 0 else d + Times(q - 1, d)
  }

  lemma {:induction false} TimesIsProduct(q: nat, d: nat)
    ensures Times(q, d) == q * d
  {
    if q > 0 {
      TimesIsProduct(q - 1, d);
    }
  }

  lemma Double(p: nat, v: nat)
    ensures (2 * p) * v == 2 * (p * v)
  {
  }

  lemma ModDouble(n: nat, p: nat)
    requires p > 0
    ensures n % (2 * p) == n % 2 + 2 * ((n / 2) % p)
  {
    var q, r := (n / 2) / p, (n / 2) % p;
    Double(p, q);
    ModUnique(n, 2 * p, q, n % 2 + 2 * r);
  }

  lemma Commute(x: int, y: int)
    ensures x * y == y * x
  {
  }
}
