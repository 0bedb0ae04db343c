/** Division of naturals, as the decimal proofs use it. */
module Arithmetic {

  lemma {:induction false} Multiples(a: nat, b: nat, m: nat)
    ensures a <= b ==> a * m <= b * m
  {
    if a <= b { assert b * m == a * m + (b - a) * m; }
  }

  lemma {:induction false} Divide(n: nat, m: nat, q: nat, r: nat)
    requires m > 0 && n == q * m + r && r < m
    ensures n / m == q && n % m == r
  {
    var k := n / m;
    assert n == k * m + n % m;
    Multiples(q + 1, k, m);
    Multiples(k + 1, q, m);
  }
}
