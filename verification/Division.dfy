/** Quotients and remainders of natural numbers. */
module Division {

  lemma ScaleOrder(a: int, b: int, m: nat)
    ensures a <= b ==> m * a <= m * b
  {
  }

  lemma QuotientUnique(x: nat, m: nat, q: nat, r: nat)
    requires m > 0 && r < m && x == m * q + r
    ensures x / m == q && x % m == r
  {
    var d := x / m;
    assert x == m * d + x % m;
    ScaleOrder(d + 1, q, m);
    ScaleOrder(q + 1, d, m);
  }
}
