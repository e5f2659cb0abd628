/** Division facts used by the allocator and the address decoder. */
module Arithmetic {

  lemma MulMonotonic(a: int, b: int, m: nat)
    requires a <= b
    ensures a * m <= b * m
  {
    assert b * m == a * m + (b - a) * m;
  }

  /** Quotient and remainder are unique. */
  lemma DivModUnique(q: nat, m: nat, r: nat)
    requires r < m
    ensures (q * m + r) / m == q && (q * m + r) % m == r
  {
    var x := q * m + r;
    assert x == (x / m) * m + x % m;
    if x / m < q {
      MulMonotonic(x / m + 1, q, m);
    } else if q < x / m {
      MulMonotonic(q + 1, x / m, m);
    }
  }

  lemma DivModIdentity(x: nat, m: nat)
    requires m > 0
    ensures x == (x / m) * m + x % m && x % m < m
  {
  }

}
