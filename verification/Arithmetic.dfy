/** Facts about products and quotients that the solver needs one step at a time. */
module Arithmetic {
  lemma Distribute(a: nat, b: nat, r: nat)
    ensures (a + b) * r == a * r + b * r
  {
  }

  lemma ProductMonotone(a: nat, b: nat, r: nat)
    requires a <= b
    ensures a * r <= b * r
  {
    Distribute(a, b - a, r);
  }

  lemma QuotientBounds(x: nat, r: nat)
    requires r > 0
    ensures (x / r) * r <= x < (x / r) * r + r
  {
    assert x == (x / r) * r + x % r;
  }

  lemma QuotientAtLeast(k: nat, x: nat, r: nat)
    requires r > 0 && k * r <= x
    ensures k <= x / r
  {
    QuotientBounds(x, r);
    if k >= x / r + 1 {
      ProductMonotone(x / r + 1, k, r);
      Distribute(x / r, 1, r);
      assert false;
    }
  }

  lemma QuotientIs(x: nat, q: nat, r: nat)
    requires r > 0 && q * r <= x < q * r + r
    ensures x / r == q
  {
    QuotientAtLeast(q, x, r);
    QuotientBounds(x, r);
    if x / r >= q + 1 {
      ProductMonotone(q + 1, x / r, r);
      Distribute(q, 1, r);
      assert false;
    }
  }

  lemma QuotientShift(x: nat, n: nat, r: nat)
    requires r > 0
    ensures n * r >= 0 && (x + n * r) / r == x / r + n
  {
    QuotientBounds(x, r);
    Distribute(x / r, n, r);
    QuotientIs(x + n * r, x / r + n, r);
  }
}
