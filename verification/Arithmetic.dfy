/** Division by a positive number, bounded by multiples. */
module Arithmetic {

  lemma Scale(a: nat, b: nat, w: nat)
    requires a <= b
    ensures a * w <= b * w
  {
  }

  lemma DivBounds(n: nat, d: nat)
    requires d > 0
    ensures n / d * d <= n < n / d * d + d
  {
    assert n == n / d * d + n % d;
  }

  lemma DivAtLeast(q: nat, d: nat, n: nat)
    requires d > 0 && q * d <= n
    ensures q <= n / d
  {
    DivBounds(n, d);
    var p := n / d;
    if p < q { Scale(p + 1, q, d); }
  }

  lemma DivBelow(q: nat, d: nat, n: nat)
    requires d > 0 && n < q * d
    ensures n / d < q
  {
    DivBounds(n, d);
    if q <= n / d { Scale(q, n / d, d); }
  }
}
