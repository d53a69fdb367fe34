/** Dividing natural numbers by variable divisors. */
module Division {

  lemma DivisionBounds(x: nat, k: nat)
    requires k > 0
    ensures x - k < x / k * k <= x
  {
    assert x == x / k * k + x % k;
  }

  lemma Scaled(k: nat, a: int, b: int)
    requires a <= b
    ensures k * a <= k * b
  {
    assert k * b == k * a + k * (b - a);
  }

  lemma QuotientIs(x: int, k: nat, q: int)
    requires k > 0 && k * q <= x < k * q + k
    ensures x / k == q
  {
    var p := x / k;
    assert k * p <= x < k * p + k;
    if p < q { Scaled(k, p + 1, q); }
    if q < p { Scaled(k, q + 1, p); }
  }

  lemma SumDivided(x: nat, y: nat, k: nat)
    requires k > 0
    ensures x / k + y / k <= (x + y) / k <= x / k + y / k + 1
  {
    var a, b, rest := x / k, y / k, x % k + y % k;
    assert x == k * a + x % k && y == k * b + y % k;
    assert k * (a + b) == k * a + k * b && k * (a + b + 1) == k * a + k * b + k;
    if rest < k { QuotientIs(x + y, k, a + b); } else { QuotientIs(x + y, k, a + b + 1); }
  }
}
