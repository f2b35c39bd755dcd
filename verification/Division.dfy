/** The few facts about division by a variable that the other modules rely on. */
module Division {
  lemma ProductSign(a: nat, b: int)
    ensures b >= 0 ==> a * b >= 0
    ensures b <= 0 ==> a * b <= 0
  {
  }

  lemma ProductStep(d: nat, k: int)
    ensures k >= 1 ==> d * k >= d
    ensures k <= -1 ==> d * k + d <= 0
  {
    ProductSign(d, k - 1);
    ProductSign(d, k + 1);
    assert d * (k - 1) == d * k - d;
    assert d * (k + 1) == d * k + d;
  }

  lemma Euclid(n: int, d: nat)
    requires d > 0
    ensures n == d * (n / d) + n % d && 0 <= n % d < d
  {
  }

  lemma Unique(n: int, d: nat, q: int, r: int)
    requires d > 0 && n == d * q + r && 0 <= r < d
    ensures n / d == q && n % d == r
  {
    var q', r' := n / d, n % d;
    Euclid(n, d);
    assert d * (q - q') == d * q - d * q';
    ProductStep(d, q - q');
  }

  lemma Shrinks(n: nat, d: nat)
    requires d > 0
    ensures 0 <= n / d <= n
  {
    var q := n / d;
    Euclid(n, d);
    ProductStep(d, q);
    ProductSign(d - 1, q);
    assert (d - 1) * q == d * q - q;
  }

  lemma Monotone(a: nat, b: nat, d: nat)
    requires d > 0 && a <= b
    ensures a / d <= b / d
  {
    var p, q := a / d, b / d;
    Euclid(a, d);
    Euclid(b, d);
    assert d * (p - q) == d * p - d * q;
    ProductStep(d, p - q);
  }

  // Adding a multiple of the divisor changes the quotient, not the remainder.
  lemma Shifted(n: int, d: nat, k: int)
    requires d > 0
    ensures (n + d * k) / d == n / d + k && (n + d * k) % d == n % d
  {
    Euclid(n, d);
    assert n + d * k == d * (n / d + k) + n % d by {
      assert d * (n / d + k) == d * (n / d) + d * k;
    }
    Unique(n + d * k, d, n / d + k, n % d);
  }
}
