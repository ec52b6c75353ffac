/** Facts about quotients and remainders that the solver does not find by itself. */
module Arithmetic {

  lemma DivUnique(a: int, b: int, q: int, r: int)
    requires b > 0 && 0 <= r < b && a == q * b + r
    ensures a / b == q && a % b == r
  {
    var q' := a / b;
    assert a == q' * b + a % b;
    if q > q' {
      AtLeastOne(q, q', b);
    } else if q < q' {
      AtLeastOne(q', q, b);
    }
  }

  lemma AtLeastOne(x: int, y: int, b: int)
    requires x > y && b > 0
    ensures x * b >= y * b + b
  {
    assert (x - y - 1) * b >= 0;
    assert (x - y - 1) * b == x * b - y * b - b;
  }

  lemma DivStep(n: nat, m: nat)
    requires m > 0
    ensures (n + 1) / m == n / m + (if n % m == m - 1 then 1 else 0)
    ensures (n + 1) % m == if n % m == m - 1 then 0 else n % m + 1
  {
    if n % m == m - 1 {
      assert n + 1 == (n / m + 1) * m + 0;
      DivUnique(n + 1, m, n / m + 1, 0);
    } else {
      DivUnique(n + 1, m, n / m, n % m + 1);
    }
  }

  lemma NextRemainder(a: nat, m: nat)
    requires m > 0
    ensures (a % m + 1) % m == (a + 1) % m
  {
    DivStep(a, m);
    DivStep(a % m, m);
    DivUnique(a % m, m, 0, a % m);
  }

  lemma SumOfMultiples(a: nat, b: nat, m: nat)
    ensures (a + b) * m == a * m + b * m
  {
  }

  lemma NextMultiple(t: nat, m: nat)
    ensures (t + 1) * m == t * m + m
  {
  }

  lemma QuotientBelow(i: nat, n: nat, m: nat)
    requires m > 0 && i < n
    ensures i / m < n / m + (if i % m < n % m then 1 else 0)
  {
    assert i == (i / m) * m + i % m && n == (n / m) * m + n % m;
    if i / m > n / m { AtLeastOne(i / m, n / m, m); }
  }

  lemma DivBelow(n: nat, a: nat, b: nat)
    requires b > 0 && n < a * b
    ensures n / b < a
  {
    var q := n / b;
    assert n == q * b + n % b;
    assert q >= a ==> (q - a) * b >= 0;
    assert (q - a) * b == q * b - a * b;
  }
}
