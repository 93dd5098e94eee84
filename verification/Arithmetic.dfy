/** The few facts about multiplication and division the bytes and addresses need. */
module Arithmetic {

  lemma MulMonotone(a: nat, b: nat, d: nat)
    requires a <= b
    ensures a * d <= b * d
  {
  }

  lemma DivisionUnique(x: nat, d: nat, q: nat, r: nat)
    requires d > 0 && x == q * d + r && r < d
    ensures x / d == q && x % d == r
  {
    var q', r' := x / d, x % d;
    assert x == q' * d + r';
    if q' < q {
      MulMonotone(q' + 1, q, d);
    } else if q' > q {
      MulMonotone(q + 1, q', d);
    }
  }

  lemma DivideTwice(n: nat, c: nat, d: nat)
    requires c > 0 && d > 0
    ensures c * d > 0 && n / c / d == n / (c * d)
  {
    var q, r := n / c / d, n / c % d;
    var rest := c * r + n % c;
    MulMonotone(1, c, d);
    calc {
      n;
      c * (n / c) + n % c;
      c * (q * d + r) + n % c;
      c * (q * d) + rest;
      q * (c * d) + rest;
    }
    MulMonotone(r + 1, d, c);
    assert rest < c * d;
    DivisionUnique(n, c * d, q, rest);
  }
}
