/** Quotients and remainders. */
module Arithmetic {

  lemma MulAtLeast(d: nat, e: nat)
    requires e > 0
    ensures d * e >= d
  {
    assert d * e == d + d * (e - 1);
  }

  lemma RemainderUnique(x: nat, d: nat, q: nat, r: nat)
    requires x == d * q + r && r < d
    ensures x % d == r && x / d == q
  {
    var q', r' := x / d, x % d;
    assert x == d * q' + r';
    if q' < q {
      assert d * q == d * q' + d * (q - q');
      MulAtLeast(d, q - q');
    } else if q < q' {
      assert d * q' == d * q + d * (q' - q);
      MulAtLeast(d, q' - q);
    }
  }

  lemma Divide(x: nat, d: nat) returns (q: nat, r: nat)
    requires d > 0
    ensures x == d * q + r && r < d && r == x % d
  {
    q, r := x / d, x % d;
  }

  lemma AddQuotients(a: nat, d: nat, m: nat)
    requires m > 0
    ensures (a + d) % m == if a % m + d % m < m then a % m + d % m else a % m + d % m - m
  {
    var q, r := Divide(a, m);
    var q', r' := Divide(d, m);
    SumOfProducts(m, q, q');
    if r + r' < m {
      RemainderUnique(a + d, m, q + q', r + r');
    } else {
      RemainderUnique(a + d, m, q + q' + 1, r + r' - m);
    }
  }

  lemma SumOfProducts(m: nat, q: nat, q': nat)
    ensures m * q + m * q' == m * (q + q') && m * (q + q' + 1) == m * (q + q') + m
  {
  }

  lemma SameRemainder(a: nat, b: nat, m: nat)
    requires m > 0 && a <= b
    ensures a % m == b % m <==> (b - a) % m == 0
  {
    AddQuotients(a, b - a, m);
  }
}
