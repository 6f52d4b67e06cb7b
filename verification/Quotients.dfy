/** Quotients and remainders by a variable divisor. */
module Quotients {

  lemma {:induction false} MulOrder(a: int, b: int, m: nat)
    ensures a < b ==> a * m + m <= b * m
    ensures b <= a ==> b * m <= a * m
  {
    if m > 0 {
      MulOrder(a, b, m - 1);
      assert a * m == a * (m - 1) + a;
      assert b * m == b * (m - 1) + b;
    }
  }

  lemma DivModUnique(n: nat, m: nat, a: nat, b: nat)
    requires b < m && n == a * m + b
    ensures n / m == a && n % m == b
  {
    var q := n / m;
    assert n == q * m + n % m;
    MulOrder(q, a, m);
    MulOrder(a, q, m);
  }
}
