/** Two facts about products and quotients that the solver does not find by itself. */
module Arith {
  lemma MulOrder(m: nat, a: int, b: int)
    requires a <= b
    ensures m * a <= m * b && a * m <= b * m
  {
    assert m * b == m * a + m * (b - a);
  }

  lemma DivUnique(x: int, m: nat, q: int, r: nat)
    requires m > 0 && x == m * q + r && r < m
    ensures x / m == q && x % m == r
  {
    var q', r' := x / m, x % m;
    assert x == m * q' + r' && 0 <= r' < m;
    if q < q' {
      MulOrder(m, q + 1, q');
    } else if q' < q {
      MulOrder(m, q' + 1, q);
    }
  }
}
