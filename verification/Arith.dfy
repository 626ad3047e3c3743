// Integer facts the solver does not find on its own.

module Arith {

  lemma MulOrder(c: int, x: int, y: int)
    requires c > 0
    ensures x < y <==> c * x < c * y
    ensures x <= y <==> c * x <= c * y
  {
  }

  lemma MulAdd(c: int, x: int, y: int)
    ensures (x + y) * c == x * c + y * c
    ensures c * (x + y) == c * x + c * y
  {
  }

  lemma MulAssoc(a: int, b: int, c: int)
    ensures a * (b * c) == a * b * c
  {
  }

  lemma DivBounds(a: int, b: int)
    requires b > 0
    ensures b * (a / b) <= a < b * (a / b) + b
  {
  }

  /** The defining property of a floor: it is at least q exactly when the numerator is at least q divisors. */
  lemma DivAtLeast(a: int, b: int, q: int)
    requires b > 0
    ensures a / b >= q <==> a >= b * q
  {
    DivBounds(a, b);
    MulOrder(b, q, a / b);
    MulOrder(b, q, a / b + 1);
  }

  lemma QuotientUnique(x: int, m: int, q: int, r: int)
    requires m > 0 && 0 <= r < m && x == m * q + r
    ensures x / m == q && x % m == r
  {
    var d := x / m - q;
    MulAdd(m, d, q);
    MulOrder(m, d, 1);
    MulOrder(m, -1, d);
  }
}
