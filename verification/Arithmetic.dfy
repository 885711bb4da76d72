/** Division and remainder by a variable, which the solver needs spelled out. */
module Arithmetic {

  lemma DivModUnique(x: int, m: int, q: int, r: int)
    requires m > 0 && x == q * m + r && 0 <= r < m
    ensures x / m == q && x % m == r
  {
    var q', r' := x / m, x % m;
    assert (q - q') * m == r' - r;
    if q > q' {
      ScaleMonotone(1, q - q', m);
    } else if q < q' {
      ScaleMonotone(q - q', -1, m);
    }
  }

  lemma ScaleMonotone(a: int, b: int, m: int)
    requires a <= b && m >= 0
    ensures a * m <= b * m
  {
  }
}
