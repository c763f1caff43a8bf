/** Small facts about integer multiplication and Euclidean division that the
    solver does not find on its own. */
module Arith {

  lemma MulMono(a: int, b: int, m: int)
    requires a <= b && 0 <= m
    ensures a * m <= b * m
  {
    assert b * m - a * m == (b - a) * m;
  }

  lemma MulStrictMono(a: int, b: int, m: int)
    requires a < b && 0 < m
    ensures a * m + m <= b * m
  {
    MulMono(a + 1, b, m);
  }

  /** The quotient and remainder of Euclidean division are the only pair
      with the remainder in [0, m). */
  lemma DivModUnique(x: int, q: int, r: int, m: int)
    requires 0 < m && 0 <= r < m && x == q * m + r
    ensures x / m == q && x % m == r
  {
    var q', r' := x / m, x % m;
    assert x == q' * m + r';
    if q' < q {
      MulStrictMono(q', q, m);
    } else if q < q' {
      MulStrictMono(q, q', m);
    }
  }

  lemma AbsMulBound(a: int, b: int, bound: int, factor: int)
    requires -bound <= a <= bound && -factor <= b <= factor && 0 <= bound && 0 <= factor
    ensures -(bound * factor) <= a * b <= bound * factor
  {
    if a >= 0 && b >= 0 {
      MulMono(a, bound, b);
      MulMono(b, factor, bound);
    } else if a >= 0 {
      MulMono(a, bound, -b);
      MulMono(-b, factor, bound);
    } else if b >= 0 {
      MulMono(-a, bound, b);
      MulMono(b, factor, bound);
    } else {
      MulMono(-a, bound, -b);
      MulMono(-b, factor, bound);
    }
  }

  lemma MulSucc(a: int, b: int)
    ensures a * (b + 1) == a * b + a
  {
  }
}
