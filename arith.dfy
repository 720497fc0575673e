/** Facts about integer multiplication, division and remainder that the solver does not find alone. */
module Arith {

  lemma MulMonotone(d: int, p: int, q: int)
    requires d >= 0 && p <= q
    ensures d * p <= d * q
  {
    assert d * q - d * p == d * (q - p);
  }

  lemma DivAtMost(a: int, d: int, m: int)
    requires 0 <= a <= d * m && d > 0
    ensures a / d <= m
  {
    if a / d > m {
      MulMonotone(d, m + 1, a / d);
    }
  }

  lemma DivMonotone(a: int, b: int, d: int)
    requires 0 <= a <= b && d > 0
    ensures a / d <= b / d
  {
    if a / d > b / d {
      MulMonotone(d, b / d + 1, a / d);
    }
  }

  /** The remainder is the offset from any multiple of d that lies less than d below. */
  lemma ModUnique(v: int, d: int, q: int, r: int)
    requires d > 0 && 0 <= r < d && v == q * d + r
    ensures v % d == r
  {
    var q', r' := v / d, v % d;
    assert v == q' * d + r';
    assert (q - q') * d == r' - r;
    if q > q' {
      MulMonotone(d, 1, q - q');
    } else if q < q' {
      MulMonotone(d, 1, q' - q);
    }
  }
}
