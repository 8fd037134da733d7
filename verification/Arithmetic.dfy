/** Facts about multiplication and floor division by a positive divisor. */
module Arithmetic {
  lemma MulAtLeast(k: int, d: int)
    requires k >= 1 && d > 0
    ensures k * d >= d
  {
    assert k * d == (k - 1) * d + d;
    assert (k - 1) * d >= 0;
  }

  lemma DivUnique(n: int, d: int, q: int, r: int)
    requires d > 0 && n == q * d + r && 0 <= r < d
    ensures n / d == q && n % d == r
  {
    var q', r' := n / d, n % d;
    var gap := q' - q;
    assert n == q' * d + r';
    assert gap * d == r - r' by {
      assert gap * d == q' * d - q * d;
    }
    if gap >= 1 {
      MulAtLeast(gap, d);
    } else if gap <= -1 {
      assert (-gap) * d == -(gap * d);
      MulAtLeast(-gap, d);
    }
  }

  lemma DivMonotone(a: int, b: int, d: int)
    requires d > 0 && a <= b
    ensures a / d <= b / d
  {
    var q, q' := a / d, b / d;
    if q' <= q - 1 {
      assert (q - q') * d == q * d - q' * d;
      MulAtLeast(q - q', d);
    }
  }

  lemma DivAtLeast(n: int, d: int, q: int)
    requires d > 0
    ensures n / d >= q <==> n >= q * d
  {
    var p := n / d;
    assert n == p * d + n % d;
    assert (p - q) * d == p * d - q * d;
    assert (q - p) * d == q * d - p * d;
    if p > q {
      MulAtLeast(p - q, d);
    } else if p < q {
      MulAtLeast(q - p, d);
    }
  }
}
