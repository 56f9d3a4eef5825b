/** Facts about products and quotients of integers that the solver needs one at a time. */
module Nonlinear {

  lemma MulLess(a: int, b: int, c: int)
    requires a < b && c > 0
    ensures a * c < b * c
  {
  }

  lemma MulAtMost(a: int, b: int, c: int)
    requires a <= b && c >= 0
    ensures a * c <= b * c
  {
  }

  lemma QuotientAtMost(n: int, d: int)
    requires 0 <= n && 0 < d
    ensures 0 <= n / d <= n
  {
    var q := n / d;
    assert n == q * d + n % d;
    if q < 0 {
      MulAtMost(q, -1, d);
    } else {
      MulAtMost(1, d, q);
    }
  }

  /** A quotient is known by its product. */
  lemma QuotientIs(n: int, d: int, q: int)
    requires d > 0 && q * d <= n < q * d + d
    ensures n / d == q
  {
    var m := n / d;
    assert n == m * d + n % d;
    if m < q {
      MulAtMost(m + 1, q, d);
    } else if q < m {
      MulAtMost(q + 1, m, d);
    }
  }

  lemma QuotientBounds(n: int, d: int)
    requires d > 0
    ensures n / d * d <= n < n / d * d + d
  {
  }

  /** Dividing by `a` and then by `b` divides by the product. */
  lemma QuotientTwice(n: int, a: int, b: int)
    requires a > 0 && b > 0
    ensures a * b > 0 && n / a / b == n / (a * b)
  {
    var q, r := n / a, n / a / b;
    QuotientBounds(n, a);
    QuotientBounds(q, b);
    MulAtMost(r * b, q, a);
    MulAtMost(q + 1, r * b + b, a);
    assert r * b * a == r * (a * b) && (r * b + b) * a == r * (a * b) + a * b;
    assert a * b > 0 by { MulLess(0, a, b); }
    QuotientIs(n, a * b, r);
  }

  /** A quotient and a remainder are known by the division equation. */
  lemma RemainderIs(x: int, d: int, q: int, r: int)
    requires d > 0 && x == q * d + r && 0 <= r < d
    ensures x % d == r && x / d == q
  {
    QuotientIs(x, d, q);
    assert x == x / d * d + x % d;
  }

  lemma LessByDivision(v: int, r: int)
    requires v > 0 && r > 1
    ensures 0 <= v / r < v
  {
    QuotientAtMost(v, r);
    assert v == v / r * r + v % r;
    MulAtMost(2, r, v / r);
  }
}
