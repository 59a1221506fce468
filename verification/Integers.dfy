/** Facts about products and quotients of integers. */
module Integers {
  lemma Regroup(a: int, b: int, c: int)
    ensures a * b * c == a * (b * c)
  {
  }

  lemma MulAtMost(a: int, b: int, d: int)
    requires d >= 0 && a <= b
    ensures a * d <= b * d
  {
    assert (b - a) * d >= 0;
  }

  lemma MulLess(a: int, b: int, d: int)
    requires d > 0 && a < b
    ensures a * d < b * d
  {
    assert (b - a) * d > 0;
  }

  lemma LessByProduct(a: int, b: int, d: int)
    requires d > 0 && a * d < b * d
    ensures a < b
  {
    if a >= b {
      MulAtMost(b, a, d);
    }
  }

  /** q is the quotient of n by d. */
  lemma QuotientUnique(n: int, d: int, q: int)
    requires d > 0 && q * d <= n < q * d + d
    ensures q == n / d
  {
    var e := n / d;
    assert n == e * d + n % d;
    assert (q + 1) * d == q * d + d;
    assert (e + 1) * d == e * d + d;
    LessByProduct(q, e + 1, d);
    LessByProduct(e, q + 1, d);
  }

  lemma QuotientBetween(n: int, d: int, lo: int, hi: int)
    requires n >= 0 && d > 0 && lo * d <= n < hi * d
    ensures lo <= n / d < hi
  {
    var e := n / d;
    assert n == e * d + n % d;
    assert (e + 1) * d == e * d + d;
    LessByProduct(lo, e + 1, d);
    LessByProduct(e, hi, d);
  }

  lemma DivBounds(n: int, d: int)
    requires n >= 0 && d > 0
    ensures n / d >= 0 && n / d * d <= n < n / d * d + d
  {
    assert n == n / d * d + n % d;
  }

  lemma DivMod(n: int, d: int)
    requires d > 0
    ensures n == n / d * d + n % d && 0 <= n % d < d
  {
  }

  lemma DivLess(n: int, d: int)
    requires n > 0 && d >= 2
    ensures 0 <= n / d < n
  {
    MulAtMost(2, d, n);
    QuotientBetween(n, d, 0, n);
  }

  /** A larger divisor gives a smaller quotient. */
  lemma DivByMore(n: int, c: int, d: int)
    requires n >= 0 && 0 < c <= d
    ensures n / d <= n / c
  {
    DivBounds(n, d);
    DivBounds(n, c);
    MulAtMost(c, d, n / d);
    assert (n / c + 1) * c == n / c * c + c;
    LessByProduct(n / d, n / c + 1, c);
  }

  lemma DivMonotone(m: int, n: int, d: int)
    requires 0 <= m <= n && d > 0
    ensures m / d <= n / d
  {
    DivBounds(m, d);
    DivBounds(n, d);
    assert (n / d + 1) * d == n / d * d + d;
    LessByProduct(m / d, n / d + 1, d);
  }

  lemma DivDiv(n: int, a: int, b: int)
    requires n >= 0 && a > 0 && b > 0
    ensures a * b > 0 && n / a / b == n / (a * b)
  {
    var x := n / a;
    var q := x / b;
    DivBounds(n, a);
    DivBounds(x, b);
    MulAtMost(q * b, x, a);
    MulAtMost(x + 1, q * b + b, a);
    assert q * b * a == q * (a * b);
    assert (q * b + b) * a == q * (a * b) + a * b;
    assert (x + 1) * a == x * a + a;
    QuotientUnique(n, a * b, q);
  }

  lemma CancelFactor(d: int, p: int)
    requires d >= 0 && p > 0
    ensures d * p / p == d
  {
    QuotientUnique(d * p, p, d);
  }
}
