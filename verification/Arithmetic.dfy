/** Facts about products and quotients that the models share. */
module Arithmetic {
  lemma MulOrder(a: int, b: int, n: int)
    requires 0 <= n
    ensures a <= b ==> a * n <= b * n
  {
  }

  lemma Associate(a: int, b: int, c: int)
    ensures a * (b * c) == (a * b) * c
  {
  }

  lemma DivideUnique(d: int, t: int, q: int, r: int)
    requires 0 < t && d == q * t + r && 0 <= r < t
    ensures d / t == q && d % t == r
  {
    assert d / t * t + d % t == q * t + r;
    var e := d / t - q;
    assert e * t == r - d % t;
    MulOrder(1, e, t);
    MulOrder(e, -1, t);
  }

  lemma QuotientBounds(n: int, d: int)
    requires 0 <= n && 0 < d
    ensures 0 <= n / d <= n
  {
    var q := n / d;
    assert n == q * d + n % d;
    MulOrder(q, -1, d);
    MulOrder(1, d, q);
  }

  /** Division that truncates toward zero. */
  function Quotient(a: int, b: int): int
    requires 0 < b
  {
    if 0 <= a then a / b else -(-a / b)
  }

  /** The remainder is smaller than the divisor and on the side of the dividend. */
  lemma QuotientTruncates(a: int, b: int)
    requires 0 < b
    ensures var r := a - Quotient(a, b) * b;
            (0 <= a ==> 0 <= r < b) && (a <= 0 ==> -b < r <= 0)
  {
    if 0 <= a {
      assert a == a / b * b + a % b;
    } else {
      assert -a == -a / b * b + -a % b;
      assert -(-a / b) * b == -(-a / b * b);
    }
  }

  lemma QuotientOrder(a: int, b: int, n: int)
    requires 0 < n && 0 <= a <= b
    ensures a / n <= Quotient(b, n)
  {
    var x, y := a / n, b / n;
    assert x * n <= a && b < (y + 1) * n;
    MulOrder(y + 1, x, n);
  }
}
