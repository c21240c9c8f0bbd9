/** Multiplication and division facts the solver does not find by itself. */
module Nonlinear {
  lemma MulLe(k: int, x: int, y: int)
    requires 0 <= k && x <= y
    ensures k * x <= k * y && x * k <= y * k
  {
  }

  lemma MulLt(k: int, x: int, y: int)
    requires 0 < k && x < y
    ensures k * x < k * y && x * k < y * k
  {
  }

  lemma CancelLt(k: int, x: int, y: int)
    requires 0 < k && k * x < k * y
    ensures x < y
  {
    if x >= y {
      MulLe(k, y, x);
    }
  }

  /** Quotients are characterised by multiplication. */
  lemma DivIs(x: int, y: int, q: int)
    requires y > 0
    ensures q <= x / y <==> q * y <= x
    ensures x / y < q <==> x < q * y
    ensures (x / y) * y <= x < (x / y + 1) * y
  {
    var p := x / y;
    assert p * y <= x < p * y + y;
    if q <= p {
      MulLe(y, q, p);
    } else {
      MulLe(y, p + 1, q);
    }
  }

  /** Division is monotone under cross-multiplication. */
  lemma DivLe(a: int, b: int, c: int, d: int)
    requires b > 0 && d > 0 && a * d <= c * b
    ensures a / b <= c / d
  {
    var q := c / d + 1;
    DivIs(c, d, q);
    MulLt(b, c, q * d);
    assert q * d * b == d * (q * b);
    CancelLt(d, a, q * b);
    DivIs(a, b, q);
  }

  /** A larger divisor gives a smaller quotient. */
  lemma DivAntitone(x: int, y: int, z: int)
    requires 0 <= x && 0 < y <= z
    ensures 0 <= x / z <= x / y <= x
  {
    MulLe(x, y, z);
    DivLe(x, z, x, y);
    MulLe(x, 1, y);
    DivLe(x, y, x, 1);
    DivIs(x, z, 0);
  }
}
