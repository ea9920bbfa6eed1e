/** Facts about products and quotients that the solver is not left to find. */
module Arithmetic {
  lemma MulLe(a: nat, b: nat, c: nat, d: nat)
    requires a <= b && c <= d
    ensures a * c <= b * d
  {
    assert a * c <= b * c;
    assert b * c <= b * d;
  }

  lemma RatioPositive(a: nat, b: nat)
    requires 0 < b <= a
    ensures a / b >= 1
    ensures b * (a / b) <= a < b * (a / b) + b
  {
    assert a == b * (a / b) + a % b;
  }

  lemma ModUnique(v: nat, m: nat, q: nat, r: nat)
    requires 0 < m && r < m && v == m * q + r
    ensures v % m == r && v / m == q
  {
    assert v == m * (v / m) + v % m;
    var d := v / m - q;
    assert m * d == r - v % m;
    assert m * -d == -(m * d);
    if d >= 1 {
      MulLe(m, m, 1, d);
    }
    if d <= -1 {
      MulLe(m, m, 1, -d);
    }
  }

  lemma MulAdd(a: int, b: int, s: int)
    ensures (a + b) * s == a * s + b * s
  {
  }

  lemma MulAssoc(a: int, b: int, c: int)
    ensures a * b * c == a * (b * c)
  {
  }

  lemma MulTwice(a: int, p: int)
    ensures a * (2 * p) == 2 * (a * p)
  {
  }
}
