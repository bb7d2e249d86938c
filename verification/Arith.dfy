/** The few facts about products and quotients that the solver is not left to
    find by itself. */
module Arith {

  lemma DivMod(x: int, d: int)
    requires d > 0
    ensures x == d * (x / d) + x % d && 0 <= x % d < d
  {}

  lemma Distribute(a: int, b: int, c: int)
    ensures a * (b + c) == a * b + a * c
    ensures (b + c) * a == b * a + c * a
  {}

  lemma DistributeMinus(a: int, b: int, c: int)
    ensures a * (b - c) == a * b - a * c
    ensures (b - c) * a == b * a - c * a
  {}

  lemma MulNonNegative(a: int, b: int)
    requires a >= 0 && b >= 0
    ensures a * b >= 0
  {}

  lemma MulMonotone(a: int, b: int, c: int)
    requires a <= b && c >= 0
    ensures a * c <= b * c && c * a <= c * b
  {}

  lemma MulStrict(a: int, b: int, c: int)
    requires a < b && c > 0
    ensures a * c < b * c && c * a < c * b
  {}

  lemma Commute(a: int, b: int)
    ensures a * b == b * a
  {}

  /** The larger dividend has the larger quotient, or the same one and a larger remainder. */
  lemma QuotientOrder(x: int, y: int, d: int, qx: int, rx: int, qy: int, ry: int)
    requires x <= y && d > 0
    requires x == d * qx + rx && 0 <= rx < d && y == d * qy + ry && 0 <= ry < d
    ensures qx <= qy
    ensures qx == qy ==> rx <= ry && (x < y ==> rx < ry)
  {
    if qx > qy {
      MulMonotone(qy + 1, qx, d);
      Distribute(d, qy, 1);
    }
  }

  lemma QuotientUnique(x: int, d: int, q: int, r: int, q': int, r': int)
    requires d > 0 && x == d * q + r && 0 <= r < d && x == d * q' + r' && 0 <= r' < d
    ensures q == q' && r == r'
  {
    QuotientOrder(x, x, d, q, r, q', r');
    QuotientOrder(x, x, d, q', r', q, r);
  }

  /** Quotient and remainder are the only pair that recombines. */
  lemma DivModUnique(x: int, d: int, q: int, r: int)
    requires d > 0 && x == d * q + r && 0 <= r < d
    ensures x / d == q && x % d == r
  {
    DivMod(x, d);
    var k := x / d - q;
    DistributeMinus(d, x / d, q);
    assert d * k == r - x % d;
    if k >= 1 {
      MulMonotone(1, k, d);
    } else if k <= -1 {
      MulMonotone(k, -1, d);
    }
  }
}
