/** Facts about multiplication and Euclidean division by a positive number. */
module Arith {

  /** A positive factor can be cancelled from a strict inequality. */
  lemma MulLtCancel(d: int, x: int, y: int)
    requires d > 0 && d * x < d * y
    ensures x < y
  {
  }

  /** Euclidean division by a positive number: the quotient times the divisor is at most `a`. */
  lemma DivBounds(a: nat, d: nat)
    requires d > 0
    ensures d * (a / d) <= a < d * (a / d) + d
  {
  }

  /** Division by a positive number keeps order. */
  lemma DivMonotone(a: nat, b: nat, d: nat)
    requires a <= b && d > 0
    ensures a / d <= b / d
  {
    DivBounds(a, d);
    DivBounds(b, d);
    MulLtCancel(d, a / d, b / d + 1);
  }

  /** `d * x / d == x`. */
  lemma DivCancel(x: nat, d: nat)
    requires d > 0
    ensures d * x / d == x
  {
    var q := d * x / d;
    DivBounds(d * x, d);
    MulLtCancel(d, q, x + 1);
    MulLtCancel(d, x, q + 1);
  }
}
