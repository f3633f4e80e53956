/** Facts about products, quotients and remainders that the solver does not
    find on its own. Each is stated for all inputs, as implications, so that
    callers never need a case split to use them. */
module Arith {

  /** A positive multiple of a positive number is at least that number. */
  lemma MulAtLeast(k: int, d: int)
    requires d > 0
    ensures k >= 1 ==> k * d >= d
  {
    assert k * d == (k - 1) * d + d;
  }

  /** Multiplying by a positive number keeps and reflects the order. */
  lemma MulMonotone(a: int, b: int, d: int)
    requires d > 0
    ensures a < b <==> a * d < b * d
    ensures a <= b <==> a * d <= b * d
  {
    assert b * d - a * d == (b - a) * d;
    MulAtLeast(b - a, d);
    MulAtLeast(a - b, d);
  }

  /** The quotient and remainder of `a` by `d` are the only `q`, `r` with
      `a == q * d + r` and `0 <= r < d`. */
  lemma DivModUnique(a: int, d: int, q: int, r: int)
    requires 0 < d && 0 <= r < d && a == q * d + r
    ensures q == a / d && r == a % d
  {
    var q0, r0 := a / d, a % d;
    assert (q - q0) * d == r0 - r;
    MulAtLeast(q - q0, d);
    MulAtLeast(q0 - q, d);
  }
}
