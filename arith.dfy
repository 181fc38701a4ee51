/** Facts about integer multiplication and Euclidean division that the
    frequency and row-layout proofs need and that the solver does not find
    on its own (they are non-linear). */
module Arith {

  lemma MulLeq(a: int, b: int, c: int)
    requires a <= b && 0 <= c
    ensures a * c <= b * c
  {
    assert b * c - a * c == (b - a) * c;
  }

  /** q is the quotient of a by d exactly when q * d <= a < q * d + d. */
  lemma DivBetween(a: int, d: int, q: int)
    requires 0 < d && q * d <= a < q * d + d
    ensures a / d == q && a % d == a - q * d
  {
    var q' := a / d;
    assert a == q' * d + a % d;
    if q' < q {
      assert (q - 1) * d == q * d - d;
      MulLeq(q', q - 1, d);
    } else if q' > q {
      assert (q + 1) * d == q * d + d;
      MulLeq(q + 1, q', d);
    }
  }

  lemma DivExact(q: int, d: int)
    requires 0 < d
    ensures (q * d) / d == q
  {
    DivBetween(q * d, d, q);
  }

  lemma DivAddDivisor(a: int, d: int)
    requires 0 < d
    ensures (a + d) / d == a / d + 1
  {
    assert a == a / d * d + a % d;
    assert (a / d + 1) * d == a / d * d + d;
    DivBetween(a + d, d, a / d + 1);
  }

  lemma DivMonotone(a: int, b: int, d: int)
    requires a <= b && 0 < d
    ensures a / d <= b / d
  {
    assert a == a / d * d + a % d;
    assert b == b / d * d + b % d;
    if a / d > b / d {
      assert (b / d + 1) * d == b / d * d + d;
      MulLeq(b / d + 1, a / d, d);
    }
  }

  /** If a * c < b * c for a positive c, then a < b. */
  lemma MulCancelLt(a: int, b: int, c: int)
    requires 0 < c && a * c < b * c
    ensures a < b
  {
    if a >= b {
      MulLeq(b, a, c);
    }
  }
}
