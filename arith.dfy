/** Small facts of integer arithmetic that the index and window proofs lean on. */
module Arith {

  lemma MulMonotone(a: int, b: int, c: nat)
    requires a <= b
    ensures a * c <= b * c
  {
  }

  /** Division by a positive divisor is characterised by its quotient and remainder. */
  lemma DivModUnique(i: int, d: int, q: int, r: int)
    requires d > 0 && 0 <= r < d && i == q * d + r
    ensures i / d == q && i % d == r
  {
    var q', r' := i / d, i % d;
    assert i == q' * d + r';
    if q' < q {
      MulMonotone(q' + 1, q, d);
      assert false;
    } else if q' > q {
      MulMonotone(q + 1, q', d);
      assert false;
    }
  }

  /** A value below a * b has a quotient by b below a. */
  lemma DivBelow(i: nat, a: nat, b: nat)
    requires b > 0 && i < a * b
    ensures i / b < a
  {
    if i / b >= a {
      MulMonotone(a, i / b, b);
      assert false;
    }
  }

  lemma MulNonnegative(a: nat, b: nat, c: nat)
    ensures a * b * c >= 0
  {
  }

  lemma MulDistributes(a: int, b: int, c: int)
    ensures (a + b) * c == a * c + b * c
  {
  }

  lemma MulSwapLast(a: int, b: int, c: int)
    ensures a * b * c == a * c * b
  {
  }

  /** Two steps of division with remainder, by d and then by w, combine into one. */
  lemma RadixCombine(i: int, q: int, r: int, x: int, y: int, w: int, d: int)
    requires i == q * d + r && q == y * w + x
    ensures i == r + x * d + y * d * w
  {
    MulDistributes(y * w, x, d);
    MulSwapLast(y, w, d);
  }

  /** An offset splits into a digit below d, a digit below w and the rest (mixed radix d, w). */
  lemma MixedRadix(i: nat, w: nat, d: nat)
    requires w > 0 && d > 0
    ensures 0 <= i % d < d && 0 <= i / d % w < w && 0 <= i / d / w
    ensures i == i % d + (i / d % w) * d + (i / d / w) * d * w
  {
    RadixCombine(i, i / d, i % d, i / d % w, i / d / w, w, d);
  }
}
