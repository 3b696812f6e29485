/** Sign and factoring facts about real products and quotients, stated
    one at a time so that each call adds a single fact. */
module RealArith {

  lemma MulNonNeg(a: real, b: real)
    requires a >= 0.0 && b >= 0.0
    ensures a * b >= 0.0
  {
  }

  lemma MulPos(a: real, b: real)
    requires a > 0.0 && b > 0.0
    ensures a * b > 0.0
  {
  }

  lemma DivNonNeg(a: real, b: real)
    requires a >= 0.0 && b > 0.0
    ensures a / b >= 0.0
  {
  }

  lemma DivPos(a: real, b: real)
    requires a > 0.0 && b > 0.0
    ensures a / b > 0.0
  {
  }

  /** c*a/D + c*b/D == c*(a+b)/D. */
  lemma DivAdd(c: real, a: real, b: real, den: real)
    requires den != 0.0
    ensures c * a / den + c * b / den == c * (a + b) / den
  {
    assert c * a + c * b == c * (a + b);
  }
}
