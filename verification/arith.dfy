/**
 * Facts about products of reals that the solver's nonlinear arithmetic needs
 * spelled out.
 */
module RealArith {

  /** The sign rule for products. */
  lemma ProductSign(a: real, b: real)
    requires 0.0 <= a && 0.0 <= b
    ensures 0.0 <= a * b
    ensures 0.0 < a && 0.0 < b ==> 0.0 < a * b
  {
  }

  /** Multiplying by a non-negative factor keeps the order. */
  lemma ScaleBelow(a: real, b: real, c: real)
    requires a <= b && 0.0 <= c
    ensures a * c <= b * c
  {
    ProductSign(b - a, c);
    assert b * c - a * c == (b - a) * c;
  }
}
