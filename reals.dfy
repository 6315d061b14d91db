/**
 * Real arithmetic helpers shared by the wage and leave engines: minimum and
 * maximum, and multiplication and division by a variable. The products and
 * quotients are named so that the few nonlinear facts the proofs need are
 * derived once, in the lemmas below, and every other proof reasons about them
 * as uninterpreted quantities.
 */
module Reals {

  function MinR(a: real, b: real): real { if a <= b then a else b }
  function MaxR(a: real, b: real): real { if a >= b then a else b }

  function Mul(a: real, b: real): real { a * b }

  function Div(a: real, b: real): real
    requires b != 0.0
  {
    a / b
  }

  lemma MulMonotone(a: real, b: real, c: real)
    requires a <= b && 0.0 <= c
    ensures Mul(a, c) <= Mul(b, c)
  {
  }

  lemma MulStrict(a: real, b: real, c: real)
    requires a < b && 0.0 < c
    ensures Mul(a, c) < Mul(b, c)
  {
  }

  lemma MulNonNegative(a: real, b: real)
    requires 0.0 <= a && 0.0 <= b
    ensures 0.0 <= Mul(a, b)
  {
  }

  lemma MulByZero(a: real)
    ensures Mul(a, 0.0) == 0.0
  {
  }

  lemma MulDistributes(w: real, a: real, b: real)
    ensures Mul(w, a + b) == Mul(w, a) + Mul(w, b)
  {
  }

  lemma DivMonotone(a: real, b: real, c: real)
    requires a <= b && 0.0 < c
    ensures Div(a, c) <= Div(b, c)
  {
    assert a / c * c == a;
    assert b / c * c == b;
  }

  lemma DivCancels(a: real, c: real)
    requires c != 0.0
    ensures Mul(Div(a, c), c) == a
  {
  }

  lemma DivOfZero(c: real)
    requires c != 0.0
    ensures Div(0.0, c) == 0.0
  {
  }

  lemma MulOne(a: real)
    ensures Mul(a, 1.0) == a
  {
  }

  lemma MulCommutes(a: real, b: real)
    ensures Mul(a, b) == Mul(b, a)
  {
  }

  lemma MulAdds(a: real, b: real, c: real)
    ensures Mul(a, c) + Mul(b, c) == Mul(a + b, c)
  {
  }

  lemma DivAdds(a: real, b: real, c: real)
    requires c != 0.0
    ensures Div(a, c) + Div(b, c) == Div(a + b, c)
  {
  }

  lemma DivSelf(c: real)
    requires c != 0.0
    ensures Div(c, c) == 1.0
  {
  }

  lemma DivNonNegative(a: real, c: real)
    requires 0.0 <= a && 0.0 < c
    ensures 0.0 <= Div(a, c)
  {
    DivOfZero(c);
    DivMonotone(0.0, a, c);
  }

  lemma MulMonotoneRight(c: real, a: real, b: real)
    requires 0.0 <= c && a <= b
    ensures Mul(c, a) <= Mul(c, b)
  {
  }

  lemma MulAssociates(a: real, b: real, c: real)
    ensures Mul(Mul(a, b), c) == Mul(a, Mul(b, c))
  {
  }

  /** (k + 1) * x == k * x + x. */
  lemma MulSucc(k: int, x: real)
    ensures Mul((k + 1) as real, x) == Mul(k as real, x) + x
  {
    MulAdds(k as real, 1.0, x);
    MulCommutes(1.0, x);
    MulOne(x);
  }
}
