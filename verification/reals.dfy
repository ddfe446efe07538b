/** Facts about real multiplication that the geometric proofs rely on. The
    solver does not combine squared terms reliably, so every square is
    written through `Sq` and reasoned about with the lemmas below. */
module Reals {

  function Sq(a: real): real {
    a * a
  }

  lemma MulPositive(a: real, b: real)
    requires 0.0 < a && 0.0 < b
    ensures 0.0 < a * b
  {
  }

  lemma MulNonNegative(a: real, b: real)
    requires 0.0 <= a && 0.0 <= b
    ensures 0.0 <= a * b
  {
  }

  lemma SqIncreasing(a: real, b: real)
    requires 0.0 <= a < b
    ensures Sq(a) < Sq(b)
  {
    MulNonNegative(a, b - a);
    assert a * (b - a) == a * b - a * a;
    MulPositive(b, b - a);
    assert b * (b - a) == b * b - a * b;
  }

  /** Squaring is strictly monotone on the non-negative reals. */
  lemma SqMonotone(a: real, b: real)
    requires 0.0 <= a && 0.0 <= b
    ensures Sq(a) < Sq(b) <==> a < b
    ensures Sq(a) == Sq(b) <==> a == b
  {
    if a < b {
      SqIncreasing(a, b);
    } else if b < a {
      SqIncreasing(b, a);
    }
  }

  lemma SqNegate(a: real)
    ensures Sq(-a) == Sq(a)
  {
  }

  lemma SqPositive(a: real)
    requires a != 0.0
    ensures 0.0 < Sq(a)
  {
    if 0.0 < a {
      SqMonotone(0.0, a);
    } else {
      SqMonotone(0.0, -a);
      SqNegate(a);
    }
  }

  lemma SqNonNegative(a: real)
    ensures 0.0 <= Sq(a)
  {
    if a != 0.0 {
      SqPositive(a);
    }
  }

  /** A sum of two squares vanishes only when both terms do. */
  lemma SumOfSquares(a: real, b: real)
    ensures 0.0 <= Sq(a) + Sq(b)
    ensures Sq(a) + Sq(b) == 0.0 <==> a == 0.0 && b == 0.0
  {
    SqNonNegative(a);
    SqNonNegative(b);
    if a != 0.0 {
      SqPositive(a);
    }
    if b != 0.0 {
      SqPositive(b);
    }
  }

  /** Squares of a quotient. */
  lemma SqDiv(a: real, d: real)
    requires d != 0.0
    ensures Sq(a / d) * Sq(d) == Sq(a)
  {
    assert (a / d) * d == a;
    calc {
      Sq(a / d) * Sq(d);
      ((a / d) * d) * ((a / d) * d);
      a * a;
    }
  }
}
