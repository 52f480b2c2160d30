/** Facts of real arithmetic the solver does not find by itself. */
module Reals {

  lemma MulOrder(a: real, b: real, m: real)
    requires m > 0.0
    ensures a <= b <==> a * m <= b * m
    ensures a < b <==> a * m < b * m
  {
    if a < b {
      assert (b - a) * m > 0.0;
    } else if b < a {
      assert (a - b) * m > 0.0;
    }
  }

  lemma SignOfProduct(z: real, m: real)
    requires m > 0.0
    ensures z * m > 0.0 <==> z > 0.0
    ensures z * m < 0.0 <==> z < 0.0
  {
  }

  lemma MulNonNegative(a: real, b: real)
    requires a >= 0.0 && b >= 0.0
    ensures a * b >= 0.0
  {
  }

  lemma Quotient(a: real, n: real)
    requires n != 0.0
    ensures a / n * n == a
  {
  }

  lemma SelfQuotient(n: real)
    requires n != 0.0
    ensures n / n == 1.0
  {
  }

  lemma NonNegativeQuotient(a: real, n: real)
    requires a >= 0.0 && n > 0.0
    ensures a / n >= 0.0
  {
    Quotient(a, n);
    SignOfProduct(a / n, n);
  }

  /** Multiplication under a name that proofs can keep closed. */
  function Mul(a: real, b: real): real {
    a * b
  }

  lemma MulDistribute(a: real, b: real, m: real)
    ensures Mul(a + b, m) == Mul(a, m) + Mul(b, m)
    ensures Mul(a - b, m) == Mul(a, m) - Mul(b, m)
    ensures Mul(m, a + b) == Mul(m, a) + Mul(m, b)
    ensures Mul(m, a - b) == Mul(m, a) - Mul(m, b)
  {
  }

  lemma MulSign(a: real, b: real)
    requires b >= 0.0
    ensures a >= 0.0 ==> Mul(a, b) >= 0.0
    ensures Abs(Mul(a, b)) == Mul(Abs(a), b)
  {
    if a >= 0.0 {
      MulNonNegative(a, b);
    } else {
      MulNonNegative(-a, b);
      assert (-a) * b == -(a * b);
    }
  }

  function Abs(x: real): real {
    if x < 0.0 then -x else x
  }

  lemma MulCommutes(a: real, b: real)
    ensures Mul(a, b) == Mul(b, a)
  {
  }

  lemma MulRotate(c: real, p: real, q: real)
    ensures Mul(c, Mul(p, q)) == Mul(p, Mul(c, q))
    ensures Mul(Mul(c, p), q) == Mul(c, Mul(p, q))
  {
  }

  lemma MulZero(a: real)
    ensures Mul(0.0, a) == 0.0 && Mul(a, 0.0) == 0.0
  {
  }

  lemma MulOne(a: real)
    ensures Mul(a, 1.0) == a && Mul(1.0, a) == a
  {
  }

  lemma MulSuccessor(a: real, n: nat)
    ensures Mul(a, (n + 1) as real) == Mul(a, n as real) + a
  {
    MulDistribute(n as real, 1.0, a);
    MulOne(a);
  }
}
