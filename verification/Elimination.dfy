/** Square linear systems x = xA + b whose coefficients contract, solved by eliminating one
    unknown after the other. */
module Elimination {
  import opened Reals
  import opened Vectors

  type Coefficients = (int, int) -> real

  /** Nonnegative coefficients whose rows sum to at most alpha. */
  ghost predicate Contracting(n: nat, a: Coefficients, alpha: real) {
    && (forall i, j :: 0 <= i < n && 0 <= j < n ==> a(i, j) >= 0.0)
    && (forall i :: 0 <= i < n ==> SumTo(n, Row(a, i)) <= alpha)
  }

  function Inflow(a: Coefficients, x: int -> real, j: int): (g: int -> real)
    ensures forall i :: g(i) == Mul(x(i), a(i, j))
  {
    i => Mul(x(i), a(i, j))
  }

  ghost predicate Solves(n: nat, a: Coefficients, b: int -> real, x: int -> real) {
    forall j :: 0 <= j < n ==> x(j) == SumTo(n, Inflow(a, x, j)) + b(j)
  }

  /** What the k-th unknown passes on to each other one, once its share in itself is resolved. */
  function Shares(a: Coefficients, k: nat): (r: int -> real)
    requires a(k, k) < 1.0
    ensures forall j :: Mul(1.0 - a(k, k), r(j)) == a(k, j)
  {
    var d := 1.0 - a(k, k);
    var r := j => a(k, j) / d;
    forall j
      ensures Mul(d, r(j)) == a(k, j)
    {
      Quotient(a(k, j), d);
    }
    r
  }

  /** The system without the k-th unknown. */
  function Reduced(a: Coefficients, k: nat, r: int -> real): (a': Coefficients)
    ensures forall i, j :: a'(i, j) == a(i, j) + Mul(a(i, k), r(j))
  {
    (i, j) => a(i, j) + Mul(a(i, k), r(j))
  }

  function ReducedOffset(b: int -> real, k: nat, r: int -> real): (b': int -> real)
    ensures forall j :: b'(j) == b(j) + Mul(b(k), r(j))
  {
    j => b(j) + Mul(b(k), r(j))
  }

  function With(x: int -> real, k: nat, v: real): (x': int -> real)
    ensures forall i :: x'(i) == if i == k then v else x(i)
  {
    i => if i == k then v else x(i)
  }

  lemma DiagonalBelow(n: nat, a: Coefficients, alpha: real)
    requires n > 0 && Contracting(n, a, alpha)
    ensures SumTo(n - 1, Row(a, n - 1)) <= alpha - a(n - 1, n - 1) && a(n - 1, n - 1) <= alpha
  {
    SumNonNegative(n - 1, Row(a, n - 1));
  }

  lemma PartOf(d: real, r: real, a: real)
    requires d > 0.0 && Mul(d, r) == a
    ensures a >= 0.0 ==> r >= 0.0
    ensures a <= d ==> r <= 1.0
  {
    SignOfProduct(r, d);
    MulOrder(r, 1.0, d);
  }

  lemma SharesBounds(k: nat, a: Coefficients, alpha: real)
    requires Contracting(k + 1, a, alpha) && alpha < 1.0 && a(k, k) < 1.0
    ensures forall j :: 0 <= j < k ==> Shares(a, k)(j) >= 0.0
    ensures SumTo(k, Shares(a, k)) <= 1.0
  {
    hide Mul, Shares;
    var d, r := 1.0 - a(k, k), Shares(a, k);
    DiagonalBelow(k + 1, a, alpha);
    forall j | 0 <= j < k
      ensures r(j) >= 0.0
    {
      PartOf(d, r(j), a(k, j));
    }
    SumTimes(k, d, r);
    SumSame(k, Times(d, r), Row(a, k));
    PartOf(d, SumTo(k, r), SumTo(k, Row(a, k)));
  }

  /** Eliminating an unknown keeps the system contracting. */
  lemma ReducedContracting(k: nat, a: Coefficients, alpha: real)
    requires Contracting(k + 1, a, alpha) && alpha < 1.0 && a(k, k) < 1.0
    ensures Contracting(k, Reduced(a, k, Shares(a, k)), alpha)
  {
    hide Mul, Shares, SumTo;
    var r := Shares(a, k);
    SharesBounds(k, a, alpha);
    forall i, j | 0 <= i < k && 0 <= j < k
      ensures Reduced(a, k, r)(i, j) >= 0.0
    {
      Portion(a(i, k), r(j));
    }
    forall i | 0 <= i < k
      ensures SumTo(k, Row(Reduced(a, k, r), i)) <= alpha
    {
      ReducedRow(k, a, r, i);
      SumToStep(k, Row(a, i));
    }
  }

  lemma Portion(c: real, r: real)
    requires c >= 0.0
    ensures r >= 0.0 ==> Mul(c, r) >= 0.0
    ensures r <= 1.0 ==> Mul(c, r) <= c
  {
    if r <= 1.0 {
      MulNonNegative(c, 1.0 - r);
    }
    if r >= 0.0 {
      MulNonNegative(c, r);
    }
  }

  lemma SumToStep(n: nat, f: int -> real)
    ensures SumTo(n + 1, f) == SumTo(n, f) + f(n)
  {
  }

  lemma ReducedRow(k: nat, a: Coefficients, r: int -> real, i: int)
    requires a(i, k) >= 0.0 && SumTo(k, r) <= 1.0
    ensures SumTo(k, Row(Reduced(a, k, r), i)) <= SumTo(k, Row(a, i)) + a(i, k)
  {
    hide Mul;
    var c := a(i, k);
    SumSame(k, Row(Reduced(a, k, r), i), Plus(Row(a, i), Times(c, r)));
    SumPlus(k, Row(a, i), Times(c, r));
    SumTimes(k, c, r);
    Portion(c, SumTo(k, r));
  }

  /** What flows into j in the reduced system: its own inflow, and its share of what flows into k. */
  lemma ReducedInflow(k: nat, a: Coefficients, r: int -> real, x: int -> real, j: int)
    ensures SumTo(k, Inflow(Reduced(a, k, r), x, j)) ==
              SumTo(k, Inflow(a, x, j)) + Mul(r(j), SumTo(k, Inflow(a, x, k)))
  {
    hide Mul;
    var f, g := Inflow(a, x, j), Times(r(j), Inflow(a, x, k));
    forall i | 0 <= i < k
      ensures Inflow(Reduced(a, k, r), x, j)(i) == Plus(f, g)(i)
    {
      MulDistribute(a(i, j), Mul(a(i, k), r(j)), x(i));
      MulRotate(x(i), a(i, k), r(j));
      MulCommutes(Mul(x(i), a(i, k)), r(j));
    }
    SumSame(k, Inflow(Reduced(a, k, r), x, j), Plus(f, g));
    SumPlus(k, f, g);
    SumTimes(k, r(j), Inflow(a, x, k));
  }

  /** A solution of the reduced system extends to one of the whole system. */
  lemma BackSubstitute(k: nat, a: Coefficients, b: int -> real, x: int -> real, v: real)
    requires a(k, k) < 1.0
    requires Solves(k, Reduced(a, k, Shares(a, k)), ReducedOffset(b, k, Shares(a, k)), x)
    requires Mul(1.0 - a(k, k), v) == SumTo(k, Inflow(a, x, k)) + b(k)
    ensures Solves(k + 1, a, b, With(x, k, v))
  {
    hide Mul, Shares, SumTo;
    var r, s, x' := Shares(a, k), SumTo(k, Inflow(a, x, k)), With(x, k, v);
    forall j | 0 <= j < k + 1
      ensures x'(j) == SumTo(k + 1, Inflow(a, x', j)) + b(j)
    {
      SumToStep(k, Inflow(a, x', j));
      SumSame(k, Inflow(a, x', j), Inflow(a, x, j));
      if j < k {
        ReducedInflow(k, a, r, x, j);
        PassedOn(r(j), s, b(k), 1.0 - a(k, k), v, a(k, j));
      } else {
        Kept(a(k, k), v);
      }
    }
  }

  lemma PassedOn(r: real, s: real, b: real, d: real, v: real, c: real)
    requires Mul(d, v) == s + b && Mul(d, r) == c
    ensures Mul(r, s) + Mul(b, r) == Mul(v, c)
  {
    hide Mul;
    MulCommutes(b, r);
    MulDistribute(s, b, r);
    MulRotate(v, d, r);
    MulCommutes(v, d);
    MulCommutes(Mul(d, v), r);
  }

  lemma Kept(c: real, v: real)
    ensures Mul(1.0 - c, v) + Mul(v, c) == v
  {
  }

  ghost predicate NonNegative(n: nat, x: int -> real) {
    forall j :: 0 <= j < n ==> x(j) >= 0.0
  }

  /** A contracting system has a solution, a nonnegative one if the offset is nonnegative. */
  lemma {:induction false} Solution(n: nat, a: Coefficients, b: int -> real, alpha: real) returns (x: int -> real)
    requires Contracting(n, a, alpha) && alpha < 1.0
    ensures Solves(n, a, b, x)
    ensures NonNegative(n, b) ==> NonNegative(n, x)
  {
    if n == 0 {
      x := _ => 0.0;
    } else {
      hide *;
      var k := n - 1;
      DiagonalBelow(n, a, alpha);
      ReducedContracting(k, a, alpha);
      var y := Solution(k, Reduced(a, k, Shares(a, k)), ReducedOffset(b, k, Shares(a, k)), alpha);
      if NonNegative(n, b) {
        OffsetNonNegative(k, a, b, alpha);
      }
      x := Extended(k, a, b, alpha, y);
    }
  }

  /** The last unknown, from the others. */
  lemma Extended(k: nat, a: Coefficients, b: int -> real, alpha: real, y: int -> real) returns (x: int -> real)
    requires Contracting(k + 1, a, alpha) && alpha < 1.0 && a(k, k) < 1.0
    requires Solves(k, Reduced(a, k, Shares(a, k)), ReducedOffset(b, k, Shares(a, k)), y)
    ensures Solves(k + 1, a, b, x)
    ensures NonNegative(k + 1, b) && NonNegative(k, y) ==> NonNegative(k + 1, x)
  {
    hide Mul, Shares, SumTo, Contracting, Solves, NonNegative;
    var s, d := SumTo(k, Inflow(a, y, k)) + b(k), 1.0 - a(k, k);
    Resolved(s, d);
    x := With(y, k, s / d);
    BackSubstitute(k, a, b, y, s / d);
    if NonNegative(k + 1, b) && NonNegative(k, y) {
      LastNonNegative(k, a, b, alpha, y);
      NonNegativeQuotient(s, d);
      WithNonNegative(k, y, s / d);
    }
  }

  lemma WithNonNegative(k: nat, y: int -> real, v: real)
    requires NonNegative(k, y) && v >= 0.0
    ensures NonNegative(k + 1, With(y, k, v))
  {
  }

  lemma LastNonNegative(k: nat, a: Coefficients, b: int -> real, alpha: real, y: int -> real)
    requires Contracting(k + 1, a, alpha) && NonNegative(k, y) && NonNegative(k + 1, b)
    ensures SumTo(k, Inflow(a, y, k)) + b(k) >= 0.0
  {
    InflowNonNegative(k, a, y);
  }

  lemma Resolved(s: real, d: real)
    requires d > 0.0
    ensures Mul(d, s / d) == s
  {
    Quotient(s, d);
  }

  lemma OffsetNonNegative(k: nat, a: Coefficients, b: int -> real, alpha: real)
    requires Contracting(k + 1, a, alpha) && alpha < 1.0 && a(k, k) < 1.0
    requires NonNegative(k + 1, b)
    ensures NonNegative(k, ReducedOffset(b, k, Shares(a, k)))
  {
    hide Shares;
    SharesBounds(k, a, alpha);
    forall j | 0 <= j < k
      ensures ReducedOffset(b, k, Shares(a, k))(j) >= 0.0
    {
      MulNonNegative(b(k), Shares(a, k)(j));
    }
  }

  lemma InflowNonNegative(k: nat, a: Coefficients, x: int -> real)
    requires forall j :: 0 <= j < k ==> x(j) >= 0.0 && a(j, k) >= 0.0
    ensures SumTo(k, Inflow(a, x, k)) >= 0.0
  {
    forall i | 0 <= i < k
      ensures Inflow(a, x, k)(i) >= 0.0
    {
      MulNonNegative(x(i), a(i, k));
    }
    SumNonNegative(k, Inflow(a, x, k));
  }
}
