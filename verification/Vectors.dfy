/** Vectors, stochastic matrices and the L1 norm over exact reals. */
module Vectors {
  import opened Reals
  import opened Aggregate

  type Vec = seq<real>
  type Mat = seq<seq<real>>

  // ---------------------------------------------------------------- finite sums

  /** f(0) + ... + f(n - 1). */
  function SumTo(n: nat, f: int -> real): real {
    if n == 0 then 0.0 else SumTo(n - 1, f) + f(n - 1)
  }

  lemma {:induction false} SumSame(n: nat, f: int -> real, g: int -> real)
    requires forall i :: 0 <= i < n ==> f(i) == g(i)
    ensures SumTo(n, f) == SumTo(n, g)
  {
    if n > 0 {
      SumSame(n - 1, f, g);
    }
  }

  lemma {:induction false} SumOrder(n: nat, f: int -> real, g: int -> real)
    requires forall i :: 0 <= i < n ==> f(i) <= g(i)
    ensures SumTo(n, f) <= SumTo(n, g)
  {
    if n > 0 {
      SumOrder(n - 1, f, g);
    }
  }

  function Plus(f: int -> real, g: int -> real): int -> real {
    i => f(i) + g(i)
  }

  function Minus(f: int -> real, g: int -> real): int -> real {
    i => f(i) - g(i)
  }

  function Times(c: real, f: int -> real): (g: int -> real)
    ensures forall i :: g(i) == Mul(c, f(i))
  {
    i => Mul(c, f(i))
  }

  function AbsOf(f: int -> real): (g: int -> real)
    ensures forall i :: g(i) == Abs(f(i))
  {
    i => Abs(f(i))
  }

  lemma {:induction false} SumPlus(n: nat, f: int -> real, g: int -> real)
    ensures SumTo(n, Plus(f, g)) == SumTo(n, f) + SumTo(n, g)
    ensures SumTo(n, Minus(f, g)) == SumTo(n, f) - SumTo(n, g)
  {
    if n > 0 {
      SumPlus(n - 1, f, g);
    }
  }

  lemma {:induction false} SumTimes(n: nat, c: real, f: int -> real)
    ensures SumTo(n, Times(c, f)) == Mul(c, SumTo(n, f))
  {
    if n > 0 {
      SumTimes(n - 1, c, f);
      MulDistribute(SumTo(n - 1, f), f(n - 1), c);
    }
  }

  lemma {:induction false} AbsOfSum(n: nat, f: int -> real)
    ensures Abs(SumTo(n, f)) <= SumTo(n, AbsOf(f))
  {
    if n > 0 {
      AbsOfSum(n - 1, f);
    }
  }

  lemma {:induction false} SumNonNegative(n: nat, f: int -> real)
    requires forall i :: 0 <= i < n ==> f(i) >= 0.0
    ensures SumTo(n, f) >= 0.0
  {
    if n > 0 {
      SumNonNegative(n - 1, f);
    }
  }

  lemma {:induction false} SumZeroTerms(n: nat, f: int -> real, i: nat)
    requires i < n && (forall k :: 0 <= k < n ==> f(k) >= 0.0) && SumTo(n, f) <= 0.0
    ensures f(i) == 0.0
  {
    SumNonNegative(n - 1, f);
    if i < n - 1 {
      SumZeroTerms(n - 1, f, i);
    }
  }

  function Row(f: (int, int) -> real, i: int): int -> real {
    j => f(i, j)
  }

  function Column(f: (int, int) -> real, j: int): int -> real {
    i => f(i, j)
  }

  function RowSums(f: (int, int) -> real, n: nat): (g: int -> real)
    ensures forall i :: g(i) == SumTo(n, Row(f, i))
  {
    i => SumTo(n, Row(f, i))
  }

  function ColumnSums(f: (int, int) -> real, n: nat): (g: int -> real)
    ensures forall j :: g(j) == SumTo(n, Column(f, j))
  {
    j => SumTo(n, Column(f, j))
  }

  /** A double sum does not depend on the order of summation. */
  lemma {:induction false} SumSwap(f: (int, int) -> real, n: nat, m: nat)
    ensures SumTo(n, RowSums(f, m)) == SumTo(m, ColumnSums(f, n))
  {
    if n == 0 {
      SumSame(m, ColumnSums(f, 0), _ => 0.0);
      SumConstant(m, 0.0);
    } else {
      SumSwap(f, n - 1, m);
      SumSame(m, ColumnSums(f, n), Plus(ColumnSums(f, n - 1), Row(f, n - 1)));
      SumPlus(m, ColumnSums(f, n - 1), Row(f, n - 1));
    }
  }

  lemma {:induction false} SumConstant(n: nat, c: real)
    ensures SumTo(n, _ => c) == n as real * c
  {
    if n > 0 {
      SumConstant(n - 1, c);
      assert n as real * c == (n - 1) as real * c + c;
    }
  }

  // ---------------------------------------------------------------- vectors

  function At(x: Vec, i: int): real {
    if 0 <= i < |x| then x[i] else 0.0
  }

  function Of(x: Vec): (g: int -> real)
    ensures forall i :: g(i) == At(x, i)
  {
    i => At(x, i)
  }

  function Norm(x: Vec): real {
    SumTo(|x|, AbsOf(Of(x)))
  }

  function Sub(x: Vec, y: Vec): (z: Vec)
    requires |x| == |y|
    ensures |z| == |x|
  {
    seq(|x|, i requires 0 <= i < |x| => x[i] - y[i])
  }

  function Dist(x: Vec, y: Vec): real
    requires |x| == |y|
  {
    Norm(Sub(x, y))
  }

  /** Nonnegative entries that sum to 1. */
  ghost predicate Probability(x: Vec) {
    && (forall i :: 0 <= i < |x| ==> x[i] >= 0.0)
    && SumTo(|x|, Of(x)) == 1.0
  }

  lemma NormNonNegative(x: Vec)
    ensures Norm(x) >= 0.0
  {
    SumNonNegative(|x|, AbsOf(Of(x)));
  }

  lemma DistSymmetric(x: Vec, y: Vec)
    requires |x| == |y|
    ensures Dist(x, y) == Dist(y, x)
  {
    SumSame(|x|, AbsOf(Of(Sub(x, y))), AbsOf(Of(Sub(y, x))));
  }

  lemma Triangle(x: Vec, y: Vec, z: Vec)
    requires |x| == |y| == |z|
    ensures Dist(x, z) <= Dist(x, y) + Dist(y, z)
  {
    var a, b, c := AbsOf(Of(Sub(x, y))), AbsOf(Of(Sub(y, z))), AbsOf(Of(Sub(x, z)));
    SumPlus(|x|, a, b);
    SumOrder(|x|, c, Plus(a, b));
  }

  lemma ZeroDist(x: Vec, y: Vec)
    requires |x| == |y| && Dist(x, y) <= 0.0
    ensures x == y
  {
    forall i | 0 <= i < |x|
      ensures x[i] == y[i]
    {
      SumZeroTerms(|x|, AbsOf(Of(Sub(x, y))), i);
      assert Of(Sub(x, y))(i) == x[i] - y[i];
    }
  }

  /** Two probability vectors are at most 2 apart. */
  lemma ProbabilityDist(x: Vec, y: Vec)
    requires |x| == |y| && Probability(x) && Probability(y)
    ensures Dist(x, y) <= 2.0
  {
    var a, b := Of(x), Of(y);
    SumPlus(|x|, a, b);
    SumOrder(|x|, AbsOf(Of(Sub(x, y))), Plus(a, b));
  }

  function Uniform(n: nat): (x: Vec)
    ensures |x| == n
  {
    seq(n, _ => if n == 0 then 0.0 else 1.0 / n as real)
  }

  lemma UniformProbability(n: nat)
    requires n > 0
    ensures Probability(Uniform(n))
  {
    var c := 1.0 / n as real;
    NonNegativeQuotient(1.0, n as real);
    SumSame(n, Of(Uniform(n)), _ => c);
    SumConstant(n, c);
    Quotient(1.0, n as real);
  }

  // ---------------------------------------------------------------- stochastic matrices

  function Entry(m: Mat, i: int, j: int): real {
    if 0 <= i < |m| && 0 <= j < |m[i]| then m[i][j] else 0.0
  }

  /** A square matrix whose rows are probability vectors. */
  ghost predicate Stochastic(m: Mat) {
    forall i :: 0 <= i < |m| ==> |m[i]| == |m| && Probability(m[i])
  }

  function Term(x: Vec, m: Mat, j: int): (g: int -> real)
    ensures forall i :: g(i) == Mul(At(x, i), Entry(m, i, j))
  {
    i => Mul(At(x, i), Entry(m, i, j))
  }

  function Product(x: Vec, m: Mat, j: int): real {
    SumTo(|x|, Term(x, m, j))
  }

  /** The row vector x times the matrix m. */
  function VecMat(x: Vec, m: Mat): (y: Vec)
    ensures |y| == |m|
  {
    seq(|m|, j => Product(x, m, j))
  }

  function Flow(x: Vec, m: Mat): (g: (int, int) -> real)
    ensures forall i, j :: g(i, j) == Mul(At(x, i), Entry(m, i, j))
  {
    (i, j) => Mul(At(x, i), Entry(m, i, j))
  }

  function AbsFlow(x: Vec, m: Mat): (g: (int, int) -> real)
    ensures forall i, j :: g(i, j) == Mul(Abs(At(x, i)), Entry(m, i, j))
  {
    (i, j) => Mul(Abs(At(x, i)), Entry(m, i, j))
  }

  lemma EntryNonNegative(m: Mat, i: int, j: int)
    requires Stochastic(m)
    ensures Entry(m, i, j) >= 0.0
  {
  }

  lemma RowSumOne(m: Mat, i: int, a: real, row: int -> real)
    requires Stochastic(m) && 0 <= i < |m|
    requires forall j :: 0 <= j < |m| ==> row(j) == Mul(a, Entry(m, i, j))
    ensures SumTo(|m|, row) == a
  {
    assert Mul(a, 1.0) == a;
    hide Mul;
    SumSame(|m|, row, Times(a, Of(m[i])));
    SumTimes(|m|, a, Of(m[i]));
  }

  /** Multiplying by a stochastic matrix keeps the total. */
  lemma TotalKept(x: Vec, m: Mat)
    requires Stochastic(m) && |x| == |m|
    ensures SumTo(|x|, Of(VecMat(x, m))) == SumTo(|x|, Of(x))
  {
    hide Mul, SumTo, Stochastic;
    var n, f := |x|, Flow(x, m);
    SumSwap(f, n, n);
    forall j | 0 <= j < n
      ensures Of(VecMat(x, m))(j) == ColumnSums(f, n)(j)
    {
      SumSame(n, Term(x, m, j), Column(f, j));
    }
    SumSame(n, Of(VecMat(x, m)), ColumnSums(f, n));
    forall i | 0 <= i < n
      ensures RowSums(f, n)(i) == Of(x)(i)
    {
      RowSumOne(m, i, x[i], Row(f, i));
    }
    SumSame(n, RowSums(f, n), Of(x));
  }

  /** Multiplying by a stochastic matrix never raises the L1 norm. */
  lemma NonExpansive(x: Vec, m: Mat)
    requires Stochastic(m) && |x| == |m|
    ensures Norm(VecMat(x, m)) <= Norm(x)
  {
    hide Mul;
    var n, f := |x|, AbsFlow(x, m);
    SumSwap(f, n, n);
    forall j | 0 <= j < n
      ensures AbsOf(Of(VecMat(x, m)))(j) <= ColumnSums(f, n)(j)
    {
      AbsOfSum(n, Term(x, m, j));
      forall i | 0 <= i < n
        ensures AbsOf(Term(x, m, j))(i) == Column(f, j)(i)
      {
        EntryNonNegative(m, i, j);
        MulSign(At(x, i), Entry(m, i, j));
      }
      SumSame(n, AbsOf(Term(x, m, j)), Column(f, j));
    }
    SumOrder(n, AbsOf(Of(VecMat(x, m))), ColumnSums(f, n));
    forall i | 0 <= i < n
      ensures RowSums(f, n)(i) == AbsOf(Of(x))(i)
    {
      RowSumOne(m, i, Abs(x[i]), Row(f, i));
    }
    SumSame(n, RowSums(f, n), AbsOf(Of(x)));
  }

  lemma VecMatLinear(x: Vec, y: Vec, m: Mat)
    requires |x| == |y| == |m|
    ensures VecMat(Sub(x, y), m) == Sub(VecMat(x, m), VecMat(y, m))
  {
    hide Mul;
    forall j | 0 <= j < |m|
      ensures Product(Sub(x, y), m, j) == Product(x, m, j) - Product(y, m, j)
    {
      SumPlus(|x|, Term(x, m, j), Term(y, m, j));
      forall i | 0 <= i < |x|
        ensures Term(Sub(x, y), m, j)(i) == Minus(Term(x, m, j), Term(y, m, j))(i)
      {
        MulDistribute(x[i], y[i], Entry(m, i, j));
      }
      SumSame(|x|, Term(Sub(x, y), m, j), Minus(Term(x, m, j), Term(y, m, j)));
    }
  }

  /** Probability vectors stay probability vectors. */
  lemma ProbabilityKept(x: Vec, m: Mat)
    requires Stochastic(m) && |x| == |m| && Probability(x)
    ensures Probability(VecMat(x, m))
  {
    hide Mul;
    TotalKept(x, m);
    forall j | 0 <= j < |m|
      ensures VecMat(x, m)[j] >= 0.0
    {
      forall i | 0 <= i < |x|
        ensures Term(x, m, j)(i) >= 0.0
      {
        EntryNonNegative(m, i, j);
        MulSign(x[i], Entry(m, i, j));
      }
      SumNonNegative(|x|, Term(x, m, j));
    }
  }

  // ---------------------------------------------------------------- what the operations compute

  /** The unit vector of node i. */
  function Unit(n: nat, i: int): (x: Vec)
    ensures |x| == n
  {
    seq(n, k => if k == i then 1.0 else 0.0)
  }

  ghost predicate Square(m: Mat) {
    forall i :: 0 <= i < |m| ==> |m[i]| == |m|
  }

  /** A unit vector is taken to a row of the matrix. Together with `VecMatAdd` and `VecMatScale`
      this determines the product. */
  lemma UnitRow(m: Mat, i: int)
    requires Square(m) && 0 <= i < |m|
    ensures VecMat(Unit(|m|, i), m) == m[i]
  {
    var n := |m|;
    forall j | 0 <= j < n
      ensures VecMat(Unit(n, i), m)[j] == m[i][j]
    {
      OnlyTerm(n, Term(Unit(n, i), m, j), i);
    }
  }

  /** A sum with a single term that is not 0. */
  lemma {:induction false} OnlyTerm(n: nat, f: int -> real, i: int)
    requires 0 <= i < n && forall k :: 0 <= k < n && k != i ==> f(k) == 0.0
    ensures SumTo(n, f) == f(i)
  {
    if i < n - 1 {
      OnlyTerm(n - 1, f, i);
    } else {
      SumSame(n - 1, f, _ => 0.0);
      SumConstant(n - 1, 0.0);
    }
  }

  lemma VecMatAdd(x: Vec, y: Vec, z: Vec, m: Mat)
    requires |x| == |y| == |z| == |m| && forall i :: 0 <= i < |m| ==> z[i] == x[i] + y[i]
    ensures forall j :: 0 <= j < |m| ==> VecMat(z, m)[j] == VecMat(x, m)[j] + VecMat(y, m)[j]
  {
    assert Sub(z, y) == x;
    VecMatLinear(z, y, m);
    forall j | 0 <= j < |m|
      ensures VecMat(z, m)[j] == VecMat(x, m)[j] + VecMat(y, m)[j]
    {
      assert VecMat(x, m)[j] == Sub(VecMat(z, m), VecMat(y, m))[j];
    }
  }

  lemma VecMatScale(c: real, x: Vec, y: Vec, m: Mat)
    requires |x| == |y| == |m| && forall i :: 0 <= i < |m| ==> y[i] == Mul(c, x[i])
    ensures forall j :: 0 <= j < |m| ==> VecMat(y, m)[j] == Mul(c, VecMat(x, m)[j])
  {
    hide Mul;
    forall j | 0 <= j < |m|
      ensures VecMat(y, m)[j] == Mul(c, VecMat(x, m)[j])
    {
      forall i | 0 <= i < |x|
        ensures Term(y, m, j)(i) == Times(c, Term(x, m, j))(i)
      {
        MulRotate(c, x[i], Entry(m, i, j));
      }
      SumSame(|x|, Term(y, m, j), Times(c, Term(x, m, j)));
      SumTimes(|x|, c, Term(x, m, j));
    }
  }

  /** x[0] * m[0][j] + ... + x[n - 1] * m[n - 1][j]: what arrives at j. */
  ghost function Arriving(x: Vec, m: Mat, j: int): real {
    if x == [] then 0.0
    else
      var i := |x| - 1;
      Arriving(x[..i], m, j) + if i < |m| && 0 <= j < |m[i]| then x[i] * m[i][j] else 0.0
  }

  /** |x[0] - y[0]| + ... + |x[n - 1] - y[n - 1]|: how far y is from x. */
  ghost function Travel(x: Vec, y: Vec): real
    requires |x| == |y|
  {
    if x == [] then 0.0
    else
      var i := |x| - 1;
      Travel(x[..i], y[..i]) + if x[i] >= y[i] then x[i] - y[i] else y[i] - x[i]
  }

  /** The same share for everyone. */
  ghost predicate EqualShares(x: Vec) {
    forall i :: 0 <= i < |x| ==> x[i] * |x| as real == 1.0
  }

  lemma {:induction false} SumArrives(n: nat, x: Vec, m: Mat, j: int)
    requires n <= |x|
    ensures SumTo(n, Term(x, m, j)) == Arriving(x[..n], m, j)
  {
    if n > 0 {
      SumArrives(n - 1, x, m, j);
      assert x[..n][..n - 1] == x[..n - 1];
    }
  }

  /** The product is what arrives at each node. */
  lemma ProductArrives(x: Vec, m: Mat)
    requires |x| == |m|
    ensures forall j :: 0 <= j < |m| ==> VecMat(x, m)[j] == Arriving(x, m, j)
  {
    forall j | 0 <= j < |m|
      ensures VecMat(x, m)[j] == Arriving(x, m, j)
    {
      SumArrives(|x|, x, m, j);
      assert x[..|x|] == x;
    }
  }

  lemma {:induction false} SumTravels(n: nat, x: Vec, y: Vec)
    requires n <= |x| == |y|
    ensures SumTo(n, AbsOf(Of(Sub(x, y)))) == Travel(x[..n], y[..n])
  {
    if n > 0 {
      SumTravels(n - 1, x, y);
      assert x[..n][..n - 1] == x[..n - 1] && y[..n][..n - 1] == y[..n - 1];
    }
  }

  lemma DistIsTravel(x: Vec, y: Vec)
    requires |x| == |y|
    ensures Dist(x, y) == Travel(x, y)
  {
    SumTravels(|x|, x, y);
    assert x[..|x|] == x && y[..|y|] == y;
  }

  /** No entry moves farther than the whole vector. */
  lemma {:induction false} EntryTravel(x: Vec, y: Vec, i: int)
    requires |x| == |y| && 0 <= i < |x|
    ensures -Travel(x, y) <= x[i] - y[i] <= Travel(x, y)
  {
    var n := |x| - 1;
    TravelNonNegative(x[..n], y[..n]);
    if i < n {
      EntryTravel(x[..n], y[..n], i);
    }
  }

  lemma {:induction false} TravelNonNegative(x: Vec, y: Vec)
    requires |x| == |y|
    ensures Travel(x, y) >= 0.0
  {
    if x != [] {
      TravelNonNegative(x[..|x| - 1], y[..|y| - 1]);
    }
  }

  lemma UniformShares(n: nat)
    ensures EqualShares(Uniform(n))
  {
    if n > 0 {
      Quotient(1.0, n as real);
    }
  }

  lemma {:induction false} SumOfAll(n: nat, x: Vec)
    requires n <= |x|
    ensures SumTo(n, Of(x)) == Sum(x[..n])
  {
    if n > 0 {
      SumOfAll(n - 1, x);
      assert x[..n][..n - 1] == x[..n - 1];
    }
  }

  lemma SumIs(x: Vec)
    ensures SumTo(|x|, Of(x)) == Sum(x)
  {
    SumOfAll(|x|, x);
    assert x[..|x|] == x;
  }
}
