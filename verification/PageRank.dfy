/** Power iteration for PageRank: linkanalysis/pagerank.py. */
module PageRank {
  import opened Reals
  import opened Powers
  import opened Vectors
  import opened Aggregate
  import opened Options
  import opened Transitions
  import opened Elimination

  const DEFAULT_ALPHA := 0.85
  const DEFAULT_MAX_ITER := 100
  const DEFAULT_TOL := 0.000001

  /** One iteration: a damped step of the walk plus a jump. */
  function Damped(m: Mat, alpha: real, p: Vec, x: Vec): (y: Vec)
    requires |p| == |m|
    ensures |y| == |m|
  {
    var z := VecMat(x, m);
    seq(|m|, j requires 0 <= j < |m| => Mul(alpha, z[j]) + Mul(1.0 - alpha, p[j]))
  }

  /** The vector after t iterations from the uniform one. */
  function Iterate(m: Mat, alpha: real, p: Vec, t: nat): (x: Vec)
    requires |p| == |m|
    ensures |x| == |m|
  {
    if t == 0 then Uniform(|m|) else Damped(m, alpha, p, Iterate(m, alpha, p, t - 1))
  }

  function Gap(m: Mat, alpha: real, p: Vec, t: nat): real
    requires |p| == |m|
  {
    Dist(Iterate(m, alpha, p, t + 1), Iterate(m, alpha, p, t))
  }

  // ---------------------------------------------------------------- contraction

  lemma ScaledNorm(x: Vec, y: Vec, alpha: real)
    requires |x| == |y| && alpha >= 0.0
    requires forall j :: 0 <= j < |x| ==> x[j] == Mul(alpha, y[j])
    ensures Norm(x) == Mul(alpha, Norm(y))
  {
    forall j | 0 <= j < |x|
      ensures AbsOf(Of(x))(j) == Times(alpha, AbsOf(Of(y)))(j)
    {
      MulSign(y[j], alpha);
      MulCommutes(alpha, y[j]);
      MulCommutes(alpha, Abs(y[j]));
    }
    hide Mul;
    SumSame(|x|, AbsOf(Of(x)), Times(alpha, AbsOf(Of(y))));
    SumTimes(|x|, alpha, AbsOf(Of(y)));
  }

  lemma MulMonotone(alpha: real, a: real, b: real)
    requires alpha >= 0.0 && a <= b
    ensures Mul(alpha, a) <= Mul(alpha, b)
  {
    MulNonNegative(alpha, b - a);
  }

  /** An iteration brings any two vectors closer by the factor alpha. */
  lemma Contraction(m: Mat, alpha: real, p: Vec, x: Vec, y: Vec)
    requires Stochastic(m) && |p| == |x| == |y| == |m| && alpha >= 0.0
    ensures Dist(Damped(m, alpha, p, x), Damped(m, alpha, p, y)) <= Mul(alpha, Dist(x, y))
  {
    hide Mul, Norm, VecMat, Stochastic;
    var d := Sub(x, y);
    VecMatLinear(x, y, m);
    var z := VecMat(d, m);
    forall j | 0 <= j < |m|
      ensures Sub(Damped(m, alpha, p, x), Damped(m, alpha, p, y))[j] == Mul(alpha, z[j])
    {
      MulDistribute(VecMat(x, m)[j], VecMat(y, m)[j], alpha);
    }
    ScaledNorm(Sub(Damped(m, alpha, p, x), Damped(m, alpha, p, y)), z, alpha);
    NonExpansive(d, m);
    MulMonotone(alpha, Norm(z), Norm(d));
  }

  /** Probability vectors stay probability vectors. */
  lemma DampedProbability(m: Mat, alpha: real, p: Vec, x: Vec)
    requires Stochastic(m) && |p| == |x| == |m| && 0.0 <= alpha <= 1.0
    requires Probability(p) && Probability(x)
    ensures Probability(Damped(m, alpha, p, x))
  {
    hide Mul, VecMat, Stochastic;
    ProbabilityKept(x, m);
    var z, y, n := VecMat(x, m), Damped(m, alpha, p, x), |m|;
    var f, g := Times(alpha, Of(z)), Times(1.0 - alpha, Of(p));
    forall j | 0 <= j < n
      ensures y[j] >= 0.0 && Of(y)(j) == Plus(f, g)(j)
    {
      MulMonotone(alpha, 0.0, z[j]);
      MulMonotone(1.0 - alpha, 0.0, p[j]);
      MulZero(alpha);
      MulZero(1.0 - alpha);
    }
    SumSame(n, Of(y), Plus(f, g));
    SumPlus(n, f, g);
    SumTimes(n, alpha, Of(z));
    SumTimes(n, 1.0 - alpha, Of(p));
    MulOne(alpha);
    MulOne(1.0 - alpha);
  }

  lemma {:induction false} IterateProbability(m: Mat, alpha: real, p: Vec, t: nat)
    requires Stochastic(m) && |p| == |m| > 0 && 0.0 <= alpha <= 1.0 && Probability(p)
    ensures Probability(Iterate(m, alpha, p, t))
  {
    hide Probability, Stochastic, Damped;
    if t == 0 {
      UniformProbability(|m|);
    } else {
      IterateProbability(m, alpha, p, t - 1);
      DampedProbability(m, alpha, p, Iterate(m, alpha, p, t - 1));
    }
  }

  /** Successive differences shrink at least geometrically. */
  lemma {:induction false} GapShrinks(m: Mat, alpha: real, p: Vec, t: nat)
    requires Stochastic(m) && |p| == |m| && alpha >= 0.0
    ensures t > 0 ==> Gap(m, alpha, p, t) <= Mul(alpha, Gap(m, alpha, p, t - 1))
    ensures Gap(m, alpha, p, t) <= Mul(Power(alpha, t), Gap(m, alpha, p, 0))
  {
    hide Stochastic, Dist, Damped;
    var first := Gap(m, alpha, p, 0);
    if t == 0 {
      MulCommutes(1.0, first);
      MulOne(first);
    } else {
      hide Mul;
      Contraction(m, alpha, p, Iterate(m, alpha, p, t), Iterate(m, alpha, p, t - 1));
      GapShrinks(m, alpha, p, t - 1);
      MulMonotone(alpha, Gap(m, alpha, p, t - 1), Mul(Power(alpha, t - 1), first));
      MulRotate(alpha, Power(alpha, t - 1), first);
    }
  }

  /** A bound on every difference that does not mention the graph. */
  lemma GapBound(m: Mat, alpha: real, p: Vec, t: nat)
    requires Stochastic(m) && |p| == |m| > 0 && 0.0 <= alpha <= 1.0 && Probability(p)
    ensures Gap(m, alpha, p, t) <= 2.0 * Power(alpha, t)
  {
    hide Stochastic, Dist, Probability, Iterate, Damped;
    GapShrinks(m, alpha, p, t);
    IterateProbability(m, alpha, p, 0);
    IterateProbability(m, alpha, p, 1);
    ProbabilityDist(Iterate(m, alpha, p, 1), Iterate(m, alpha, p, 0));
    PowerNonNegative(alpha, t);
    MulMonotone(Power(alpha, t), Gap(m, alpha, p, 0), 2.0);
  }

  lemma {:induction false} PowerNonNegative(a: real, t: nat)
    requires a >= 0.0
    ensures Power(a, t) >= 0.0
  {
    if t > 0 {
      PowerNonNegative(a, t - 1);
      MulNonNegative(a, Power(a, t - 1));
    }
  }

  // ---------------------------------------------------------------- the fixed point

  ghost predicate Fixed(m: Mat, alpha: real, p: Vec, x: Vec)
    requires |p| == |m|
  {
    |x| == |m| && Damped(m, alpha, p, x) == x
  }

  /** There is at most one fixed point. */
  lemma FixedUnique(m: Mat, alpha: real, p: Vec, x: Vec, y: Vec)
    requires Stochastic(m) && |p| == |m| && 0.0 <= alpha < 1.0
    requires Fixed(m, alpha, p, x) && Fixed(m, alpha, p, y)
    ensures x == y
  {
    hide Damped, Norm;
    Contraction(m, alpha, p, x, y);
    var d := Dist(x, y);
    assert d - Mul(alpha, d) == (1.0 - alpha) * d;
    MulOrder(d, 0.0, 1.0 - alpha);
    ZeroDist(x, y);
  }

  /** There is a fixed point, whatever the graph; it is a probability vector if the jump is. */
  lemma FixedExists(m: Mat, alpha: real, p: Vec) returns (x: Vec)
    requires Stochastic(m) && |p| == |m| && 0.0 <= alpha < 1.0
    ensures Fixed(m, alpha, p, x)
    ensures Probability(p) ==> Probability(x)
  {
    hide Mul, Stochastic, Probability, SumTo;
    var n, a, b := |m|, Links(m, alpha), Times(1.0 - alpha, Of(p));
    LinksContracting(m, alpha);
    var f := Solution(n, a, b, alpha);
    x := seq(n, i => f(i));
    forall j | 0 <= j < n
      ensures Damped(m, alpha, p, x)[j] == x[j]
    {
      LinksInflow(m, alpha, f, x, j);
    }
    if Probability(p) {
      JumpNonNegative(p, alpha);
      FixedTotal(m, alpha, p, x);
      ProbabilityIs(x);
    }
  }

  /** The coefficients of the fixed-point system. */
  function Links(m: Mat, alpha: real): (a: Coefficients)
    ensures forall i, j :: a(i, j) == Mul(alpha, Entry(m, i, j))
  {
    (i, j) => Mul(alpha, Entry(m, i, j))
  }

  lemma LinksContracting(m: Mat, alpha: real)
    requires Stochastic(m) && alpha >= 0.0
    ensures Contracting(|m|, Links(m, alpha), alpha)
  {
    forall i, j | 0 <= i < |m| && 0 <= j < |m|
      ensures Links(m, alpha)(i, j) >= 0.0
    {
      EntryNonNegative(m, i, j);
      MulNonNegative(alpha, Entry(m, i, j));
    }
    hide Mul;
    forall i | 0 <= i < |m|
      ensures SumTo(|m|, Row(Links(m, alpha), i)) <= alpha
    {
      RowSumOne(m, i, alpha, Row(Links(m, alpha), i));
    }
  }

  lemma LinksInflow(m: Mat, alpha: real, f: int -> real, x: Vec, j: int)
    requires |x| == |m| && forall i :: 0 <= i < |m| ==> f(i) == x[i]
    ensures SumTo(|m|, Inflow(Links(m, alpha), f, j)) == Mul(alpha, Product(x, m, j))
  {
    hide Mul;
    forall i | 0 <= i < |m|
      ensures Inflow(Links(m, alpha), f, j)(i) == Times(alpha, Term(x, m, j))(i)
    {
      MulRotate(f(i), alpha, Entry(m, i, j));
    }
    SumSame(|m|, Inflow(Links(m, alpha), f, j), Times(alpha, Term(x, m, j)));
    SumTimes(|m|, alpha, Term(x, m, j));
  }

  lemma JumpNonNegative(p: Vec, alpha: real)
    requires Probability(p) && alpha < 1.0
    ensures Elimination.NonNegative(|p|, Times(1.0 - alpha, Of(p)))
  {
    forall j | 0 <= j < |p|
      ensures Mul(1.0 - alpha, p[j]) >= 0.0
    {
      MulNonNegative(1.0 - alpha, p[j]);
    }
  }

  lemma ProbabilityIs(x: Vec)
    requires (forall i :: 0 <= i < |x| ==> x[i] >= 0.0) && SumTo(|x|, Of(x)) == 1.0
    ensures Probability(x)
  {
  }

  lemma DampedAt(m: Mat, alpha: real, p: Vec, x: Vec, j: int)
    requires |p| == |m| && 0 <= j < |m|
    ensures Damped(m, alpha, p, x)[j] == Mul(alpha, VecMat(x, m)[j]) + Mul(1.0 - alpha, p[j])
  {
  }

  /** A fixed point distributes exactly what the jump distributes. */
  lemma FixedTotal(m: Mat, alpha: real, p: Vec, x: Vec)
    requires Stochastic(m) && |p| == |m| && alpha < 1.0
    requires Fixed(m, alpha, p, x) && Probability(p)
    ensures SumTo(|x|, Of(x)) == 1.0
  {
    hide Mul, Stochastic, VecMat, SumTo, Damped;
    var n, z := |m|, VecMat(x, m);
    var f, g := Times(alpha, Of(z)), Times(1.0 - alpha, Of(p));
    TotalKept(x, m);
    forall j | 0 <= j < n
      ensures Of(x)(j) == Plus(f, g)(j)
    {
      DampedAt(m, alpha, p, x, j);
    }
    SumSame(n, Of(x), Plus(f, g));
    SumPlus(n, f, g);
    SumTimes(n, alpha, Of(z));
    SumTimes(n, 1.0 - alpha, Of(p));
    MulOne(1.0 - alpha);
    Cancelled(alpha, SumTo(n, Of(x)));
  }

  lemma Cancelled(alpha: real, s: real)
    requires alpha < 1.0 && s == Mul(alpha, s) + (1.0 - alpha)
    ensures s == 1.0
  {
    assert (s - 1.0) * (1.0 - alpha) == 0.0;
    SignOfProduct(s - 1.0, 1.0 - alpha);
  }

  /** Stopping when an iteration moves by less than tol leaves the result within
      alpha / (1 - alpha) * tol of the fixed point. */
  lemma StopsNearFixed(m: Mat, alpha: real, p: Vec, x: Vec, tol: real) returns (fixed: Vec)
    requires Stochastic(m) && |p| == |x| == |m| && 0.0 <= alpha < 1.0
    requires Dist(Damped(m, alpha, p, x), x) < tol
    ensures Fixed(m, alpha, p, fixed) && forall y :: Fixed(m, alpha, p, y) ==> y == fixed
    ensures Probability(p) ==> Probability(fixed)
    ensures (1.0 - alpha) * Dist(Damped(m, alpha, p, x), fixed) <= alpha * tol
  {
    hide Damped, Norm, Probability;
    fixed := FixedExists(m, alpha, p);
    forall y | Fixed(m, alpha, p, y)
      ensures y == fixed
    {
      FixedUnique(m, alpha, p, y, fixed);
    }
    var y := Damped(m, alpha, p, x);
    Contraction(m, alpha, p, x, fixed);
    Triangle(x, y, fixed);
    DistSymmetric(x, y);
    MulMonotone(alpha, Dist(x, fixed), tol + Dist(y, fixed));
    MulDistribute(tol, Dist(y, fixed), alpha);
  }

  /** The vector reached from x by t further iterations. */
  function Onward(m: Mat, alpha: real, p: Vec, x: Vec, t: nat): (y: Vec)
    requires |p| == |x| == |m|
    ensures |y| == |m|
  {
    if t == 0 then x else Damped(m, alpha, p, Onward(m, alpha, p, x, t - 1))
  }

  /** The same bound for all later iterates: no number of further iterations
      would move the result by more. */
  lemma {:induction false} StopsForGood(m: Mat, alpha: real, p: Vec, x: Vec, tol: real, t: nat)
    requires Stochastic(m) && |p| == |x| == |m| && 0.0 <= alpha < 1.0
    requires Dist(Damped(m, alpha, p, x), x) < tol
    ensures (1.0 - alpha) * Dist(Onward(m, alpha, p, Damped(m, alpha, p, x), t), Damped(m, alpha, p, x)) <= alpha * tol
  {
    hide Damped, Norm, Stochastic;
    var y := Damped(m, alpha, p, x);
    if t == 0 {
      DistSelf(y);
      NormNonNegative(Sub(y, x));
      MulNonNegative(alpha, tol);
    } else {
      var z := Onward(m, alpha, p, y, t - 1);
      StopsForGood(m, alpha, p, x, tol, t - 1);
      Contraction(m, alpha, p, z, y);
      Contraction(m, alpha, p, y, x);
      Triangle(Damped(m, alpha, p, z), Damped(m, alpha, p, y), y);
      MulMonotone(alpha, Dist(y, x), tol);
      OnwardArithmetic(alpha, Dist(Damped(m, alpha, p, z), y), Dist(z, y), tol);
    }
  }

  lemma OnwardArithmetic(alpha: real, e': real, e: real, tol: real)
    requires 0.0 <= alpha < 1.0 && e' <= Mul(alpha, e) + Mul(alpha, tol)
    requires (1.0 - alpha) * e <= alpha * tol
    ensures (1.0 - alpha) * e' <= alpha * tol
  {
    var b := 1.0 - alpha;
    MulMonotone(b, e', alpha * e + alpha * tol);
    assert b * (alpha * e + alpha * tol) == alpha * (b * e) + b * (alpha * tol);
    MulMonotone(alpha, b * e, alpha * tol);
    assert alpha * (alpha * tol) + b * (alpha * tol) == alpha * tol;
  }

  lemma DistSelf(x: Vec)
    ensures Dist(x, x) == 0.0
  {
    SumSame(|x|, AbsOf(Of(Sub(x, x))), _ => 0.0);
    SumConstant(|x|, 0.0);
  }

  // ---------------------------------------------------------------- the program's constants

  lemma PowerProduct(a: real, s: nat, t: nat, b: real, c: real)
    requires a >= 0.0 && Power(a, s) <= b && Power(a, t) <= c
    ensures Power(a, s + t) <= b * c
  {
    PowerAdd(a, s, t);
    PowerNonNegative(a, s);
    PowerNonNegative(a, t);
    MulMonotone(Power(a, s), Power(a, t), c);
    MulCommutes(Power(a, s), c);
    MulMonotone(c, Power(a, s), b);
    MulCommutes(c, b);
  }

  /** The last of 100 iterations moves by less than the tolerance, whatever the graph. */
  lemma DefaultsConverge()
    ensures 2.0 * Power(DEFAULT_ALPHA, DEFAULT_MAX_ITER - 1) < DEFAULT_TOL
  {
    hide Power;
    var a := DEFAULT_ALPHA;
    PowerOne(a);
    PowerProduct(a, 1, 1, 0.85, 0.85);
    PowerProduct(a, 2, 1, 0.7225, 0.85);
    PowerProduct(a, 2, 2, 0.7225, 0.7225);
    PowerProduct(a, 4, 4, 0.5221, 0.5221);
    PowerProduct(a, 8, 8, 0.2726, 0.2726);
    PowerProduct(a, 16, 16, 0.0744, 0.0744);
    PowerProduct(a, 32, 32, 0.00554, 0.00554);
    PowerProduct(a, 64, 32, 0.0000308, 0.00554);
    PowerProduct(a, 96, 3, 0.000000171, 0.6142);
  }

  // ---------------------------------------------------------------- the algorithm

  /** The jump vector: the personalization scaled to 1, uniform if it has no positive total. */
  function Jump(n: nat, personalization: Option<Vec>): (p: Vec)
    requires personalization.Some? ==> |personalization.value| == n
    ensures |p| == n
  {
    if personalization.None? || SumTo(n, Of(personalization.value)) <= 0.0 then Uniform(n)
    else seq(n, i requires 0 <= i < n => personalization.value[i] / SumTo(n, Of(personalization.value)))
  }

  /** Without negative preferences the jump vector is a probability vector. */
  lemma JumpProbability(n: nat, personalization: Option<Vec>)
    requires n > 0
    requires personalization.Some? ==> |personalization.value| == n
    requires personalization.Some? ==> forall i :: 0 <= i < n ==> personalization.value[i] >= 0.0
    ensures Probability(Jump(n, personalization))
  {
    if personalization.None? || SumTo(n, Of(personalization.value)) <= 0.0 {
      UniformProbability(n);
    } else {
      var v := personalization.value;
      var t := SumTo(n, Of(v));
      var f := Of(Jump(n, personalization));
      forall i | 0 <= i < n
        ensures f(i) >= 0.0 && f(i) == Times(1.0 / t, Of(v))(i)
      {
        NonNegativeQuotient(v[i], t);
        DivideByMul(v[i], t);
      }
      SumSame(n, f, Times(1.0 / t, Of(v)));
      SumTimes(n, 1.0 / t, Of(v));
      DivideByMul(t, t);
      SelfQuotient(t);
    }
  }

  /** What the jump vector is: equal shares without preferences or without a positive total of
      them, else each preference's share of the total. */
  ghost predicate IsJump(p: Vec, personalization: Option<Vec>) {
    match personalization
    case None => EqualShares(p)
    case Some(v) =>
      |p| == |v| && if Sum(v) <= 0.0 then EqualShares(p) else forall i :: 0 <= i < |p| ==> p[i] * Sum(v) == v[i]
  }

  lemma JumpIs(n: nat, personalization: Option<Vec>)
    requires personalization.Some? ==> |personalization.value| == n
    ensures IsJump(Jump(n, personalization), personalization)
  {
    hide Sum, SumTo, Uniform, EqualShares;
    UniformShares(n);
    if personalization.Some? {
      var v := personalization.value;
      SumIs(v);
      if Sum(v) > 0.0 {
        forall i | 0 <= i < n
          ensures Jump(n, personalization)[i] * Sum(v) == v[i]
        {
          Quotient(v[i], Sum(v));
        }
      }
    }
  }

  /** One iteration, node by node: y[j] = alpha * (x[0] * m[0][j] + ...) + (1 - alpha) * p[j]. */
  ghost predicate Steps(m: Mat, alpha: real, p: Vec, x: Vec, y: Vec) {
    |x| == |y| == |p| && forall j :: 0 <= j < |y| ==> y[j] == alpha * Arriving(x, m, j) + (1.0 - alpha) * p[j]
  }

  lemma DampedSteps(m: Mat, alpha: real, p: Vec, x: Vec)
    requires |p| == |x| == |m|
    ensures Steps(m, alpha, p, x, Damped(m, alpha, p, x))
  {
    hide VecMat;
    ProductArrives(x, m);
    forall j | 0 <= j < |m|
      ensures Damped(m, alpha, p, x)[j] == alpha * Arriving(x, m, j) + (1.0 - alpha) * p[j]
    {
      DampedAt(m, alpha, p, x, j);
    }
  }

  /** A run of the iteration: it starts from equal shares and makes at most maxIter steps, until
      one of them moves by less than tol. */
  ghost predicate PowerRun(m: Mat, alpha: real, p: Vec, maxIter: int, tol: real, trace: seq<Vec>, settled: bool) {
    && trace != [] && |trace[0]| == |m| && EqualShares(trace[0])
    && (forall t :: 0 <= t < |trace| - 1 ==> Steps(m, alpha, p, trace[t], trace[t + 1]))
    && (forall t :: 0 <= t < |trace| - 1 ==> |trace[t]| == |trace[t + 1]|)
    && (forall t :: 0 <= t < |trace| - 1 ==> (Travel(trace[t + 1], trace[t]) < tol <==> settled && t == |trace| - 2))
    && (settled ==> 2 <= |trace| <= maxIter + 1)
    && (!settled ==> |trace| == if maxIter < 0 then 1 else maxIter + 1)
  }

  lemma IterateStarts(m: Mat, alpha: real, p: Vec)
    requires |p| == |m|
    ensures EqualShares(Iterate(m, alpha, p, 0))
  {
    UniformShares(|m|);
  }

  lemma IterateSteps(m: Mat, alpha: real, p: Vec, t: nat)
    requires |p| == |m|
    ensures Steps(m, alpha, p, Iterate(m, alpha, p, t), Iterate(m, alpha, p, t + 1))
    ensures Gap(m, alpha, p, t) == Travel(Iterate(m, alpha, p, t + 1), Iterate(m, alpha, p, t))
  {
    hide Damped, Dist, Steps;
    IterateStep(m, alpha, p, t);
    DampedSteps(m, alpha, p, Iterate(m, alpha, p, t));
    DistIsTravel(Iterate(m, alpha, p, t + 1), Iterate(m, alpha, p, t));
  }

  /** The iterates up to the last one computed are such a run. */
  lemma IteratesRun(m: Mat, alpha: real, p: Vec, maxIter: int, tol: real, steps: nat, settled: bool) returns (trace: seq<Vec>)
    requires |p| == |m|
    requires settled ==> 0 < steps <= maxIter && Gap(m, alpha, p, steps - 1) < tol
    requires !settled ==> steps == if maxIter < 0 then 0 else maxIter
    requires forall t: nat :: t < (if settled then steps - 1 else steps) ==> Gap(m, alpha, p, t) >= tol
    ensures PowerRun(m, alpha, p, maxIter, tol, trace, settled)
    ensures |trace| == steps + 1 && trace[steps] == Iterate(m, alpha, p, steps)
  {
    hide Iterate, Gap, Steps, EqualShares;
    trace := seq(steps + 1, t requires 0 <= t => Iterate(m, alpha, p, t));
    IterateStarts(m, alpha, p);
    forall t | 0 <= t < |trace| - 1
      ensures Steps(m, alpha, p, trace[t], trace[t + 1])
      ensures |trace[t]| == |trace[t + 1]| && Travel(trace[t + 1], trace[t]) == Gap(m, alpha, p, t)
    {
      IterateSteps(m, alpha, p, t);
    }
  }

  /** Power iteration. It returns the first iterate that moved by less than tol, or the last
      one it is allowed to compute. */
  method PowerIteration(g: Graph, alpha: real, maxIter: int, tol: real, personalization: Option<Vec>)
    returns (x: Vec, ghost steps: nat, ghost settled: bool, ghost trace: seq<Vec>)
    requires Weighted(g)
    requires personalization.Some? ==> |personalization.value| == |g|
    ensures |x| == |g|
    ensures |g| > 0 ==> exists p :: IsJump(p, personalization)
                                    && PowerRun(Transition(g), alpha, p, maxIter, tol, trace, settled)
    ensures |g| > 0 ==> trace != [] && x == trace[|trace| - 1]
    ensures |g| > 0 ==> x == Iterate(Transition(g), alpha, Jump(|g|, personalization), steps)
    ensures |g| > 0 && settled ==> 0 < steps <= maxIter && Gap(Transition(g), alpha, Jump(|g|, personalization), steps - 1) < tol
    ensures |g| > 0 && settled ==> forall t: nat :: t < steps - 1 ==> Gap(Transition(g), alpha, Jump(|g|, personalization), t) >= tol
    ensures |g| > 0 && !settled ==> steps == (if maxIter < 0 then 0 else maxIter)
    ensures |g| > 0 && !settled ==> forall t: nat :: t < steps ==> Gap(Transition(g), alpha, Jump(|g|, personalization), t) >= tol
  {
    hide Transition, Jump, Dist, Damped, PowerRun, IsJump;
    steps, settled, trace := 0, false, [];
    if |g| == 0 {
      return [], 0, false, [];
    }
    var m := BuildMatrix(g, false);
    var p := Jump(|g|, personalization);
    x := Uniform(|g|);
    var i := 0;
    while i < maxIter
      invariant 0 <= i && (i <= maxIter || i == 0) && steps == i && !settled
      invariant x == Iterate(m, alpha, p, i)
      invariant forall t: nat :: t < i ==> Gap(m, alpha, p, t) >= tol
    {
      var next := Damped(m, alpha, p, x);
      assert next == Iterate(m, alpha, p, i + 1);
      steps := i + 1;
      if Dist(next, x) < tol {
        x := next;
        settled := true;
        break;
      }
      x := next;
      i := i + 1;
    }
    JumpIs(|g|, personalization);
    trace := IteratesRun(m, alpha, p, maxIter, tol, steps, settled);
  }

  /** With its own constants the iteration always leaves by the tolerance test, on every graph
      and for every personalization without negative entries; the result is a probability
      vector within alpha / (1 - alpha) * tol of the one fixed point, which is the PageRank. */
  method PageRankDefaults(g: Graph, personalization: Option<Vec>) returns (x: Vec, ghost fixed: Vec)
    requires PositivelyWeighted(g) && |g| > 0
    requires personalization.Some? ==> |personalization.value| == |g|
    requires personalization.Some? ==> forall i :: 0 <= i < |g| ==> personalization.value[i] >= 0.0
    ensures |x| == |g| && Probability(x)
    ensures exists t: nat :: t < 100
                             && x == Iterate(Transition(g), DEFAULT_ALPHA, Jump(|g|, personalization), t + 1)
                             && Gap(Transition(g), DEFAULT_ALPHA, Jump(|g|, personalization), t) < DEFAULT_TOL
    ensures |Transition(g)| == |g| && Fixed(Transition(g), DEFAULT_ALPHA, Jump(|g|, personalization), fixed)
    ensures forall y :: Fixed(Transition(g), DEFAULT_ALPHA, Jump(|g|, personalization), y) ==> y == fixed
    ensures Probability(fixed) && 0.15 * Dist(x, fixed) <= 0.85 * DEFAULT_TOL
    ensures |fixed| == |x| && 0.15 * Travel(x, fixed) <= 0.00000085
    ensures exists p :: IsJump(p, personalization) && Steps(Transition(g), 0.85, p, fixed, fixed)
  {
    ghost var steps, settled, trace;
    x, steps, settled, trace := PowerIteration(g, DEFAULT_ALPHA, DEFAULT_MAX_ITER, DEFAULT_TOL, personalization);
    ghost var m, p := Transition(g), Jump(|g|, personalization);
    hide Dist, Damped, Transition, Jump, Probability, Stochastic, Power, Iterate;
    TransitionStochastic(g);
    JumpProbability(|g|, personalization);
    GapBound(m, DEFAULT_ALPHA, p, DEFAULT_MAX_ITER - 1);
    DefaultsConverge();
    assert settled;
    IterateProbability(m, DEFAULT_ALPHA, p, steps);
    ghost var before := Iterate(m, DEFAULT_ALPHA, p, steps - 1);
    IterateStep(m, DEFAULT_ALPHA, p, steps - 1);
    fixed := StopsNearFixed(m, DEFAULT_ALPHA, p, before, DEFAULT_TOL);
    DistIsTravel(x, fixed);
    JumpIs(|g|, personalization);
    DampedSteps(m, DEFAULT_ALPHA, p, fixed);
  }

  lemma IterateStep(m: Mat, alpha: real, p: Vec, t: nat)
    requires |p| == |m|
    ensures Iterate(m, alpha, p, t + 1) == Damped(m, alpha, p, Iterate(m, alpha, p, t))
  {
  }
}
