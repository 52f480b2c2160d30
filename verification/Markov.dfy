/** The stationary distribution of the random walk: linkanalysis/markov.py. */
module Markov {
  import opened Vectors
  import opened Options
  import opened Transitions

  /** The distribution after t steps from the uniform one. */
  function Walk(m: Mat, t: nat): (x: Vec)
    ensures |x| == |m|
  {
    if t == 0 then Uniform(|m|) else VecMat(Walk(m, t - 1), m)
  }

  /** How far the step after t moves. */
  function Moved(m: Mat, t: nat): real {
    Dist(Walk(m, t + 1), Walk(m, t))
  }

  /** Each of the first n steps moves by at least tol. */
  ghost predicate MovesFor(m: Mat, n: int, tol: real) {
    forall t: nat :: t < n ==> Moved(m, t) >= tol
  }

  lemma {:induction false} WalkProbability(m: Mat, t: nat)
    requires Stochastic(m) && |m| > 0
    ensures Probability(Walk(m, t))
  {
    hide Probability, Stochastic, VecMat;
    if t == 0 {
      UniformProbability(|m|);
    } else {
      WalkProbability(m, t - 1);
      ProbabilityKept(Walk(m, t - 1), m);
    }
  }

  /** A walk never speeds up: what one step moves, the next one moves by no more. */
  lemma ResidualShrinks(m: Mat, x: Vec)
    requires Stochastic(m) && |x| == |m|
    ensures Dist(VecMat(VecMat(x, m), m), VecMat(x, m)) <= Dist(VecMat(x, m), x)
  {
    hide Norm, VecMat, Stochastic;
    VecMatLinear(VecMat(x, m), x, m);
    NonExpansive(Sub(VecMat(x, m), x), m);
  }

  /** At every node, what arrives differs from what is there by less than tol. */
  ghost predicate Balanced(m: Mat, x: Vec, tol: real) {
    forall j :: 0 <= j < |x| ==> -tol < Arriving(x, m, j) - x[j] < tol
  }

  /** One step of the walk, from y to x, which moves by less than tol. */
  ghost predicate LastStep(m: Mat, y: Vec, x: Vec, tol: real) {
    |y| == |x| && Travel(x, y) < tol && forall j :: 0 <= j < |x| ==> x[j] == Arriving(y, m, j)
  }

  lemma SlowIsBalanced(m: Mat, x: Vec, tol: real)
    requires |x| == |m| && Dist(VecMat(x, m), x) < tol
    ensures Balanced(m, x, tol)
  {
    hide VecMat, Dist;
    var y := VecMat(x, m);
    ProductArrives(x, m);
    DistIsTravel(y, x);
    forall j | 0 <= j < |x|
      ensures -tol < Arriving(x, m, j) - x[j] < tol
    {
      EntryTravel(y, x, j);
    }
  }

  lemma IsLastStep(m: Mat, y: Vec, tol: real)
    requires |y| == |m| && Dist(VecMat(y, m), y) < tol
    ensures LastStep(m, y, VecMat(y, m), tol)
  {
    hide VecMat, Dist;
    ProductArrives(y, m);
    DistIsTravel(VecMat(y, m), y);
  }

  /** The shares of the weights; row-stochastic on every positively weighted graph, also at
      nodes without out-edges. */
  method BuildMarkovMatrix(g: Graph) returns (m: Mat)
    requires Weighted(g)
    ensures |m| == |g| && m == Transition(g)
    ensures PositivelyWeighted(g) ==> Stochastic(m)
    ensures forall u, v :: 0 <= u < |g| && 0 <= v < |g| ==>
              m[u][v] == if g[u] == [] then 1.0 / |g| as real else WeightTo(g[u], v) / Total(g[u])
  {
    m := BuildMatrix(g, true);
    if PositivelyWeighted(g) {
      TransitionStochastic(g);
    }
    forall u, v | 0 <= u < |g| && 0 <= v < |g|
      ensures m[u][v] == if g[u] == [] then 1.0 / |g| as real else WeightTo(g[u], v) / Total(g[u])
    {
      assert OutEdges(g[u], |g|);
      assert m[u][v] == Move(g, u, v);
    }
  }

  /** A result is the distribution after the first step that moved by less than tol; on a
      positively weighted graph it is a probability vector that the next step moves by less than
      tol, too. Without a result, none of the allowed steps moved by less than tol. */
  method StationaryDistribution(g: Graph, maxIter: int, tol: real) returns (r: Option<Vec>)
    requires Weighted(g)
    ensures r.Some? ==> |r.value| == |g| > 0
    ensures r.Some? && PositivelyWeighted(g) ==>
              Probability(r.value) && |Transition(g)| == |g| && Dist(VecMat(r.value, Transition(g)), r.value) < tol
    ensures r.Some? ==> exists t: nat :: t < maxIter && r.value == Walk(Transition(g), t + 1)
                                         && Moved(Transition(g), t) < tol && MovesFor(Transition(g), t, tol)
    ensures r.None? && |g| > 0 ==> MovesFor(Transition(g), maxIter, tol)
    ensures r.Some? && PositivelyWeighted(g) ==>
              Balanced(Transition(g), r.value, tol)
    ensures r.Some? ==> exists y: Vec :: LastStep(Transition(g), y, r.value, tol)
  {
    hide Transition, VecMat, Dist, Probability, Stochastic, Balanced, LastStep;
    var m := BuildMarkovMatrix(g);
    if |g| == 0 {
      return None;
    }
    var x := Uniform(|g|);
    var i := 0;
    while i < maxIter
      invariant 0 <= i && x == Walk(m, i)
      invariant MovesFor(m, i, tol)
    {
      var next := VecMat(x, m);
      assert next == Walk(m, i + 1) && Dist(next, x) == Moved(m, i);
      if Dist(next, x) < tol {
        IsLastStep(m, x, tol);
        if PositivelyWeighted(g) {
          WalkProbability(m, i + 1);
          ResidualShrinks(m, x);
          SlowIsBalanced(m, next, tol);
        }
        return Some(next);
      }
      x := next;
      i := i + 1;
    }
    return None;
  }
}
