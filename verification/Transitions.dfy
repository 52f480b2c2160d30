/** The random walk on a weighted directed graph: the matrices of linkanalysis/pagerank.py and
    linkanalysis/markov.py, which build the same one in two ways. */
module Transitions {
  import opened Reals
  import opened Vectors

  /** An out-edge; the weight is the edge's attribute, or 1 where it has none. */
  datatype Edge = Edge(dst: nat, weight: real)

  /** The out-edges of every node; nodes are numbered in the order of the node list. */
  type Graph = seq<seq<Edge>>

  function Total(out: seq<Edge>): real {
    if out == [] then 0.0 else Total(out[..|out| - 1]) + out[|out| - 1].weight
  }

  function WeightTo(out: seq<Edge>, v: int): real {
    if out == [] then 0.0
    else WeightTo(out[..|out| - 1], v) + if out[|out| - 1].dst == v then out[|out| - 1].weight else 0.0
  }

  /** A directed graph without parallel edges whose out-weights do not cancel at any node; the
      program divides by their total. */
  ghost predicate Weighted(g: Graph) {
    forall u :: 0 <= u < |g| ==> OutEdges(g[u], |g|)
  }

  ghost predicate OutEdges(out: seq<Edge>, n: nat) {
    && (forall k :: 0 <= k < |out| ==> out[k].dst < n)
    && (forall k, l :: 0 <= k < l < |out| ==> out[k].dst != out[l].dst)
    && (out != [] ==> Total(out) != 0.0)
  }

  /** Such a graph without negative weights. */
  ghost predicate PositivelyWeighted(g: Graph) {
    Weighted(g) && forall u :: 0 <= u < |g| ==> NonNegative(g[u])
  }

  ghost predicate NonNegative(out: seq<Edge>) {
    forall k :: 0 <= k < |out| ==> out[k].weight >= 0.0
  }

  /** The probability of moving from u to v: in proportion to the weights, uniform from a
      node without out-edges. */
  function Move(g: Graph, u: int, v: int): real
    requires 0 <= u < |g| && (g[u] != [] ==> Total(g[u]) != 0.0)
  {
    if g[u] == [] then 1.0 / |g| as real else WeightTo(g[u], v) / Total(g[u])
  }

  ghost function Transition(g: Graph): (m: Mat)
    requires Weighted(g)
  {
    seq(|g|, u requires 0 <= u < |g| => seq(|g|, v => Move(g, u, v)))
  }

  // ---------------------------------------------------------------- the rows sum to 1

  function WeightsOf(out: seq<Edge>): (f: int -> real)
    ensures forall v :: f(v) == WeightTo(out, v)
  {
    v => WeightTo(out, v)
  }

  lemma {:induction false} SumPoint(n: nat, f: int -> real, g: int -> real, at: int, w: real)
    requires 0 <= at < n && g(at) == f(at) + w
    requires forall i :: 0 <= i < n && i != at ==> g(i) == f(i)
    ensures SumTo(n, g) == SumTo(n, f) + w
  {
    if at == n - 1 {
      SumSame(n - 1, f, g);
    } else {
      SumPoint(n - 1, f, g, at, w);
    }
  }

  lemma {:induction false} WeightsSum(out: seq<Edge>, n: nat)
    requires forall k :: 0 <= k < |out| ==> out[k].dst < n
    ensures SumTo(n, WeightsOf(out)) == Total(out)
  {
    if out == [] {
      SumSame(n, WeightsOf(out), _ => 0.0);
      SumConstant(n, 0.0);
    } else {
      var init, last := out[..|out| - 1], out[|out| - 1];
      WeightsSum(init, n);
      SumPoint(n, WeightsOf(init), WeightsOf(out), last.dst, last.weight);
    }
  }

  lemma {:induction false} WeightNonNegative(out: seq<Edge>, v: int)
    requires NonNegative(out)
    ensures WeightTo(out, v) >= 0.0 && Total(out) >= 0.0
  {
    if out != [] {
      WeightNonNegative(out[..|out| - 1], v);
    }
  }

  lemma {:induction false} NoWeight(out: seq<Edge>, v: int)
    requires forall k :: 0 <= k < |out| ==> out[k].dst != v
    ensures WeightTo(out, v) == 0.0
  {
    if out != [] {
      NoWeight(out[..|out| - 1], v);
    }
  }

  lemma DivideByMul(a: real, t: real)
    requires t != 0.0
    ensures a / t == Mul(1.0 / t, a)
  {
  }

  /** The row of a node with out-edges. */
  lemma SharesSum(out: seq<Edge>, n: nat, row: int -> real)
    requires OutEdges(out, n) && out != []
    requires forall v :: 0 <= v < n ==> row(v) == WeightTo(out, v) / Total(out)
    ensures SumTo(n, row) == 1.0
    ensures NonNegative(out) ==> forall v :: 0 <= v < n ==> row(v) >= 0.0
  {
    var t := Total(out);
    WeightsSum(out, n);
    forall v | 0 <= v < n
      ensures row(v) == Times(1.0 / t, WeightsOf(out))(v) && (NonNegative(out) ==> row(v) >= 0.0)
    {
      DivideByMul(WeightTo(out, v), t);
      if NonNegative(out) {
        WeightNonNegative(out, v);
        NonNegativeQuotient(WeightTo(out, v), t);
      }
    }
    SumSame(n, row, Times(1.0 / t, WeightsOf(out)));
    SumTimes(n, 1.0 / t, WeightsOf(out));
    DivideByMul(t, t);
    SelfQuotient(t);
  }

  /** Every row of the walk on a positively weighted graph is a probability vector. */
  lemma TransitionStochastic(g: Graph)
    requires PositivelyWeighted(g)
    ensures Stochastic(Transition(g)) && |Transition(g)| == |g|
  {
    var n, m := |g|, Transition(g);
    forall u | 0 <= u < n
      ensures Probability(m[u])
    {
      assert OutEdges(g[u], n) && NonNegative(g[u]);
      assert forall v :: 0 <= v < n ==> Of(m[u])(v) == Move(g, u, v);
      if g[u] == [] {
        UniformProbability(n);
        assert m[u] == Uniform(n);
      } else {
        SharesSum(g[u], n, Of(m[u]));
      }
    }
  }

  // ---------------------------------------------------------------- building the matrix in place

  function RowOf(a: array2<real>, i: int): (row: Vec)
    requires 0 <= i < a.Length0
    reads a
    ensures |row| == a.Length1
    ensures forall j :: 0 <= j < a.Length1 ==> row[j] == a[i, j]
  {
    seq(a.Length1, j requires 0 <= j < a.Length1 reads a => a[i, j])
  }

  function RowSum(a: array2<real>, i: int): real
    requires 0 <= i < a.Length0
    reads a
  {
    SumTo(a.Length1, Of(RowOf(a, i)))
  }

  /** Rows that sum to zero become uniform; the others stay. */
  method NormalizeRows(a: array2<real>)
    requires a.Length0 == a.Length1
    modifies a
    ensures forall i :: 0 <= i < a.Length0 ==>
              RowOf(a, i) == if old(RowSum(a, i)) == 0.0 then Uniform(a.Length1) else old(RowOf(a, i))
  {
    var n := a.Length0;
    ghost var rows := seq(n, i requires 0 <= i < n reads a => RowOf(a, i));
    var dangling := set i | 0 <= i < n && RowSum(a, i) == 0.0;
    forall i, j | 0 <= i < n && 0 <= j < n && i in dangling {
      a[i, j] := 1.0 / n as real;
    }
    forall i | 0 <= i < n
      ensures RowOf(a, i) == if old(RowSum(a, i)) == 0.0 then Uniform(n) else old(RowOf(a, i))
    {
      assert rows[i] == old(RowOf(a, i));
      if i in dangling {
        assert RowOf(a, i) == Uniform(n);
      } else {
        assert forall j :: 0 <= j < n ==> a[i, j] == old(a[i, j]);
        assert RowOf(a, i) == rows[i];
      }
    }
  }

  /** The contents of a square array as a matrix value. */
  function Contents(a: array2<real>): (m: Mat)
    reads a
    ensures |m| == a.Length0 && forall i :: 0 <= i < |m| ==> m[i] == RowOf(a, i)
  {
    seq(a.Length0, i requires 0 <= i < a.Length0 reads a => RowOf(a, i))
  }

  /** The row an edge list leaves behind before rows are normalized. */
  function Shares(out: seq<Edge>, total: real, n: nat): (row: Vec)
    requires out != [] ==> total != 0.0
    ensures |row| == n
  {
    seq(n, v => if out == [] then 0.0 else WeightTo(out, v) / total)
  }

  lemma SharesStep(out: seq<Edge>, k: nat, total: real, n: nat)
    requires k < |out| && total != 0.0 && out[k].dst < n
    ensures Shares(out[..k + 1], total, n) ==
              Shares(out[..k], total, n)[out[k].dst := Shares(out[..k], total, n)[out[k].dst] + out[k].weight / total]
    ensures (forall l :: 0 <= l < k ==> out[l].dst != out[k].dst) ==> Shares(out[..k], total, n)[out[k].dst] == 0.0
  {
    var init, e := out[..k], out[k];
    assert out[..k + 1] == init + [e] && (init + [e])[..k] == init;
    forall v | 0 <= v < n
      ensures Shares(init, total, n)[v] == WeightTo(init, v) / total
    {
    }
    DivideSum(WeightTo(init, e.dst), e.weight, total);
    if forall l :: 0 <= l < k ==> out[l].dst != e.dst {
      NoWeight(init, e.dst);
    }
  }

  lemma DivideSum(a: real, b: real, t: real)
    requires t != 0.0
    ensures (a + b) / t == a / t + b / t
  {
  }

  /** Fills the row of node u, either adding each share to its entry or storing it there: a
      graph without parallel edges makes no difference between the two. */
  method FillRow(a: array2<real>, u: nat, out: seq<Edge>, accumulate: bool)
    requires u < a.Length0 && OutEdges(out, a.Length1)
    requires RowOf(a, u) == Shares([], 1.0, a.Length1)
    modifies a
    ensures RowOf(a, u) == Shares(out, Total(out), a.Length1)
    ensures forall r :: 0 <= r < a.Length0 && r != u ==> RowOf(a, r) == old(RowOf(a, r))
  {
    if out == [] {
      return;
    }
    var n, total := a.Length1, Total(out);
    assert out[..0] == [];
    var k := 0;
    while k < |out|
      invariant k <= |out|
      invariant RowOf(a, u) == Shares(out[..k], total, n)
      invariant forall r, j :: 0 <= r < a.Length0 && 0 <= j < n && r != u ==> a[r, j] == old(a[r, j])
    {
      SharesStep(out, k, total, n);
      ghost var before := RowOf(a, u);
      var e := out[k];
      if accumulate {
        a[u, e.dst] := a[u, e.dst] + e.weight / total;
      } else {
        a[u, e.dst] := e.weight / total;
      }
      assert RowOf(a, u) == before[e.dst := before[e.dst] + e.weight / total];
      k := k + 1;
    }
    assert out[..|out|] == out;
    forall r | 0 <= r < a.Length0 && r != u
      ensures RowOf(a, r) == old(RowOf(a, r))
    {
      assert forall j :: 0 <= j < n ==> old(RowOf(a, r))[j] == RowOf(a, r)[j];
    }
  }

  /** The transition matrix, filled edge by edge and then patched at the dangling rows. */
  method BuildMatrix(g: Graph, accumulate: bool) returns (m: Mat)
    requires Weighted(g)
    ensures |m| == |g| && m == Transition(g)
  {
    hide Shares, Move;
    var n := |g|;
    var a := new real[n, n]((i, j) => 0.0);
    var u := 0;
    ZeroRow(n);
    while u < n
      invariant 0 <= u <= n
      invariant forall r :: 0 <= r < u ==> RowOf(a, r) == Shares(g[r], Total(g[r]), n)
      invariant forall r :: u <= r < n ==> RowOf(a, r) == Shares([], 1.0, n)
    {
      FillRow(a, u, g[u], accumulate);
      u := u + 1;
    }
    ghost var rows := Contents(a);
    NormalizeRows(a);
    m := Contents(a);
    forall i | 0 <= i < n
      ensures m[i] == Transition(g)[i]
    {
      PatchedRow(g, i, rows[i]);
    }
  }

  lemma ZeroRow(n: nat)
    ensures Shares([], 1.0, n) == seq(n, _ => 0.0)
  {
  }

  lemma PatchedRow(g: Graph, i: nat, row: Vec)
    requires Weighted(g) && i < |g| && row == Shares(g[i], Total(g[i]), |g|)
    ensures Transition(g)[i] == if SumTo(|g|, Of(row)) == 0.0 then Uniform(|g|) else row
  {
    hide *;
    TransitionRow(g, i);
    if g[i] == [] {
      NoShares(Total(g[i]), |g|);
    } else {
      SomeShares(g[i], |g|);
    }
  }

  lemma TransitionRow(g: Graph, i: nat)
    requires Weighted(g) && i < |g|
    ensures OutEdges(g[i], |g|)
    ensures g[i] == [] ==> Transition(g)[i] == Uniform(|g|)
    ensures g[i] != [] ==> Total(g[i]) != 0.0 && Transition(g)[i] == Shares(g[i], Total(g[i]), |g|)
  {
    assert OutEdges(g[i], |g|);
  }

  lemma NoShares(total: real, n: nat)
    ensures SumTo(n, Of(Shares([], total, n))) == 0.0
  {
    SumSame(n, Of(Shares([], total, n)), _ => 0.0);
    SumConstant(n, 0.0);
  }

  lemma SomeShares(out: seq<Edge>, n: nat)
    requires OutEdges(out, n) && out != []
    ensures SumTo(n, Of(Shares(out, Total(out), n))) == 1.0
  {
    SharesSum(out, n, Of(Shares(out, Total(out), n)));
  }
}
