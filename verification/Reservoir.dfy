/** Algorithm R of streaming/analytics/sampling.py.

    The generator's results are explicit: a run over k + m stream items consumes m draws, the
    i-th of them uniform over 0, ..., k + i. Statements about probability are exact counts
    over the set `AllDraws(0, k, m)` of all draw sequences, which are equally likely. */
module Reservoir {
  import opened Counting

  /** The stream positions in the reservoir, slot by slot, after k + |d| items. */
  function Kept(k: nat, d: Draws): (slots: seq<int>)
    ensures |slots| == k
    ensures forall i :: 0 <= i < k ==> 0 <= slots[i] < k + |d|
    ensures forall i, j :: 0 <= i < j < k ==> slots[i] != slots[j]
    decreases |d|
  {
    if d == [] then seq(k, i => i)
    else
      var before, j := Kept(k, d[..|d| - 1]), d[|d| - 1];
      if 0 <= j < k then before[j := k + |d| - 1] else before
  }

  ghost function KeptSet(k: nat, d: Draws): set<int> {
    set i | 0 <= i < k :: Kept(k, d)[i]
  }

  // ---------------------------------------------------------------- each position is kept equally often

  /** The draw sequences that leave stream position p in the reservoir. */
  ghost function Hits(k: nat, m: nat, p: int): set<Draws> {
    set d | d in AllDraws(0, k, m) && p in Kept(k, d)
  }

  function SlotOf(slots: seq<int>, p: int): (i: nat)
    requires p in slots
    ensures i < |slots| && slots[i] == p
  {
    if slots[0] == p then 0 else 1 + SlotOf(slots[1..], p)
  }

  /** The draws that keep an older position: all but its own slot. */
  ghost function Sparing(k: nat, m: nat, p: int, d: Draws): set<int> {
    if p in Kept(k, d) then Range(0, k + m - 1) - {SlotOf(Kept(k, d), p) as int} else {}
  }

  ghost function Spare(k: nat, m: nat, p: int): Draws -> set<int> {
    (d: Draws) => Sparing(k, m, p, d)
  }

  lemma KeptStep(k: nat, d: Draws, j: int, p: int)
    ensures (d + [j])[..|d|] == d
    ensures p in Kept(k, d + [j]) <==>
              if 0 <= j < k then p == k + |d| || (p in Kept(k, d) && SlotOf(Kept(k, d), p) != j)
              else p in Kept(k, d)
  {
    assert (d + [j])[..|d|] == d;
    var before, after := Kept(k, d), Kept(k, d + [j]);
    if 0 <= j < k {
      assert after == before[j := k + |d|];
      assert after[j] == k + |d|;
      if p in before {
        var i := SlotOf(before, p);
        assert i != j ==> after[i] == p;
      }
    }
  }

  lemma HitsStep(k: nat, m: nat, p: int)
    requires k > 0 && m > 0 && 0 <= p < k + m
    ensures Hits(k, m, p) == if p == k + m - 1 then Extend(AllDraws(0, k, m - 1), Between(0, k - 1))
                             else Extend(Hits(k, m - 1, p), Spare(k, m, p))
  {
    hide Extend;
    forall e
      ensures e in Hits(k, m, p) <==>
                if p == k + m - 1 then e in Extend(AllDraws(0, k, m - 1), Between(0, k - 1))
                else e in Extend(Hits(k, m - 1, p), Spare(k, m, p))
    {
      InHits(k, m, p, e);
      InExtend(AllDraws(0, k, m - 1), Between(0, k - 1), e);
      InExtend(Hits(k, m - 1, p), Spare(k, m, p), e);
    }
  }

  lemma InHits(k: nat, m: nat, p: int, e: Draws)
    requires k > 0 && m > 0 && 0 <= p < k + m
    ensures e in Hits(k, m, p) <==>
              && |e| > 0 && e[..|e| - 1] in AllDraws(0, k, m - 1)
              && (if p == k + m - 1 then 0 <= e[|e| - 1] < k
                  else e[..|e| - 1] in Hits(k, m - 1, p) && e[|e| - 1] in Spare(k, m, p)(e[..|e| - 1]))
  {
    hide Extend, Kept;
    InExtend(AllDraws(0, k, m - 1), Between(0, k + m - 1), e);
    if |e| > 0 && e[..|e| - 1] in AllDraws(0, k, m - 1) {
      var d, j := e[..|e| - 1], e[|e| - 1];
      AllDrawsAre(0, k, m - 1, d);
      assert e == d + [j];
      KeptStep(k, d, j, p);
    }
  }

  lemma HitsStepCard(k: nat, m: nat, p: int)
    requires k > 0 && m > 0 && 0 <= p < k + m
    ensures |Hits(k, m, p)| == if p == k + m - 1 then |AllDraws(0, k, m - 1)| * k
                               else |Hits(k, m - 1, p)| * (k + m - 1)
  {
    HitsStep(k, m, p);
    if p == k + m - 1 {
      ExtendCard(AllDraws(0, k, m - 1), Between(0, k - 1), k);
    } else {
      forall d | d in Hits(k, m - 1, p)
        ensures |Spare(k, m, p)(d)| == k + m - 1
      {
        assert SlotOf(Kept(k, d), p) as int in Range(0, k + m - 1);
      }
      ExtendCard(Hits(k, m - 1, p), Spare(k, m, p), k + m - 1);
    }
  }

  lemma OldArithmetic(h': int, h: int, a': int, a: int, k: int, n: int)
    requires h' == Product(h, n - 1) && a' == Product(a, n) && Product(h, n - 1) == Product(k, a)
    ensures Product(h', n) == Product(k, a')
  {
    assert k * a * n == k * (a * n);
  }

  lemma NewArithmetic(h': int, a': int, a: int, k: int, n: int)
    requires h' == Product(a, k) && a' == Product(a, n)
    ensures Product(h', n) == Product(k, a')
  {
    assert a * k * n == k * (a * n);
  }

  lemma StepProducts(k: nat, m: nat, p: int)
    requires k > 0 && m > 0 && 0 <= p < k + m
    ensures |Hits(k, m, p)| == if p == k + m - 1 then Product(|AllDraws(0, k, m - 1)|, k) else Product(|Hits(k, m - 1, p)|, k + m - 1)
    ensures |AllDraws(0, k, m)| == Product(|AllDraws(0, k, m - 1)|, k + m)
  {
    hide Hits, AllDraws;
    HitsStepCard(k, m, p);
    AllDrawsStepCard(0, k, m);
  }

  lemma NoDraws(k: nat, p: int)
    requires 0 <= p < k
    ensures |Hits(k, 0, p)| == 1 && |AllDraws(0, k, 0)| == 1
  {
    assert Kept(k, [])[p] == p;
    assert Hits(k, 0, p) == {[]};
  }

  lemma {:induction false} HitsShare(k: nat, m: nat, p: int)
    requires k > 0 && 0 <= p < k + m
    ensures Product(|Hits(k, m, p)|, k + m) == Product(k, |AllDraws(0, k, m)|)
  {
    if m == 0 {
      hide *;
      NoDraws(k, p);
      ProductOne(k);
    } else {
      hide *;
      var n, a, a' := k + m, |AllDraws(0, k, m - 1)|, |AllDraws(0, k, m)|;
      StepProducts(k, m, p);
      if p == n - 1 {
        NewArithmetic(|Hits(k, m, p)|, a', a, k, n);
      } else {
        HitsShare(k, m - 1, p);
        OldArithmetic(|Hits(k, m, p)|, |Hits(k, m - 1, p)|, a', a, k, n);
      }
    }
  }

  /** Uniformity, position by position: of all draw sequences for n = k + m items, the ones that
      leave position p in the reservoir are exactly the fraction k / n, for every p. */
  lemma EachPositionUniform(k: nat, m: nat, p: int)
    requires k > 0 && 0 <= p < k + m
    ensures |Hits(k, m, p)| * (k + m) == k * |AllDraws(0, k, m)|
  {
    hide Hits, AllDraws;
    HitsShare(k, m, p);
  }

  // ---------------------------------------------------------------- each sample is drawn equally often

  /** The draw sequences whose sample is exactly the set of positions s. */
  ghost function Outcomes(k: nat, m: nat, s: set<int>): set<Draws> {
    set d | d in AllDraws(0, k, m) && KeptSet(k, d) == s
  }

  lemma KeptSetStep(k: nat, d: Draws, j: int)
    ensures KeptSet(k, d + [j]) == if 0 <= j < k then KeptSet(k, d) - {Kept(k, d)[j]} + {k + |d|}
                                   else KeptSet(k, d)
  {
    var after := Kept(k, d + [j]);
    forall p
      ensures p in KeptSet(k, d + [j]) <==> p in after
      ensures p in KeptSet(k, d) <==> p in Kept(k, d)
    {
    }
    forall p
      ensures p in KeptSet(k, d + [j]) <==>
                if 0 <= j < k then p == k + |d| || (p in KeptSet(k, d) && p != Kept(k, d)[j])
                else p in KeptSet(k, d)
    {
      KeptStep(k, d, j, p);
    }
  }

  lemma InKeptSet(k: nat, d: Draws)
    ensures forall i :: 0 <= i < k ==> Kept(k, d)[i] in KeptSet(k, d)
    ensures k + |d| !in KeptSet(k, d)
  {
  }

  lemma {:induction false} KeptSetCard(k: nat, d: Draws)
    ensures |KeptSet(k, d)| == k
  {
    DistinctCard(Kept(k, d));
    assert KeptSet(k, d) == set x | x in Kept(k, d);
  }

  lemma {:induction false} DistinctCard(s: seq<int>)
    requires forall i, j :: 0 <= i < j < |s| ==> s[i] != s[j]
    ensures |set x | x in s| == |s|
  {
    if s != [] {
      var init := s[..|s| - 1];
      DistinctCard(init);
      assert (set x | x in s) == (set x | x in init) + {s[|s| - 1]};
    }
  }

  /** The position of a k-element sample that is not in its subset t of k - 1 elements. */
  ghost function OddOne(k: nat, t: set<int>, d: Draws): int {
    if KeptSet(k, d) - t == {} then -1 else Pick(KeptSet(k, d) - t)
  }

  /** The draws that overwrite the odd one of d. */
  ghost function Replacing(k: nat, t: set<int>, d: Draws): set<int> {
    if OddOne(k, t, d) in Kept(k, d) then {SlotOf(Kept(k, d), OddOne(k, t, d)) as int} else {}
  }

  ghost function Replace(k: nat, t: set<int>): Draws -> set<int> {
    (d: Draws) => Replacing(k, t, d)
  }

  ghost function Superset(k: nat, m: nat, t: set<int>): set<Draws> {
    set d | d in AllDraws(0, k, m) && t <= KeptSet(k, d)
  }

  lemma OddOneIs(k: nat, t: set<int>, d: Draws, q: int)
    requires k > 0 && |t| == k - 1
    ensures t <= KeptSet(k, d) ==> OddOne(k, t, d) in KeptSet(k, d) - t
    ensures t <= KeptSet(k, d) ==> KeptSet(k, d) == t + {OddOne(k, t, d)}
    ensures KeptSet(k, d) == t + {q} ==> t <= KeptSet(k, d) && OddOne(k, t, d) == q
  {
    var s := KeptSet(k, d);
    KeptSetCard(k, d);
    if t <= s {
      assert s == t + (s - t) && |s - t| == 1;
      var o := OddOne(k, t, d);
      assert |s - t - {o}| == 0;
    }
  }

  lemma OutcomesStepOld(k: nat, m: nat, s: set<int>)
    requires m > 0 && k + m - 1 !in s
    ensures Outcomes(k, m, s) == Extend(Outcomes(k, m - 1, s), Between(k, k + m - 1))
  {
    forall e
      ensures e in Outcomes(k, m, s) <==> e in Extend(Outcomes(k, m - 1, s), Between(k, k + m - 1))
    {
      InExtend(AllDraws(0, k, m - 1), Between(0, k + m - 1), e);
      InExtend(Outcomes(k, m - 1, s), Between(k, k + m - 1), e);
      AllDrawsAre(0, k, m, e);
      if |e| > 0 {
        AllDrawsAre(0, k, m - 1, e[..|e| - 1]);
        assert e == e[..|e| - 1] + [e[|e| - 1]];
        KeptSetStep(k, e[..|e| - 1], e[|e| - 1]);
      }
    }
  }

  lemma OutcomesStepNew(k: nat, m: nat, t: set<int>)
    requires k > 0 && m > 0 && |t| == k - 1 && forall p :: p in t ==> 0 <= p < k + m - 1
    ensures Outcomes(k, m, t + {k + m - 1}) == Extend(Superset(k, m - 1, t), Replace(k, t))
  {
    var left, right := Outcomes(k, m, t + {k + m - 1}), Extend(Superset(k, m - 1, t), Replace(k, t));
    forall e
      ensures e in left <==> e in right
    {
      if e == [] {
        AllDrawsAre(0, k, m, e);
        InExtend(Superset(k, m - 1, t), Replace(k, t), e);
      } else {
        InOutcomesNew(k, m, t, e[..|e| - 1], e[|e| - 1]);
        assert e == e[..|e| - 1] + [e[|e| - 1]];
      }
    }
  }

  lemma InExtendOne(runs: set<Draws>, choices: Draws -> set<int>, d: Draws, j: int)
    ensures d + [j] in Extend(runs, choices) <==> d in runs && j in choices(d)
  {
    InExtend(runs, choices, d + [j]);
    assert (d + [j])[..|d|] == d;
  }

  lemma InOutcomesNew(k: nat, m: nat, t: set<int>, d: Draws, j: int)
    requires k > 0 && m > 0 && |t| == k - 1 && forall p :: p in t ==> 0 <= p < k + m - 1
    ensures d + [j] in Outcomes(k, m, t + {k + m - 1}) <==> d + [j] in Extend(Superset(k, m - 1, t), Replace(k, t))
  {
    hide Kept, KeptSet, OddOne, Extend;
    InExtendOne(AllDraws(0, k, m - 1), Between(0, k + m - 1), d, j);
    InExtendOne(Superset(k, m - 1, t), Replace(k, t), d, j);
    if d in AllDraws(0, k, m - 1) {
      AllDrawsAre(0, k, m - 1, d);
      NewSample(k, t, d, j);
      assert j in Replacing(k, t, d) ==> 0 <= j < k;
    }
  }

  /** One more draw makes the sample t plus the new position exactly when it overwrites the odd one. */
  lemma NewSample(k: nat, t: set<int>, d: Draws, j: int)
    requires k > 0 && |t| == k - 1 && forall p :: p in t ==> 0 <= p < k + |d|
    ensures KeptSet(k, d + [j]) == t + {k + |d|} <==> t <= KeptSet(k, d) && j in Replacing(k, t, d)
  {
    hide Kept, KeptSet, OddOne;
    var s, slots, n := KeptSet(k, d), Kept(k, d), k + |d|;
    InKeptSet(k, d);
    KeptSetStep(k, d, j);
    if 0 <= j < k {
      OddOneIs(k, t, d, slots[j]);
      SwapIff(s, t, slots[j], n);
    } else {
      assert n in t + {n};
    }
  }

  lemma SwapIff(s: set<int>, t: set<int>, x: int, n: int)
    requires n !in s && n !in t && x in s
    ensures s - {x} + {n} == t + {n} <==> s == t + {x} && x !in t
  {
    assert s - {x} + {n} - {n} == s - {x} && t + {n} - {n} == t;
    assert s == s - {x} + {x};
    assert x !in t ==> t + {x} - {x} == t;
  }

  lemma ReplaceCard(k: nat, m: nat, t: set<int>)
    requires k > 0 && m > 0 && |t| == k - 1
    ensures forall d :: d in Superset(k, m - 1, t) ==> |Replace(k, t)(d)| == 1
  {
    forall d | d in Superset(k, m - 1, t)
      ensures |Replace(k, t)(d)| == 1
    {
      OddOneIs(k, t, d, 0);
      assert OddOne(k, t, d) in Kept(k, d);
    }
  }

  lemma OnlyOneSample(k: nat, s: set<int>)
    requires k > 0 && |s| == k && forall p :: p in s ==> 0 <= p < k
    ensures Outcomes(k, 0, s) == {[]}
  {
    SubsetOfRange(s, k);
    KeptSetCard(k, []);
    SubsetOfRange(KeptSet(k, []), k);
  }

  /** Uniformity, sample by sample: every k-element set of the k + m stream positions is the
      sample of exactly m! of the (k + m)! / k! draw sequences. */
  lemma {:induction false} EverySampleUniform(k: nat, m: nat, s: set<int>)
    requires k > 0 && |s| == k && forall p :: p in s ==> 0 <= p < k + m
    ensures |Outcomes(k, m, s)| == Factorial(m)
    decreases m, 1
  {
    hide *;
    var n := k + m;
    if m == 0 {
      OnlyOneSample(k, s);
      FactorialZero();
    } else if n - 1 !in s {
      OutcomesStepOld(k, m, s);
      EverySampleUniform(k, m - 1, s);
      BetweenCard(k, n - 1);
      ExtendProduct(Outcomes(k, m - 1, s), Between(k, n - 1), m);
      FactorialProduct(m);
    } else {
      var t := s - {n - 1};
      assert s == t + {n - 1};
      OutcomesStepNew(k, m, t);
      SupersetCard(k, m, t);
      ReplaceCard(k, m, t);
      ExtendProduct(Superset(k, m - 1, t), Replace(k, t), 1);
      ProductOne(Factorial(m));
    }
  }

  ghost function OddOf(k: nat, t: set<int>): Draws -> int {
    (d: Draws) => OddOne(k, t, d)
  }

  lemma OddOneRange(k: nat, m: nat, t: set<int>, d: Draws)
    requires k > 0 && m > 0 && |t| == k - 1 && d in Superset(k, m - 1, t)
    ensures OddOne(k, t, d) in Range(0, k + m - 2) - t
  {
    OddOneIs(k, t, d, 0);
    AllDrawsAre(0, k, m - 1, d);
  }

  lemma OddOneFibre(k: nat, m: nat, t: set<int>, p: int)
    requires k > 0 && m > 0 && |t| == k - 1 && p !in t
    ensures Fibre(Superset(k, m - 1, t), OddOf(k, t), p) == Outcomes(k, m - 1, t + {p})
  {
    var left, right := Fibre(Superset(k, m - 1, t), OddOf(k, t), p), Outcomes(k, m - 1, t + {p});
    forall d
      ensures d in left <==> d in right
    {
      OddOneIs(k, t, d, p);
    }
  }

  lemma {:induction false} SupersetCard(k: nat, m: nat, t: set<int>)
    requires k > 0 && m > 0 && |t| == k - 1 && forall p :: p in t ==> 0 <= p < k + m - 1
    ensures |Superset(k, m - 1, t)| == Factorial(m)
    decreases m, 0
  {
    hide Kept, KeptSet, OddOne, Superset, Outcomes, AllDraws, Fibre;
    var runs, pos, q := Superset(k, m - 1, t), OddOf(k, t), Range(0, k + m - 2) - t;
    forall d | d in runs
      ensures pos(d) in q
    {
      OddOneRange(k, m, t, d);
    }
    forall p | p in q
      ensures |Fibre(runs, pos, p)| == Factorial(m - 1)
    {
      EverySampleUniform(k, m - 1, t + {p});
      OddOneFibre(k, m, t, p);
    }
    assert t <= Range(0, k + m - 2) && |q| == m;
    FibresCard(runs, pos, q, Factorial(m - 1));
  }

  lemma {:induction false} SubsetOfRange(s: set<int>, k: nat)
    requires |s| == k && forall p :: p in s ==> 0 <= p < k
    ensures s == Range(0, k - 1)
  {
    assert s <= Range(0, k - 1);
    assert |Range(0, k - 1) - s| == 0;
  }

  // ---------------------------------------------------------------- the sampler

  /** The stream positions in the reservoir after n items, also before it is full. */
  ghost function Slots(k: nat, n: nat, d: Draws): (slots: seq<int>)
    requires |d| == if n <= k then 0 else n - k
    ensures |slots| == if n <= k then n else k
    ensures forall i :: 0 <= i < |slots| ==> 0 <= slots[i] < n
    ensures forall i, j :: 0 <= i < j < |slots| ==> slots[i] != slots[j]
  {
    if n <= k then seq(n, i => i) else Kept(k, d)
  }

  lemma SlotsGrow(k: nat, n: nat)
    requires n < k
    ensures Slots(k, n + 1, []) == Slots(k, n, []) + [n] && Slots(k, n + 1, [])[n] == n
  {
  }

  lemma SlotsReplace(k: nat, n: nat, d: Draws, j: int)
    requires k <= n && |d| == n - k
    requires 0 <= j <= n
    ensures Slots(k, n + 1, d + [j]) == if j < k then Slots(k, n, d)[j := n] else Slots(k, n, d)
    ensures n in Slots(k, n + 1, d + [j]) <==> j < k
  {
    assert (d + [j])[..|d|] == d;
    FullSlots(k, n, d);
    FullSlots(k, n + 1, d + [j]);
    if j < k {
      assert Kept(k, d)[j := n][j] == n;
    }
  }

  lemma FullSlots(k: nat, n: nat, d: Draws)
    requires k <= n && |d| == n - k
    ensures Slots(k, n, d) == Kept(k, d)
  {
  }

  /** The sample holds the items at the positions `Slots`. */
  ghost predicate Samples<T>(k: nat, stream: seq<T>, d: Draws, sample: seq<T>) {
    && |d| == (if |stream| <= k then 0 else |stream| - k)
    && |sample| == |Slots(k, |stream|, d)|
    && forall i :: 0 <= i < |sample| ==> sample[i] == stream[Slots(k, |stream|, d)[i]]
  }

  lemma SamplesDraws<T>(k: nat, stream: seq<T>, d: Draws, sample: seq<T>)
    requires Samples(k, stream, d, sample)
    ensures |d| == if |stream| <= k then 0 else |stream| - k
    ensures |sample| == if |stream| <= k then |stream| else k
  {
    hide Slots;
  }

  lemma SamplesGrow<T>(k: nat, stream: seq<T>, sample: seq<T>, item: T)
    requires Samples(k, stream, [], sample) && |stream| < k
    ensures Samples(k, stream + [item], [], sample + [item]) && |stream| in Slots(k, |stream| + 1, [])
  {
    hide Slots;
    SlotsGrow(k, |stream|);
  }

  lemma SamplesReplace<T>(k: nat, stream: seq<T>, d: Draws, sample: seq<T>, item: T, j: int)
    requires Samples(k, stream, d, sample) && k <= |stream| && 0 <= j <= |stream|
    ensures Samples(k, stream + [item], d + [j], if j < k then sample[j := item] else sample)
    ensures |stream| in Slots(k, |stream| + 1, d + [j]) <==> j < k
  {
    hide Slots;
    var now, d', sample' := stream + [item], d + [j], if j < k then sample[j := item] else sample;
    var slots := Slots(k, |stream|, d);
    SlotsReplace(k, |stream|, d, j);
    forall i | 0 <= i < |sample'|
      ensures sample'[i] == now[Slots(k, |now|, d')[i]]
    {
      assert sample[i] == stream[slots[i]];
    }
  }

  lemma OneMoreDraw(k: nat, d: Draws, j: int)
    requires IsDraws(0, k, d) && 0 <= j <= k + |d|
    ensures IsDraws(0, k, d + [j])
  {
  }

  class ReservoirSampler<T> {
    var k: int
    var sampleList: seq<T>
    var nSeen: int
    ghost var stream: seq<T>   // every item observed so far
    ghost var draws: Draws     // every result of the generator so far

    /** In every run the reservoir holds min(k, n) items, from distinct stream positions, and
        which ones is the function `Slots` of the draws. */
    ghost predicate Valid()
      reads this
    {
      && k > 0 && nSeen == |stream|
      && IsDraws(0, k, draws)
      && Samples(k, stream, draws, sampleList)
    }

    constructor (k: int)
      requires k > 0
      ensures Valid() && this.k == k && stream == [] && draws == []
    {
      this.k, sampleList, nSeen := k, [], 0;
      stream, draws := [], [];
    }

    /** Construction fails exactly on a size that is not positive. */
    static method Create(k: int) returns (r: ReservoirSampler?<T>)
      ensures r == null <==> k <= 0
      ensures r != null ==> fresh(r) && r.Valid() && r.k == k && r.stream == []
    {
      if k <= 0 {
        return null;
      }
      r := new ReservoirSampler<T>(k);
    }

    /** Observes an item; j is what the generator returns, if it is asked. */
    method Add(item: T, j: int) returns (placed: bool)
      requires Valid()
      requires nSeen >= k ==> 0 <= j <= nSeen
      modifies this
      ensures Valid() && k == old(k)
      ensures stream == old(stream) + [item]
      ensures draws == if old(nSeen) < k then old(draws) else old(draws) + [j]
      ensures placed <==> |stream| - 1 in Slots(k, |stream|, draws)
      ensures !placed ==> sampleList == old(sampleList)
    {
      hide Slots, Samples, IsDraws;
      SamplesDraws(k, stream, draws, sampleList);
      if nSeen < k {
        SamplesGrow(k, stream, sampleList, item);
      } else {
        SamplesReplace(k, stream, draws, sampleList, item, j);
        OneMoreDraw(k, draws, j);
      }
      stream := stream + [item];
      if nSeen < k {
        sampleList := sampleList + [item];
        nSeen := nSeen + 1;
        return true;
      }
      draws := draws + [j];
      nSeen := nSeen + 1;
      if j < k {
        sampleList := sampleList[j := item];
        return true;
      }
      return false;
    }

    method Reset()
      requires Valid()
      modifies this
      ensures Valid() && k == old(k) && stream == [] && draws == [] && sampleList == []
    {
      sampleList, nSeen := [], 0;
      stream, draws := [], [];
    }
  }
}
