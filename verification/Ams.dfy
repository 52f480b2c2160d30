/** The second-moment estimator of streaming/analytics/moments.py.

    One estimator consumes one draw per stream item; the draw for item n is uniform over
    1, ..., n and the estimator restarts at the item when it is 1. Expectations are exact
    sums over the set `AllDraws(1, 1, n)` of all draw sequences, which are equally likely. */
module Ams {
  import opened Counting
  import opened Options
  import opened Aggregate

  // ---------------------------------------------------------------- frequencies

  function Count<T(==)>(s: seq<T>, x: T): nat {
    if s == [] then 0 else (if s[0] == x then 1 else 0) + Count(s[1..], x)
  }

  /** The frequency counter of a stream. */
  ghost function CounterOf<T>(s: seq<T>): map<T, nat> {
    map x | x in s :: Count(s, x)
  }

  ghost function SquareAt<T(!new)>(counter: map<T, nat>): T -> int {
    x => if x in counter then counter[x] * counter[x] else 0
  }

  /** The exact second moment of a counter: the sum of the squared frequencies. */
  ghost function ExactF2<T(!new)>(counter: map<T, nat>): int {
    SumOver(counter.Keys, SquareAt(counter))
  }

  lemma {:induction false} CountAppend<T>(s: seq<T>, y: T, x: T)
    ensures Count(s + [y], x) == Count(s, x) + if x == y then 1 else 0
  {
    if s == [] {
      assert s + [y] == [y];
    } else {
      CountAppend(s[1..], y, x);
      assert (s + [y])[1..] == s[1..] + [y];
    }
  }

  lemma {:induction false} CountPositive<T>(s: seq<T>, x: T)
    ensures Count(s, x) > 0 <==> x in s
    ensures Count(s, x) <= |s|
  {
    if s != [] {
      CountPositive(s[1..], x);
      assert s == [s[0]] + s[1..];
    }
  }

  lemma CounterStep<T(!new)>(s: seq<T>)
    requires s != []
    ensures CounterOf(s).Keys == CounterOf(s[1..]).Keys + {s[0]}
    ensures SquareAt(CounterOf(s))(s[0]) == Count(s, s[0]) * Count(s, s[0])
    ensures SquareAt(CounterOf(s[1..]))(s[0]) == (Count(s, s[0]) - 1) * (Count(s, s[0]) - 1)
    ensures s[0] in CounterOf(s[1..]).Keys || Count(s, s[0]) == 1
    ensures forall y :: y != s[0] ==> SquareAt(CounterOf(s[1..]))(y) == SquareAt(CounterOf(s))(y)
  {
    assert s == [s[0]] + s[1..];
    CountPositive(s[1..], s[0]);
  }

  /** One more occurrence of an item seen m times raises the second moment by 2m + 1. */
  lemma F2Step<T(!new)>(s: seq<T>)
    requires s != []
    ensures ExactF2(CounterOf(s)) == ExactF2(CounterOf(s[1..])) + 2 * Count(s, s[0]) - 1
  {
    hide CounterOf, SquareAt, SumOver, Count;
    var x, c, c' := s[0], CounterOf(s[1..]), CounterOf(s);
    var f, f' := SquareAt(c), SquareAt(c');
    var m: int := Count(s, s[0]);
    CounterStep(s);
    SumOverTake(c'.Keys, f', x);
    assert c'.Keys - {x} == c.Keys - {x};
    SumOverSame(c.Keys - {x}, f, f');
    if x in c.Keys {
      SumOverTake(c.Keys, f, x);
    } else {
      assert c.Keys - {x} == c.Keys;
    }
    assert m * m - (m - 1) * (m - 1) == 2 * m - 1;
  }

  // ---------------------------------------------------------------- a single estimator

  /** The stream position (from 1) an estimator tracks after its draws. */
  function Final(d: Draws): (p: nat)
    ensures p <= |d|
    decreases |d|
  {
    if d == [] then 0 else if d[|d| - 1] == 1 then |d| else Final(d[..|d| - 1])
  }

  /** How often the item at position p occurs from there on. */
  function Tail<T(==)>(s: seq<T>, p: int): nat {
    if 1 <= p <= |s| then Count(s[p - 1..], s[p - 1]) else 0
  }

  ghost function FinalOf(): Draws -> int {
    (d: Draws) => Final(d)
  }

  /** The draw sequences that end at position p. */
  ghost function EndingAt(n: nat, p: int): set<Draws> {
    Fibre(AllDraws(1, 1, n), FinalOf(), p)
  }

  lemma EndingAtStep(n: nat, p: int)
    requires 1 <= p <= n
    ensures EndingAt(n, p) == if p == n then Extend(AllDraws(1, 1, n - 1), Between(1, 1))
                              else Extend(EndingAt(n - 1, p), Between(2, n))
  {
    var runs := if p == n then Extend(AllDraws(1, 1, n - 1), Between(1, 1)) else Extend(EndingAt(n - 1, p), Between(2, n));
    var ending := EndingAt(n, p);
    forall e
      ensures e in ending <==> e in runs
    {
      InExtend(AllDraws(1, 1, n - 1), Between(1, n), e);
      InExtend(AllDraws(1, 1, n - 1), Between(1, 1), e);
      InExtend(EndingAt(n - 1, p), Between(2, n), e);
      AllDrawsAre(1, 1, n, e);
      if |e| > 0 {
        AllDrawsAre(1, 1, n - 1, e[..|e| - 1]);
      }
    }
  }

  /** Each of the n positions is the final choice in exactly (n - 1)! of the n! draw sequences. */
  lemma {:induction false} FinalPositionUniform(n: nat, p: int)
    requires 1 <= p <= n
    ensures |EndingAt(n, p)| == Factorial(n - 1)
  {
    hide EndingAt, AllDraws, Extend;
    EndingAtStep(n, p);
    if p == n {
      AllDrawsCard(1, 1, n - 1);
      ExtendCard(AllDraws(1, 1, n - 1), Between(1, 1), 1);
    } else {
      FinalPositionUniform(n - 1, p);
      ExtendCard(EndingAt(n - 1, p), Between(2, n), n - 1);
    }
  }

  // ---------------------------------------------------------------- the expectation

  ghost function ValueAt<T(!new)>(s: seq<T>): int -> int {
    p => |s| * (2 * Tail(s, p) - 1)
  }

  /** The estimate n(2r - 1) an estimator gives after the draws d. */
  ghost function ValueOf<T(!new)>(s: seq<T>): Draws -> int {
    Compose(FinalOf(), ValueAt(s))
  }

  /** The positions from p on contribute n times the second moment of the stream from p on. */
  lemma {:induction false} PositionsSum<T(!new)>(s: seq<T>, p: int)
    requires 1 <= p <= |s| + 1
    ensures SumRange(p, |s|, ValueAt(s)) == |s| * ExactF2(CounterOf(s[p - 1..]))
    decreases |s| - p
  {
    hide CounterOf, ExactF2, Count;
    var rest := s[p - 1..];
    if p == |s| + 1 {
      EmptyF2(rest);
    } else {
      PositionsSum(s, p + 1);
      SumRangeFirst(p, |s|, ValueAt(s));
      assert rest[1..] == s[p..];
      F2Step(rest);
      hide SumRange;
      MulAdd(|s|, ExactF2(CounterOf(s[p..])), 2 * Tail(s, p) - 1);
    }
  }

  lemma EmptyF2<T(!new)>(s: seq<T>)
    requires s == []
    ensures ExactF2(CounterOf(s)) == 0
  {
    assert CounterOf(s).Keys == {};
  }

  lemma MulAdd(n: int, a: int, b: int)
    ensures n * (a + b) == n * a + n * b
  {
  }

  /** Over all positions, the mean of n(2r - 1) is the exact second moment. */
  lemma MeanOverPositions<T(!new)>(s: seq<T>)
    ensures SumRange(1, |s|, ValueAt(s)) == |s| * ExactF2(CounterOf(s))
  {
    PositionsSum(s, 1);
    assert s[0..] == s;
  }

  /** Unbiasedness: summed over all n! draw sequences, the estimates are n! times the exact
      second moment of the stream's frequency counter. */
  lemma Unbiased<T(!new)>(s: seq<T>)
    requires s != []
    ensures SumOver(AllDraws(1, 1, |s|), ValueOf(s)) == |AllDraws(1, 1, |s|)| * ExactF2(CounterOf(s))
  {
    hide ExactF2, CounterOf, AllDraws, SumRange, SumOver, EndingAt;
    SumByPosition(s);
    SumRangeScale(1, |s|, Factorial(|s| - 1), ValueAt(s));
    MeanOverPositions(s);
    AllDrawsCard(1, 1, |s|);
    Reassociate(Factorial(|s| - 1), |s|, ExactF2(CounterOf(s)));
  }

  /** Grouping the draw sequences by their final position. */
  lemma SumByPosition<T(!new)>(s: seq<T>)
    requires s != []
    ensures SumOver(AllDraws(1, 1, |s|), ValueOf(s)) == SumRange(1, |s|, Scaled(Factorial(|s| - 1), ValueAt(s)))
  {
    hide AllDraws, SumOver, SumRange, ValueAt, Fibre;
    var n, runs, pos, g := |s|, AllDraws(1, 1, |s|), FinalOf(), ValueAt(s);
    forall d | d in runs
      ensures 1 <= pos(d) <= n
    {
      AllDrawsAre(1, 1, n, d);
      FinalPositive(d);
    }
    SumByFibre(runs, pos, 1, n, g);
    forall p | 1 <= p <= n
      ensures |Fibre(runs, pos, p)| == Factorial(n - 1)
    {
      FinalPositionUniform(n, p);
    }
    SumRangeSame(1, n, FibreWeight(runs, pos, g), Scaled(Factorial(n - 1), g));
  }

  lemma Reassociate(a: int, b: int, c: int)
    ensures a * (b * c) == b * a * c
  {
  }

  lemma {:induction false} FinalPositive(d: Draws)
    requires d != [] && IsDraws(1, 1, d)
    ensures Final(d) >= 1
    decreases |d|
  {
    if |d| > 1 && d[|d| - 1] != 1 {
      FinalPositive(d[..|d| - 1]);
    }
  }

  // ---------------------------------------------------------------- median of means

  /** The number of groups the constructor settles on. */
  function GroupCount(numEstimators: int, numGroups: int): (g: int)
    requires numEstimators > 0
    ensures 1 <= g <= numEstimators
    ensures 1 <= numGroups <= numEstimators ==> g == numGroups
    ensures !(1 <= numGroups <= numEstimators) ==> g == 6 || g == numEstimators < 6
  {
    if numGroups <= 0 || numGroups > numEstimators
    then if numEstimators < 6 then numEstimators else 6
    else numGroups
  }

  /** Group g: equal slices, except that the last one takes what is left. */
  function Group(values: seq<real>, groups: nat, g: nat): (slice: seq<real>)
    requires g < groups <= |values|
    ensures slice != []
  {
    var size := |values| / groups;
    SliceInside(|values|, groups, g);
    if g < groups - 1 then values[Start(size, g)..Start(size, g + 1)] else values[Start(size, g)..]
  }

  lemma GroupIs(values: seq<real>, groups: nat, g: nat)
    requires g < groups <= |values|
    ensures var size := |values| / groups;
            && Start(size, g) <= |values| && Start(size, g) <= Start(size, g + 1) <= |values|
            && Group(values, groups, g) ==
                 if g < groups - 1 then values[Start(size, g)..Start(size, g + 1)] else values[Start(size, g)..]
  {
    hide Start;
    SliceInside(|values|, groups, g);
  }

  function GroupsUpTo(values: seq<real>, groups: nat, g: nat): seq<real>
    requires g <= groups <= |values|
  {
    if g == 0 then [] else GroupsUpTo(values, groups, g - 1) + Group(values, groups, g - 1)
  }

  /** The groups partition the estimators: joined in order, they are all values, once each. */
  lemma GroupsPartition(values: seq<real>, groups: nat)
    requires 1 <= groups <= |values|
    ensures GroupsUpTo(values, groups, groups) == values
  {
    hide Start;
    var start := Start(|values| / groups, groups - 1);
    SliceInside(|values|, groups, groups - 1);
    GroupsPrefix(values, groups, groups - 1);
    assert values[..start] + values[start..] == values;
  }

  lemma {:induction false} GroupsPrefix(values: seq<real>, groups: nat, g: nat)
    requires g < groups <= |values|
    ensures Start(|values| / groups, g) <= |values|
    ensures GroupsUpTo(values, groups, g) == values[..Start(|values| / groups, g)]
  {
    hide Start;
    var size := |values| / groups;
    SliceInside(|values|, groups, g);
    StartStep(size, g);
    if g > 0 {
      GroupsPrefix(values, groups, g - 1);
      SliceInside(|values|, groups, g - 1);
      JoinSlices(values, Start(size, g - 1), Start(size, g));
    }
  }

  lemma JoinSlices(values: seq<real>, a: nat, b: nat)
    requires a <= b <= |values|
    ensures values[..a] + values[a..b] == values[..b]
  {
  }

  function SlicesOf(values: seq<real>, groups: nat, g: nat): (slices: seq<seq<real>>)
    requires g <= groups <= |values|
    ensures |slices| == g
  {
    if g == 0 then [] else SlicesOf(values, groups, g - 1) + [Group(values, groups, g - 1)]
  }

  function Flatten(slices: seq<seq<real>>): seq<real> {
    if slices == [] then [] else Flatten(slices[..|slices| - 1]) + slices[|slices| - 1]
  }

  /** All slices but the last, which takes the remainder, have the same size. */
  ghost predicate EvenSlices(slices: seq<seq<real>>, n: nat) {
    forall g :: 0 <= g < |slices| ==> slices[g] != [] && (g < |slices| - 1 ==> |slices[g]| == n / |slices|)
  }

  /** Mean times size is the sum, slice by slice. */
  ghost predicate AreMeans(means: seq<real>, slices: seq<seq<real>>) {
    |means| == |slices| && forall g :: 0 <= g < |means| ==> means[g] * |slices[g]| as real == Sum(slices[g])
  }

  /** Cut into slices of equal size but the last, the values have means whose middle is est. */
  ghost predicate MiddleOfMeans(values: seq<real>, groups: int, est: real) {
    exists slices, means :: Cut(values, groups, slices) && AreMeans(means, slices) && Middle(means, est)
  }

  ghost predicate Cut(values: seq<real>, groups: int, slices: seq<seq<real>>) {
    Flatten(slices) == values && |slices| == groups && EvenSlices(slices, |values|)
  }

  lemma MedianOfSlices(values: seq<real>, groups: nat)
    requires 1 <= groups <= |values|
    ensures MiddleOfMeans(values, groups, Median(GroupMeans(values, groups, groups)))
  {
    hide Group, Median, Middle, AreMeans, EvenSlices, Flatten;
    SlicesAre(values, groups);
    MedianMiddle(GroupMeans(values, groups, groups));
    assert Cut(values, groups, SlicesOf(values, groups, groups));
  }

  lemma GroupSize(values: seq<real>, groups: nat, g: nat)
    requires g < groups - 1 && groups <= |values|
    ensures |Group(values, groups, g)| == |values| / groups
  {
    hide Start;
    SliceInside(|values|, groups, g);
  }

  lemma SlicesAre(values: seq<real>, groups: nat)
    requires 1 <= groups <= |values|
    ensures var slices := SlicesOf(values, groups, groups);
            && Flatten(slices) == values && EvenSlices(slices, |values|)
            && AreMeans(GroupMeans(values, groups, groups), slices)
  {
    hide Group, GroupMeans, GroupsUpTo, AreMeans, Mean, Flatten, SlicesOf;
    FlattenSlices(values, groups, groups);
    GroupsPartition(values, groups);
    MeansOfSlices(values, groups, groups);
    forall i | 0 <= i < groups
      ensures SlicesOf(values, groups, groups)[i] == Group(values, groups, i)
      ensures i < groups - 1 ==> |Group(values, groups, i)| == |values| / groups
    {
      SliceAt(values, groups, groups, i);
      if i < groups - 1 {
        GroupSize(values, groups, i);
      }
    }
  }

  lemma {:induction false} FlattenSlices(values: seq<real>, groups: nat, g: nat)
    requires 1 <= groups <= |values| && g <= groups
    ensures Flatten(SlicesOf(values, groups, g)) == GroupsUpTo(values, groups, g)
  {
    hide Group;
    if g > 0 {
      FlattenSlices(values, groups, g - 1);
    }
  }

  lemma {:induction false} MeansOfSlices(values: seq<real>, groups: nat, g: nat)
    requires 1 <= groups <= |values| && g <= groups
    ensures AreMeans(GroupMeans(values, groups, g), SlicesOf(values, groups, g))
  {
    hide Group, Mean, Sum;
    if g > 0 {
      MeansOfSlices(values, groups, g - 1);
      MeanIs(Group(values, groups, g - 1));
    }
  }

  lemma {:induction false} SliceAt(values: seq<real>, groups: nat, g: nat, i: nat)
    requires i < g <= groups <= |values|
    ensures SlicesOf(values, groups, g)[i] == Group(values, groups, i)
  {
    hide Group;
    if i < g - 1 {
      SliceAt(values, groups, g - 1, i);
    }
  }

  function GroupMeans(values: seq<real>, groups: nat, g: nat): (means: seq<real>)
    requires g <= groups <= |values|
    ensures |means| == g
  {
    if g == 0 then [] else GroupMeans(values, groups, g - 1) + [Mean(Group(values, groups, g - 1))]
  }

  lemma {:induction false} GroupMeansBounded(lo: real, values: seq<real>, hi: real, groups: nat, g: nat)
    requires g <= groups <= |values| && Bounded(lo, values, hi)
    ensures Bounded(lo, GroupMeans(values, groups, g), hi)
  {
    hide Mean, Sum, Group;
    if g > 0 {
      GroupMeansBounded(lo, values, hi, groups, g - 1);
      GroupBounded(lo, values, hi, groups, g - 1);
      MeanBounded(lo, Group(values, groups, g - 1), hi);
    }
  }

  lemma GroupBounded(lo: real, values: seq<real>, hi: real, groups: nat, g: nat)
    requires g < groups <= |values| && Bounded(lo, values, hi)
    ensures Bounded(lo, Group(values, groups, g), hi)
  {
    hide Start;
    SliceInside(|values|, groups, g);
  }

  // ---------------------------------------------------------------- the estimator

  datatype Snapshot<T> = Snapshot(numEstimators: int, numGroups: int, n: int,
                                  tracked: seq<Option<T>>, counts: seq<int>, positions: seq<int>)

  class AMSF2<T(==,!new)> {
    var numEstimators: int
    var numGroups: int
    var n: int
    var tracked: seq<Option<T>>
    var counts: seq<int>
    var positions: seq<int>
    ghost var stream: seq<T>       // every item observed so far
    ghost var draws: seq<Draws>    // per estimator, every result of the generator

    ghost predicate Valid()
      reads this
    {
      && 1 <= numGroups <= numEstimators
      && n == |stream|
      && |tracked| == |counts| == |positions| == |draws| == numEstimators
      && forall i :: 0 <= i < numEstimators ==> Tracks(stream, draws[i], tracked[i], counts[i], positions[i])
    }

    constructor (numEstimators: int, numGroups: int)
      requires numEstimators > 0
      ensures Valid() && stream == []
      ensures this.numEstimators == numEstimators && this.numGroups == GroupCount(numEstimators, numGroups)
    {
      this.numEstimators := numEstimators;
      this.numGroups := GroupCount(numEstimators, numGroups);
      n := 0;
      tracked := seq(numEstimators, _ => None);
      counts := seq(numEstimators, _ => 0);
      positions := seq(numEstimators, _ => 0);
      stream := [];
      draws := seq(numEstimators, _ => []);
    }

    /** Construction fails exactly on a number of estimators that is not positive. */
    static method Create(numEstimators: int, numGroups: int) returns (a: AMSF2?<T>)
      ensures a == null <==> numEstimators <= 0
      ensures a != null ==>
                && fresh(a) && a.Valid() && a.stream == [] && a.numEstimators == numEstimators
                && a.numGroups == GroupCount(numEstimators, numGroups)
    {
      if numEstimators <= 0 {
        return null;
      }
      a := new AMSF2<T>(numEstimators, numGroups);
    }

    /** Observes an item; js[i] is what the generator returns for estimator i. */
    method Add(item: T, js: seq<int>)
      requires Valid()
      requires |js| == numEstimators && forall i :: 0 <= i < |js| ==> 1 <= js[i] <= n + 1
      modifies this
      ensures Valid()
      ensures numEstimators == old(numEstimators) && numGroups == old(numGroups)
      ensures stream == old(stream) + [item]
      ensures forall i :: 0 <= i < numEstimators ==> draws[i] == old(draws[i]) + [js[i]]
    {
      n := n + 1;
      stream := stream + [item];
      var i := 0;
      hide Tracking, Tracks, Drawn;
      ghost var past := old(stream);
      AllTracking(past, draws, tracked, counts, positions);
      NoneTracking(stream, draws, tracked, counts, positions);
      NoneDrawn(draws, js);
      while i < numEstimators
        invariant 0 <= i <= numEstimators == old(numEstimators) && numGroups == old(numGroups)
        invariant n == |stream| && stream == past + [item]
        invariant |tracked| == |counts| == |positions| == |draws| == numEstimators
        invariant Tracking(stream, draws, tracked, counts, positions, 0, i)
        invariant Tracking(past, draws, tracked, counts, positions, i, numEstimators)
        invariant Drawn(old(draws), draws, js, i)
      {
        DrawnStep(old(draws), draws, js, i);
        Observe(i, item, js[i], past);
        i := i + 1;
      }
      TrackingAll(stream, draws, tracked, counts, positions);
      AllDrawn(old(draws), draws, js);
    }

    /** Estimator i observes the newest item: it restarts there, counts it, or stays. */
    method Observe(i: nat, item: T, j: int, ghost past: seq<T>)
      requires stream == past + [item] && n == |stream| && 1 <= j <= n
      requires i < |tracked| == |counts| == |positions| == |draws|
      requires Tracking(stream, draws, tracked, counts, positions, 0, i)
      requires Tracking(past, draws, tracked, counts, positions, i, |draws|)
      modifies `tracked, `counts, `positions, `draws
      ensures |tracked| == |counts| == |positions| == |draws| == old(|draws|)
      ensures draws == old(draws)[i := old(draws)[i] + [j]]
      ensures Tracking(stream, draws, tracked, counts, positions, 0, i + 1)
      ensures Tracking(past, draws, tracked, counts, positions, i + 1, |draws|)
    {
      hide Tracking, Tracks;
      TrackingStep(past, draws, tracked, counts, positions, i, item, j);
      if j == 1 {
        tracked := tracked[i := Some(item)];
        counts := counts[i := 1];
        positions := positions[i := n];
      } else if tracked[i] == Some(item) {
        counts := counts[i := counts[i] + 1];
      }
      draws := draws[i := draws[i] + [j]];
    }

    method AddMany(items: seq<T>, rows: seq<seq<int>>)
      requires Valid() && |rows| == |items|
      requires forall r :: 0 <= r < |rows| ==> |rows[r]| == numEstimators
      requires forall r, i :: 0 <= r < |rows| && 0 <= i < numEstimators ==> 1 <= rows[r][i] <= n + r + 1
      modifies this
      ensures Valid() && stream == old(stream) + items
      ensures numEstimators == old(numEstimators) && numGroups == old(numGroups)
      ensures forall i :: 0 <= i < numEstimators ==> draws[i] == old(draws[i]) + Column(rows, numEstimators, i)
    {
      hide Tracks;
      var r := 0;
      while r < |items|
        invariant r <= |items|
        invariant Valid() && stream == old(stream) + items[..r]
        invariant numEstimators == old(numEstimators) && numGroups == old(numGroups)
        invariant forall i :: 0 <= i < numEstimators ==> draws[i] == old(draws[i]) + Column(rows[..r], numEstimators, i)
      {
        Add(items[r], rows[r]);
        r := r + 1;
      }
    }

    /** The median of the group means of n(2r - 1), where n(2r - 1) is what the draws of that
        estimator make of the stream. It is 0 for an empty stream; otherwise it lies between n
        and n(2f - 1) for every bound f on the frequencies. */
    method Estimate() returns (est: real)
      requires Valid()
      ensures n > 0 ==> MiddleOfMeans(Values(n, counts), numGroups, est)
      ensures n == 0 ==> est == 0.0
      ensures n > 0 ==> est == Median(GroupMeans(Values(n, counts), numGroups, numGroups))
      ensures n > 0 ==> forall i :: 0 <= i < numEstimators ==> Values(n, counts)[i] == ValueOf(stream)(draws[i]) as real
      ensures n > 0 ==> n as real <= est
      ensures forall f: nat :: n > 0 && AtMostOften(stream, f) ==> est <= (n * (2 * f - 1)) as real
    {
      if n == 0 {
        return 0.0;
      }
      CountsPositive();
      hide Tracks, Tail, Mean, Median, Middle, SlicesOf, GroupsUpTo, GroupMeans, EvenSlices, AreMeans, ValueOf, IsTail, Group, Flatten, MiddleOfMeans;
      var values: seq<real> := [];
      var i := 0;
      while i < numEstimators
        invariant 0 <= i <= numEstimators && values == Values(n, counts)[..i]
      {
        var x := (n * (2 * counts[i] - 1)) as real;
        values := values + [if x > 0.0 then x else 0.0];
        i := i + 1;
      }
      assert values == Values(n, counts);
      var means := MeansOf(values);
      est := Median(means);
      MedianOfSlices(values, numGroups);
      MeansInRange(stream, n, counts, numGroups);
    }

    /** The partition into groups, and the mean of each. */
    method MeansOf(values: seq<real>) returns (means: seq<real>)
      requires 1 <= numGroups <= numEstimators == |values|
      ensures means == GroupMeans(values, numGroups, numGroups)
    {
      hide Mean, Start, Group;
      var size := if numEstimators / numGroups > 1 then numEstimators / numGroups else 1;
      SliceInside(numEstimators, numGroups, 0);
      means := [];
      var g := 0;
      while g < numGroups
        invariant 0 <= g <= numGroups && means == GroupMeans(values, numGroups, g)
      {
        SliceInside(numEstimators, numGroups, g);
        var slice := if g < numGroups - 1 then values[Start(size, g)..Start(size, g + 1)] else values[Start(size, g)..];
        GroupIs(values, numGroups, g);
        if slice != [] {
          means := means + [Mean(slice)];
        }
        g := g + 1;
      }
    }

    /** Once an item was observed, every estimator has seen its item at least once, and as
        often as the stream contains it from the tracked position on. */
    lemma CountsPositive()
      requires Valid() && n > 0
      ensures forall i :: 0 <= i < |counts| ==> 1 <= counts[i]
      ensures forall i :: 0 <= i < |counts| ==> IsTail(stream, counts[i])
      ensures forall i :: 0 <= i < |counts| ==> Values(n, counts)[i] == ValueOf(stream)(draws[i]) as real
    {
      hide Tracks, IsTail, ValueOf, Values;
      forall i | 0 <= i < |counts|
        ensures 1 <= counts[i] && IsTail(stream, counts[i])
        ensures Values(n, counts)[i] == ValueOf(stream)(draws[i]) as real
      {
        TrackedValue(stream, draws[i], tracked[i], counts[i], positions[i]);
        ValuesAt(n, counts, i);
      }
    }

    method TakeSnapshot() returns (s: Snapshot<T>)
      ensures s == Snapshot(numEstimators, numGroups, n, tracked, counts, positions)
    {
      s := Snapshot(numEstimators, numGroups, n, tracked, counts, positions);
    }

    /** Restoring a snapshot of a valid estimator gives a valid estimator of the same stream. */
    method Restore(s: Snapshot<T>, ghost origin: AMSF2<T>)
      requires origin.Valid()
      requires s == Snapshot(origin.numEstimators, origin.numGroups, origin.n, origin.tracked, origin.counts, origin.positions)
      modifies this
      ensures Valid() && stream == old(origin.stream) && draws == old(origin.draws)
      ensures s == Snapshot(numEstimators, numGroups, n, tracked, counts, positions)
    {
      stream, draws := origin.stream, origin.draws;
      numEstimators, numGroups, n := s.numEstimators, s.numGroups, s.n;
      tracked, counts, positions := s.tracked, s.counts, s.positions;
    }
  }

  /** What estimator i draws in each row. */
  function Column(rows: seq<seq<int>>, n: nat, i: nat): (d: Draws)
    requires i < n && forall r :: 0 <= r < |rows| ==> |rows[r]| == n
    ensures |d| == |rows|
  {
    seq(|rows|, r requires 0 <= r < |rows| => rows[r][i])
  }

  /** One estimator's state after the draws d: the tracked item is the one at the final
      position and the counter is its number of occurrences from there on. */
  ghost predicate Tracks<T(!new)>(stream: seq<T>, d: Draws, item: Option<T>, count: int, position: int) {
    && |d| == |stream| && IsDraws(1, 1, d)
    && position == Final(d)
    && (if position == 0 then item == None && count == 0
        else item == Some(stream[position - 1]) && count == Tail(stream, position))
  }

  /** The estimators from lo up to hi track the stream. */
  ghost predicate Tracking<T(!new)>(stream: seq<T>, draws: seq<Draws>, tracked: seq<Option<T>>, counts: seq<int>, positions: seq<int>,
                                    lo: nat, hi: nat)
    requires hi <= |draws| == |tracked| == |counts| == |positions|
  {
    forall e :: lo <= e < hi ==> Tracks(stream, draws[e], tracked[e], counts[e], positions[e])
  }

  lemma AllTracking<T(!new)>(stream: seq<T>, draws: seq<Draws>, tracked: seq<Option<T>>, counts: seq<int>, positions: seq<int>)
    requires |draws| == |tracked| == |counts| == |positions|
    requires forall e :: 0 <= e < |draws| ==> Tracks(stream, draws[e], tracked[e], counts[e], positions[e])
    ensures Tracking(stream, draws, tracked, counts, positions, 0, |draws|)
  {
    hide Tracks;
  }

  lemma NoneTracking<T(!new)>(stream: seq<T>, draws: seq<Draws>, tracked: seq<Option<T>>, counts: seq<int>, positions: seq<int>)
    requires |draws| == |tracked| == |counts| == |positions|
    ensures Tracking(stream, draws, tracked, counts, positions, 0, 0)
  {
  }

  lemma TrackingAll<T(!new)>(stream: seq<T>, draws: seq<Draws>, tracked: seq<Option<T>>, counts: seq<int>, positions: seq<int>)
    requires |draws| == |tracked| == |counts| == |positions| && Tracking(stream, draws, tracked, counts, positions, 0, |draws|)
    ensures forall e :: 0 <= e < |draws| ==> Tracks(stream, draws[e], tracked[e], counts[e], positions[e])
  {
    hide Tracks;
  }

  /** Estimator i observes the item. */
  lemma TrackingStep<T(!new)>(past: seq<T>, draws: seq<Draws>, tracked: seq<Option<T>>, counts: seq<int>, positions: seq<int>,
                              i: nat, item: T, j: int)
    requires i < |draws| == |tracked| == |counts| == |positions| && 1 <= j <= |past| + 1
    requires Tracking(past + [item], draws, tracked, counts, positions, 0, i)
    requires Tracking(past, draws, tracked, counts, positions, i, |draws|)
    ensures var now, draws' := past + [item], draws[i := draws[i] + [j]];
            var tracked' := if j == 1 then tracked[i := Some(item)] else tracked;
            var counts' := if j == 1 then counts[i := 1] else if tracked[i] == Some(item) then counts[i := counts[i] + 1] else counts;
            var positions' := if j == 1 then positions[i := |now|] else positions;
            && Tracking(now, draws', tracked', counts', positions', 0, i + 1)
            && Tracking(past, draws', tracked', counts', positions', i + 1, |draws|)
  {
    hide Tracks;
    TracksStep(past, draws[i], tracked[i], counts[i], positions[i], item, j);
  }

  /** The first i estimators have made their draws. */
  ghost predicate Drawn(before: seq<Draws>, draws: seq<Draws>, js: seq<int>, i: nat) {
    && |before| == |draws| == |js| && i <= |js|
    && (forall e :: 0 <= e < i ==> draws[e] == before[e] + [js[e]])
    && (forall e :: i <= e < |js| ==> draws[e] == before[e])
  }

  lemma NoneDrawn(draws: seq<Draws>, js: seq<int>)
    requires |draws| == |js|
    ensures Drawn(draws, draws, js, 0)
  {
  }

  lemma AllDrawn(before: seq<Draws>, draws: seq<Draws>, js: seq<int>)
    requires Drawn(before, draws, js, |js|)
    ensures |before| == |draws| == |js| && forall e :: 0 <= e < |js| ==> draws[e] == before[e] + [js[e]]
  {
  }

  lemma DrawnStep(before: seq<Draws>, draws: seq<Draws>, js: seq<int>, i: nat)
    requires Drawn(before, draws, js, i) && i < |js|
    ensures Drawn(before, draws[i := draws[i] + [js[i]]], js, i + 1)
  {
  }

  /** A count of occurrences from some stream position on. */
  ghost predicate IsTail<T(!new)>(stream: seq<T>, count: int) {
    exists p :: 1 <= p <= |stream| && count == Tail(stream, p)
  }

  lemma TracksStep<T(!new)>(stream: seq<T>, d: Draws, item: Option<T>, count: int, position: int, next: T, j: int)
    requires Tracks(stream, d, item, count, position) && 1 <= j <= |stream| + 1
    ensures j == 1 ==> Tracks(stream + [next], d + [j], Some(next), 1, |stream| + 1)
    ensures j != 1 ==> Tracks(stream + [next], d + [j], item, if item == Some(next) then count + 1 else count, position)
  {
    var s', d' := stream + [next], d + [j];
    assert d'[..|d|] == d && d'[|d|] == j;
    if j == 1 {
      assert s'[|stream|..] == [next];
      CountAppend([], next, next);
      assert [] + [next] == [next];
      assert Tail(s', |stream| + 1) == Count([next], next);
    } else if position > 0 {
      assert s'[position - 1..] == stream[position - 1..] + [next];
      CountAppend(stream[position - 1..], next, stream[position - 1]);
    }
  }

  ghost predicate AtMostOften<T(!new)>(stream: seq<T>, f: nat) {
    forall x :: Count(stream, x) <= f
  }

  lemma TrackedValue<T(!new)>(stream: seq<T>, d: Draws, item: Option<T>, count: int, position: int)
    requires Tracks(stream, d, item, count, position) && stream != []
    ensures 1 <= count && IsTail(stream, count)
    ensures ValueOf(stream)(d) == |stream| * (2 * count - 1)
  {
    FinalPositive(d);
    var rest := stream[position - 1..];
    CountPositive(rest, stream[position - 1]);
    assert rest[0] == stream[position - 1];
  }

  lemma ValuesAt(n: int, counts: seq<int>, i: nat)
    requires n > 0 && i < |counts| && counts[i] >= 1
    ensures Values(n, counts)[i] == (n * (2 * counts[i] - 1)) as real
  {
    IntMulMonotone(n, 0, 2 * counts[i] - 1);
  }

  function Values(n: int, counts: seq<int>): (values: seq<real>)
    ensures |values| == |counts|
  {
    seq(|counts|, i requires 0 <= i < |counts| =>
      var x := (n * (2 * counts[i] - 1)) as real; if x > 0.0 then x else 0.0)
  }

  lemma {:induction false} CountSuffix<T>(s: seq<T>, k: nat, x: T)
    requires k <= |s|
    ensures Count(s[k..], x) <= Count(s, x)
  {
    if k > 0 {
      CountSuffix(s[1..], k - 1, x);
      assert s[1..][k - 1..] == s[k..];
    } else {
      assert s[0..] == s;
    }
  }

  /** Every order statistic of the group means stays within the range of the single estimates. */
  lemma MeansInRange<T(!new)>(stream: seq<T>, n: int, counts: seq<int>, groups: nat)
    requires n == |stream| > 0 && 1 <= groups <= |counts|
    requires forall i :: 0 <= i < |counts| ==> 1 <= counts[i]
    requires forall i :: 0 <= i < |counts| ==> IsTail(stream, counts[i])
    ensures n as real <= Median(GroupMeans(Values(n, counts), groups, groups))
    ensures forall f: nat :: AtMostOften(stream, f) ==>
              Median(GroupMeans(Values(n, counts), groups, groups)) <= (n * (2 * f - 1)) as real
  {
    var vs := Values(n, counts);
    var means := GroupMeans(vs, groups, groups);
    forall x
      ensures Count(stream, x) <= n
    {
      CountPositive(stream, x);
    }
    assert AtMostOften(stream, n);
    forall f: nat | AtMostOften(stream, f)
      ensures n as real <= Median(means) <= (n * (2 * f - 1)) as real
    {
      CountsAtMost(stream, counts, f);
      ValuesBounded(n, counts, f);
      GroupMeansBounded(n as real, vs, (n * (2 * f - 1)) as real, groups, groups);
      MedianBounded(n as real, means, (n * (2 * f - 1)) as real);
    }
  }

  lemma CountsAtMost<T(!new)>(stream: seq<T>, counts: seq<int>, f: nat)
    requires AtMostOften(stream, f)
    requires forall i :: 0 <= i < |counts| ==> IsTail(stream, counts[i])
    ensures forall i :: 0 <= i < |counts| ==> counts[i] <= f
  {
    forall i | 0 <= i < |counts|
      ensures counts[i] <= f
    {
      var p :| 1 <= p <= |stream| && counts[i] == Tail(stream, p);
      CountSuffix(stream, p - 1, stream[p - 1]);
    }
  }

  lemma ValuesBounded(n: int, counts: seq<int>, f: nat)
    requires n > 0 && forall i :: 0 <= i < |counts| ==> 1 <= counts[i] <= f
    ensures Bounded(n as real, Values(n, counts), (n * (2 * f - 1)) as real)
  {
    forall i | 0 <= i < |counts|
      ensures n as real <= Values(n, counts)[i] <= (n * (2 * f - 1)) as real
    {
      var v := n * (2 * counts[i] - 1);
      assert n <= v <= n * (2 * f - 1) by {
        IntMulMonotone(n, 1, 2 * counts[i] - 1);
        IntMulMonotone(n, 2 * counts[i] - 1, 2 * f - 1);
      }
      assert n as real <= v as real <= (n * (2 * f - 1)) as real;
    }
  }

  lemma IntMulMonotone(n: int, a: int, b: int)
    requires n > 0 && a <= b
    ensures n * a <= n * b
  {
  }
}
