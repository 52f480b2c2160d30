/** Median of group means, as both the second-moment and the distinct-count estimator use it. */
module Aggregate {
  import opened Reals

  function Sum(s: seq<real>): real {
    if s == [] then 0.0 else Sum(s[..|s| - 1]) + s[|s| - 1]
  }

  function Mean(s: seq<real>): real
    requires s != []
  {
    Sum(s) / |s| as real
  }

  // ---------------------------------------------------------------- sorting

  ghost predicate SortedBy<T>(s: seq<T>, key: T -> real) {
    forall i, j :: 0 <= i < j < |s| ==> key(s[i]) <= key(s[j])
  }

  function InsertBy<T>(x: T, s: seq<T>, key: T -> real): (r: seq<T>)
    ensures |r| == |s| + 1
  {
    if s == [] || key(x) <= key(s[0]) then [x] + s else [s[0]] + InsertBy(x, s[1..], key)
  }

  function SortBy<T>(s: seq<T>, key: T -> real): (r: seq<T>)
    ensures |r| == |s|
  {
    if s == [] then [] else InsertBy(s[0], SortBy(s[1..], key), key)
  }

  lemma {:induction false} InsertByContents<T>(x: T, s: seq<T>, key: T -> real)
    ensures multiset(InsertBy(x, s, key)) == multiset(s) + multiset{x}
  {
    if s != [] && key(x) > key(s[0]) {
      InsertByContents(x, s[1..], key);
      assert s == [s[0]] + s[1..];
    }
  }

  lemma {:induction false} InsertBySorted<T>(x: T, s: seq<T>, key: T -> real)
    requires SortedBy(s, key)
    ensures SortedBy(InsertBy(x, s, key), key)
  {
    if s != [] && key(x) > key(s[0]) {
      InsertBySorted(x, s[1..], key);
      InsertByContents(x, s[1..], key);
      var r := InsertBy(x, s[1..], key);
      forall i | 0 <= i < |r|
        ensures key(s[0]) <= key(r[i])
      {
        assert r[i] in multiset(r);
        assert r[i] == x || r[i] in s[1..];
      }
    }
  }

  /** Sorting gives a rearrangement ordered by the key. */
  lemma {:induction false} SortByCorrect<T>(s: seq<T>, key: T -> real)
    ensures SortedBy(SortBy(s, key), key) && multiset(SortBy(s, key)) == multiset(s)
  {
    if s != [] {
      SortByCorrect(s[1..], key);
      InsertByContents(s[0], SortBy(s[1..], key), key);
      InsertBySorted(s[0], SortBy(s[1..], key), key);
      assert s == [s[0]] + s[1..];
    }
  }

  function Itself(): (key: real -> real)
    ensures forall x :: key(x) == x
  {
    x => x
  }

  ghost predicate Sorted(s: seq<real>) {
    forall i, j :: 0 <= i < j < |s| ==> s[i] <= s[j]
  }

  function Insert(x: real, s: seq<real>): (r: seq<real>)
    ensures |r| == |s| + 1
  {
    InsertBy(x, s, Itself())
  }

  function Sort(s: seq<real>): (r: seq<real>)
    ensures |r| == |s|
  {
    SortBy(s, Itself())
  }

  /** Sorting numbers gives an ordered rearrangement. */
  lemma SortCorrect(s: seq<real>)
    ensures Sorted(Sort(s)) && multiset(Sort(s)) == multiset(s)
  {
    hide SortBy;
    SortByCorrect(s, Itself());
  }

  lemma InsertStep(x: real, s: seq<real>)
    ensures Insert(x, s) == if s == [] || x <= s[0] then [x] + s else [s[0]] + Insert(x, s[1..])
  {
  }

  lemma SortStep(s: seq<real>)
    ensures Sort(s) == if s == [] then [] else Insert(s[0], Sort(s[1..]))
  {
  }

  /** The middle of the sorted values, or the average of the two middle ones. */
  function Median(s: seq<real>): real
    requires s != []
  {
    var t, mid := Sort(s), |s| / 2;
    if |s| % 2 == 1 then t[mid] else (t[mid - 1] + t[mid]) / 2.0
  }

  // ---------------------------------------------------------------- order statistics

  function Less(s: seq<real>, v: real): nat {
    if s == [] then 0 else Less(s[1..], v) + if s[0] < v then 1 else 0
  }

  function Greater(s: seq<real>, v: real): nat {
    if s == [] then 0 else Greater(s[1..], v) + if s[0] > v then 1 else 0
  }

  /** v is the value of rank k, counted from 0: at most k values are less, and at most the other
      ones are greater. */
  ghost predicate Rank(s: seq<real>, k: int, v: real) {
    v in s && Less(s, v) <= k && Greater(s, v) <= |s| - 1 - k
  }

  /** The middle value, or half of the sum of the two middle ones. */
  ghost predicate Middle(s: seq<real>, v: real) {
    if |s| % 2 == 1 then Rank(s, |s| / 2, v)
    else exists a, b :: MiddlePair(s, a, b) && v == (a + b) / 2.0
  }

  ghost predicate MiddlePair(s: seq<real>, a: real, b: real) {
    Rank(s, |s| / 2 - 1, a) && Rank(s, |s| / 2, b)
  }

  lemma {:induction false} LessAndGreater(s: seq<real>, x: real, y: real)
    requires x < y
    ensures Less(s, y) + Greater(s, x) >= |s|
  {
    if s != [] {
      LessAndGreater(s[1..], x, y);
    }
  }

  /** Only one value has a rank. */
  lemma RankUnique(s: seq<real>, k: int, v: real, w: real)
    requires Rank(s, k, v) && Rank(s, k, w)
    ensures v == w
  {
    if v < w {
      LessAndGreater(s, v, w);
    } else if w < v {
      LessAndGreater(s, w, v);
    }
  }

  lemma {:induction false} InsertLess(x: real, s: seq<real>, v: real)
    ensures Less(Insert(x, s), v) == Less(s, v) + if x < v then 1 else 0
    ensures Greater(Insert(x, s), v) == Greater(s, v) + if x > v then 1 else 0
  {
    hide Insert;
    InsertStep(x, s);
    if s != [] {
      InsertLess(x, s[1..], v);
    }
    assert ([x] + s)[1..] == s;
    assert s != [] ==> ([s[0]] + Insert(x, s[1..]))[1..] == Insert(x, s[1..]);
  }

  lemma {:induction false} SortLess(s: seq<real>, v: real)
    ensures Less(Sort(s), v) == Less(s, v) && Greater(Sort(s), v) == Greater(s, v)
  {
    hide Sort, Insert;
    SortStep(s);
    if s != [] {
      SortLess(s[1..], v);
      InsertLess(s[0], Sort(s[1..]), v);
    }
  }

  lemma {:induction false} SortedRank(t: seq<real>, k: nat)
    requires Sorted(t) && k < |t|
    ensures Less(t, t[k]) <= k && Greater(t, t[k]) <= |t| - 1 - k
  {
    var rest := t[1..];
    if k > 0 {
      SortedRank(rest, k - 1);
    } else {
      NoneLess(t, t[0]);
      GreaterAtMost(rest, t[0]);
    }
  }

  lemma {:induction false} NoneLess(s: seq<real>, v: real)
    requires forall i :: 0 <= i < |s| ==> s[i] >= v
    ensures Less(s, v) == 0
  {
    if s != [] {
      NoneLess(s[1..], v);
    }
  }

  lemma {:induction false} GreaterAtMost(s: seq<real>, v: real)
    ensures Greater(s, v) <= |s| && Less(s, v) <= |s|
  {
    if s != [] {
      GreaterAtMost(s[1..], v);
    }
  }

  /** The k-th sorted value has rank k. */
  lemma SortRank(s: seq<real>, k: nat)
    requires k < |s|
    ensures Rank(s, k, Sort(s)[k])
  {
    hide Sort, Less, Greater;
    SortCorrect(s);
    var v := Sort(s)[k];
    SortLess(s, v);
    SortedRank(Sort(s), k);
    assert v in multiset(Sort(s));
  }

  /** The median lies in the middle. */
  lemma MedianMiddle(s: seq<real>)
    requires s != []
    ensures Middle(s, Median(s))
  {
    hide Sort, Rank;
    SortRank(s, |s| / 2);
    if |s| % 2 == 0 {
      SortRank(s, |s| / 2 - 1);
      assert MiddlePair(s, Sort(s)[|s| / 2 - 1], Sort(s)[|s| / 2]);
    }
  }

  lemma {:induction false} LessConcat(s: seq<real>, t: seq<real>, v: real)
    ensures Less(s + t, v) == Less(s, v) + Less(t, v) && Greater(s + t, v) == Greater(s, v) + Greater(t, v)
  {
    if s == [] {
      assert s + t == t;
    } else {
      LessConcat(s[1..], t, v);
      assert (s + t)[1..] == s[1..] + t;
    }
  }

  /** Splitting the values into a low and a high half of equal size: the median is half of the
      greatest low plus the least high value. */
  lemma MedianOfHalves(s: seq<real>, low: seq<real>, high: seq<real>, a: real, b: real)
    requires multiset(s) == multiset(low + high) && |low| == |high| > 0
    requires a in low && (forall x :: x in low ==> x <= a) && b in high && (forall x :: x in high ==> b <= x)
    requires a <= b
    ensures s != [] && Median(s) == (a + b) / 2.0
  {
    hide Median, Less, Greater, Middle;
    var all := low + high;
    assert |s| == |multiset(s)| == |all|;
    assert forall i :: 0 <= i < |low| ==> low[i] in low;
    assert forall i :: 0 <= i < |high| ==> high[i] in high;
    SameCounts(s, all, a);
    SameCounts(s, all, b);
    assert a in multiset(all) && b in multiset(all);
    LessConcat(low, high, a);
    LessConcat(low, high, b);
    OneNotLess(low, a);
    NoneLess(high, a);
    NoneLess(high, b);
    OneNotGreater(high, b);
    NoneGreater(low, a);
    NoneGreater(low, b);
    GreaterAtMost(low, b);
    GreaterAtMost(high, a);
    MedianMiddle(s);
    MiddleIs(s, Median(s), a, b);
  }

  lemma MiddleIs(s: seq<real>, v: real, a: real, b: real)
    requires Middle(s, v) && |s| % 2 == 0 && Rank(s, |s| / 2 - 1, a) && Rank(s, |s| / 2, b)
    ensures v == (a + b) / 2.0
  {
    hide Rank;
    var x, y :| MiddlePair(s, x, y) && v == (x + y) / 2.0;
    RankUnique(s, |s| / 2 - 1, x, a);
    RankUnique(s, |s| / 2, y, b);
  }

  lemma {:induction false} OneNotLess(s: seq<real>, v: real)
    requires v in s
    ensures Less(s, v) <= |s| - 1
  {
    if s[0] == v {
      GreaterAtMost(s[1..], v);
    } else {
      OneNotLess(s[1..], v);
    }
  }

  lemma {:induction false} OneNotGreater(s: seq<real>, v: real)
    requires v in s
    ensures Greater(s, v) <= |s| - 1
  {
    if s[0] == v {
      GreaterAtMost(s[1..], v);
    } else {
      OneNotGreater(s[1..], v);
    }
  }

  lemma {:induction false} NoneGreater(s: seq<real>, v: real)
    requires forall i :: 0 <= i < |s| ==> s[i] <= v
    ensures Greater(s, v) == 0
  {
    if s != [] {
      NoneGreater(s[1..], v);
    }
  }

  /** Counting does not depend on the order. */
  lemma {:induction false} SameCounts(s: seq<real>, t: seq<real>, v: real)
    requires multiset(s) == multiset(t)
    ensures Less(s, v) == Less(t, v) && Greater(s, v) == Greater(t, v)
  {
    if s == [] {
      assert |t| == |multiset(t)| == 0;
    } else {
      hide Less, Greater;
      var j := FirstIn(s, t);
      LessStep(s, v);
      WithoutOne(t, j, v);
      SameCounts(s[1..], t[..j] + t[j + 1..], v);
    }
  }

  lemma LessStep(s: seq<real>, v: real)
    requires s != []
    ensures Less(s, v) == Less(s[1..], v) + if s[0] < v then 1 else 0
    ensures Greater(s, v) == Greater(s[1..], v) + if s[0] > v then 1 else 0
  {
  }

  function IndexOf(x: real, t: seq<real>): (j: nat)
    requires x in t
    ensures j < |t| && t[j] == x
  {
    if t[0] == x then 0 else 1 + IndexOf(x, t[1..])
  }

  /** The first value of one list is somewhere in its rearrangement. */
  lemma FirstIn(s: seq<real>, t: seq<real>) returns (j: nat)
    requires s != [] && multiset(s) == multiset(t)
    ensures j < |t| && t[j] == s[0] && multiset(s[1..]) == multiset(t[..j] + t[j + 1..])
  {
    hide IndexOf;
    SharedFirst(s, t);
    j := IndexOf(s[0], t);
    RemoveFirst(s);
    RemoveOne(t, j);
  }

  lemma SharedFirst(s: seq<real>, t: seq<real>)
    requires s != [] && multiset(s) == multiset(t)
    ensures s[0] in t
  {
    assert s[0] in multiset(t);
  }

  lemma RemoveFirst(s: seq<real>)
    requires s != []
    ensures multiset(s[1..]) == multiset(s) - multiset{s[0]}
  {
    assert s == [s[0]] + s[1..];
  }

  lemma RemoveOne(t: seq<real>, j: nat)
    requires j < |t|
    ensures multiset(t[..j] + t[j + 1..]) == multiset(t) - multiset{t[j]}
  {
    assert t == t[..j] + [t[j]] + t[j + 1..];
  }

  lemma WithoutOne(t: seq<real>, j: nat, v: real)
    requires j < |t|
    ensures var rest := t[..j] + t[j + 1..];
            && Less(t, v) == Less(rest, v) + (if t[j] < v then 1 else 0)
            && Greater(t, v) == Greater(rest, v) + (if t[j] > v then 1 else 0)
  {
    assert t == t[..j] + t[j..];
    LessStep(t[j..], v);
    hide Less, Greater;
    LessConcat(t[..j], t[j..], v);
    LessConcat(t[..j], t[j + 1..], v);
  }

  // ---------------------------------------------------------------- sums and means

  /** Sums of parts add up; with `SumSingle` this determines the sum. */
  lemma {:induction false} SumConcat(s: seq<real>, t: seq<real>)
    ensures Sum(s + t) == Sum(s) + Sum(t)
  {
    if t == [] {
      assert s + t == s;
    } else {
      var init := t[..|t| - 1];
      SumConcat(s, init);
      assert (s + t)[..|s + t| - 1] == s + init;
    }
  }

  lemma SumSingle(x: real)
    ensures Sum([x]) == x && Sum([]) == 0.0
  {
    assert [x][..0] == [];
  }

  lemma MeanIs(s: seq<real>)
    requires s != []
    ensures Mean(s) * |s| as real == Sum(s)
  {
    hide Sum;
    Quotient(Sum(s), |s| as real);
  }

  // ---------------------------------------------------------------- slices of equal size

  /** Where the g-th slice starts. */
  function Start(size: nat, g: nat): nat {
    g * size
  }

  lemma StartStep(size: nat, g: nat)
    ensures Start(size, 0) == 0 && Start(size, g + 1) == Start(size, g) + size
  {
  }

  lemma {:induction false} StartMonotone(size: nat, a: nat, b: nat)
    requires a <= b
    ensures Start(size, a) <= Start(size, b)
  {
    hide Start;
    if a < b {
      StartMonotone(size, a, b - 1);
      StartStep(size, b - 1);
    }
  }

  /** The slices fit into what is divided among them, exactly if nothing is left over. */
  lemma SlicesFit(n: nat, groups: nat)
    requires 1 <= groups <= n
    ensures n / groups >= 1 && Start(n / groups, groups) <= n
    ensures n % groups == 0 ==> Start(n / groups, groups) == n
  {
    var size := n / groups;
    assert n == groups * size + n % groups;
  }

  /** Slice g lies inside. */
  lemma SliceInside(n: nat, groups: nat, g: nat)
    requires g < groups <= n
    ensures n / groups >= 1
    ensures Start(n / groups, g) < Start(n / groups, g + 1) <= n
    ensures Start(n / groups, g + 1) == Start(n / groups, g) + n / groups
  {
    hide Start;
    SlicesFit(n, groups);
    StartStep(n / groups, g);
    StartMonotone(n / groups, g + 1, groups);
  }

  // ---------------------------------------------------------------- bounds

  ghost predicate Bounded(lo: real, s: seq<real>, hi: real) {
    forall i :: 0 <= i < |s| ==> lo <= s[i] <= hi
  }

  lemma {:induction false} SumBounded(lo: real, s: seq<real>, hi: real)
    requires Bounded(lo, s, hi)
    ensures Mul(lo, |s| as real) <= Sum(s) <= Mul(hi, |s| as real)
  {
    if s == [] {
      MulZero(lo);
      MulZero(hi);
    } else {
      hide Mul;
      SumBounded(lo, s[..|s| - 1], hi);
      MulSuccessor(lo, |s| - 1);
      MulSuccessor(hi, |s| - 1);
    }
  }

  lemma MeanBounded(lo: real, s: seq<real>, hi: real)
    requires s != [] && Bounded(lo, s, hi)
    ensures lo <= Mean(s) <= hi
  {
    hide Sum;
    SumBounded(lo, s, hi);
    QuotientBounds(lo, Sum(s), |s| as real, hi);
  }

  lemma QuotientBounds(lo: real, a: real, n: real, hi: real)
    requires n > 0.0 && Mul(lo, n) <= a <= Mul(hi, n)
    ensures lo <= a / n <= hi
  {
    Quotient(a, n);
    MulOrder(lo, a / n, n);
    MulOrder(a / n, hi, n);
  }

  lemma MedianBounded(lo: real, s: seq<real>, hi: real)
    requires s != [] && Bounded(lo, s, hi)
    ensures lo <= Median(s) <= hi
  {
    hide Sort;
    SortCorrect(s);
    var t := Sort(s);
    forall i | 0 <= i < |t|
      ensures lo <= t[i] <= hi
    {
      assert t[i] in multiset(t);
      assert t[i] in s;
    }
  }

  // ---------------------------------------------------------------- monotonicity

  ghost predicate Below(s: seq<real>, t: seq<real>) {
    |s| == |t| && forall i :: 0 <= i < |s| ==> s[i] <= t[i]
  }

  lemma {:induction false} SumMonotone(s: seq<real>, t: seq<real>)
    requires Below(s, t)
    ensures Sum(s) <= Sum(t)
  {
    if s != [] {
      SumMonotone(s[..|s| - 1], t[..|t| - 1]);
    }
  }

  lemma MeanMonotone(s: seq<real>, t: seq<real>)
    requires s != [] && Below(s, t)
    ensures Mean(s) <= Mean(t)
  {
    SumMonotone(s, t);
  }

  lemma {:induction false} InsertMonotone(x: real, s: seq<real>, y: real, t: seq<real>)
    requires Sorted(s) && Sorted(t) && Below(s, t) && x <= y
    ensures Below(Insert(x, s), Insert(y, t))
    decreases |s|
  {
    hide Insert;
    InsertStep(x, s);
    InsertStep(y, t);
    if s != [] {
      InsertMonotone(x, s[1..], y, t[1..]);
      if x <= s[0] && y > t[0] {
        // x stays in front while y moves behind t[0]
        InsertMonotone(s[0], s[1..], y, t[1..]);
        InsertFront(s);
      } else if x > s[0] && y <= t[0] {
        InsertMonotone(x, s[1..], t[0], t[1..]);
        InsertFront(t);
      }
    }
  }

  lemma InsertFront(s: seq<real>)
    requires Sorted(s) && s != []
    ensures Insert(s[0], s[1..]) == s
  {
    hide Insert;
    InsertStep(s[0], s[1..]);
    assert s == [s[0]] + s[1..];
  }

  /** Raising values never lowers any rank of the sorted list. */
  lemma {:induction false} SortMonotone(s: seq<real>, t: seq<real>)
    requires Below(s, t)
    ensures Below(Sort(s), Sort(t))
  {
    hide Sort, Insert;
    SortStep(s);
    SortStep(t);
    if s != [] {
      SortMonotone(s[1..], t[1..]);
      SortCorrect(s[1..]);
      SortCorrect(t[1..]);
      InsertMonotone(s[0], Sort(s[1..]), t[0], Sort(t[1..]));
    }
  }

  lemma MedianMonotone(s: seq<real>, t: seq<real>)
    requires s != [] && Below(s, t)
    ensures Median(s) <= Median(t)
  {
    SortMonotone(s, t);
  }
}
