/** Exact counting over finite sets: the tools behind the statements about all draw
    sequences of a random generator. */
module Counting {

  /** One run's random draws, oldest first. */
  type Draws = seq<int>

  /** True of every integer; it gives comprehensions over a range a term to be matched on. */
  predicate Inside(x: int) {
    true
  }

  /** The integers from lo up to and including hi. */
  ghost function Range(lo: int, hi: int): (s: set<int>)
    ensures |s| == if lo <= hi then hi - lo + 1 else 0
  {
    RangeCard(lo, hi);
    set x | lo <= x <= hi && Inside(x)
  }

  lemma {:induction false} RangeCard(lo: int, hi: int)
    ensures |set x | lo <= x <= hi && Inside(x)| == if lo <= hi then hi - lo + 1 else 0
    decreases hi - lo
  {
    if lo <= hi {
      RangeCard(lo, hi - 1);
      assert (set x | lo <= x <= hi && Inside(x)) == (set x | lo <= x <= hi - 1 && Inside(x)) + {hi};
    } else {
      assert (set x | lo <= x <= hi && Inside(x)) == {};
    }
  }

  ghost function Pick<T>(s: set<T>): (x: T)
    requires s != {}
    ensures x in s
  {
    var x :| x in s; x
  }

  /** The one-draw extensions of a single run. */
  ghost function Extensions(d: Draws, js: set<int>): set<Draws> {
    set j | j in js :: d + [j]
  }

  lemma InExtensions(d: Draws, js: set<int>, e: Draws)
    ensures e in Extensions(d, js) <==> |e| > 0 && e[..|e| - 1] == d && e[|e| - 1] in js
  {
    if e in Extensions(d, js) {
      var j :| j in js && e == d + [j];
      assert e[..|e| - 1] == d;
    }
    if |e| > 0 && e[..|e| - 1] == d && e[|e| - 1] in js {
      var j := e[|e| - 1];
      assert e == d + [j];
      assert d + [j] in Extensions(d, js);
    }
  }

  lemma {:induction false} ExtensionsCard(d: Draws, js: set<int>)
    ensures |Extensions(d, js)| == |js|
  {
    if js == {} {
      assert Extensions(d, js) == {};
    } else {
      var j := Pick(js);
      ExtensionsCard(d, js - {j});
      forall e
        ensures e in Extensions(d, js) <==> e in Extensions(d, js - {j}) + {d + [j]}
      {
        InExtensions(d, js, e);
        InExtensions(d, js - {j}, e);
        assert |e| > 0 ==> e == e[..|e| - 1] + [e[|e| - 1]];
        assert (d + [j])[..|d|] == d;
      }
      InExtensions(d, js - {j}, d + [j]);
      assert Extensions(d, js) == Extensions(d, js - {j}) + {d + [j]};
    }
  }

  /** The draw sequences of `runs` extended by one more draw, taken from `choices`. */
  ghost function Extend(runs: set<Draws>, choices: Draws -> set<int>): set<Draws> {
    set d, j | d in runs && j in choices(d) :: d + [j]
  }

  lemma InExtend(runs: set<Draws>, choices: Draws -> set<int>, e: Draws)
    ensures e in Extend(runs, choices) <==>
              |e| > 0 && e[..|e| - 1] in runs && e[|e| - 1] in choices(e[..|e| - 1])
  {
    if e in Extend(runs, choices) {
      var d, j :| d in runs && j in choices(d) && e == d + [j];
      assert e[..|e| - 1] == d;
    }
    if |e| > 0 {
      var d, j := e[..|e| - 1], e[|e| - 1];
      assert e == d + [j];
      if d in runs && j in choices(d) {
        assert d + [j] in Extend(runs, choices);
      }
    }
  }

  lemma ExtendSplit(runs: set<Draws>, choices: Draws -> set<int>, d: Draws)
    requires d in runs
    ensures Extend(runs, choices) == Extend(runs - {d}, choices) + Extensions(d, choices(d))
    ensures Extend(runs - {d}, choices) !! Extensions(d, choices(d))
  {
    forall e
      ensures e in Extend(runs, choices) <==> e in Extend(runs - {d}, choices) || e in Extensions(d, choices(d))
      ensures !(e in Extend(runs - {d}, choices) && e in Extensions(d, choices(d)))
    {
      InExtend(runs, choices, e);
      InExtend(runs - {d}, choices, e);
      InExtensions(d, choices(d), e);
    }
  }

  /** When every run can be extended in c ways, there are c times as many extended runs. */
  lemma {:induction false} ExtendCard(runs: set<Draws>, choices: Draws -> set<int>, c: nat)
    requires forall d :: d in runs ==> |choices(d)| == c
    ensures |Extend(runs, choices)| == |runs| * c
    decreases |runs|
  {
    if runs == {} {
      assert Extend(runs, choices) == {};
    } else {
      hide Extend;
      var d := Pick(runs);
      ExtendCard(runs - {d}, choices, c);
      ExtendCardStep(runs, choices, d, c);
      MulSucc(|runs - {d}|, c);
    }
  }

  lemma ExtendCardStep(runs: set<Draws>, choices: Draws -> set<int>, d: Draws, c: nat)
    requires d in runs && |choices(d)| == c
    ensures |Extend(runs, choices)| == |Extend(runs - {d}, choices)| + c
    ensures |runs| == |runs - {d}| + 1
  {
    hide Extend, Extensions;
    ExtendSplit(runs, choices, d);
    ExtensionsCard(d, choices(d));
  }

  // ---------------------------------------------------------------- sums over sets

  ghost function SumOver<T>(s: set<T>, f: T -> int): int {
    if s == {} then 0
    else
      var x :| x in s;
      f(x) + SumOver(s - {x}, f)
  }

  /** The element that is taken out first does not matter. */
  lemma {:induction false} SumOverTake<T>(s: set<T>, f: T -> int, x: T)
    requires x in s
    ensures SumOver(s, f) == f(x) + SumOver(s - {x}, f)
    decreases s
  {
    var y :| y in s && SumOver(s, f) == f(y) + SumOver(s - {y}, f);
    if x != y {
      SumOverTake(s - {y}, f, x);
      SumOverTake(s - {x}, f, y);
      assert s - {y} - {x} == s - {x} - {y};
    }
  }

  lemma {:induction false} SumOverSame<T>(s: set<T>, f: T -> int, g: T -> int)
    requires forall x :: x in s ==> f(x) == g(x)
    ensures SumOver(s, f) == SumOver(s, g)
    decreases s
  {
    if s != {} {
      var x :| x in s;
      SumOverTake(s, f, x);
      SumOverTake(s, g, x);
      SumOverSame(s - {x}, f, g);
    }
  }

  /** The sum of g(lo), ..., g(hi). */
  ghost function SumRange(lo: int, hi: int, g: int -> int): int
    decreases hi - lo
  {
    if hi < lo then 0 else SumRange(lo, hi - 1, g) + g(hi)
  }

  lemma {:induction false} SumRangeSame(lo: int, hi: int, f: int -> int, g: int -> int)
    requires forall i :: lo <= i <= hi ==> f(i) == g(i)
    ensures SumRange(lo, hi, f) == SumRange(lo, hi, g)
    decreases hi - lo
  {
    if lo <= hi {
      SumRangeSame(lo, hi - 1, f, g);
    }
  }

  /** Raising one term raises the sum by as much. */
  lemma {:induction false} SumRangeBump(lo: int, hi: int, f: int -> int, g: int -> int, at: int, by_: int)
    requires lo <= at <= hi && g(at) == f(at) + by_
    requires forall i :: lo <= i <= hi && i != at ==> g(i) == f(i)
    ensures SumRange(lo, hi, g) == SumRange(lo, hi, f) + by_
    decreases hi - lo
  {
    if at == hi {
      SumRangeSame(lo, hi - 1, f, g);
    } else {
      SumRangeBump(lo, hi - 1, f, g, at, by_);
    }
  }

  lemma {:induction false} SumRangeFirst(lo: int, hi: int, f: int -> int)
    requires lo <= hi
    ensures SumRange(lo, hi, f) == f(lo) + SumRange(lo + 1, hi, f)
    decreases hi - lo
  {
    if lo < hi {
      SumRangeFirst(lo, hi - 1, f);
    }
  }

  ghost function Scaled(c: int, f: int -> int): int -> int {
    i => c * f(i)
  }

  lemma {:induction false} SumRangeScale(lo: int, hi: int, c: int, f: int -> int)
    ensures SumRange(lo, hi, Scaled(c, f)) == c * SumRange(lo, hi, f)
    decreases hi - lo
  {
    if lo <= hi {
      SumRangeScale(lo, hi - 1, c, f);
      assert c * (SumRange(lo, hi - 1, f) + f(hi)) == c * SumRange(lo, hi - 1, f) + c * f(hi);
    }
  }

  ghost function Fibre<T>(s: set<T>, pos: T -> int, p: int): set<T> {
    set x | x in s && pos(x) == p
  }

  ghost function FibreWeight<T>(s: set<T>, pos: T -> int, g: int -> int): int -> int {
    p => |Fibre(s, pos, p)| * g(p)
  }

  ghost function Compose<T>(pos: T -> int, g: int -> int): T -> int {
    x => g(pos(x))
  }

  /** Summing a value that depends only on pos(x): group the elements by pos. */
  lemma {:induction false} SumByFibre<T>(s: set<T>, pos: T -> int, lo: int, hi: int, g: int -> int)
    requires forall x :: x in s ==> lo <= pos(x) <= hi
    ensures SumOver(s, Compose(pos, g)) == SumRange(lo, hi, FibreWeight(s, pos, g))
    decreases s
  {
    hide Fibre;
    if s == {} {
      EmptyFibres<T>(pos);
      SumRangeSame(lo, hi, FibreWeight(s, pos, g), _ => 0);
      SumRangeZero(lo, hi);
    } else {
      var x := Pick(s);
      var part, whole := FibreWeight(s - {x}, pos, g), FibreWeight(s, pos, g);
      SumOverTake(s, Compose(pos, g), x);
      SumByFibre(s - {x}, pos, lo, hi, g);
      forall p
        ensures whole(p) == part(p) + if p == pos(x) then g(p) else 0
      {
        FibreTake(s, pos, x, p);
        MulSucc(|Fibre(s - {x}, pos, p)|, g(p));
      }
      SumRangeBump(lo, hi, part, whole, pos(x), g(pos(x)));
    }
  }

  lemma EmptyFibres<T>(pos: T -> int)
    ensures forall p :: |Fibre({}, pos, p)| == 0
  {
  }

  lemma FibreTake<T>(s: set<T>, pos: T -> int, x: T, p: int)
    requires x in s
    ensures |Fibre(s, pos, p)| == |Fibre(s - {x}, pos, p)| + if p == pos(x) then 1 else 0
  {
    if p == pos(x) {
      assert Fibre(s, pos, p) == Fibre(s - {x}, pos, p) + {x};
    } else {
      assert Fibre(s, pos, p) == Fibre(s - {x}, pos, p);
    }
  }

  /** A finite set is as large as its fibres together: |q| of them, each with c elements. */
  lemma {:induction false} FibresCard<T>(s: set<T>, pos: T -> int, q: set<int>, c: nat)
    requires forall x :: x in s ==> pos(x) in q
    requires forall p :: p in q ==> |Fibre(s, pos, p)| == c
    ensures |s| == |q| * c
    decreases |q|
  {
    if q == {} {
      assert s == {};
    } else {
      var p := Pick(q);
      var here := Fibre(s, pos, p);
      forall p' | p' in q - {p}
        ensures |Fibre(s - here, pos, p')| == c
      {
        assert Fibre(s - here, pos, p') == Fibre(s, pos, p');
      }
      FibresCard(s - here, pos, q - {p}, c);
      assert |s| == |s - here| + c by {
        assert here <= s && s == (s - here) + here;
      }
      MulSucc(|q - {p}|, c);
    }
  }

  lemma MulSucc(a: int, b: int)
    ensures (a + 1) * b == a * b + b
  {
  }

  lemma {:induction false} SumRangeZero(lo: int, hi: int)
    ensures SumRange(lo, hi, _ => 0) == 0
    decreases hi - lo
  {
    if lo <= hi {
      SumRangeZero(lo, hi - 1);
    }
  }

  function Factorial(n: nat): (f: nat)
    ensures f >= 1
  {
    if n == 0 then 1 else n * Factorial(n - 1)
  }

  /** One more draw between lo and hi, whatever came before. */
  ghost function Between(lo: int, hi: int): Draws -> set<int> {
    (d: Draws) => Range(lo, hi)
  }

  lemma SubsetCard<T>(s: set<T>, t: set<T>)
    requires s <= t
    ensures |s| <= |t|
  {
    assert t == s + (t - s);
  }

  /** Moving an element from one part of a set to the other. */
  lemma MoveOne<T>(all: set<T>, done: set<T>, rest: set<T>, x: T)
    requires all == done + rest && x in rest
    ensures all == (done + {x}) + (rest - {x}) && |rest - {x}| < |rest|
    ensures done !! rest ==> (done + {x}) !! (rest - {x})
  {
  }

  /** The count of a key in a counter that only holds keys it has seen. */
  function Get<K>(counts: map<K, nat>, k: K): nat {
    if k in counts then counts[k] else 0
  }

  // ---------------------------------------------------------------- all draw sequences

  /** What a generator can return over a run whose range grows by one from draw to draw: the i-th
      draw lies between lo and first + i. */
  predicate IsDraws(lo: int, first: int, d: Draws) {
    forall i :: 0 <= i < |d| ==> lo <= d[i] <= first + i
  }

  ghost function AllDraws(lo: int, first: int, m: nat): set<Draws> {
    if m == 0 then {[]} else Extend(AllDraws(lo, first, m - 1), Between(lo, first + m - 1))
  }

  lemma {:induction false} AllDrawsAre(lo: int, first: int, m: nat, d: Draws)
    ensures d in AllDraws(lo, first, m) <==> |d| == m && IsDraws(lo, first, d)
  {
    if m > 0 {
      hide Extend;
      InExtend(AllDraws(lo, first, m - 1), Between(lo, first + m - 1), d);
      if |d| > 0 {
        AllDrawsAre(lo, first, m - 1, d[..|d| - 1]);
        IsDrawsStep(lo, first, d);
      }
    }
  }

  lemma IsDrawsStep(lo: int, first: int, d: Draws)
    requires |d| > 0
    ensures IsDraws(lo, first, d) <==>
              IsDraws(lo, first, d[..|d| - 1]) && d[|d| - 1] in Between(lo, first + |d| - 1)(d[..|d| - 1])
  {
    var init := d[..|d| - 1];
    assert forall i :: 0 <= i < |init| ==> init[i] == d[i];
  }

  lemma AllDrawsStepCard(lo: int, first: int, m: nat)
    requires lo <= first && m > 0
    ensures |AllDraws(lo, first, m)| == |AllDraws(lo, first, m - 1)| * (first - lo + m)
  {
    hide Extend;
    ExtendCard(AllDraws(lo, first, m - 1), Between(lo, first + m - 1), first - lo + m);
  }

  /** There are (w + m)! / w! of them, where the first draw has w + 1 outcomes. */
  lemma {:induction false} AllDrawsCard(lo: int, first: int, m: nat)
    requires lo <= first
    ensures |AllDraws(lo, first, m)| * Factorial(first - lo) == Factorial(first - lo + m)
  {
    if m > 0 {
      hide AllDraws;
      var w := first - lo;
      AllDrawsStepCard(lo, first, m);
      AllDrawsCard(lo, first, m - 1);
      FactorialStep(w + m);
      hide Factorial;
      Scale(|AllDraws(lo, first, m - 1)|, Factorial(w), Factorial(w + m - 1), w + m);
    } else {
      hide Factorial;
      assert AllDraws(lo, first, 0) == {[]};
    }
  }

  /** Products under a name that proofs can keep closed. */
  function Product(a: int, b: int): int {
    a * b
  }

  lemma ProductOne(k: int)
    ensures Product(1, k) == Product(k, 1) == k
  {
  }

  lemma FactorialZero()
    ensures Factorial(0) == 1
  {
  }

  lemma FactorialProduct(n: nat)
    requires n > 0
    ensures Factorial(n) == Product(Factorial(n - 1), n)
  {
  }

  lemma BetweenCard(lo: int, hi: int)
    requires lo <= hi + 1
    ensures forall d :: |Between(lo, hi)(d)| == hi - lo + 1
  {
  }

  lemma ExtendProduct(runs: set<Draws>, choices: Draws -> set<int>, c: nat)
    requires forall d :: d in runs ==> |choices(d)| == c
    ensures |Extend(runs, choices)| == Product(|runs|, c)
  {
    hide Extend;
    ExtendCard(runs, choices, c);
  }

  lemma FactorialStep(n: nat)
    requires n > 0
    ensures Factorial(n) == n * Factorial(n - 1)
  {
  }

  lemma Scale(a: int, f: int, g: int, n: int)
    requires a * f == g
    ensures a * n * f == n * g
  {
    assert a * n * f == n * (a * f);
  }
}
