/** Frequent itemsets of size one and two: streaming/analytics/itemsets.py.

    A basket is a finite set of items. Where the program iterates over a set or over a sorted
    list of its elements, the model takes the elements in any order; the pair hash puts the
    two items into order itself. The hash itself is an arbitrary function. */
module Itemsets {
  import opened Counting

  type Item = string
  type Basket = set<Item>
  type Hash = (Item, Item) -> nat

  // ---------------------------------------------------------------- supports

  /** How many baskets contain all items of s. */
  function Support(baskets: seq<Basket>, s: set<Item>): nat {
    if baskets == [] then 0
    else Support(baskets[..|baskets| - 1], s) + if s <= baskets[|baskets| - 1] then 1 else 0
  }

  /** The least count that is frequent: the ceiling of ratio * n, but at least 1. */
  function MinCount(ratio: real, n: nat): (m: nat)
    ensures m >= 1 && m as real >= ratio * n as real
    ensures m > 1 ==> (m - 1) as real < ratio * n as real
  {
    var ceiling := -(-(ratio * n as real)).Floor;
    if ceiling > 1 then ceiling else 1
  }

  ghost predicate SizeAllowed(s: set<Item>, maxSize: int) {
    |s| == 1 || (|s| == 2 && maxSize >= 2)
  }

  /** The result all algorithms have to deliver: the frequent itemsets with their supports. */
  ghost predicate Mines(r: map<set<Item>, nat>, baskets: seq<Basket>, m: nat, maxSize: int) {
    forall s :: (s in r <==> SizeAllowed(s, maxSize) && Support(baskets, s) >= m)
                && (s in r ==> r[s] == Support(baskets, s))
  }

  /** That result is unique, so two algorithms that deliver it agree. */
  lemma MinesUnique(r: map<set<Item>, nat>, r': map<set<Item>, nat>, baskets: seq<Basket>, m: nat, maxSize: int)
    requires Mines(r, baskets, m, maxSize) && Mines(r', baskets, m, maxSize)
    ensures r == r'
  {
    assert forall s :: s in r <==> s in r';
  }

  /** A superset occurs in no more baskets: every pair of a frequent pair's items is frequent. */
  lemma {:induction false} SupportAntitone(baskets: seq<Basket>, s: set<Item>, t: set<Item>)
    requires s <= t
    ensures Support(baskets, t) <= Support(baskets, s)
  {
    if baskets != [] {
      SupportAntitone(baskets[..|baskets| - 1], s, t);
    }
  }

  // ---------------------------------------------------------------- pairs

  type Pair = (Item, Item)

  function AsSet(p: Pair): set<Item> {
    {p.0, p.1}
  }

  function PairWith(x: Item, ys: seq<Item>): seq<Pair> {
    if ys == [] then [] else [(x, ys[0])] + PairWith(x, ys[1..])
  }

  /** All combinations of two elements at different places. */
  function Combinations(items: seq<Item>): seq<Pair> {
    if items == [] then [] else PairWith(items[0], items[1..]) + Combinations(items[1..])
  }

  ghost function PairSet(ps: seq<Pair>): set<set<Item>> {
    set i | 0 <= i < |ps| :: AsSet(ps[i])
  }

  ghost predicate Distinct(items: seq<Item>) {
    forall i, j :: 0 <= i < j < |items| ==> items[i] != items[j]
  }

  /** The two-element subsets of a basket. */
  ghost function PairsIn(b: set<Item>): set<set<Item>> {
    set u, v | u in b && v in b && u != v :: {u, v}
  }

  ghost predicate DistinctPairs(ps: seq<Pair>) {
    forall i, j :: 0 <= i < j < |ps| ==> AsSet(ps[i]) != AsSet(ps[j])
  }

  lemma {:induction false} PairWithAre(x: Item, ys: seq<Item>)
    ensures |PairWith(x, ys)| == |ys|
    ensures forall i :: 0 <= i < |ys| ==> PairWith(x, ys)[i] == (x, ys[i])
  {
    if ys != [] {
      PairWithAre(x, ys[1..]);
    }
  }

  /** Every two-element subset of the items is combined exactly once. */
  lemma {:induction false} CombinationsExact(items: seq<Item>)
    requires Distinct(items)
    ensures DistinctPairs(Combinations(items))
    ensures forall s :: s in PairSet(Combinations(items)) <==> s in PairsIn(set x | x in items)
    ensures forall p :: p in Combinations(items) ==> p.0 in items && p.1 in items && p.0 != p.1
  {
    if items != [] {
      var x, ys := items[0], items[1..];
      var heads, tails := PairWith(x, ys), Combinations(ys);
      assert items == [x] + ys;
      PairWithAre(x, ys);
      CombinationsExact(ys);
      HeadsAndTails(x, ys, heads, tails);
      forall s
        ensures s in PairSet(heads + tails) <==> s in PairsIn(set z | z in items)
      {
        PairSetConcat(heads, tails, s);
        InPairSetHeads(x, ys, heads, s);
        InPairsInCons(x, ys, s);
      }
    }
  }

  lemma HeadsAndTails(x: Item, ys: seq<Item>, heads: seq<Pair>, tails: seq<Pair>)
    requires Distinct([x] + ys) && DistinctPairs(tails)
    requires |heads| == |ys| && forall i :: 0 <= i < |ys| ==> heads[i] == (x, ys[i])
    requires forall p :: p in tails ==> p.0 in ys && p.1 in ys && p.0 != p.1
    ensures DistinctPairs(heads + tails)
    ensures forall p :: p in heads + tails ==> p.0 in [x] + ys && p.1 in [x] + ys && p.0 != p.1
  {
    var items := [x] + ys;
    forall i | 0 <= i < |ys|
      ensures ys[i] != x
    {
      assert items[0] != items[i + 1];
    }
    forall i, j | 0 <= i < j < |heads + tails|
      ensures AsSet((heads + tails)[i]) != AsSet((heads + tails)[j])
    {
      if j < |heads| {
        assert items[i + 1] != items[j + 1];
        assert ys[j] !in AsSet(heads[i]);
      } else if i < |heads| {
        assert tails[j - |heads|] in tails;
        assert x !in AsSet(tails[j - |heads|]);
      } else {
        assert AsSet(tails[i - |heads|]) != AsSet(tails[j - |heads|]);
      }
    }
  }

  lemma PairSetConcat(a: seq<Pair>, b: seq<Pair>, s: set<Item>)
    ensures s in PairSet(a + b) <==> s in PairSet(a) || s in PairSet(b)
  {
    if s in PairSet(a) {
      var i :| 0 <= i < |a| && s == AsSet(a[i]);
      assert (a + b)[i] == a[i];
    }
    if s in PairSet(b) {
      var i :| 0 <= i < |b| && s == AsSet(b[i]);
      assert (a + b)[|a| + i] == b[i];
    }
  }

  lemma InPairSetHeads(x: Item, ys: seq<Item>, heads: seq<Pair>, s: set<Item>)
    requires |heads| == |ys| && forall i :: 0 <= i < |ys| ==> heads[i] == (x, ys[i])
    ensures s in PairSet(heads) <==> exists y :: y in ys && s == {x, y}
  {
    if y :| y in ys && s == {x, y} {
      var i :| 0 <= i < |ys| && ys[i] == y;
      assert AsSet(heads[i]) == s;
    }
  }

  lemma InPairsInCons(x: Item, ys: seq<Item>, s: set<Item>)
    requires x !in ys
    ensures s in PairsIn(set z | z in [x] + ys) <==> s in PairsIn(set z | z in ys) || exists y :: y in ys && s == {x, y}
  {
    var all, rest := set z | z in [x] + ys, set z | z in ys;
    assert all == rest + {x};
    if s in PairsIn(all) {
      var u, v :| u in all && v in all && u != v && s == {u, v};
      if u == x {
        assert v in ys;
      } else if v == x {
        assert u in ys && s == {x, u};
      } else {
        assert u in rest && v in rest;
      }
    }
  }

  // ---------------------------------------------------------------- the pair hash

  /** The order of strings. */
  predicate AtMost(a: Item, b: Item) {
    a == [] || (b != [] && (a[0] < b[0] || (a[0] == b[0] && AtMost(a[1..], b[1..]))))
  }

  lemma {:induction false} AtMostTotal(a: Item, b: Item)
    ensures AtMost(a, b) || AtMost(b, a)
    ensures AtMost(a, b) && AtMost(b, a) ==> a == b
  {
    if a != [] && b != [] {
      AtMostTotal(a[1..], b[1..]);
      assert a == [a[0]] + a[1..] && b == [b[0]] + b[1..];
    }
  }

  /** The bucket of a pair: the items are put into order before hashing. */
  function HashPair(h: Hash, i1: Item, i2: Item, numBuckets: nat): (k: nat)
    requires numBuckets >= 1
    ensures k < numBuckets
  {
    (if AtMost(i1, i2) then h(i1, i2) else h(i2, i1)) % numBuckets
  }

  /** A pair has one bucket, in whichever order its items come. */
  lemma HashPairSymmetric(h: Hash, u: Item, v: Item, numBuckets: nat)
    requires numBuckets >= 1
    ensures HashPair(h, u, v, numBuckets) == HashPair(h, v, u, numBuckets)
  {
    AtMostTotal(u, v);
  }

  // ---------------------------------------------------------------- counting over lists of pairs

  /** The order compares at the first difference; a prefix comes first. */
  ghost predicate Precedes(a: Item, b: Item, k: nat) {
    k <= |a| && k <= |b| && a[..k] == b[..k] && (k == |a| || (k < |b| && a[k] < b[k]))
  }

  lemma {:induction false} AtMostIs(a: Item, b: Item)
    ensures AtMost(a, b) <==> exists k: nat :: Precedes(a, b, k)
  {
    if a == [] {
      assert Precedes(a, b, 0);
    } else if b != [] {
      AtMostIs(a[1..], b[1..]);
      assert a == [a[0]] + a[1..] && b == [b[0]] + b[1..];
      if a[0] < b[0] {
        assert Precedes(a, b, 0);
      } else if a[0] == b[0] {
        if AtMost(a[1..], b[1..]) {
          var k: nat :| Precedes(a[1..], b[1..], k);
          assert a[..k + 1] == [a[0]] + a[1..][..k] && b[..k + 1] == [b[0]] + b[1..][..k];
          assert Precedes(a, b, k + 1);
        }
        if exists k: nat :: Precedes(a, b, k) {
          var k: nat :| Precedes(a, b, k);
          ShorterPrecedes(a, b, k);
        }
      }
    }
  }

  lemma ShorterPrecedes(a: Item, b: Item, k: nat)
    requires Precedes(a, b, k) && a != [] && b != [] && a[0] == b[0]
    ensures k > 0 && Precedes(a[1..], b[1..], k - 1)
  {
    assert k > 0;
    assert a[1..][..k - 1] == a[..k][1..] && b[1..][..k - 1] == b[..k][1..];
  }

  /** The bucket is the hash of the pair in order, modulo the number of buckets. */
  lemma HashPairIs(h: Hash, u: Item, v: Item, numBuckets: nat, k: nat)
    requires numBuckets >= 1 && Precedes(u, v, k)
    ensures HashPair(h, u, v, numBuckets) == HashPair(h, v, u, numBuckets) == h(u, v) % numBuckets
  {
    AtMostIs(u, v);
    AtMostTotal(u, v);
  }

  /** How many pairs of a list are the itemset s. */
  function Occurs(ps: seq<Pair>, s: set<Item>): nat {
    if ps == [] then 0 else Occurs(ps[..|ps| - 1], s) + if AsSet(ps[|ps| - 1]) == s then 1 else 0
  }

  lemma {:induction false} OccursOnce(ps: seq<Pair>, s: set<Item>)
    requires DistinctPairs(ps)
    ensures Occurs(ps, s) == if s in PairSet(ps) then 1 else 0
  {
    if ps != [] {
      var init, last := ps[..|ps| - 1], ps[|ps| - 1];
      assert ps == init + [last];
      OccursOnce(init, s);
      PairSetConcat(init, [last], s);
      assert s in PairSet([last]) <==> s == AsSet(last) by {
        assert AsSet([last][0]) == AsSet(last);
      }
      if s in PairSet(init) {
        var i :| 0 <= i < |init| && s == AsSet(init[i]);
        assert AsSet(ps[i]) != AsSet(ps[|ps| - 1]);
      }
    }
  }

  lemma PairContains(b: set<Item>, s: set<Item>)
    requires |s| == 2
    ensures s in PairsIn(b) <==> s <= b
  {
    if s <= b {
      var u :| u in s;
      assert |s - {u}| == 1;
      var v :| v in s - {u};
      assert |s - {u} - {v}| == 0;
      assert s == {u, v};
    }
  }

  lemma PairsHaveTwo(b: set<Item>, s: set<Item>)
    requires s in PairsIn(b)
    ensures |s| == 2
  {
    var u, v :| u in b && v in b && u != v && s == {u, v};
    assert s - {u} == {v};
  }

  /** One pass over all pairs of a basket counts its two-element subsets once each. */
  lemma BasketPairs(items: seq<Item>, b: set<Item>, s: set<Item>)
    requires Distinct(items) && b == (set x | x in items)
    ensures Occurs(Combinations(items), s) == if |s| == 2 && s <= b then 1 else 0
  {
    CombinationsExact(items);
    OccursOnce(Combinations(items), s);
    if |s| == 2 {
      PairContains(b, s);
    } else if s in PairsIn(b) {
      PairsHaveTwo(b, s);
    }
  }

  /** The elements of a set as a list, in any order. */
  method ListOf<T(==)>(b: set<T>) returns (items: seq<T>)
    ensures forall i, j :: 0 <= i < j < |items| ==> items[i] != items[j]
    ensures b == (set x | x in items)
  {
    items := [];
    var rest := b;
    while rest != {}
      invariant rest <= b
      invariant forall x :: x in items <==> x in b && x !in rest
      invariant forall i, j :: 0 <= i < j < |items| ==> items[i] != items[j]
      decreases |rest|
    {
      var x :| x in rest;
      items := items + [x];
      rest := rest - {x};
    }
  }

  // ---------------------------------------------------------------- the shared passes

  /** First pass: how many baskets contain each item. */
  method CountItems(baskets: seq<Basket>) returns (counts: map<Item, nat>)
    ensures forall x :: Get(counts, x) == Support(baskets, {x})
  {
    counts := map[];
    var i := 0;
    while i < |baskets|
      invariant i <= |baskets|
      invariant forall x :: Get(counts, x) == Support(baskets[..i], {x})
    {
      var items := ListOf(baskets[i]);
      ghost var before := counts;
      var j := 0;
      while j < |items|
        invariant j <= |items|
        invariant forall x :: Get(counts, x) == Get(before, x) + if x in items[..j] then 1 else 0
      {
        counts := counts[items[j] := Get(counts, items[j]) + 1];
        j := j + 1;
      }
      assert items[..|items|] == items;
      assert baskets[..i + 1][..i] == baskets[..i];
      i := i + 1;
    }
    assert baskets[..|baskets|] == baskets;
  }

  /** Adds the pairs of one basket to the counts of the candidates. */
  method AddPairs(counts: map<set<Item>, nat>, ps: seq<Pair>, candidates: set<set<Item>>)
    returns (r: map<set<Item>, nat>)
    ensures forall s :: Get(r, s) == Get(counts, s) + if s in candidates then Occurs(ps, s) else 0
  {
    r := counts;
    var j := 0;
    while j < |ps|
      invariant j <= |ps|
      invariant forall s :: Get(r, s) == Get(counts, s) + if s in candidates then Occurs(ps[..j], s) else 0
    {
      assert ps[..j + 1][..j] == ps[..j];
      var s := AsSet(ps[j]);
      if s in candidates {
        r := r[s := Get(r, s) + 1];
      }
      j := j + 1;
    }
    assert ps[..|ps|] == ps;
  }

  /** Second pass: the supports of the candidate pairs, looking only at frequent items. */
  method CountCandidates(baskets: seq<Basket>, frequent: set<Item>, candidates: set<set<Item>>)
    returns (counts: map<set<Item>, nat>)
    requires candidates <= PairsIn(frequent)
    ensures forall s :: Get(counts, s) == if s in candidates then Support(baskets, s) else 0
  {
    counts := map[];
    var i := 0;
    while i < |baskets|
      invariant i <= |baskets|
      invariant forall s :: Get(counts, s) == if s in candidates then Support(baskets[..i], s) else 0
    {
      var items := ListOf(baskets[i] * frequent);
      ghost var before := counts;
      if |items| >= 2 {
        counts := AddPairs(counts, Combinations(items), candidates);
      }
      forall s
        ensures Get(counts, s) == Get(before, s) + if s in candidates && s <= baskets[i] then 1 else 0
      {
        CandidateInBasket(items, baskets[i], frequent, candidates, s);
      }
      assert baskets[..i + 1][..i] == baskets[..i];
      i := i + 1;
    }
    assert baskets[..|baskets|] == baskets;
  }

  lemma CandidateInBasket(items: seq<Item>, b: Basket, frequent: set<Item>, candidates: set<set<Item>>, s: set<Item>)
    requires candidates <= PairsIn(frequent)
    requires Distinct(items) && b * frequent == (set x | x in items)
    ensures s in candidates ==> Occurs(Combinations(items), s) == if s <= b then 1 else 0
    ensures s in candidates && |items| < 2 ==> !(s <= b)
  {
    if s in candidates {
      PairsHaveTwo(frequent, s);
      PairContains(frequent, s);
      assert s <= b <==> s <= b * frequent;
      BasketPairs(items, b * frequent, s);
      if |items| < 2 {
        assert Combinations(items) == [] by {
          if |items| == 1 {
            assert items[1..] == [];
          }
        }
      }
    }
  }

  // ---------------------------------------------------------------- bucket counts

  /** Whether the pair s falls into bucket k. */
  ghost predicate InBucket(h: Hash, numBuckets: nat, k: nat, s: set<Item>)
    requires numBuckets >= 1
  {
    exists u, v :: s == {u, v} && u != v && HashPair(h, u, v, numBuckets) == k
  }

  /** The pairs of one basket that fall into bucket k. */
  ghost function BucketPairs(h: Hash, numBuckets: nat, k: nat, b: Basket): set<set<Item>>
    requires numBuckets >= 1
  {
    set s | s in PairsIn(b) && InBucket(h, numBuckets, k, s)
  }

  /** How many pairs of all baskets fall into bucket k. */
  ghost function BucketLoad(baskets: seq<Basket>, h: Hash, numBuckets: nat, k: nat): nat
    requires numBuckets >= 1
  {
    if baskets == [] then 0
    else BucketLoad(baskets[..|baskets| - 1], h, numBuckets, k) + |BucketPairs(h, numBuckets, k, baskets[|baskets| - 1])|
  }

  lemma InBucketIs(h: Hash, numBuckets: nat, k: nat, u: Item, v: Item)
    requires numBuckets >= 1 && u != v
    ensures InBucket(h, numBuckets, k, {u, v}) <==> HashPair(h, u, v, numBuckets) == k
  {
    if InBucket(h, numBuckets, k, {u, v}) {
      var a, b :| {u, v} == {a, b} && a != b && HashPair(h, a, b, numBuckets) == k;
      assert a in {u, v} && b in {u, v};
      HashPairSymmetric(h, a, b, numBuckets);
    }
  }

  function CountHash(ps: seq<Pair>, h: Hash, numBuckets: nat, k: nat): nat
    requires numBuckets >= 1
  {
    if ps == [] then 0
    else CountHash(ps[..|ps| - 1], h, numBuckets, k)
         + if HashPair(h, ps[|ps| - 1].0, ps[|ps| - 1].1, numBuckets) == k then 1 else 0
  }

  ghost function BucketOf(ps: seq<Pair>, h: Hash, numBuckets: nat, k: nat): set<set<Item>>
    requires numBuckets >= 1
  {
    set s | s in PairSet(ps) && InBucket(h, numBuckets, k, s)
  }

  lemma {:induction false} CountHashIs(ps: seq<Pair>, h: Hash, numBuckets: nat, k: nat)
    requires numBuckets >= 1 && DistinctPairs(ps)
    requires forall p :: p in ps ==> p.0 != p.1
    ensures CountHash(ps, h, numBuckets, k) == |BucketOf(ps, h, numBuckets, k)|
  {
    hide InBucket;
    if ps == [] {
      assert BucketOf(ps, h, numBuckets, k) == {};
    } else {
      var init, last := ps[..|ps| - 1], ps[|ps| - 1];
      var s := AsSet(last);
      assert ps == init + [last];
      CountHashIs(init, h, numBuckets, k);
      OccursOnce(ps, s);
      OccursOnce(init, s);
      InBucketIs(h, numBuckets, k, last.0, last.1);
      forall t
        ensures t in PairSet(ps) <==> t in PairSet(init) || t == s
      {
        PairSetConcat(init, [last], t);
        assert AsSet([last][0]) == s;
      }
      if HashPair(h, last.0, last.1, numBuckets) == k {
        assert BucketOf(ps, h, numBuckets, k) == BucketOf(init, h, numBuckets, k) + {s};
      } else {
        assert BucketOf(ps, h, numBuckets, k) == BucketOf(init, h, numBuckets, k);
      }
    }
  }

  lemma BasketLoad(items: seq<Item>, b: Basket, h: Hash, numBuckets: nat, k: nat)
    requires numBuckets >= 1 && Distinct(items) && b == (set x | x in items)
    ensures CountHash(Combinations(items), h, numBuckets, k) == |BucketPairs(h, numBuckets, k, b)|
  {
    CombinationsExact(items);
    CountHashIs(Combinations(items), h, numBuckets, k);
    assert BucketOf(Combinations(items), h, numBuckets, k) == BucketPairs(h, numBuckets, k, b);
  }

  /** Hashing can only add to a count: no pair occurs more often than its bucket is hit. */
  lemma {:induction false} BucketCoversPair(baskets: seq<Basket>, h: Hash, numBuckets: nat, u: Item, v: Item)
    requires numBuckets >= 1 && u != v
    ensures Support(baskets, {u, v}) <= BucketLoad(baskets, h, numBuckets, HashPair(h, u, v, numBuckets))
  {
    if baskets != [] {
      var k, b := HashPair(h, u, v, numBuckets), baskets[|baskets| - 1];
      BucketCoversPair(baskets[..|baskets| - 1], h, numBuckets, u, v);
      if {u, v} <= b {
        InBucketIs(h, numBuckets, k, u, v);
        assert u in b && v in b;
        assert {u, v} in BucketPairs(h, numBuckets, k, b);
      }
    }
  }

  /** The hash counts of the first pass. */
  method CountBuckets(baskets: seq<Basket>, h: Hash, numBuckets: nat) returns (counts: seq<nat>)
    requires numBuckets >= 1
    ensures |counts| == numBuckets
    ensures forall k :: 0 <= k < numBuckets ==> counts[k] == BucketLoad(baskets, h, numBuckets, k)
  {
    counts := seq(numBuckets, _ => 0);
    var i := 0;
    while i < |baskets|
      invariant i <= |baskets| && |counts| == numBuckets
      invariant forall k :: 0 <= k < numBuckets ==> counts[k] == BucketLoad(baskets[..i], h, numBuckets, k)
    {
      var items := ListOf(baskets[i]);
      ghost var before := counts;
      counts := HashPairs(counts, Combinations(items), h);
      assert baskets[..i + 1][..i] == baskets[..i];
      forall k | 0 <= k < numBuckets
        ensures counts[k] == BucketLoad(baskets[..i + 1], h, numBuckets, k)
      {
        BasketLoad(items, baskets[i], h, numBuckets, k);
      }
      i := i + 1;
    }
    assert baskets[..|baskets|] == baskets;
  }

  method HashPairs(counts: seq<nat>, ps: seq<Pair>, h: Hash) returns (r: seq<nat>)
    requires |counts| >= 1
    ensures |r| == |counts|
    ensures forall k :: 0 <= k < |r| ==> r[k] == counts[k] + CountHash(ps, h, |counts|, k)
  {
    r := counts;
    var j := 0;
    while j < |ps|
      invariant j <= |ps| && |r| == |counts|
      invariant forall k :: 0 <= k < |r| ==> r[k] == counts[k] + CountHash(ps[..j], h, |counts|, k)
    {
      assert ps[..j + 1][..j] == ps[..j];
      var k := HashPair(h, ps[j].0, ps[j].1, |counts|);
      r := r[k := r[k] + 1];
      j := j + 1;
    }
    assert ps[..|ps|] == ps;
  }

  // ---------------------------------------------------------------- the algorithms

  datatype Stats = Stats(passes: nat, candidatePairs: nat)

  ghost function FrequentItems(baskets: seq<Basket>, m: nat): (f: set<Item>)
    requires m >= 1
    ensures forall x :: x in f <==> Support(baskets, {x}) >= m
  {
    var f := set x | x in Universe(baskets) && Support(baskets, {x}) >= m;
    forall x | Support(baskets, {x}) >= 1
      ensures x in Universe(baskets)
    {
      SupportedItem(baskets, x);
    }
    f
  }

  ghost function Universe(baskets: seq<Basket>): set<Item> {
    if baskets == [] then {} else Universe(baskets[..|baskets| - 1]) + baskets[|baskets| - 1]
  }

  lemma {:induction false} SupportedItem(baskets: seq<Basket>, x: Item)
    ensures Support(baskets, {x}) >= 1 ==> x in Universe(baskets)
  {
    if baskets != [] {
      SupportedItem(baskets[..|baskets| - 1], x);
    }
  }

  /** The frequent items with their counts, and the itemsets made of one of them. */
  method FrequentSingles(counts: map<Item, nat>, baskets: seq<Basket>, m: nat)
    returns (frequent: set<Item>, results: map<set<Item>, nat>)
    requires m >= 1 && forall x :: Get(counts, x) == Support(baskets, {x})
    ensures frequent == FrequentItems(baskets, m)
    ensures Mines(results, baskets, m, 1)
  {
    frequent := set x | x in counts && counts[x] >= m;
    assert forall x :: x in frequent <==> Support(baskets, {x}) >= m by {
      assert forall x :: x in counts ==> Get(counts, x) == counts[x];
    }
    results := map[];
    var items := ListOf(frequent);
    var i := 0;
    while i < |items|
      invariant i <= |items|
      invariant forall s :: s in results <==> exists j :: 0 <= j < i && s == {items[j]}
      invariant forall s :: s in results ==> results[s] == Support(baskets, s)
    {
      assert items[i] in frequent;
      results := results[{items[i]} := counts[items[i]]];
      i := i + 1;
    }
    forall s
      ensures s in results <==> |s| == 1 && Support(baskets, s) >= m
    {
      SinglesAre(baskets, m, items, s);
    }
  }

  lemma SinglesAre(baskets: seq<Basket>, m: nat, items: seq<Item>, s: set<Item>)
    requires m >= 1 && FrequentItems(baskets, m) == (set x | x in items)
    ensures (exists j :: 0 <= j < |items| && s == {items[j]}) <==> |s| == 1 && Support(baskets, s) >= m
  {
    if |s| == 1 {
      var x :| x in s;
      assert |s - {x}| == 0;
      assert s == {x};
      if Support(baskets, s) >= m {
        assert x in FrequentItems(baskets, m);
        assert x in items;
      }
    }
    if j :| 0 <= j < |items| && s == {items[j]} {
      assert items[j] in FrequentItems(baskets, m);
    }
  }

  /** The single-item results extended by the frequent candidates. */
  method AddFrequentPairs(results: map<set<Item>, nat>, counts: map<set<Item>, nat>, m: nat)
    returns (r: map<set<Item>, nat>)
    ensures forall s :: s in r <==> s in results || (s in counts && counts[s] >= m)
    ensures forall s :: s in r ==> r[s] == if s in counts && counts[s] >= m then counts[s] else results[s]
  {
    r := results + map s | s in counts && counts[s] >= m :: counts[s];
  }

  /** Any candidate set that holds every frequent pair leads to the right result. */
  lemma CandidatesSuffice(baskets: seq<Basket>, m: nat, candidates: set<set<Item>>,
                          singles: map<set<Item>, nat>, counts: map<set<Item>, nat>, r: map<set<Item>, nat>, maxSize: int)
    requires m >= 1 && maxSize >= 2 && Mines(singles, baskets, m, 1)
    requires candidates <= PairsIn(FrequentItems(baskets, m))
    requires forall s :: |s| == 2 && Support(baskets, s) >= m ==> s in candidates
    requires forall s :: Get(counts, s) == if s in candidates then Support(baskets, s) else 0
    requires forall s :: s in r <==> s in singles || (s in counts && counts[s] >= m)
    requires forall s :: s in r ==> r[s] == if s in counts && counts[s] >= m then counts[s] else singles[s]
    ensures Mines(r, baskets, m, maxSize)
  {
    forall s
      ensures s in r <==> SizeAllowed(s, maxSize) && Support(baskets, s) >= m
      ensures s in r ==> r[s] == Support(baskets, s)
    {
      assert s in counts ==> Get(counts, s) == counts[s];
      if s in candidates {
        PairsHaveTwo(FrequentItems(baskets, m), s);
      }
    }
  }

  /** A frequent pair consists of frequent items. */
  lemma FrequentPair(baskets: seq<Basket>, m: nat, s: set<Item>)
    requires m >= 1 && |s| == 2 && Support(baskets, s) >= m
    ensures s in PairsIn(FrequentItems(baskets, m))
  {
    forall x | x in s
      ensures x in FrequentItems(baskets, m)
    {
      SupportAntitone(baskets, {x}, s);
    }
    PairContains(FrequentItems(baskets, m), s);
  }

  /** With fewer than two frequent items, or no pairs wanted, the single items are all. */
  lemma SinglesSuffice(baskets: seq<Basket>, m: nat, r: map<set<Item>, nat>, maxSize: int)
    requires m >= 1 && Mines(r, baskets, m, 1)
    requires maxSize < 2 || |FrequentItems(baskets, m)| < 2
    ensures Mines(r, baskets, m, maxSize)
  {
    forall s | |s| == 2 && Support(baskets, s) >= m
      ensures maxSize < 2
    {
      FrequentPair(baskets, m, s);
      PairContains(FrequentItems(baskets, m), s);
      SubsetCard(s, FrequentItems(baskets, m));
    }
  }

  ghost function PassesNeeded(baskets: seq<Basket>, m: nat, maxSize: int): nat
    requires m >= 1
  {
    if baskets == [] then 0 else if maxSize < 2 || |FrequentItems(baskets, m)| < 2 then 1 else 2
  }

  /** A-Priori. */
  method Apriori(baskets: seq<Basket>, ratio: real, maxSize: int)
    returns (results: map<set<Item>, nat>, stats: Stats)
    ensures Mines(results, baskets, MinCount(ratio, |baskets|), maxSize)
    ensures stats.passes == PassesNeeded(baskets, MinCount(ratio, |baskets|), maxSize)
    ensures stats.candidatePairs == if stats.passes == 2 then |PairsIn(FrequentItems(baskets, MinCount(ratio, |baskets|)))| else 0
  {
    if baskets == [] {
      return map[], Stats(0, 0);
    }
    var m := MinCount(ratio, |baskets|);
    var itemCounts := CountItems(baskets);
    var frequent;
    frequent, results := FrequentSingles(itemCounts, baskets, m);
    if maxSize < 2 || |frequent| < 2 {
      SinglesSuffice(baskets, m, results, maxSize);
      return results, Stats(1, 0);
    }
    var f1 := ListOf(frequent);
    var pairs := Combinations(f1);
    CombinationsExact(f1);
    ghost var all := PairsIn(frequent);
    var candidates := set i | 0 <= i < |pairs| :: AsSet(pairs[i]);
    assert candidates == PairSet(pairs) == all;
    DistinctPairsCard(pairs);
    var pairCounts := CountCandidates(baskets, frequent, candidates);
    forall s | |s| == 2 && Support(baskets, s) >= m
      ensures s in candidates
    {
      FrequentPair(baskets, m, s);
    }
    ghost var singles := results;
    results := AddFrequentPairs(results, pairCounts, m);
    CandidatesSuffice(baskets, m, candidates, singles, pairCounts, results, maxSize);
    stats := Stats(2, |pairs|);
  }

  lemma {:induction false} DistinctPairsCard(ps: seq<Pair>)
    requires DistinctPairs(ps)
    ensures |PairSet(ps)| == |ps|
  {
    if ps == [] {
      assert PairSet(ps) == {};
    } else {
      var init, last := ps[..|ps| - 1], ps[|ps| - 1];
      assert ps == init + [last];
      DistinctPairsCard(init);
      OccursOnce(ps, AsSet(last));
      OccursOnce(init, AsSet(last));
      forall s
        ensures s in PairSet(ps) <==> s in PairSet(init) + {AsSet(last)}
      {
        PairSetConcat(init, [last], s);
        assert AsSet([last][0]) == AsSet(last);
      }
      assert PairSet(ps) == PairSet(init) + {AsSet(last)};
    }
  }

  /** The candidates of the second pass of PCY: frequent items in a frequent bucket. */
  ghost function PcyCandidates(baskets: seq<Basket>, m: nat, h: Hash, numBuckets: nat): set<set<Item>>
    requires m >= 1 && numBuckets >= 1
  {
    set s | s in PairsIn(FrequentItems(baskets, m))
            && exists k: nat :: InBucket(h, numBuckets, k, s) && BucketLoad(baskets, h, numBuckets, k) >= m
  }

  /** The bitmap never prunes a frequent pair. */
  lemma PcyKeepsFrequent(baskets: seq<Basket>, m: nat, h: Hash, numBuckets: nat, s: set<Item>)
    requires m >= 1 && numBuckets >= 1 && |s| == 2 && Support(baskets, s) >= m
    ensures s in PcyCandidates(baskets, m, h, numBuckets)
  {
    FrequentPair(baskets, m, s);
    var u, v :| u != v && s == {u, v};
    InBucketIs(h, numBuckets, HashPair(h, u, v, numBuckets), u, v);
    BucketCoversPair(baskets, h, numBuckets, u, v);
  }

  /** The pairs whose bucket is marked. */
  method PrunedPairs(ps: seq<Pair>, bitmap: seq<bool>, h: Hash) returns (r: seq<Pair>)
    requires |bitmap| >= 1 && DistinctPairs(ps) && forall p :: p in ps ==> p.0 != p.1
    ensures DistinctPairs(r)
    ensures forall s :: s in PairSet(r) <==> s in PairSet(ps) && Marked(h, bitmap, s)
  {
    hide Marked;
    r := [];
    var j := 0;
    while j < |ps|
      invariant j <= |ps|
      invariant DistinctPairs(r)
      invariant forall s :: s in PairSet(r) <==> s in PairSet(ps[..j]) && Marked(h, bitmap, s)
    {
      ghost var kept, s := r, AsSet(ps[j]);
      assert ps[..j + 1] == ps[..j] + [ps[j]];
      forall t
        ensures t in PairSet(ps[..j + 1]) <==> t in PairSet(ps[..j]) || t == s
        ensures t in PairSet(kept + [ps[j]]) <==> t in PairSet(kept) || t == s
      {
        PairSetConcat(ps[..j], [ps[j]], t);
        PairSetConcat(kept, [ps[j]], t);
        assert AsSet([ps[j]][0]) == s;
      }
      MarkedIs(h, bitmap, ps[j].0, ps[j].1);
      if bitmap[HashPair(h, ps[j].0, ps[j].1, |bitmap|)] {
        NotEarlier(ps, j);
        forall i | 0 <= i < |kept|
          ensures AsSet(kept[i]) != s
        {
          assert AsSet(kept[i]) in PairSet(kept);
        }
        r := r + [ps[j]];
      }
      j := j + 1;
    }
    assert ps[..|ps|] == ps;
  }

  lemma NotEarlier(ps: seq<Pair>, j: nat)
    requires DistinctPairs(ps) && j < |ps|
    ensures AsSet(ps[j]) !in PairSet(ps[..j])
  {
    forall i | 0 <= i < j
      ensures AsSet(ps[..j][i]) != AsSet(ps[j])
    {
      assert AsSet(ps[i]) != AsSet(ps[j]);
    }
  }

  ghost predicate Marked(h: Hash, bitmap: seq<bool>, s: set<Item>)
    requires |bitmap| >= 1
  {
    exists k :: 0 <= k < |bitmap| && bitmap[k] && InBucket(h, |bitmap|, k, s)
  }

  lemma MarkedIs(h: Hash, bitmap: seq<bool>, u: Item, v: Item)
    requires |bitmap| >= 1 && u != v
    ensures Marked(h, bitmap, {u, v}) <==> bitmap[HashPair(h, u, v, |bitmap|)]
  {
    forall k: nat
      ensures InBucket(h, |bitmap|, k, {u, v}) <==> HashPair(h, u, v, |bitmap|) == k
    {
      InBucketIs(h, |bitmap|, k, u, v);
    }
  }

  lemma PcyCandidatesAre(baskets: seq<Basket>, m: nat, h: Hash, bitmap: seq<bool>, frequent: set<Item>,
                         all: seq<Pair>, pairs: seq<Pair>)
    requires m >= 1 && |bitmap| >= 1 && frequent == FrequentItems(baskets, m)
    requires forall k :: 0 <= k < |bitmap| ==> bitmap[k] == (BucketLoad(baskets, h, |bitmap|, k) >= m)
    requires forall s :: s in PairSet(all) <==> s in PairsIn(frequent)
    requires forall s :: s in PairSet(pairs) <==> s in PairSet(all) && Marked(h, bitmap, s)
    ensures PairSet(pairs) == PcyCandidates(baskets, m, h, |bitmap|)
  {
    forall s
      ensures s in PairSet(pairs) <==> s in PcyCandidates(baskets, m, h, |bitmap|)
    {
      if k: nat :| InBucket(h, |bitmap|, k, s) && BucketLoad(baskets, h, |bitmap|, k) >= m {
        assert 0 <= k < |bitmap|;
      }
    }
  }

  /** PCY. */
  method Pcy(baskets: seq<Basket>, ratio: real, h: Hash, numBuckets: nat, maxSize: int)
    returns (results: map<set<Item>, nat>, stats: Stats)
    requires numBuckets >= 1
    ensures Mines(results, baskets, MinCount(ratio, |baskets|), maxSize)
    ensures stats.passes == PassesNeeded(baskets, MinCount(ratio, |baskets|), maxSize)
    ensures stats.candidatePairs == if stats.passes == 2 then |PcyCandidates(baskets, MinCount(ratio, |baskets|), h, numBuckets)| else 0
  {
    if baskets == [] {
      return map[], Stats(0, 0);
    }
    var m := MinCount(ratio, |baskets|);
    var itemCounts := CountItems(baskets);
    var bucketCounts := CountBuckets(baskets, h, numBuckets);
    var frequent;
    frequent, results := FrequentSingles(itemCounts, baskets, m);
    if maxSize < 2 || |frequent| < 2 {
      SinglesSuffice(baskets, m, results, maxSize);
      return results, Stats(1, 0);
    }
    var bitmap := seq(numBuckets, k requires 0 <= k < numBuckets => bucketCounts[k] >= m);
    var f1 := ListOf(frequent);
    CombinationsExact(f1);
    var pairs := PrunedPairs(Combinations(f1), bitmap, h);
    var candidates := set i | 0 <= i < |pairs| :: AsSet(pairs[i]);
    PcyCandidatesAre(baskets, m, h, bitmap, frequent, Combinations(f1), pairs);
    assert candidates == PairSet(pairs);
    DistinctPairsCard(pairs);
    var pairCounts := CountCandidates(baskets, frequent, candidates);
    forall s | |s| == 2 && Support(baskets, s) >= m
      ensures s in candidates
    {
      PcyKeepsFrequent(baskets, m, h, numBuckets, s);
    }
    ghost var singles := results;
    results := AddFrequentPairs(results, pairCounts, m);
    CandidatesSuffice(baskets, m, candidates, singles, pairCounts, results, maxSize);
    stats := Stats(2, |pairs|);
  }

  /** The brute-force baseline. */
  method BruteForce(baskets: seq<Basket>, ratio: real, maxSize: int)
    returns (results: map<set<Item>, nat>, stats: Stats)
    ensures Mines(results, baskets, MinCount(ratio, |baskets|), maxSize)
    ensures stats == Stats(1, 0)
  {
    stats := Stats(1, 0);
    if baskets == [] {
      return map[], stats;
    }
    var m := MinCount(ratio, |baskets|);
    var counts: map<set<Item>, nat> := map[];
    var i := 0;
    while i < |baskets|
      invariant i <= |baskets|
      invariant forall s :: Get(counts, s) == if SizeAllowed(s, maxSize) then Support(baskets[..i], s) else 0
    {
      var items := ListOf(baskets[i]);
      ghost var before := counts;
      counts := AddSingles(counts, items);
      ghost var withSingles := counts;
      if maxSize >= 2 && |items| >= 2 {
        counts := AddAllPairs(counts, Combinations(items));
      }
      forall s
        ensures Get(counts, s) == Get(before, s) + if SizeAllowed(s, maxSize) && s <= baskets[i] then 1 else 0
      {
        BasketPairs(items, baskets[i], s);
        SingleInBasket(items, baskets[i], s);
        if |items| < 2 {
          assert |items| == 1 ==> items[1..] == [];
          assert Combinations(items) == [];
        }
      }
      assert baskets[..i + 1][..i] == baskets[..i];
      i := i + 1;
    }
    assert baskets[..|baskets|] == baskets;
    results := map s | s in counts && counts[s] >= m :: counts[s];
    assert forall s :: s in counts ==> Get(counts, s) == counts[s];
  }

  /** Whether the itemset s consists of one of the items. */
  ghost predicate OneOf(items: seq<Item>, s: set<Item>) {
    exists x :: x in items && s == {x}
  }

  lemma SingleInBasket(items: seq<Item>, b: Basket, s: set<Item>)
    requires b == (set x | x in items)
    ensures OneOf(items, s) <==> |s| == 1 && s <= b
  {
    if |s| == 1 {
      var x :| x in s;
      assert |s - {x}| == 0;
      assert s == {x};
    }
  }

  lemma OneOfAppend(items: seq<Item>, y: Item, s: set<Item>)
    ensures OneOf(items + [y], s) <==> OneOf(items, s) || s == {y}
    ensures OneOf(items, s) && y in s ==> y in items
  {
    if OneOf(items, s) {
      var x :| x in items && s == {x};
      assert x in items + [y];
    }
    if s == {y} {
      assert y in items + [y];
    }
  }

  lemma NoneOfNone()
    ensures forall s: set<Item> :: !OneOf([], s)
  {
  }

  method AddSingles(counts: map<set<Item>, nat>, items: seq<Item>) returns (r: map<set<Item>, nat>)
    requires Distinct(items)
    ensures forall s :: Get(r, s) == Get(counts, s) + if OneOf(items, s) then 1 else 0
  {
    hide OneOf;
    r := counts;
    var j := 0;
    NoneOfNone();
    assert items[..0] == [];
    while j < |items|
      invariant j <= |items|
      invariant forall s :: Get(r, s) == Get(counts, s) + if OneOf(items[..j], s) then 1 else 0
    {
      assert items[..j + 1] == items[..j] + [items[j]];
      forall s: set<Item>
        ensures OneOf(items[..j + 1], s) <==> OneOf(items[..j], s) || s == {items[j]}
        ensures OneOf(items[..j], s) ==> s != {items[j]}
      {
        OneOfAppend(items[..j], items[j], s);
      }
      r := r[{items[j]} := Get(r, {items[j]}) + 1];
      j := j + 1;
    }
    assert items[..|items|] == items;
  }

  method AddAllPairs(counts: map<set<Item>, nat>, ps: seq<Pair>) returns (r: map<set<Item>, nat>)
    ensures forall s :: Get(r, s) == Get(counts, s) + Occurs(ps, s)
  {
    r := counts;
    var j := 0;
    while j < |ps|
      invariant j <= |ps|
      invariant forall s :: Get(r, s) == Get(counts, s) + Occurs(ps[..j], s)
    {
      assert ps[..j + 1][..j] == ps[..j];
      r := r[AsSet(ps[j]) := Get(r, AsSet(ps[j])) + 1];
      j := j + 1;
    }
    assert ps[..|ps|] == ps;
  }

  // ---------------------------------------------------------------- the comparison

  /** The pruned candidates are some of the candidates of A-Priori. */
  lemma PcyPrunes(baskets: seq<Basket>, m: nat, h: Hash, numBuckets: nat)
    requires m >= 1 && numBuckets >= 1
    ensures PcyCandidates(baskets, m, h, numBuckets) <= PairsIn(FrequentItems(baskets, m))
    ensures |PcyCandidates(baskets, m, h, numBuckets)| <= |PairsIn(FrequentItems(baskets, m))|
  {
    var some, all := PcyCandidates(baskets, m, h, numBuckets), PairsIn(FrequentItems(baskets, m));
    assert all == some + (all - some);
  }

  /** On all baskets, for every hash and every number of buckets, the three algorithms deliver
      the same map; PCY counts at most as many candidates as A-Priori. */
  method AllAgree(baskets: seq<Basket>, ratio: real, h: Hash, numBuckets: nat, maxSize: int)
    returns (apriori: map<set<Item>, nat>, pcy: map<set<Item>, nat>, brute: map<set<Item>, nat>,
             aprioriStats: Stats, pcyStats: Stats)
    requires numBuckets >= 1
    ensures apriori == pcy == brute
    ensures pcyStats.passes == aprioriStats.passes && pcyStats.candidatePairs <= aprioriStats.candidatePairs
  {
    apriori, aprioriStats := Apriori(baskets, ratio, maxSize);
    pcy, pcyStats := Pcy(baskets, ratio, h, numBuckets, maxSize);
    var s;
    brute, s := BruteForce(baskets, ratio, maxSize);
    ghost var m := MinCount(ratio, |baskets|);
    MinesUnique(apriori, pcy, baskets, m, maxSize);
    MinesUnique(apriori, brute, baskets, m, maxSize);
    PcyPrunes(baskets, m, h, numBuckets);
  }
}
