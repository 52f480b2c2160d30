/** The distinct-count sketch of streaming/analytics/fm.py.

    Bitmaps are nonnegative integers of any width, as in the program; the 64-bit hash and the
    real power of two are arbitrary functions. */
module Fm {
  import opened Aggregate
  import opened Reals
  import opened Powers

  type Item = string

  const WIDTH: nat := 64

  // ---------------------------------------------------------------- bits of integers

  /** Bit r of a nonnegative integer. */
  predicate Bit(n: nat, r: nat) {
    if r == 0 then n % 2 == 1 else Bit(n / 2, r - 1)
  }

  /** Bitwise or and bitwise and of nonnegative integers. */
  function Or(a: nat, b: nat): nat
    decreases a + b
  {
    if a == 0 && b == 0 then 0
    else 2 * Or(a / 2, b / 2) + if a % 2 == 1 || b % 2 == 1 then 1 else 0
  }

  function And(a: nat, b: nat): nat {
    if a == 0 then 0
    else 2 * And(a / 2, b / 2) + if a % 2 == 1 && b % 2 == 1 then 1 else 0
  }

  lemma {:induction false} OrBit(a: nat, b: nat, r: nat)
    ensures Bit(Or(a, b), r) <==> Bit(a, r) || Bit(b, r)
    decreases r
  {
    if a == 0 && b == 0 {
      ZeroBit(r);
    } else if r > 0 {
      OrBit(a / 2, b / 2, r - 1);
    }
  }

  lemma {:induction false} AndBit(a: nat, b: nat, r: nat)
    ensures Bit(And(a, b), r) <==> Bit(a, r) && Bit(b, r)
    decreases r
  {
    if a == 0 {
      ZeroBit(r);
    } else if r > 0 {
      AndBit(a / 2, b / 2, r - 1);
    }
  }

  lemma {:induction false} ZeroBit(r: nat)
    ensures !Bit(0, r)
  {
    if r > 0 {
      ZeroBit(r - 1);
    }
  }

  lemma {:induction false} Pow2Bit(e: nat, r: nat)
    ensures Bit(Pow2(e), r) <==> r == e
  {
    if e == 0 {
      if r > 0 {
        ZeroBit(r - 1);
      }
    } else if r > 0 {
      Pow2Bit(e - 1, r - 1);
    }
  }

  /** Integers with the same bits are equal. */
  lemma {:induction false} SameBits(a: nat, b: nat)
    requires forall r: nat :: Bit(a, r) <==> Bit(b, r)
    ensures a == b
    decreases a + b
  {
    if a > 0 || b > 0 {
      assert Bit(a, 0) <==> Bit(b, 0);
      forall r: nat
        ensures Bit(a / 2, r) <==> Bit(b / 2, r)
      {
        assert Bit(a, r + 1) <==> Bit(b, r + 1);
      }
      SameBits(a / 2, b / 2);
    }
  }

  /** Testing a single bit by masking. */
  lemma MaskTest(b: nat, r: nat)
    ensures And(b, Pow2(r)) != 0 <==> Bit(b, r)
  {
    if Bit(b, r) {
      AndBit(b, Pow2(r), r);
      Pow2Bit(r, r);
      ZeroBit(r);
    } else {
      forall i: nat
        ensures Bit(And(b, Pow2(r)), i) <==> Bit(0, i)
      {
        AndBit(b, Pow2(r), i);
        Pow2Bit(r, i);
        ZeroBit(i);
      }
      SameBits(And(b, Pow2(r)), 0);
    }
  }

  lemma {:induction false} HighBits(n: nat, e: nat, r: nat)
    requires n < Pow2(e) && e <= r
    ensures !Bit(n, r)
    decreases e
  {
    if e == 0 {
      ZeroBit(r);
    } else {
      HighBits(n / 2, e - 1, r - 1);
    }
  }

  lemma {:induction false} SomeBit(n: nat, e: nat) returns (r: nat)
    requires 0 < n < Pow2(e)
    ensures r < e && Bit(n, r)
    decreases e
  {
    if n % 2 == 1 {
      r := 0;
    } else {
      r := SomeBit(n / 2, e - 1);
      r := r + 1;
    }
  }

  // ---------------------------------------------------------------- trailing zeros, first zero

  /** The position of the lowest set bit. */
  ghost predicate LowestBit(n: nat, r: nat) {
    Bit(n, r) && forall i :: 0 <= i < r ==> !Bit(n, i)
  }

  /** Counts the trailing zeros of a hash; WIDTH for zero. */
  function TrailingZeros(value: nat): (count: nat)
    ensures value == 0 ==> count == WIDTH
    ensures value > 0 ==> LowestBit(value, count)
    decreases value
  {
    if value == 0 then WIDTH
    else if value % 2 == 1 then 0
    else
      var c := TrailingZeros(value / 2);
      assert forall i :: 0 < i < c + 1 ==> Bit(value, i) == Bit(value / 2, i - 1);
      c + 1
  }

  method CountTrailingZeros(value: nat) returns (count: nat)
    ensures count == TrailingZeros(value)
  {
    if value == 0 {
      return 64;
    }
    count := 0;
    var v := value;
    while v % 2 == 0
      invariant v > 0 && TrailingZeros(value) == count + TrailingZeros(v)
      decreases v
    {
      count := count + 1;
      v := v / 2;
    }
  }

  /** A nonzero 64-bit hash has its lowest set bit below 64. */
  lemma TrailingZerosBound(value: nat)
    requires Fits(value)
    ensures TrailingZeros(value) < WIDTH <==> value != 0
  {
    if value != 0 {
      var r := SomeBit(value, WIDTH);
    }
  }

  /** A value of 64 bits. */
  predicate Fits(b: nat) {
    b < Pow2(WIDTH)
  }

  lemma NoBitBeyond(b: nat)
    requires Fits(b)
    ensures !Bit(b, WIDTH)
  {
    HighBits(b, WIDTH, WIDTH);
  }

  /** The index of the first unset bit. */
  ghost predicate FirstZero(b: nat, r: nat) {
    !Bit(b, r) && forall i :: 0 <= i < r ==> Bit(b, i)
  }

  function FirstZeroFrom(b: nat, r: nat): (z: nat)
    requires Fits(b) && r <= WIDTH
    ensures r <= z <= WIDTH && !Bit(b, z) && forall i :: r <= i < z ==> Bit(b, i)
    decreases WIDTH - r
  {
    hide Fits;
    NoBitBeyond(b);
    if Bit(b, r) then FirstZeroFrom(b, r + 1) else r
  }

  /** The search by masks ends at index 64 at the latest. */
  method FirstZeroBit(b: nat) returns (r: nat)
    requires Fits(b)
    ensures FirstZero(b, r) && r == FirstZeroFrom(b, 0) && r <= WIDTH
  {
    r := 0;
    MaskTest(b, r);
    while And(b, Pow2(r)) != 0
      invariant r <= WIDTH && FirstZeroFrom(b, 0) == FirstZeroFrom(b, r)
      invariant forall i :: 0 <= i < r ==> Bit(b, i)
      invariant And(b, Pow2(r)) != 0 <==> Bit(b, r)
      decreases WIDTH - r
    {
      HighBits(b, WIDTH, WIDTH);
      r := r + 1;
      MaskTest(b, r);
    }
  }

  /** More set bits never lower the first zero. */
  lemma FirstZeroMonotone(a: nat, b: nat)
    requires Fits(a) && Fits(b)
    requires forall r: nat :: Bit(a, r) ==> Bit(b, r)
    ensures FirstZeroFrom(a, 0) <= FirstZeroFrom(b, 0)
  {
  }

  lemma {:induction false} OrBelow(a: nat, b: nat, e: nat)
    requires a < Pow2(e) && b < Pow2(e)
    ensures Or(a, b) < Pow2(e)
    decreases e
  {
    if a > 0 || b > 0 {
      OrBelow(a / 2, b / 2, e - 1);
    }
  }

  lemma {:induction false} Pow2Below(t: nat, e: nat)
    requires t < e
    ensures Pow2(t) < Pow2(e)
  {
    if t < e - 1 {
      Pow2Below(t, e - 1);
    }
  }

  // ---------------------------------------------------------------- what a bitmap stands for

  type Hash = (Item, int) -> nat

  ghost predicate Hash64(h: Hash) {
    forall x, salt :: Fits(h(x, salt))
  }

  /** Item x sets bit r of the bitmap with this salt. */
  predicate Sets(h: Hash, salt: int, x: Item, r: nat) {
    h(x, salt) != 0 && TrailingZeros(h(x, salt)) == r
  }

  /** The bitmap holds exactly the bits set by the items. */
  ghost predicate Represents(b: nat, h: Hash, salt: int, items: set<Item>) {
    Fits(b) && forall r: nat :: Bit(b, r) <==> exists x :: x in items && Sets(h, salt, x, r)
  }

  /** A bitmap depends only on the set of items. */
  lemma RepresentsUnique(b: nat, b': nat, h: Hash, salt: int, items: set<Item>)
    requires Represents(b, h, salt, items) && Represents(b', h, salt, items)
    ensures b == b'
  {
    SameBits(b, b');
  }

  /** The bitmap of a union is the bitwise or of the bitmaps. */
  lemma UnionRepresents(b: nat, b': nat, h: Hash, salt: int, items: set<Item>, items': set<Item>)
    requires Represents(b, h, salt, items) && Represents(b', h, salt, items')
    ensures Represents(Or(b, b'), h, salt, items + items')
  {
    OrBelow(b, b', WIDTH);
    forall r: nat
      ensures Bit(Or(b, b'), r) <==> exists x :: x in items + items' && Sets(h, salt, x, r)
    {
      OrBit(b, b', r);
      if x :| x in items && Sets(h, salt, x, r) {
        assert x in items + items';
      }
      if x :| x in items' && Sets(h, salt, x, r) {
        assert x in items + items';
      }
    }
  }

  /** One item on its own. */
  lemma SingleRepresents(h: Hash, salt: int, x: Item)
    requires Hash64(h)
    ensures h(x, salt) == 0 ==> Represents(0, h, salt, {x})
    ensures h(x, salt) != 0 ==> TrailingZeros(h(x, salt)) < WIDTH
                                && Represents(Pow2(TrailingZeros(h(x, salt))), h, salt, {x})
  {
    hide Bit, Pow2, TrailingZeros;
    var v := h(x, salt);
    TrailingZerosBound(v);
    forall r: nat
      ensures !Bit(0, r) && (v != 0 ==> (Bit(Pow2(TrailingZeros(v)), r) <==> r == TrailingZeros(v)))
    {
      ZeroBit(r);
      Pow2Bit(TrailingZeros(v), r);
    }
    Pow2Below(0, WIDTH);
    if v != 0 {
      Pow2Below(TrailingZeros(v), WIDTH);
      assert Sets(h, salt, x, TrailingZeros(v));
    }
  }

  lemma EmptyRepresents(h: Hash, salt: int)
    ensures Represents(0, h, salt, {})
  {
    forall r: nat
      ensures !Bit(0, r)
    {
      ZeroBit(r);
    }
  }

  // ---------------------------------------------------------------- the estimate

  const PHI := 0.77351

  function FirstZeros(bitmaps: seq<nat>): (r: seq<real>)
    requires forall i :: 0 <= i < |bitmaps| ==> Fits(bitmaps[i])
    ensures |r| == |bitmaps|
  {
    seq(|bitmaps|, i requires 0 <= i < |bitmaps| => FirstZeroFrom(bitmaps[i], 0) as real)
  }

  function GroupEstimates(rs: seq<real>, size: nat, g: nat, pow: real -> real): (es: seq<real>)
    requires size > 0 && Start(size, g) <= |rs|
    ensures |es| == g
  {
    if g == 0 then []
    else
      StartStep(size, g - 1);
      GroupEstimates(rs, size, g - 1, pow) + [pow(Mean(rs[Start(size, g - 1)..Start(size, g)])) / PHI]
  }

  /** The median over the groups of pow(mean first zero) / phi. */
  function SketchEstimate(bitmaps: seq<nat>, groups: nat, pow: real -> real): real
    requires groups > 0 && |bitmaps| > 0 && |bitmaps| % groups == 0
    requires forall i :: 0 <= i < |bitmaps| ==> Fits(bitmaps[i])
  {
    GroupSize(|bitmaps|, groups);
    Median(GroupEstimates(FirstZeros(bitmaps), |bitmaps| / groups, groups, pow))
  }

  lemma SmallRemainder(n: nat, groups: nat)
    requires n < groups
    ensures n % groups == n
  {
  }

  lemma GroupSize(n: nat, groups: nat)
    requires n > 0 && groups > 0 && n % groups == 0
    ensures n / groups > 0 && Start(n / groups, groups) == n
  {
    hide Start;
    if n < groups {
      SmallRemainder(n, groups);
    } else {
      SlicesFit(n, groups);
    }
  }

  ghost predicate Monotone(pow: real -> real) {
    forall x, y :: x <= y ==> 0.0 <= pow(x) <= pow(y)
  }

  lemma {:induction false} GroupEstimatesMonotone(rs: seq<real>, rs': seq<real>, size: nat, g: nat, pow: real -> real)
    requires size > 0 && Start(size, g) <= |rs| && Below(rs, rs') && Monotone(pow)
    ensures Below(GroupEstimates(rs, size, g, pow), GroupEstimates(rs', size, g, pow))
    ensures forall i :: 0 <= i < g ==> GroupEstimates(rs, size, g, pow)[i] >= 0.0
  {
    hide Mean, Start;
    if g > 0 {
      StartStep(size, g - 1);
      GroupEstimatesMonotone(rs, rs', size, g - 1, pow);
      MeanMonotone(rs[Start(size, g - 1)..Start(size, g)], rs'[Start(size, g - 1)..Start(size, g)]);
    }
  }

  function Slice(rs: seq<real>, lo: int, hi: int): seq<real> {
    if 0 <= lo <= hi <= |rs| then rs[lo..hi] else []
  }

  /** What an estimate is: every bitmap has its first zero r, every group of neighbouring bitmaps
      has the estimate pow(mean of its r) / 0.77351, and the answer lies in the middle of these. */
  ghost predicate Estimates(bitmaps: seq<nat>, groups: nat, pow: real -> real, rs: seq<real>, es: seq<real>, est: real)
    requires groups > 0
  {
    && |rs| == |bitmaps| && |es| == groups
    && (forall i :: 0 <= i < |bitmaps| ==> HasFirstZero(bitmaps[i], rs[i]))
    && (forall g :: 0 <= g < groups ==> GroupAnswer(rs, |bitmaps| / groups, g, pow, es[g]))
    && Middle(es, est)
  }

  ghost predicate HasFirstZero(b: nat, r: real) {
    exists z: nat :: FirstZero(b, z) && r == z as real
  }

  ghost predicate GroupAnswer(rs: seq<real>, size: nat, g: nat, pow: real -> real, e: real) {
    size > 0 && e * 0.77351 == pow(Sum(Slice(rs, g * size, (g + 1) * size)) / size as real)
  }

  lemma SketchMeaning(bitmaps: seq<nat>, groups: nat, pow: real -> real) returns (rs: seq<real>, es: seq<real>)
    requires groups > 0 && |bitmaps| > 0 && |bitmaps| % groups == 0
    requires forall i :: 0 <= i < |bitmaps| ==> Fits(bitmaps[i])
    ensures Estimates(bitmaps, groups, pow, rs, es, SketchEstimate(bitmaps, groups, pow))
  {
    hide Median, Middle, Sum, Start, Fits, FirstZeroFrom, GroupAnswer;
    GroupSize(|bitmaps|, groups);
    var size := |bitmaps| / groups;
    rs := FirstZeros(bitmaps);
    es := GroupEstimates(rs, size, groups, pow);
    forall i | 0 <= i < |bitmaps|
      ensures HasFirstZero(bitmaps[i], rs[i])
    {
      FirstZeroIs(bitmaps[i]);
    }
    forall g | 0 <= g < groups
      ensures GroupAnswer(rs, size, g, pow, es[g])
    {
      GroupEstimateAt(rs, size, groups, g, pow);
    }
    MedianMiddle(es);
  }

  lemma FirstZeroIs(b: nat)
    requires Fits(b)
    ensures FirstZero(b, FirstZeroFrom(b, 0)) && HasFirstZero(b, FirstZeroFrom(b, 0) as real)
  {
    hide Fits;
  }

  lemma {:induction false} GroupEstimateAt(rs: seq<real>, size: nat, groups: nat, g: nat, pow: real -> real)
    requires size > 0 && Start(size, groups) <= |rs| && g < groups
    ensures GroupAnswer(rs, size, g, pow, GroupEstimates(rs, size, groups, pow)[g])
  {
    hide Sum;
    StartStep(size, groups - 1);
    if g < groups - 1 {
      hide Start, GroupAnswer;
      GroupEstimateAt(rs, size, groups - 1, g, pow);
    } else {
      SliceAt(rs, size, g);
      hide Start;
      PhiCancels(pow(Mean(Slice(rs, g * size, (g + 1) * size))));
    }
  }

  lemma SliceAt(rs: seq<real>, size: nat, g: nat)
    requires size > 0 && Start(size, g + 1) <= |rs|
    ensures Start(size, g) <= Start(size, g + 1)
    ensures Slice(rs, g * size, (g + 1) * size) == rs[Start(size, g)..Start(size, g + 1)] != []
    ensures |Slice(rs, g * size, (g + 1) * size)| == size
  {
    StartStep(size, g);
  }

  lemma PhiCancels(v: real)
    ensures v / PHI * 0.77351 == v
  {
    Quotient(v, 0.77351);
  }

  lemma SketchEstimateMonotone(bs: seq<nat>, bs': seq<nat>, groups: nat, pow: real -> real)
    requires groups > 0 && |bs| == |bs'| > 0 && |bs| % groups == 0 && Monotone(pow)
    requires forall i :: 0 <= i < |bs| ==> Fits(bs[i]) && Fits(bs'[i])
    requires forall i, r: nat :: 0 <= i < |bs| && Bit(bs[i], r) ==> Bit(bs'[i], r)
    ensures 0.0 <= SketchEstimate(bs, groups, pow) <= SketchEstimate(bs', groups, pow)
  {
    hide Median, Bit, FirstZeroFrom, Start;
    GroupSize(|bs|, groups);
    var size, rs, rs' := |bs| / groups, FirstZeros(bs), FirstZeros(bs');
    forall i | 0 <= i < |rs|
      ensures rs[i] <= rs'[i]
    {
      FirstZeroMonotone(bs[i], bs'[i]);
    }
    var es, es' := GroupEstimates(rs, size, groups, pow), GroupEstimates(rs', size, groups, pow);
    GroupEstimatesMonotone(rs, rs', size, groups, pow);
    MedianMonotone(es, es');
    var zeros := seq(groups, _ => 0.0);
    MedianBounded(0.0, zeros, 0.0);
    MedianMonotone(zeros, es);
  }

  // ---------------------------------------------------------------- the sketch

  /** One bitmap per hash function, each holding the bits of the same set of items. */
  ghost predicate Sketches(bitmaps: seq<nat>, h: Hash, seed: int, items: set<Item>) {
    forall i :: 0 <= i < |bitmaps| ==> Represents(bitmaps[i], h, seed * 10000 + i, items)
  }

  lemma EmptySketches(n: nat, h: Hash, seed: int)
    ensures Sketches(seq(n, _ => 0), h, seed, {})
  {
    var zeros: seq<nat> := seq(n, _ => 0);
    forall i | 0 <= i < n
      ensures Represents(zeros[i], h, seed * 10000 + i, {})
    {
      EmptyRepresents(h, seed * 10000 + i);
    }
  }

  lemma SketchesBelow(bitmaps: seq<nat>, h: Hash, seed: int, items: set<Item>)
    requires Sketches(bitmaps, h, seed, items)
    ensures forall i :: 0 <= i < |bitmaps| ==> Fits(bitmaps[i])
  {
    forall i | 0 <= i < |bitmaps|
      ensures Fits(bitmaps[i])
    {
      assert Represents(bitmaps[i], h, seed * 10000 + i, items);
    }
  }

  /** The estimate is a function of the set of items: order and repetitions do not matter. */
  lemma SketchOfSet(bs: seq<nat>, bs': seq<nat>, h: Hash, seed: int, items: set<Item>)
    requires |bs| == |bs'| && Sketches(bs, h, seed, items) && Sketches(bs', h, seed, items)
    ensures bs == bs'
  {
    hide Represents;
    forall i | 0 <= i < |bs|
      ensures bs[i] == bs'[i]
    {
      RepresentsUnique(bs[i], bs'[i], h, seed * 10000 + i, items);
    }
  }

  /** More items never lower the estimate. */
  lemma MoreItems(bs: seq<nat>, bs': seq<nat>, h: Hash, seed: int, items: set<Item>, items': set<Item>, groups: nat, pow: real -> real)
    requires |bs| == |bs'| > 0 && groups > 0 && |bs| % groups == 0 && Monotone(pow)
    requires Sketches(bs, h, seed, items) && Sketches(bs', h, seed, items') && items <= items'
    ensures forall i :: 0 <= i < |bs| ==> Fits(bs[i]) && Fits(bs'[i])
    ensures 0.0 <= SketchEstimate(bs, groups, pow) <= SketchEstimate(bs', groups, pow)
  {
    SketchesBelow(bs, h, seed, items);
    SketchesBelow(bs', h, seed, items');
    forall i, r: nat | 0 <= i < |bs| && Bit(bs[i], r)
      ensures Bit(bs'[i], r)
    {
      RepresentsMonotone(bs[i], bs'[i], h, seed * 10000 + i, items, items');
    }
    hide Represents, Bit, Pow2, Median, FirstZeroFrom, GroupEstimates;
    SketchEstimateMonotone(bs, bs', groups, pow);
  }

  lemma RepresentsMonotone(b: nat, b': nat, h: Hash, salt: int, items: set<Item>, items': set<Item>)
    requires Represents(b, h, salt, items) && Represents(b', h, salt, items') && items <= items'
    ensures forall r: nat :: Bit(b, r) ==> Bit(b', r)
  {
    forall r: nat | Bit(b, r)
      ensures Bit(b', r)
    {
      var x :| x in items && Sets(h, salt, x, r);
      assert x in items';
    }
  }

  class FlajoletMartin {
    const numHashes: int
    const numGroups: int
    const seed: int
    const hash: Hash
    var bitmaps: seq<nat>
    var nSeen: int
    ghost var items: seq<Item>   // every item observed so far

    ghost predicate Valid()
      reads this
    {
      && numHashes > 0 && numGroups > 0 && numHashes % numGroups == 0 && Hash64(hash)
      && |bitmaps| == numHashes && nSeen == |items|
      && Sketches(bitmaps, hash, seed, set x | x in items)
    }

    constructor (numHashes: int, numGroups: int, seed: int, hash: Hash)
      requires numHashes > 0 && numGroups > 0 && numHashes % numGroups == 0 && Hash64(hash)
      ensures Valid() && items == []
      ensures this.numHashes == numHashes && this.numGroups == numGroups && this.seed == seed && this.hash == hash
    {
      this.numHashes, this.numGroups, this.seed, this.hash := numHashes, numGroups, seed, hash;
      bitmaps := seq(numHashes, _ => 0);
      nSeen := 0;
      items := [];
      EmptySketches(numHashes, hash, seed);
      assert (set x: Item | x in []) == {};
    }

    /** Construction fails exactly on counts that are not positive or do not divide. */
    static method Create(numHashes: int, numGroups: int, seed: int, hash: Hash) returns (f: FlajoletMartin?)
      requires Hash64(hash)
      ensures f == null <==> numHashes <= 0 || numGroups <= 0 || numHashes % numGroups != 0
      ensures f != null ==>
                && fresh(f) && f.Valid() && f.items == [] && f.hash == hash
                && f.numHashes == numHashes && f.numGroups == numGroups && f.seed == seed
    {
      if numHashes <= 0 || numGroups <= 0 {
        return null;
      }
      if numHashes % numGroups != 0 {
        return null;
      }
      f := new FlajoletMartin(numHashes, numGroups, seed, hash);
    }

    method Add(item: Item)
      requires Valid()
      modifies this
      ensures Valid() && items == old(items) + [item]
    {
      hide Represents, Hash64, Or, TrailingZeros;
      ghost var known := set x | x in items;
      var i := 0;
      while i < numHashes
        invariant 0 <= i <= numHashes && |bitmaps| == numHashes
        invariant forall j :: 0 <= j < i ==> Represents(bitmaps[j], hash, seed * 10000 + j, known + {item})
        invariant forall j :: i <= j < numHashes ==> Represents(bitmaps[j], hash, seed * 10000 + j, known)
        invariant nSeen == old(nSeen) && items == old(items)
      {
        var h := hash(item, seed * 10000 + i);
        var tz := CountTrailingZeros(h);
        AddBit(bitmaps[i], hash, seed * 10000 + i, known, item);
        if tz < 64 {
          bitmaps := bitmaps[i := Or(bitmaps[i], Pow2(tz))];
        }
        i := i + 1;
      }
      nSeen := nSeen + 1;
      items := items + [item];
      assert (set x | x in items) == known + {item};
    }

    /** The result equals the sketch estimate of the set of items observed; 0 for none. */
    method Estimate(pow: real -> real) returns (est: real)
      requires Valid()
      ensures forall i :: 0 <= i < |bitmaps| ==> Fits(bitmaps[i])
      ensures est == if items == [] then 0.0 else SketchEstimate(bitmaps, numGroups, pow)
      ensures items != [] ==> exists rs, es :: Estimates(bitmaps, numGroups, pow, rs, es, est)
    {
      hide Sketches, Hash64, Mean, Median, Pow2, FirstZeroFrom, GroupEstimates, Start, Estimates;
      SketchesBelow(bitmaps, hash, seed, set x | x in items);
      if nSeen == 0 {
        return 0.0;
      }
      var rs: seq<real> := [];
      var i := 0;
      while i < |bitmaps|
        invariant i <= |bitmaps| && rs == FirstZeros(bitmaps)[..i]
      {
        var r := FirstZeroBit(bitmaps[i]);
        rs := rs + [r as real];
        i := i + 1;
      }
      assert rs == FirstZeros(bitmaps);
      GroupSize(|bitmaps|, numGroups);
      est := MedianOfGroups(rs, numHashes / numGroups, pow);
      ghost var zeros, es := SketchMeaning(bitmaps, numGroups, pow);
    }

    method MedianOfGroups(rs: seq<real>, size: nat, pow: real -> real) returns (est: real)
      requires size > 0 && numGroups > 0 && Start(size, numGroups) == |rs|
      ensures est == Median(GroupEstimates(rs, size, numGroups, pow))
    {
      hide Start, Sum, Median;
      StartStep(size, 0);
      var estimates: seq<real> := [];
      var g := 0;
      while g < numGroups
        invariant 0 <= g <= numGroups && Start(size, g) <= |rs|
        invariant estimates == GroupEstimates(rs, size, g, pow)
      {
        StartStep(size, g);
        StartMonotone(size, g + 1, numGroups);
        var start := Start(size, g);
        var slice := rs[start..start + size];
        estimates := estimates + [pow(Sum(slice) / size as real) / PHI];
        g := g + 1;
      }
      est := Median(estimates);
    }
  }

  /** Setting the bit of one more item. */
  lemma AddBit(b: nat, h: Hash, salt: int, items: set<Item>, x: Item)
    requires Represents(b, h, salt, items) && Hash64(h)
    ensures TrailingZeros(h(x, salt)) < WIDTH ==> Represents(Or(b, Pow2(TrailingZeros(h(x, salt)))), h, salt, items + {x})
    ensures TrailingZeros(h(x, salt)) >= WIDTH ==> Represents(b, h, salt, items + {x})
  {
    hide Represents;
    SingleRepresents(h, salt, x);
    if h(x, salt) != 0 {
      UnionRepresents(b, Pow2(TrailingZeros(h(x, salt))), h, salt, items, {x});
    } else {
      UnionRepresents(b, 0, h, salt, items, {x});
      OrZero(b);
    }
  }

  lemma OrZero(b: nat)
    ensures Or(b, 0) == b
  {
    forall r: nat
      ensures Bit(Or(b, 0), r) <==> Bit(b, r)
    {
      OrBit(b, 0, r);
      ZeroBit(r);
    }
    SameBits(Or(b, 0), b);
  }
}
