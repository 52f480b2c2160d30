/** The sliding-window counter of streaming/analytics/dgim.py.

    The mutable estimator is the class `DGIM`. Its ghost field `bits` is the whole stream
    observed so far; position t of the stream (counted from 1) is `bits[t - 1]`. The lemmas
    below the class relate every reachable bucket list to that stream. */
module Dgim {
  import opened Options
  import opened Reals
  import opened Powers

  /** A bucket: the position of its newest one and its size. */
  datatype Bucket = Bucket(timestamp: int, size: int)

  // ---------------------------------------------------------------- the bit stream

  function Bit(bits: seq<bool>, t: int): nat {
    if 1 <= t <= |bits| && bits[t - 1] then 1 else 0
  }

  /** The ones at the positions t with lo < t <= hi; positions outside the stream hold none. */
  function Ones(bits: seq<bool>, lo: int, hi: int): nat
    decreases hi - lo
  {
    if hi <= lo then 0 else Ones(bits, lo, hi - 1) + Bit(bits, hi)
  }

  lemma {:induction false} OnesSplit(bits: seq<bool>, a: int, b: int, c: int)
    requires a <= b <= c
    ensures Ones(bits, a, c) == Ones(bits, a, b) + Ones(bits, b, c)
    decreases c - b
  {
    if b < c {
      OnesSplit(bits, a, b, c - 1);
    }
  }

  lemma {:induction false} OnesAtMost(bits: seq<bool>, lo: int, hi: int)
    ensures lo <= hi ==> Ones(bits, lo, hi) <= hi - lo
    ensures hi <= 0 ==> Ones(bits, lo, hi) == 0
    decreases hi - lo
  {
    if lo < hi {
      OnesAtMost(bits, lo, hi - 1);
    }
  }

  lemma {:induction false} OnesAppend(bits: seq<bool>, b: bool, lo: int, hi: int)
    requires hi <= |bits|
    ensures Ones(bits + [b], lo, hi) == Ones(bits, lo, hi)
    decreases hi - lo
  {
    if lo < hi {
      OnesAppend(bits, b, lo, hi - 1);
    }
  }

  // ---------------------------------------------------------------- bucket lists

  /** The boundary before bucket i: its timestamp or, past the end, the newest position
      whose ones have left the list. */
  function Edge(bs: seq<Bucket>, horizon: int, i: nat): int {
    if i < |bs| then bs[i].timestamp else horizon
  }

  /** Every bucket sits on a one, and counts exactly the ones since the next older edge;
      no one is newer than the newest bucket. */
  ghost predicate Covers(bits: seq<bool>, bs: seq<Bucket>, horizon: int) {
    && 0 <= horizon <= |bits|
    && (forall i :: 0 <= i < |bs| ==> OnOne(bits, bs[i].timestamp, horizon))
    && Newest(bs)
    && (forall i :: 0 <= i < |bs| ==> Exact(bits, bs, horizon, i))
    && Ones(bits, Edge(bs, horizon, 0), |bits|) == 0
  }

  ghost predicate OnOne(bits: seq<bool>, t: int, horizon: int) {
    0 <= horizon < t <= |bits| && bits[t - 1]
  }

  ghost predicate Newest(bs: seq<Bucket>) {
    forall i, j :: 0 <= i < j < |bs| ==> bs[j].timestamp < bs[i].timestamp
  }

  ghost predicate Exact(bits: seq<bool>, bs: seq<Bucket>, horizon: int, i: nat)
    requires i < |bs|
  {
    bs[i].size == Ones(bits, Edge(bs, horizon, i + 1), bs[i].timestamp)
  }

  predicate Triple(bs: seq<Bucket>, i: int) {
    0 <= i && i + 2 < |bs| && bs[i].size == bs[i + 1].size == bs[i + 2].size
  }

  /** From newest to oldest the sizes start at 1 and each next one is the same or double. */
  ghost predicate Steps(bs: seq<Bucket>) {
    && (bs != [] ==> bs[0].size == 1)
    && (forall i :: 0 <= i < |bs| - 1 ==> SameOrDouble(bs, i))
  }

  predicate SameOrDouble(bs: seq<Bucket>, i: nat)
    requires i + 1 < |bs|
  {
    bs[i + 1].size == bs[i].size || bs[i + 1].size == 2 * bs[i].size
  }

  /** At most one size occurs three times, and none four times. */
  ghost predicate OneTriple(bs: seq<Bucket>) {
    forall i, j :: Triple(bs, i) && Triple(bs, j) ==> i == j
  }

  ghost predicate NoTriple(bs: seq<Bucket>) {
    forall i :: !Triple(bs, i)
  }

  function PrefixSize(bs: seq<Bucket>, n: nat): int
    requires n <= |bs|
  {
    if n == 0 then 0 else PrefixSize(bs, n - 1) + bs[n - 1].size
  }

  /** The list after the two older buckets of a triple at i become one. */
  function Merged(bs: seq<Bucket>, i: nat): (r: seq<Bucket>)
    requires i + 2 < |bs|
  {
    bs[..i + 1] + [Bucket(bs[i + 1].timestamp, bs[i + 1].size * 2)] + bs[i + 3..]
  }

  lemma {:induction false} PrefixSizeCong(a: seq<Bucket>, b: seq<Bucket>, n: nat)
    requires n <= |a| && n <= |b| && a[..n] == b[..n]
    ensures PrefixSize(a, n) == PrefixSize(b, n)
  {
    if n > 0 {
      assert a[..n - 1] == a[..n][..n - 1] == b[..n - 1];
      assert a[n - 1] == a[..n][n - 1] == b[n - 1];
      PrefixSizeCong(a, b, n - 1);
    }
  }

  lemma {:induction false} MergedPrefixSize(bs: seq<Bucket>, i: nat, n: nat)
    requires Triple(bs, i) && i + 2 <= n <= |bs| - 1
    ensures PrefixSize(Merged(bs, i), n) == PrefixSize(bs, n + 1)
    decreases n
  {
    if n == i + 2 {
      PrefixSizeCong(Merged(bs, i), bs, i + 1);
    } else {
      MergedPrefixSize(bs, i, n - 1);
    }
  }

  lemma MergedCovers(bits: seq<bool>, bs: seq<Bucket>, horizon: int, i: nat)
    requires Covers(bits, bs, horizon) && Triple(bs, i)
    ensures Covers(bits, Merged(bs, i), horizon)
  {
    var ms := Merged(bs, i);
    assert forall j :: 0 <= j < |ms| ==> ms[j].timestamp == bs[if j <= i + 1 then j else j + 1].timestamp
      by { MergedTimestamps(bs, i); }
    forall j | 0 <= j < |ms|
      ensures OnOne(bits, ms[j].timestamp, horizon)
    {
      assert OnOne(bits, bs[if j <= i + 1 then j else j + 1].timestamp, horizon);
    }
    forall j | 0 <= j < |ms|
      ensures Exact(bits, ms, horizon, j)
    {
      MergedExact(bits, bs, horizon, i, j);
    }
  }

  lemma MergedTimestamps(bs: seq<Bucket>, i: nat)
    requires i + 2 < |bs|
    ensures forall j :: 0 <= j < |bs| - 1 ==>
              Merged(bs, i)[j].timestamp == bs[if j <= i + 1 then j else j + 1].timestamp
  {
  }

  lemma MergedExact(bits: seq<bool>, bs: seq<Bucket>, horizon: int, i: nat, j: nat)
    requires Covers(bits, bs, horizon) && Triple(bs, i) && j < |bs| - 1
    ensures Exact(bits, Merged(bs, i), horizon, j)
  {
    var ms := Merged(bs, i);
    if j <= i {
      assert ms[j] == bs[j] && Edge(ms, horizon, j + 1) == Edge(bs, horizon, j + 1);
      assert Exact(bits, bs, horizon, j);
    } else {
      assert Edge(ms, horizon, j + 1) == Edge(bs, horizon, j + 2);
      assert Exact(bits, bs, horizon, j + 1);
      if j == i + 1 {
        assert Exact(bits, bs, horizon, j);
        assert OnOne(bits, bs[j + 1].timestamp, horizon);
        if j + 2 < |bs| {
          assert bs[j + 2].timestamp < bs[j + 1].timestamp;
        }
        OnesSplit(bits, Edge(bs, horizon, j + 2), bs[j + 1].timestamp, bs[j].timestamp);
      } else {
        assert ms[j] == bs[j + 1];
      }
    }
  }

  /** Merging the only triple moves it one place towards the old end, or removes it. */
  lemma MergedSteps(bs: seq<Bucket>, i: nat)
    requires Steps(bs) && OneTriple(bs) && Triple(bs, i)
    ensures Steps(Merged(bs, i)) && OneTriple(Merged(bs, i))
  {
    var ms := Merged(bs, i);
    assert !Triple(bs, i + 1);
    forall j | 0 <= j < |ms| - 1
      ensures SameOrDouble(ms, j)
    {
      if j < i {
        assert SameOrDouble(bs, j);
      } else if j > i {
        assert SameOrDouble(bs, j + 1);
      }
    }
    SizesPositive(bs, i);
    forall j | j != i + 1
      ensures !Triple(ms, j)
    {
      assert !Triple(bs, if j < i then j else j + 1);
    }
  }

  ghost predicate NoTripleBefore(bs: seq<Bucket>, i: nat) {
    forall j :: j < i ==> !Triple(bs, j)
  }

  ghost predicate After(bs: seq<Bucket>, lo: int) {
    forall i :: 0 <= i < |bs| ==> lo < bs[i].timestamp
  }

  /** What merging keeps between the list it started from and the current one. */
  ghost predicate MergeOf(bits: seq<bool>, bs0: seq<Bucket>, bs: seq<Bucket>, horizon: int) {
    && PrefixSize(bs, |bs|) == PrefixSize(bs0, |bs0|)
    && |bs| <= |bs0|
    && (bs0 != [] ==> bs != [] && bs[0] == bs0[0])
    && (forall lo :: After(bs0, lo) ==> After(bs, lo))
    && (Covers(bits, bs0, horizon) ==> Covers(bits, bs, horizon))
    && (Steps(bs0) && OneTriple(bs0) ==> Steps(bs) && OneTriple(bs))
  }

  lemma MergedKeeps(bits: seq<bool>, bs0: seq<Bucket>, bs: seq<Bucket>, horizon: int, i: nat)
    requires MergeOf(bits, bs0, bs, horizon) && Triple(bs, i) && NoTripleBefore(bs, i)
    ensures MergeOf(bits, bs0, Merged(bs, i), horizon)
    ensures NoTripleBefore(Merged(bs, i), i)
  {
    MergedPrefixSize(bs, i, |bs| - 1);
    if Covers(bits, bs0, horizon) {
      MergedCovers(bits, bs, horizon, i);
    }
    if Steps(bs0) && OneTriple(bs0) {
      MergedSteps(bs, i);
    }
    MergedTimestamps(bs, i);
    forall lo | After(bs0, lo)
      ensures After(Merged(bs, i), lo)
    {
      assert After(bs, lo);
    }
    forall j | j < i
      ensures !Triple(Merged(bs, i), j)
    {
      assert !Triple(bs, j);
    }
  }

  lemma {:induction false} SizesPositive(bs: seq<Bucket>, i: nat)
    requires Steps(bs) && i < |bs|
    ensures bs[i].size >= 1
  {
    if i > 0 {
      SizesPositive(bs, i - 1);
      assert SameOrDouble(bs, i - 1);
    }
  }

  // ---------------------------------------------------------------- the estimate

  /** How many of the newest buckets lie inside the query window. */
  function Overlapping(bs: seq<Bucket>, cutoff: int): (m: nat)
    ensures m <= |bs|
    ensures forall i :: 0 <= i < m ==> bs[i].timestamp > cutoff
    ensures m < |bs| ==> bs[m].timestamp <= cutoff
  {
    if bs == [] || bs[0].timestamp <= cutoff then 0
    else
      var m := Overlapping(bs[1..], cutoff);
      assert forall i :: 0 < i < m + 1 ==> bs[i] == bs[1..][i - 1];
      m + 1
  }

  /** All buckets in the window except the oldest, plus half of the oldest rounded down. */
  function Estimate(bs: seq<Bucket>, cutoff: int): int {
    var m := Overlapping(bs, cutoff);
    if m == 0 then 0 else PrefixSize(bs, m - 1) + bs[m - 1].size / 2
  }

  /** The length of a query: the argument capped at the window, the window by default. */
  function QueryLength(windowN: int, k: Option<int>): int {
    match k
    case None => windowN
    case Some(len) => if len <= windowN then len else windowN
  }

  datatype Snapshot = Snapshot(windowN: int, currentTime: int, buckets: seq<Bucket>)

  // ---------------------------------------------------------------- the estimator

  class DGIM {
    var windowN: int
    var currentTime: int
    var buckets: seq<Bucket>
    ghost var bits: seq<bool>    // every bit observed so far
    ghost var horizon: int       // position of the newest expired bucket, or 0

    /** What holds of every estimator that was built by `Create` and fed by `Update`. */
    ghost predicate Valid()
      reads this
    {
      && InWindow(bits, buckets, horizon, windowN)
      && currentTime == |bits|
      && NoTriple(buckets)
    }

    constructor (windowN: int)
      requires windowN > 0
      ensures Valid() && this.windowN == windowN && bits == [] && buckets == []
    {
      this.windowN, currentTime, buckets := windowN, 0, [];
      bits, horizon := [], 0;
    }

    /** Construction fails exactly on a window that is not positive. */
    static method Create(windowN: int) returns (d: DGIM?)
      ensures d == null <==> windowN <= 0
      ensures d != null ==> fresh(d) && d.Valid() && d.windowN == windowN && d.bits == []
    {
      if windowN <= 0 {
        return null;
      }
      d := new DGIM(windowN);
    }

    method Update(bit: bool)
      requires Valid()
      modifies this
      ensures Valid()
      ensures windowN == old(windowN) && currentTime == old(currentTime) + 1
      ensures bits == old(bits) + [bit]
      ensures horizon == NewestExpired(old(buckets), old(horizon), currentTime - windowN)
    {
      hide Covers, Steps, NoTriple, After, NewestExpired, Overlapping;
      currentTime := currentTime + 1;
      Expire(currentTime - windowN);
      if bit {
        InsertOne();
      } else {
        PushZero(bits, buckets, horizon);
        bits := bits + [false];
      }
    }

    /** The branch of an update that observes a one. */
    method InsertOne()
      requires Covers(bits, buckets, horizon) && Steps(buckets) && NoTriple(buckets)
      requires currentTime == |bits| + 1 && After(buckets, currentTime - windowN) && windowN > 0
      modifies `buckets, `bits
      ensures bits == old(bits) + [true]
      ensures Covers(bits, buckets, horizon) && Steps(buckets) && NoTriple(buckets)
      ensures After(buckets, currentTime - windowN)
    {
      PushOne(bits, buckets, horizon);
      PushSteps(buckets, currentTime);
      PushAfter(buckets, currentTime, currentTime - windowN);
      bits := bits + [true];
      buckets := [Bucket(currentTime, 1)] + buckets;
      MergeBuckets();
    }

    /** Drops the buckets whose newest one has left the window. */
    method Expire(cutoff: int)
      requires Covers(bits, buckets, horizon) && Steps(buckets) && NoTriple(buckets)
      requires horizon <= 0 || horizon <= cutoff
      modifies `buckets, `horizon
      ensures buckets == old(buckets)[..Overlapping(old(buckets), cutoff)]
      ensures horizon == NewestExpired(old(buckets), old(horizon), cutoff)
      ensures horizon <= 0 || horizon <= cutoff
      ensures Covers(bits, buckets, horizon) && Steps(buckets) && NoTriple(buckets)
      ensures After(buckets, cutoff)
    {
      hide Covers, Steps, NoTriple, Overlapping;
      ghost var bs0, h0 := buckets, horizon;
      CoversNewest(bits, bs0, h0);
      while buckets != [] && buckets[|buckets| - 1].timestamp <= cutoff
        invariant |buckets| <= |bs0| && buckets == bs0[..|buckets|]
        invariant Covers(bits, buckets, horizon)
        invariant horizon == Edge(bs0, h0, |buckets|)
        invariant |buckets| < |bs0| ==> horizon <= cutoff
        decreases |buckets|
      {
        PopCovers(bits, buckets, horizon);
        DropLast(bs0, |buckets|);
        horizon := buckets[|buckets| - 1].timestamp;
        buckets := buckets[..|buckets| - 1];
      }
      OverlappingIs(bs0, cutoff, |buckets|);
      TakeSteps(bs0, |buckets|);
      TakeAfter(bs0, |buckets|, cutoff);
    }

    /** Merges until no three adjacent buckets have one size, whatever the list it starts
        from; the total size and the newest bucket stay. */
    method MergeBuckets()
      modifies `buckets
      ensures NoTriple(buckets)
      ensures PrefixSize(buckets, |buckets|) == old(PrefixSize(buckets, |buckets|))
      ensures |buckets| <= old(|buckets|)
      ensures old(buckets) != [] ==> buckets != [] && buckets[0] == old(buckets)[0]
      ensures forall lo :: old(After(buckets, lo)) ==> After(buckets, lo)
      ensures old(Covers(bits, buckets, horizon)) ==> Covers(bits, buckets, horizon)
      ensures old(Steps(buckets) && OneTriple(buckets)) ==> Steps(buckets)
    {
      ghost var bs0 := buckets;
      var i := 0;
      while i < |buckets| - 2
        invariant 0 <= i && (i <= |buckets| - 2 || i == 0)
        invariant NoTripleBefore(buckets, i)
        invariant MergeOf(bits, bs0, buckets, horizon)
        decreases 2 * |buckets| - i
      {
        var b1, b2, b3 := buckets[i], buckets[i + 1], buckets[i + 2];
        if b1.size == b2.size == b3.size {
          MergedKeeps(bits, bs0, buckets, horizon, i);
          ghost var before := buckets;
          var merged := Bucket(b2.timestamp, b2.size * 2);
          buckets := buckets[..i + 2] + buckets[i + 3..];
          buckets := buckets[i + 1 := merged];
          assert buckets == Merged(before, i);
          i := if i - 1 > 0 then i - 1 else 0;
        } else {
          i := i + 1;
        }
      }
    }

    /** The estimate of a list as the loop accumulates it, for any list and any argument. */
    method Query(k: Option<int>) returns (est: int)
      ensures est == if QueryLength(windowN, k) <= 0 then 0
                     else Estimate(buckets, currentTime - QueryLength(windowN, k))
      ensures Valid() && k.Some? && 0 < k.value <= windowN ==> Answers(bits, k.value, est)
      ensures Valid() && (k.None? || k.value > windowN) ==> Answers(bits, windowN, est)
      ensures k.Some? && k.value <= 0 ==> est == 0
    {
      hide InWindow, NoTriple;
      if Valid() && QueryLength(windowN, k) > 0 {
        AccurateAnswer(bits, buckets, horizon, windowN, QueryLength(windowN, k));
      }
      if buckets == [] {
        return 0;
      }
      var queryLen := QueryLength(windowN, k);
      if queryLen <= 0 {
        return 0;
      }
      var cutoff := currentTime - queryLen;
      var total := 0;
      ghost var m := Overlapping(buckets, cutoff);
      var i := 0;
      while i < |buckets|
        invariant i <= m && i <= |buckets|
        invariant total == if i < m then PrefixSize(buckets, i) else Estimate(buckets, cutoff)
      {
        var b := buckets[i];
        if b.timestamp <= cutoff {
          break;
        }
        if i == |buckets| - 1 || buckets[i + 1].timestamp <= cutoff {
          total := total + b.size / 2;
        } else {
          total := total + b.size;
        }
        i := i + 1;
      }
      est := total;
    }

    method TakeSnapshot() returns (s: Snapshot)
      ensures s == Snapshot(windowN, currentTime, buckets)
    {
      s := Snapshot(windowN, currentTime, buckets);
    }

    /** Restoring a snapshot of a valid estimator gives a valid estimator of the same stream. */
    method Restore(s: Snapshot, ghost origin: DGIM)
      requires origin.Valid()
      requires s == Snapshot(origin.windowN, origin.currentTime, origin.buckets)
      modifies this
      ensures Valid() && bits == old(origin.bits) && horizon == old(origin.horizon)
      ensures windowN == s.windowN && currentTime == s.currentTime && buckets == s.buckets
    {
      bits, horizon := origin.bits, origin.horizon;
      windowN, currentTime, buckets := s.windowN, s.currentTime, s.buckets;
    }
  }

  /** An answer is within half of the true count, except that a count of one is answered with 0. */
  ghost predicate Answers(bits: seq<bool>, k: int, est: int) {
    var c := Ones(bits, |bits| - k, |bits|);
    if c <= 1 then est == 0 else Within(est, c)
  }

  lemma AccurateAnswer(bits: seq<bool>, bs: seq<Bucket>, horizon: int, windowN: int, k: int)
    requires InWindow(bits, bs, horizon, windowN) && 0 < k <= windowN
    ensures Answers(bits, k, Estimate(bs, |bits| - k))
  {
    hide InWindow, Estimate, Ones, Overlapping;
    Accuracy(bits, bs, horizon, windowN, k);
  }

  /** The documented bound of one half for every bit stream fails: a stream of one set bit. */
  method AccuracyFailsOnOne() returns (d: DGIM, est: int)
    ensures d.Valid() && d.windowN == 1000 && d.bits == [true]
    ensures est == 0 && Ones(d.bits, |d.bits| - 1000, |d.bits|) == 1
    ensures !Within(est, 1)
  {
    hide InWindow, Estimate, Overlapping, NewestExpired;
    d := new DGIM(1000);
    d.Update(true);
    est := d.Query(None);
    OnesAtMost([true], 1 - 1000, 0);
    assert Ones([true], 1 - 1000, 1) == 1;
    Accuracy(d.bits, d.buckets, d.horizon, 1000, 1000);
  }

  /** The edge left behind when the buckets at or before the cutoff are dropped. */
  function NewestExpired(bs: seq<Bucket>, horizon: int, cutoff: int): int {
    Edge(bs, horizon, Overlapping(bs, cutoff))
  }

  // ---------------------------------------------------------------- steps of an update

  lemma CoversNewest(bits: seq<bool>, bs: seq<Bucket>, horizon: int)
    requires Covers(bits, bs, horizon)
    ensures Newest(bs)
  {
  }

  lemma PopCovers(bits: seq<bool>, bs: seq<Bucket>, horizon: int)
    requires Covers(bits, bs, horizon) && bs != []
    ensures Covers(bits, bs[..|bs| - 1], bs[|bs| - 1].timestamp)
  {
    var rest, h := bs[..|bs| - 1], bs[|bs| - 1].timestamp;
    assert forall i :: 0 <= i <= |rest| ==> Edge(rest, h, i) == Edge(bs, horizon, i);
    forall i | 0 <= i < |rest|
      ensures OnOne(bits, rest[i].timestamp, h) && Exact(bits, rest, h, i)
    {
      assert OnOne(bits, bs[i].timestamp, horizon) && Exact(bits, bs, horizon, i);
      assert OnOne(bits, bs[|bs| - 1].timestamp, horizon);
    }
  }

  /** A new bucket of size 1 in front makes at most one triple, at the front. */
  lemma PushSteps(bs: seq<Bucket>, t: int)
    requires Steps(bs) && NoTriple(bs)
    ensures Steps([Bucket(t, 1)] + bs) && OneTriple([Bucket(t, 1)] + bs)
  {
    var bs' := [Bucket(t, 1)] + bs;
    forall i | 0 <= i < |bs'| - 1
      ensures SameOrDouble(bs', i)
    {
      assert i > 0 ==> SameOrDouble(bs, i - 1);
    }
    forall i | Triple(bs', i)
      ensures i == 0
    {
      assert !Triple(bs, i - 1);
    }
  }

  lemma DropLast(bs: seq<Bucket>, n: nat)
    requires 0 < n <= |bs|
    ensures bs[..n][..n - 1] == bs[..n - 1] && bs[..n][n - 1] == bs[n - 1]
  {
  }

  lemma TakeSteps(bs: seq<Bucket>, n: nat)
    requires Steps(bs) && NoTriple(bs) && n <= |bs|
    ensures Steps(bs[..n]) && NoTriple(bs[..n])
  {
    forall i | 0 <= i < n - 1
      ensures SameOrDouble(bs[..n], i)
    {
      assert SameOrDouble(bs, i);
    }
    forall i
      ensures !Triple(bs[..n], i)
    {
      assert !Triple(bs, i);
    }
  }

  lemma PushAfter(bs: seq<Bucket>, t: int, lo: int)
    requires After(bs, lo) && lo < t
    ensures After([Bucket(t, 1)] + bs, lo)
  {
  }

  lemma TakeAfter(bs: seq<Bucket>, n: nat, lo: int)
    requires Newest(bs) && n <= |bs| && (n > 0 ==> bs[n - 1].timestamp > lo)
    ensures After(bs[..n], lo)
  {
  }

  lemma OverlappingIs(bs: seq<Bucket>, cutoff: int, m: nat)
    requires Newest(bs) && m <= |bs|
    requires m > 0 ==> bs[m - 1].timestamp > cutoff
    requires m < |bs| ==> bs[m].timestamp <= cutoff
    ensures Overlapping(bs, cutoff) == m
  {
  }

  lemma PushZero(bits: seq<bool>, bs: seq<Bucket>, horizon: int)
    requires Covers(bits, bs, horizon)
    ensures Covers(bits + [false], bs, horizon)
  {
    forall i | 0 <= i < |bs|
      ensures OnOne(bits + [false], bs[i].timestamp, horizon) && Exact(bits + [false], bs, horizon, i)
    {
      assert OnOne(bits, bs[i].timestamp, horizon) && Exact(bits, bs, horizon, i);
      OnesAppend(bits, false, Edge(bs, horizon, i + 1), bs[i].timestamp);
    }
    OnesAppend(bits, false, Edge(bs, horizon, 0), |bits|);
  }

  lemma PushOne(bits: seq<bool>, bs: seq<Bucket>, horizon: int)
    requires Covers(bits, bs, horizon)
    ensures Covers(bits + [true], [Bucket(|bits| + 1, 1)] + bs, horizon)
  {
    var bits', bs' := bits + [true], [Bucket(|bits| + 1, 1)] + bs;
    assert forall i :: 0 < i < |bs'| ==> bs'[i] == bs[i - 1];
    forall i | 0 <= i < |bs'|
      ensures OnOne(bits', bs'[i].timestamp, horizon)
    {
      assert i > 0 ==> OnOne(bits, bs[i - 1].timestamp, horizon);
    }
    forall i, j | 0 <= i < j < |bs'|
      ensures bs'[j].timestamp < bs'[i].timestamp
    {
      assert OnOne(bits, bs[j - 1].timestamp, horizon);
    }
    forall i | 0 <= i < |bs'|
      ensures Exact(bits', bs', horizon, i)
    {
      PushedExact(bits, bs, horizon, i);
    }
  }

  lemma PushedExact(bits: seq<bool>, bs: seq<Bucket>, horizon: int, i: nat)
    requires Covers(bits, bs, horizon) && i <= |bs|
    ensures Exact(bits + [true], [Bucket(|bits| + 1, 1)] + bs, horizon, i)
  {
    var bits', bs' := bits + [true], [Bucket(|bits| + 1, 1)] + bs;
    assert Edge(bs', horizon, i + 1) == Edge(bs, horizon, i);
    if i == 0 {
      OnesAppend(bits, true, Edge(bs, horizon, 0), |bits|);
      assert bs == [] || OnOne(bits, bs[0].timestamp, horizon);
      assert Bit(bits', |bits| + 1) == 1;
    } else {
      assert Exact(bits, bs, horizon, i - 1) && OnOne(bits, bs[i - 1].timestamp, horizon);
      OnesAppend(bits, true, Edge(bs, horizon, i), bs[i - 1].timestamp);
    }
  }

  // ---------------------------------------------------------------- properties of every reachable state

  /** The part of the invariant the estimates rest on. */
  ghost predicate InWindow(bits: seq<bool>, bs: seq<Bucket>, horizon: int, windowN: int) {
    && windowN > 0
    && Covers(bits, bs, horizon)
    && Steps(bs)
    && After(bs, |bits| - windowN)
    && (horizon <= 0 || horizon <= |bits| - windowN)
  }

  lemma {:induction false} PrefixCounts(bits: seq<bool>, bs: seq<Bucket>, horizon: int, m: nat)
    requires Covers(bits, bs, horizon) && m <= |bs|
    ensures PrefixSize(bs, m) == Ones(bits, Edge(bs, horizon, m), |bits|)
  {
    if m > 0 {
      PrefixCounts(bits, bs, horizon, m - 1);
      assert Exact(bits, bs, horizon, m - 1) && OnOne(bits, bs[m - 1].timestamp, horizon);
      OnesSplit(bits, Edge(bs, horizon, m), bs[m - 1].timestamp, |bits|);
    }
  }

  /** The newer buckets together hold at least one less than the next bucket. */
  lemma {:induction false} PrefixDominates(bs: seq<Bucket>, m: nat)
    requires Steps(bs) && m < |bs|
    ensures PrefixSize(bs, m) >= bs[m].size - 1
  {
    if m > 0 {
      PrefixDominates(bs, m - 1);
      SizesPositive(bs, m - 1);
      assert SameOrDouble(bs, m - 1);
    }
  }

  lemma OneAt(bits: seq<bool>, t: int)
    requires 0 < t <= |bits| && bits[t - 1]
    ensures Ones(bits, t - 1, t) == 1
  {
  }

  /** With m buckets in a query window, the true count lies above the m - 1 newest ones and
      within the size of the m-th. */
  lemma TrueCount(bits: seq<bool>, bs: seq<Bucket>, horizon: int, windowN: int, k: int)
    requires InWindow(bits, bs, horizon, windowN) && 0 < k <= windowN
    ensures var m := Overlapping(bs, |bits| - k);
            var c := Ones(bits, |bits| - k, |bits|);
            if m == 0 then c == 0
            else PrefixSize(bs, m - 1) < c <= PrefixSize(bs, m - 1) + bs[m - 1].size
  {
    var cutoff := |bits| - k;
    var m := Overlapping(bs, cutoff);
    hide Ones, PrefixSize;
    var edge := Edge(bs, horizon, m);
    // no one between the cutoff and an edge that lies before it counts as newer
    if m == 0 {
      if edge <= cutoff {
        OnesSplit(bits, edge, cutoff, |bits|);
      } else {
        OnesSplit(bits, cutoff, edge, |bits|);
        OnesAtMost(bits, cutoff, edge);
      }
    } else {
      var newest := bs[m - 1].timestamp;
      assert Exact(bits, bs, horizon, m - 1) && OnOne(bits, newest, horizon);
      PrefixCounts(bits, bs, horizon, m - 1);
      OnesSplit(bits, cutoff, newest, |bits|);
      OnesSplit(bits, cutoff, newest - 1, newest);
      OneAt(bits, newest);
      if edge <= cutoff {
        OnesSplit(bits, edge, cutoff, newest);
      } else {
        OnesSplit(bits, cutoff, edge, newest);
        OnesAtMost(bits, cutoff, edge);
      }
    }
  }

  /** The documented accuracy: off by at most half of the true count. */
  predicate Within(est: int, count: int) {
    -count <= 2 * (est - count) <= count
  }

  /** The error bound: the estimate is within half of the true count, except that a count of
      one is estimated as zero. The exception is exactly the branch in which the query window
      overlaps a single bucket. */
  lemma Accuracy(bits: seq<bool>, bs: seq<Bucket>, horizon: int, windowN: int, k: int)
    requires InWindow(bits, bs, horizon, windowN) && 0 < k <= windowN
    ensures var est := Estimate(bs, |bits| - k);
            var c := Ones(bits, |bits| - k, |bits|);
            && (c <= 1 ==> est == 0)
            && (c >= 2 ==> Within(est, c))
            && (Within(est, c) <==> Overlapping(bs, |bits| - k) != 1)
            && (c == 1 <==> Overlapping(bs, |bits| - k) == 1)
  {
    var m := Overlapping(bs, |bits| - k);
    TrueCount(bits, bs, horizon, windowN, k);
    if m > 0 {
      PrefixDominates(bs, m - 1);
      SizesPositive(bs, m - 1);
      if m > 1 {
        PrefixAtLeast(bs, 1, m - 1);
      }
    }
  }

  lemma {:induction false} PrefixAtLeast(bs: seq<Bucket>, a: nat, b: nat)
    requires Steps(bs) && a <= b <= |bs|
    ensures PrefixSize(bs, b) >= PrefixSize(bs, a) + (b - a)
  {
    if a < b {
      PrefixAtLeast(bs, a, b - 1);
      SizesPositive(bs, b - 1);
    }
  }

  /** The estimate in terms of the stream: the ones newer than the oldest overlapping bucket, plus
      half of the ones between it and the next older edge. */
  lemma EstimateFromStream(bits: seq<bool>, bs: seq<Bucket>, horizon: int, cutoff: int, m: nat)
    requires Covers(bits, bs, horizon) && 0 < m <= |bs|
    requires bs[m - 1].timestamp > cutoff && (m < |bs| ==> bs[m].timestamp <= cutoff)
    ensures Estimate(bs, cutoff) == Ones(bits, bs[m - 1].timestamp, |bits|)
                                    + Ones(bits, if m < |bs| then bs[m].timestamp else horizon, bs[m - 1].timestamp) / 2
  {
    hide Ones, PrefixSize, Overlapping;
    OverlappingIs(bs, cutoff, m);
    PrefixCounts(bits, bs, horizon, m - 1);
    assert Exact(bits, bs, horizon, m - 1);
  }

  /** A longer query window never lowers the estimate. */
  lemma EstimateMonotone(bs: seq<Bucket>, cutoff: int, earlier: int)
    requires Steps(bs) && earlier <= cutoff
    requires Newest(bs)
    ensures 0 <= Estimate(bs, cutoff) <= Estimate(bs, earlier)
  {
    var m, m' := Overlapping(bs, cutoff), Overlapping(bs, earlier);
    assert m <= m';
    if m > 0 {
      SizesPositive(bs, m - 1);
      SizesPositive(bs, m' - 1);
      PrefixAtLeast(bs, 0, m - 1);
      if m < m' {
        PrefixAtLeast(bs, m, m' - 1);
      }
    } else if m' > 0 {
      PrefixAtLeast(bs, 0, m' - 1);
      SizesPositive(bs, m' - 1);
    }
  }

  function FloorLog2(n: nat): nat
    requires n >= 1
  {
    if n == 1 then 0 else 1 + FloorLog2(n / 2)
  }

  /** The floor of the binary logarithm. */
  lemma {:induction false} FloorLog2Is(n: nat)
    requires n >= 1
    ensures Pow2(FloorLog2(n)) <= n < 2 * Pow2(FloorLog2(n))
  {
    if n > 1 {
      FloorLog2Is(n / 2);
    }
  }

  lemma {:induction false} Log2Bound(e: nat, n: nat)
    requires 1 <= n && Pow2(e) <= n
    ensures e <= FloorLog2(n)
  {
    if e > 0 {
      assert Pow2(e) == 2 * Pow2(e - 1);
      Log2Bound(e - 1, n / 2);
    }
  }

  lemma {:induction false} Growth(bs: seq<Bucket>, i: nat)
    requires Steps(bs) && NoTriple(bs) && i < |bs|
    ensures bs[i].size >= Pow2(i / 2)
  {
    if i >= 2 {
      Growth(bs, i - 2);
      SizesPositive(bs, i - 2);
      assert !Triple(bs, i - 2);
      assert SameOrDouble(bs, i - 2) && SameOrDouble(bs, i - 1);
    } else if i == 1 {
      SizesPositive(bs, 1);
    }
  }

  /** The memory bound: at most two buckets for each power of two up to the window. */
  lemma BucketCount(bits: seq<bool>, bs: seq<Bucket>, horizon: int, windowN: int)
    requires InWindow(bits, bs, horizon, windowN) && NoTriple(bs)
    ensures |bs| <= 2 * (FloorLog2(windowN) + 1)
  {
    if bs != [] {
      var n := |bs|;
      Growth(bs, n - 1);
      PrefixDominates(bs, n - 1);
      assert Overlapping(bs, |bits| - windowN) == n;
      TrueCount(bits, bs, horizon, windowN, windowN);
      OnesAtMost(bits, |bits| - windowN, |bits|);
      Log2Bound((n - 1) / 2, windowN);
    }
  }

  lemma {:induction false} Ascending(bs: seq<Bucket>, i: nat, j: nat)
    requires Steps(bs) && i <= j < |bs|
    ensures bs[i].size <= bs[j].size
  {
    if i < j {
      Ascending(bs, i, j - 1);
      SizesPositive(bs, j - 1);
      assert SameOrDouble(bs, j - 1);
    }
  }

  /** Every power up to the size of bucket n is the size of some bucket no older than n. */
  lemma {:induction false} PowerPresent(bs: seq<Bucket>, n: nat, e: nat)
    requires Steps(bs) && n < |bs| && Pow2(e) <= bs[n].size
    ensures exists i :: 0 <= i <= n && bs[i].size == Pow2(e)
  {
    if bs[n].size != Pow2(e) {
      var d := SizeIsPower(bs, n);
      assert n > 0 && SameOrDouble(bs, n - 1);
      PowMono(d, e);
      PowMono(e, d - 1);
      PowerPresent(bs, n - 1, e);
    }
  }

  lemma {:induction false} PowMono(a: nat, b: int)
    ensures 0 <= a <= b ==> Pow2(a) <= Pow2(b)
    decreases b
  {
    if a < b {
      PowMono(a, b - 1);
    }
  }

  lemma {:induction false} SizeIsPower(bs: seq<Bucket>, i: nat) returns (e: nat)
    requires Steps(bs) && i < |bs|
    ensures bs[i].size == Pow2(e)
  {
    if i == 0 {
      e := 0;
    } else {
      e := SizeIsPower(bs, i - 1);
      assert SameOrDouble(bs, i - 1);
      if bs[i].size != bs[i - 1].size {
        e := e + 1;
      }
    }
  }

  /** The shape of every reachable list: powers of two, ascending with age, each power up to
      the largest one present once or twice. */
  lemma Structure(bs: seq<Bucket>, i: nat, j: nat)
    requires Steps(bs) && NoTriple(bs) && i <= j < |bs|
    ensures bs[i].size <= bs[j].size
    ensures exists e: nat :: bs[i].size == Pow2(e)
    ensures i + 2 <= j ==> bs[i].size < bs[j].size
  {
    Ascending(bs, i, j);
    var e := SizeIsPower(bs, i);
    if i + 2 <= j {
      Ascending(bs, i, i + 1);
      Ascending(bs, i + 1, i + 2);
      Ascending(bs, i + 2, j);
      assert !Triple(bs, i);
    }
  }

  // ---------------------------------------------------------------- one list for each stream

  /** From a bucket on, the sizes add up to a multiple of its size. */
  lemma {:induction false} SuffixMultiple(bs: seq<Bucket>, j: nat, n: nat) returns (k: nat)
    requires Steps(bs) && j <= n < |bs|
    ensures PrefixSize(bs, |bs|) - PrefixSize(bs, n) == k * bs[j].size
    decreases |bs| - n
  {
    var q := SizeMultiple(bs, j, n);
    if n == |bs| - 1 {
      k := q;
    } else {
      var r := SuffixMultiple(bs, j, n + 1);
      assert q * bs[j].size + r * bs[j].size == (q + r) * bs[j].size;
      k := q + r;
    }
  }

  lemma {:induction false} SizeMultiple(bs: seq<Bucket>, j: nat, n: nat) returns (k: nat)
    requires Steps(bs) && j <= n < |bs|
    ensures bs[n].size == k * bs[j].size
    decreases n
  {
    if n == j {
      k := 1;
    } else {
      assert SameOrDouble(bs, n - 1);
      var r := SizeMultiple(bs, j, n - 1);
      k := if bs[n].size == bs[n - 1].size then r else 2 * r;
      assert 2 * (r * bs[j].size) == (2 * r) * bs[j].size;
    }
  }

  /** Where two lists still agree, the next size is determined by the total. */
  lemma NextSize(bs: seq<Bucket>, bs': seq<Bucket>, i: nat)
    requires Steps(bs) && NoTriple(bs) && Steps(bs') && NoTriple(bs')
    requires 0 < i < |bs| && i < |bs'| && bs[i - 1].size == bs'[i - 1].size
    requires PrefixSize(bs, |bs|) - PrefixSize(bs, i) == PrefixSize(bs', |bs'|) - PrefixSize(bs', i)
    requires i >= 2 ==> bs[i - 2].size == bs'[i - 2].size
    ensures bs[i].size >= bs'[i].size
  {
    assert SameOrDouble(bs, i - 1) && SameOrDouble(bs', i - 1);
    SizesPositive(bs, i - 1);
    if bs[i].size < bs'[i].size {
      var v := bs[i].size;
      var k' := SuffixMultiple(bs', i, i);
      if i + 1 < |bs| {
        assert !Triple(bs, i - 1) && SameOrDouble(bs, i);
        var k := SuffixMultiple(bs, i + 1, i + 1);
        OddMultiple(v, k, k');
      } else {
        OddMultiple(v, 0, k');
      }
    }
  }

  lemma OddMultiple(v: nat, k: nat, k': nat)
    requires v > 0
    ensures v + k * (2 * v) != k' * (2 * v)
  {
    var d: int := k' - k;
    assert k' * (2 * v) - k * (2 * v) == d * (2 * v);
    if d <= 0 {
      assert (-d) * (2 * v) >= 0;
    } else {
      assert (d - 1) * (2 * v) >= 0;
    }
  }

  /** Two ladders without triples and with the same total have the same sizes. */
  lemma {:induction false} SameSizes(bs: seq<Bucket>, bs': seq<Bucket>, i: nat)
    requires Steps(bs) && NoTriple(bs) && Steps(bs') && NoTriple(bs')
    requires PrefixSize(bs, |bs|) == PrefixSize(bs', |bs'|)
    requires i <= |bs| && i <= |bs'|
    ensures PrefixSize(bs, i) == PrefixSize(bs', i)
    ensures forall j :: 0 <= j < i ==> bs[j].size == bs'[j].size
  {
    if i > 1 {
      SameSizes(bs, bs', i - 1);
      NextSize(bs, bs', i - 1);
      NextSize(bs', bs, i - 1);
    }
  }

  lemma SameLength(bs: seq<Bucket>, bs': seq<Bucket>)
    requires Steps(bs) && NoTriple(bs) && Steps(bs') && NoTriple(bs')
    requires PrefixSize(bs, |bs|) == PrefixSize(bs', |bs'|)
    ensures |bs| == |bs'|
  {
    if |bs| < |bs'| {
      SameSizes(bs, bs', |bs|);
      PrefixAtLeast(bs', |bs|, |bs'|);
    } else if |bs'| < |bs| {
      SameSizes(bs, bs', |bs'|);
      PrefixAtLeast(bs, |bs'|, |bs|);
    }
  }

  /** A one has more ones after it than any later one has. */
  lemma OnesAfter(bits: seq<bool>, t: int, t': int)
    requires t < t' && OnOne(bits, t', 0)
    ensures Ones(bits, t, |bits|) > Ones(bits, t', |bits|)
  {
    OnesSplit(bits, t, t', |bits|);
    OnesSplit(bits, t, t' - 1, t');
    assert Bit(bits, t') == 1;
  }

  /** The bucket list is determined by the stream and the last expired position: an update has
      no freedom in what it leaves behind. */
  lemma Canonical(bits: seq<bool>, bs: seq<Bucket>, bs': seq<Bucket>, horizon: int)
    requires Covers(bits, bs, horizon) && Steps(bs) && NoTriple(bs)
    requires Covers(bits, bs', horizon) && Steps(bs') && NoTriple(bs')
    ensures bs == bs'
  {
    PrefixCounts(bits, bs, horizon, |bs|);
    PrefixCounts(bits, bs', horizon, |bs'|);
    SameLength(bs, bs');
    SameSizes(bs, bs', |bs|);
    forall i | 0 <= i < |bs|
      ensures bs[i] == bs'[i]
    {
      SameSizes(bs, bs', i);
      PrefixCounts(bits, bs, horizon, i);
      PrefixCounts(bits, bs', horizon, i);
      assert OnOne(bits, bs[i].timestamp, horizon) && OnOne(bits, bs'[i].timestamp, horizon);
      var t, t' := bs[i].timestamp, bs'[i].timestamp;
      if t < t' {
        OnesAfter(bits, t, t');
      } else if t' < t {
        OnesAfter(bits, t', t);
      }
    }
  }

  // ---------------------------------------------------------------- the comparison with the exact count

  /** The contents of a deque with a maximal length after a stream was appended to it. */
  function LastBits(bits: seq<bool>, maxlen: nat): seq<bool> {
    if |bits| <= maxlen then bits else bits[|bits| - maxlen..]
  }

  function SumBits(s: seq<bool>): nat {
    if s == [] then 0 else SumBits(s[..|s| - 1]) + if s[|s| - 1] then 1 else 0
  }

  lemma {:induction false} SumIsOnes(bits: seq<bool>, lo: nat, hi: nat)
    requires lo <= hi <= |bits|
    ensures SumBits(bits[lo..hi]) == Ones(bits, lo, hi)
    decreases hi
  {
    if lo < hi {
      assert bits[lo..hi][..hi - lo - 1] == bits[lo..hi - 1];
      SumIsOnes(bits, lo, hi - 1);
    }
  }

  /** Appending to a deque with a maximal length drops the oldest element when it is full. */
  function Push(s: seq<bool>, b: bool, maxlen: nat): seq<bool> {
    if |s| < maxlen || s == [] then s + [b] else s[1..] + [b]
  }

  lemma LastBitsAppend(bits: seq<bool>, b: bool, maxlen: nat)
    requires maxlen > 0
    ensures LastBits(bits + [b], maxlen) == Push(LastBits(bits, maxlen), b, maxlen)
  {
  }

  lemma LastBitsSum(bits: seq<bool>, w: nat)
    ensures SumBits(LastBits(bits, w)) == Ones(bits, |bits| - w, |bits|)
  {
    if |bits| <= w {
      assert bits[0..|bits|] == bits;
      SumIsOnes(bits, 0, |bits|);
      OnesSplit(bits, |bits| - w, 0, |bits|);
      OnesAtMost(bits, |bits| - w, 0);
    } else {
      assert bits[|bits| - w..|bits|] == bits[|bits| - w..];
      SumIsOnes(bits, |bits| - w, |bits|);
    }
  }

  /** One predicate of the counting-ones comparison: an estimator and the exact window, fed
      with the same bits. */
  class PredicateCounter {
    const dgim: DGIM
    var exact: seq<bool>

    ghost predicate Valid()
      reads this, dgim
    {
      dgim.Valid() && dgim.windowN > 0 && exact == LastBits(dgim.bits, dgim.windowN)
    }

    constructor (windowN: int)
      requires windowN > 0
      ensures Valid() && fresh(dgim) && dgim.windowN == windowN && dgim.bits == []
    {
      dgim := new DGIM(windowN);
      exact := [];
    }

    /** Feeds the predicate's values of one batch, oldest first. */
    method Feed(rows: seq<bool>)
      requires Valid()
      modifies this, dgim
      ensures Valid()
      ensures dgim.windowN == old(dgim.windowN) && dgim.bits == old(dgim.bits) + rows
    {
      hide InWindow, Covers, Steps, NoTriple, LastBits, Push;
      var i := 0;
      while i < |rows|
        invariant i <= |rows|
        invariant Valid() && dgim.windowN == old(dgim.windowN)
        invariant dgim.bits == old(dgim.bits) + rows[..i]
      {
        LastBitsAppend(dgim.bits, rows[i], dgim.windowN);
        assert rows[..i + 1] == rows[..i] + [rows[i]];
        dgim.Update(rows[i]);
        exact := Push(exact, rows[i], dgim.windowN);
        i := i + 1;
      }
    }

    /** The reported row. The relative error is at most 50% unless exactly one bit of the
        window is set; then it is 100%. */
    method Compare() returns (exactOnes: nat, estimate: int, errPct: real)
      requires Valid()
      ensures exactOnes == Ones(dgim.bits, dgim.currentTime - dgim.windowN, dgim.currentTime)
      ensures errPct <= 50.0 <==> exactOnes != 1
      ensures exactOnes == 1 ==> errPct == 100.0
      ensures exactOnes == 0 ==> estimate == 0
      ensures estimate == Estimate(dgim.buckets, dgim.currentTime - dgim.windowN)
      ensures Answers(dgim.bits, dgim.windowN, estimate)
      ensures errPct == if exactOnes > 0 then Distance(estimate, exactOnes) as real / exactOnes as real * 100.0 else 0.0
      ensures errPct >= 0.0
    {
      hide Covers, Steps, NoTriple, Overlapping, SumBits, LastBits, Estimate;
      exactOnes := SumBits(exact);
      estimate := dgim.Query(None);
      var gap := Distance(estimate, exactOnes);
      errPct := if exactOnes > 0 then gap as real / exactOnes as real * 100.0 else 0.0;
      LastBitsSum(dgim.bits, dgim.windowN);
      Accuracy(dgim.bits, dgim.buckets, dgim.horizon, dgim.windowN, dgim.windowN);
      if exactOnes > 0 {
        ghost var q := RatioOf(gap, exactOnes);
      }
    }
  }

  function Distance(a: int, b: int): (d: nat)
    ensures d == a - b || d == b - a
  {
    if a >= b then a - b else b - a
  }

  lemma RatioOf(gap: nat, n: nat) returns (q: real)
    requires n > 0
    ensures q == gap as real / n as real
    ensures q >= 0.0
    ensures q <= 0.5 <==> 2 * gap <= n
    ensures gap == n ==> q == 1.0
  {
    var g, m := gap as real, n as real;
    q := Divide(g, m);
    assert 2.0 * g <= m <==> 2 * gap <= n;
  }

  lemma Divide(g: real, m: real) returns (q: real)
    requires m > 0.0 && g >= 0.0
    ensures q == g / m
    ensures q >= 0.0
    ensures q <= 0.5 <==> 2.0 * g <= m
    ensures g == m ==> q == 1.0
  {
    q := g / m;
    Quotient(g, m);
    Half(q, g, m);
    NonNegativeQuotient(g, m);
    if g == m {
      SelfQuotient(m);
    }
  }

  lemma Half(q: real, g: real, m: real)
    requires q * m == g && m > 0.0
    ensures q <= 0.5 <==> 2.0 * g <= m
  {
    var z := 0.5 - q;
    SignOfProduct(z, m);
    assert z * m == 0.5 * m - q * m;
  }
}
