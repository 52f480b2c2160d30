/** Exponentially decaying counters: streaming/analytics/decay.py.

    Time runs in integer ticks and a score decays by the factor c per tick, 0 < c <= 1; the
    program's factor for a half-life of h ticks is the h-th root of one half. */
module Decay {
  import opened Options
  import opened Reals
  import opened Powers
  import opened Counting
  import opened Aggregate

  datatype Counter = Counter(score: real, lastT: Option<int>)

  datatype Event = Event(value: real, time: int)

  const FRESH := Counter(0.0, None)

  ghost predicate Factor(c: real) {
    0.0 < c <= 1.0
  }

  // ---------------------------------------------------------------- one counter

  /** Lazy decay up to t, then the value; events at or before the last time are not decayed. */
  function AddTo(c: real, s: Counter, v: real, t: int): Counter {
    match s.lastT
    case None => Counter(v, Some(t))
    case Some(last) =>
      if t > last then Counter(Mul(s.score, Power(c, t - last)) + v, Some(t))
      else Counter(s.score + v, s.lastT)
  }

  function ValueAt(c: real, s: Counter, t: int): real {
    match s.lastT
    case None => 0.0
    case Some(last) => if t <= last then s.score else Mul(s.score, Power(c, t - last))
  }

  /** The latest time of a list of events. */
  function Clock(events: seq<Event>): int
    requires events != []
  {
    var last := events[|events| - 1].time;
    if |events| == 1 || Clock(events[..|events| - 1]) < last then last else Clock(events[..|events| - 1])
  }

  /** Every value decayed from the moment it was counted, which is the latest time known then. */
  function ClosedForm(c: real, events: seq<Event>, t: int): real
    requires events != [] ==> t >= Clock(events)
  {
    if events == [] then 0.0
    else ClosedForm(c, events[..|events| - 1], t) + Mul(events[|events| - 1].value, Power(c, t - Clock(events)))
  }

  /** How long an event at a time has decayed at t; an event after t has not. */
  function Age(t: int, time: int): nat {
    if time <= t then t - time else 0
  }

  /** Every value decayed from its own time. */
  function EagerForm(c: real, events: seq<Event>, t: int): real {
    if events == [] then 0.0
    else EagerForm(c, events[..|events| - 1], t) + Mul(events[|events| - 1].value, Power(c, Age(t, events[|events| - 1].time)))
  }

  ghost predicate InOrder(events: seq<Event>) {
    forall i, j :: 0 <= i < j < |events| ==> events[i].time <= events[j].time
  }

  function Fold(c: real, events: seq<Event>): Counter {
    if events == [] then FRESH
    else AddTo(c, Fold(c, events[..|events| - 1]), events[|events| - 1].value, events[|events| - 1].time)
  }

  lemma {:induction false} PowerRange(c: real, n: nat)
    requires Factor(c)
    ensures 0.0 <= Power(c, n) <= 1.0
  {
    if n > 0 {
      PowerRange(c, n - 1);
      MulNonNegative(c, Power(c, n - 1));
      MulNonNegative(1.0 - c, Power(c, n - 1));
    }
  }

  lemma {:induction false} ClockBounds(events: seq<Event>, i: nat)
    requires i < |events|
    ensures events[i].time <= Clock(events)
    ensures i == |events| - 1 && InOrder(events) ==> Clock(events) == events[i].time
  {
    var init := events[..|events| - 1];
    if |events| > 1 {
      if i < |events| - 1 {
        ClockBounds(init, i);
      } else if InOrder(events) {
        ClockBounds(init, i - 1);
      }
    }
  }

  /** Waiting multiplies the closed form by the decay of the waiting time. */
  lemma {:induction false} ClosedFormShift(c: real, events: seq<Event>, t: int, t': int)
    requires t <= t' && (events != [] ==> t >= Clock(events))
    ensures ClosedForm(c, events, t') == Mul(ClosedForm(c, events, t), Power(c, t' - t))
  {
    hide Mul;
    if events == [] {
      MulZero(Power(c, t' - t));
    } else {
      var init, e, k := events[..|events| - 1], events[|events| - 1], Clock(events);
      ClosedFormShift(c, init, t, t');
      PowerAdd(c, t - k, t' - t);
      MulRotate(e.value, Power(c, t - k), Power(c, t' - t));
      MulDistribute(ClosedForm(c, init, t), Mul(e.value, Power(c, t - k)), Power(c, t' - t));
    }
  }

  /** The lazily decayed score is the closed form, for every list of events in any order. */
  lemma {:induction false} FoldIsClosedForm(c: real, events: seq<Event>)
    requires events != []
    ensures Fold(c, events) == Counter(ClosedForm(c, events, Clock(events)), Some(Clock(events)))
  {
    hide Mul;
    var init, e := events[..|events| - 1], events[|events| - 1];
    MulOne(e.value);
    if |events| == 1 {
      assert init == [];
      assert ClosedForm(c, events, Clock(events)) == ClosedForm(c, init, Clock(events)) + Mul(e.value, Power(c, 0));
    } else {
      FoldIsClosedForm(c, init);
      if Clock(init) < e.time {
        ClosedFormShift(c, init, Clock(init), e.time);
      }
    }
  }

  /** Reading a counter at any time: the closed form at that time or, before the last event's
      time, at the last event's time. */
  lemma ValueIsClosedForm(c: real, events: seq<Event>, t: int)
    requires events != []
    ensures ValueAt(c, Fold(c, events), t) == ClosedForm(c, events, if t < Clock(events) then Clock(events) else t)
  {
    hide Mul;
    FoldIsClosedForm(c, events);
    if t > Clock(events) {
      ClosedFormShift(c, events, Clock(events), t);
    }
  }

  /** For events in order the closed form is the documented one: each value decays from its own time. */
  lemma {:induction false} InOrderIsEager(c: real, events: seq<Event>, t: int)
    requires InOrder(events) && forall i :: 0 <= i < |events| ==> events[i].time <= t
    ensures events != [] ==> Clock(events) <= t
    ensures ClosedForm(c, events, t) == EagerForm(c, events, t)
  {
    if events != [] {
      ClockBounds(events, |events| - 1);
      InOrderIsEager(c, events[..|events| - 1], t);
    }
  }

  class DecayingCounter {
    const factor: real
    var score: real
    var lastT: Option<int>
    ghost var events: seq<Event>   // every event added so far

    function State(): Counter
      reads this
    {
      Counter(score, lastT)
    }

    ghost predicate Valid()
      reads this
    {
      State() == Fold(factor, events)
    }

    constructor (factor: real)
      ensures Valid() && State() == FRESH && events == [] && this.factor == factor
    {
      this.factor := factor;
      score, lastT := 0.0, None;
      events := [];
    }

    /** Counts an event. The score is then the closed form of all events so far. */
    method Add(value: real, t: int)
      requires Valid()
      modifies this
      ensures Valid() && events == old(events) + [Event(value, t)]
      ensures State() == Counter(ClosedForm(factor, events, Clock(events)), Some(Clock(events)))
      ensures State() == AddTo(factor, old(State()), value, t)
    {
      hide Mul, Power;
      events := events + [Event(value, t)];
      assert events[..|events| - 1] == old(events);
      FoldIsClosedForm(factor, events);
      if lastT.None? {
        score, lastT := value, Some(t);
        return;
      }
      var dt := t - lastT.value;
      if dt > 0 {
        score := Mul(score, Power(factor, dt)) + value;
        lastT := Some(t);
      } else {
        score := score + value;
      }
    }

    /** Reads the score: the closed form of all events so far, at t or at the last event's time if
        that is later. For events in order up to t it is the documented sum. */
    method Value(t: int) returns (v: real)
      requires Valid()
      ensures v == if events == [] then 0.0 else ClosedForm(factor, events, if t < Clock(events) then Clock(events) else t)
      ensures InOrder(events) && (forall i :: 0 <= i < |events| ==> events[i].time <= t) ==> v == EagerForm(factor, events, t)
      ensures v == ValueAt(factor, State(), t)
    {
      hide Mul, Power, AddTo, ClosedForm;
      if events != [] {
        ValueIsClosedForm(factor, events, t);
      }
      if InOrder(events) && forall i :: 0 <= i < |events| ==> events[i].time <= t {
        InOrderIsEager(factor, events, t);
      }
      if lastT.None? {
        return 0.0;
      }
      var dt := t - lastT.value;
      if dt <= 0 {
        return score;
      }
      return Mul(score, Power(factor, dt));
    }
  }

  // ---------------------------------------------------------------- the key table

  type Key = string
  type Table = map<Key, Counter>

  function Lookup(tbl: Table, k: Key): Counter {
    if k in tbl then tbl[k] else FRESH
  }

  /** Keeps the keys whose score at t is not below epsilon. */
  function Pruned(c: real, epsilon: real, tbl: Table, t: int): Table {
    map k | k in tbl && ValueAt(c, tbl[k], t) >= epsilon :: tbl[k]
  }

  function TableAdd(c: real, epsilon: real, maxKeys: int, tbl: Table, k: Key, v: real, t: int): Table {
    var added := tbl[k := AddTo(c, Lookup(tbl, k), v, t)];
    if |added| > maxKeys then Pruned(c, epsilon, added, t) else added
  }

  // ---------------------------------------------------------------- what pruning costs

  datatype Op = Add(key: Key, value: real, time: int) | Prune(time: int)

  /** A run of the table beside a table that is never pruned; losses counts per key how often
      pruning removed it. */
  datatype Run = Run(table: Table, full: Table, losses: map<Key, nat>)

  function CountLosses(losses: map<Key, nat>, before: Table, after: Table): map<Key, nat> {
    map k | k in losses.Keys + before.Keys ::
      Get(losses, k) + if k in before && k !in after then 1 else 0
  }

  function Step(c: real, epsilon: real, maxKeys: int, r: Run, op: Op): Run {
    match op
    case Add(k, v, t) =>
      var added := r.table[k := AddTo(c, Lookup(r.table, k), v, t)];
      var table := TableAdd(c, epsilon, maxKeys, r.table, k, v, t);
      Run(table, r.full[k := AddTo(c, Lookup(r.full, k), v, t)], CountLosses(r.losses, added, table))
    case Prune(t) =>
      var table := Pruned(c, epsilon, r.table, t);
      Run(table, r.full, CountLosses(r.losses, r.table, table))
  }

  function Execute(c: real, epsilon: real, maxKeys: int, ops: seq<Op>): Run {
    if ops == [] then Run(map[], map[], map[])
    else Step(c, epsilon, maxKeys, Execute(c, epsilon, maxKeys, ops[..|ops| - 1]), ops[|ops| - 1])
  }

  /** Nonnegative values at times that never decrease and do not exceed now. */
  ghost predicate Regular(ops: seq<Op>, now: int) {
    && (forall i :: 0 <= i < |ops| ==> ops[i].time <= now && (ops[i].Add? ==> ops[i].value >= 0.0))
    && (forall i, j :: 0 <= i < j < |ops| ==> ops[i].time <= ops[j].time)
  }

  /** No counter is ahead of the clock or negative. */
  ghost predicate Behind(s: Counter, now: int) {
    s.score >= 0.0 && (s.lastT.Some? ==> s.lastT.value <= now)
  }

  function Shortfall(c: real, r: Run, k: Key, t: int): real {
    ValueAt(c, Lookup(r.full, k), t) - ValueAt(c, Lookup(r.table, k), t)
  }

  ghost predicate WithinLosses(c: real, epsilon: real, r: Run, k: Key, now: int) {
    && Behind(Lookup(r.table, k), now) && Behind(Lookup(r.full, k), now)
    && 0.0 <= Shortfall(c, r, k, now) <= Mul(epsilon, Get(r.losses, k) as real)
  }

  lemma ValueShift(c: real, s: Counter, t: int, t': int)
    requires Behind(s, t) && t <= t'
    ensures ValueAt(c, s, t') == Mul(ValueAt(c, s, t), Power(c, t' - t))
  {
    match s.lastT
    case None =>
      MulZero(Power(c, t' - t));
    case Some(last) =>
      MulOne(s.score);
      PowerAdd(c, t - last, t' - t);
      MulRotate(s.score, Power(c, t - last), Power(c, t' - t));
  }

  lemma ValueAdd(c: real, s: Counter, v: real, t: int)
    requires Behind(s, t)
    ensures ValueAt(c, AddTo(c, s, v, t), t) == ValueAt(c, s, t) + v
  {
  }

  lemma BehindAdd(c: real, s: Counter, v: real, t: int)
    requires Behind(s, t) && v >= 0.0 && Factor(c)
    ensures Behind(AddTo(c, s, v, t), t)
  {
    if s.lastT.Some? && t > s.lastT.value {
      PowerRange(c, t - s.lastT.value);
      MulSign(s.score, Power(c, t - s.lastT.value));
    }
  }

  /** Waiting never makes a shortfall worse. */
  lemma Waiting(c: real, epsilon: real, r: Run, k: Key, t: int, t': int)
    requires Factor(c) && WithinLosses(c, epsilon, r, k, t) && t <= t'
    ensures WithinLosses(c, epsilon, r, k, t')
  {
    hide ValueAt, Mul, Lookup;
    var p, d := Power(c, t' - t), Shortfall(c, r, k, t);
    ValueShift(c, Lookup(r.full, k), t, t');
    ValueShift(c, Lookup(r.table, k), t, t');
    MulDistribute(ValueAt(c, Lookup(r.full, k), t), ValueAt(c, Lookup(r.table, k), t), p);
    PowerRange(c, t' - t);
    Shrinks(d, p);
  }

  lemma Shrinks(d: real, p: real)
    requires d >= 0.0 && 0.0 <= p <= 1.0
    ensures 0.0 <= Mul(d, p) <= d
  {
    MulNonNegative(d, p);
    MulNonNegative(d, 1.0 - p);
  }

  /** Pruning at the current time costs a key that it removes less than epsilon. */
  lemma PruneStep(c: real, epsilon: real, r: Run, k: Key, t: int)
    requires Factor(c) && WithinLosses(c, epsilon, r, k, t)
    ensures var table := Pruned(c, epsilon, r.table, t);
            WithinLosses(c, epsilon, Run(table, r.full, CountLosses(r.losses, r.table, table)), k, t)
  {
    var table := Pruned(c, epsilon, r.table, t);
    var n := Get(r.losses, k);
    MulSuccessor(epsilon, n);
    ValueNonNegative(c, Lookup(r.table, k), t);
    if k in r.table && k !in table {
      assert Lookup(table, k) == FRESH;
    }
  }

  lemma ValueNonNegative(c: real, s: Counter, t: int)
    requires Factor(c) && Behind(s, t)
    ensures ValueAt(c, s, t) >= 0.0
  {
    if s.lastT.Some? && t > s.lastT.value {
      PowerRange(c, t - s.lastT.value);
      MulSign(s.score, Power(c, t - s.lastT.value));
    }
  }

  /** An added value reaches both tables alike. */
  lemma AddStep(c: real, epsilon: real, r: Run, k: Key, key: Key, v: real, t: int)
    requires Factor(c) && WithinLosses(c, epsilon, r, k, t) && WithinLosses(c, epsilon, r, key, t) && v >= 0.0
    ensures var added := r.table[key := AddTo(c, Lookup(r.table, key), v, t)];
            WithinLosses(c, epsilon, Run(added, r.full[key := AddTo(c, Lookup(r.full, key), v, t)], r.losses), k, t)
  {
    hide ValueAt, AddTo, Mul;
    ValueAdd(c, Lookup(r.table, key), v, t);
    ValueAdd(c, Lookup(r.full, key), v, t);
    BehindAdd(c, Lookup(r.table, key), v, t);
    BehindAdd(c, Lookup(r.full, key), v, t);
  }

  /** An operation keeps every key within its losses. */
  lemma StepKeeps(c: real, epsilon: real, maxKeys: int, r: Run, op: Op, k: Key)
    requires Factor(c) && WithinLosses(c, epsilon, r, k, op.time)
    requires op.Add? ==> WithinLosses(c, epsilon, r, op.key, op.time) && op.value >= 0.0
    ensures WithinLosses(c, epsilon, Step(c, epsilon, maxKeys, r, op), k, op.time)
  {
    hide AddTo, Pruned, CountLosses, WithinLosses;
    match op {
      case Prune(t) =>
        PruneStep(c, epsilon, r, k, t);
      case Add(key, v, t) =>
        AddStep(c, epsilon, r, k, key, v, t);
        var added := r.table[key := AddTo(c, Lookup(r.table, key), v, t)];
        var full := r.full[key := AddTo(c, Lookup(r.full, key), v, t)];
        if |added| > maxKeys {
          PruneStep(c, epsilon, Run(added, full, r.losses), k, t);
        } else {
          SameLosses(c, epsilon, added, full, r.losses, k, t);
        }
    }
  }

  lemma SameLosses(c: real, epsilon: real, added: Table, full: Table, losses: map<Key, nat>, k: Key, t: int)
    requires WithinLosses(c, epsilon, Run(added, full, losses), k, t)
    ensures WithinLosses(c, epsilon, Run(added, full, CountLosses(losses, added, added)), k, t)
  {
  }

  lemma {:induction false} RunKeeps(c: real, epsilon: real, maxKeys: int, ops: seq<Op>, k: Key, now: int)
    requires Factor(c) && Regular(ops, now)
    ensures WithinLosses(c, epsilon, Execute(c, epsilon, maxKeys, ops), k, now)
  {
    if ops == [] {
      MulZero(epsilon);
    } else {
      hide Step, WithinLosses;
      var init, op := ops[..|ops| - 1], ops[|ops| - 1];
      RegularPrefix(ops, now);
      RunKeeps(c, epsilon, maxKeys, init, k, op.time);
      if op.Add? {
        RunKeeps(c, epsilon, maxKeys, init, op.key, op.time);
      }
      StepKeeps(c, epsilon, maxKeys, Execute(c, epsilon, maxKeys, init), op, k);
      Waiting(c, epsilon, Execute(c, epsilon, maxKeys, ops), k, op.time, now);
    }
  }

  lemma RegularPrefix(ops: seq<Op>, now: int)
    requires ops != [] && Regular(ops, now)
    ensures Regular(ops[..|ops| - 1], ops[|ops| - 1].time)
    ensures ops[|ops| - 1].time <= now && (ops[|ops| - 1].Add? ==> ops[|ops| - 1].value >= 0.0)
  {
    var init := ops[..|ops| - 1];
    assert forall i :: 0 <= i < |init| ==> init[i] == ops[i];
  }

  /** What pruning costs, over every run with regular events: at any time no key scores more
      than without pruning, and it falls short by at most epsilon for each time it was pruned. */
  lemma PruningCost(c: real, epsilon: real, maxKeys: int, ops: seq<Op>, k: Key, now: int)
    requires Factor(c) && Regular(ops, now)
    ensures var r := Execute(c, epsilon, maxKeys, ops);
            && Behind(Lookup(r.table, k), now) && Behind(Lookup(r.full, k), now)
            && 0.0 <= Shortfall(c, r, k, now) <= Mul(epsilon, Get(r.losses, k) as real)
  {
    hide Execute, Regular, Shortfall, Mul, Behind, Lookup;
    RunKeeps(c, epsilon, maxKeys, ops, k, now);
  }

  /** The unpruned table holds, per key, the fold of the events of that key. */
  function EventsOf(ops: seq<Op>, k: Key): seq<Event> {
    if ops == [] then []
    else
      var rest, op := EventsOf(ops[..|ops| - 1], k), ops[|ops| - 1];
      if op.Add? && op.key == k then rest + [Event(op.value, op.time)] else rest
  }

  lemma {:induction false} FullIsFold(c: real, epsilon: real, maxKeys: int, ops: seq<Op>, k: Key)
    ensures Lookup(Execute(c, epsilon, maxKeys, ops).full, k) == Fold(c, EventsOf(ops, k))
  {
    hide AddTo, TableAdd, Pruned, CountLosses;
    if ops != [] {
      FullIsFold(c, epsilon, maxKeys, ops[..|ops| - 1], k);
      var rest, op := EventsOf(ops[..|ops| - 1], k), ops[|ops| - 1];
      if op.Add? && op.key == k {
        assert (rest + [Event(op.value, op.time)])[..|rest|] == rest;
      }
    }
  }

  lemma {:induction false} EventsRegular(ops: seq<Op>, k: Key, now: int)
    requires Regular(ops, now)
    ensures InOrder(EventsOf(ops, k)) && forall i :: 0 <= i < |EventsOf(ops, k)| ==> EventsOf(ops, k)[i].time <= now
  {
    if ops != [] {
      var init, op := ops[..|ops| - 1], ops[|ops| - 1];
      RegularPrefix(ops, now);
      EventsRegular(init, k, op.time);
    }
  }

  /** Without pruning, a key's score is the documented sum over its own events. */
  lemma FullScore(c: real, epsilon: real, maxKeys: int, ops: seq<Op>, k: Key, now: int)
    requires Regular(ops, now)
    ensures forall i :: 0 <= i < |EventsOf(ops, k)| ==> EventsOf(ops, k)[i].time <= now
    ensures ValueAt(c, Lookup(Execute(c, epsilon, maxKeys, ops).full, k), now) == EagerForm(c, EventsOf(ops, k), now)
  {
    hide Execute, ClosedForm, AddTo, Regular;
    EventsRegular(ops, k, now);
    FullIsFold(c, epsilon, maxKeys, ops, k);
    InOrderIsEager(c, EventsOf(ops, k), now);
    if EventsOf(ops, k) != [] {
      ValueIsClosedForm(c, EventsOf(ops, k), now);
    }
  }

  // ---------------------------------------------------------------- the size of the table

  /** The keys that score at least epsilon. */
  function Heavy(c: real, epsilon: real, tbl: Table, t: int): set<Key> {
    set k | k in tbl && ValueAt(c, tbl[k], t) >= epsilon
  }

  /** After an addition the table respects its limit if and only if it did not grow over it, or
      no more keys than the limit score at least epsilon. */
  lemma WithinLimit(c: real, epsilon: real, maxKeys: int, tbl: Table, k: Key, v: real, t: int)
    ensures var added := tbl[k := AddTo(c, Lookup(tbl, k), v, t)];
            |TableAdd(c, epsilon, maxKeys, tbl, k, v, t)| <= maxKeys <==>
              |tbl.Keys + {k}| <= maxKeys || |Heavy(c, epsilon, added, t)| <= maxKeys
  {
    hide AddTo, ValueAt;
    var added := tbl[k := AddTo(c, Lookup(tbl, k), v, t)];
    var pruned := Pruned(c, epsilon, added, t);
    assert added.Keys == tbl.Keys + {k} && |added.Keys| == |added|;
    assert pruned.Keys == Heavy(c, epsilon, added, t) && |pruned.Keys| == |pruned|;
    assert pruned.Keys <= added.Keys;
    SubsetCard(pruned.Keys, added.Keys);
  }

  lemma TwoKeys()
    ensures |TableAdd(0.5, 0.0001, 1, TableAdd(0.5, 0.0001, 1, map[], "a", 1.0, 0), "b", 1.0, 0)| == 2
  {
    var one: Table := map["a" := Counter(1.0, Some(0))];
    assert TableAdd(0.5, 0.0001, 1, map[], "a", 1.0, 0) == one;
    var two := one["b" := Counter(1.0, Some(0))];
    assert Pruned(0.5, 0.0001, two, 0) == two;
    assert two.Keys == {"a", "b"} && |two| == |two.Keys|;
  }

  /** All values added so far, each decayed from its own time. */
  function DecayedTotal(c: real, ops: seq<Op>, t: int): real {
    if ops == [] then 0.0
    else DecayedTotal(c, ops[..|ops| - 1], t) + Share(c, ops[|ops| - 1], t)
  }

  function Share(c: real, op: Op, t: int): real {
    match op
    case Add(_, v, time) => Mul(v, Power(c, Age(t, time)))
    case Prune(_) => 0.0
  }

  /** The part of that total that belongs to some keys. */
  function TotalOf(c: real, ops: seq<Op>, keys: set<Key>, t: int): real {
    if ops == [] then 0.0
    else
      var op := ops[|ops| - 1];
      TotalOf(c, ops[..|ops| - 1], keys, t) + if op.Add? && op.key in keys then Share(c, op, t) else 0.0
  }

  lemma {:induction false} TotalOfNone(c: real, ops: seq<Op>, t: int)
    ensures TotalOf(c, ops, {}, t) == 0.0
  {
    if ops != [] {
      TotalOfNone(c, ops[..|ops| - 1], t);
    }
  }

  lemma {:induction false} TotalOfSplit(c: real, ops: seq<Op>, keys: set<Key>, k: Key, t: int)
    requires k in keys
    ensures TotalOf(c, ops, keys, t) == TotalOf(c, ops, keys - {k}, t) + TotalOf(c, ops, {k}, t)
  {
    hide Share;
    if ops != [] {
      TotalOfSplit(c, ops[..|ops| - 1], keys, k, t);
    }
  }

  lemma {:induction false} TotalOfAtMost(c: real, ops: seq<Op>, keys: set<Key>, t: int)
    requires Factor(c) && Regular(ops, t)
    ensures TotalOf(c, ops, keys, t) <= DecayedTotal(c, ops, t)
  {
    if ops != [] {
      hide Share;
      var init, op := ops[..|ops| - 1], ops[|ops| - 1];
      TotalOfAtMost(c, init, keys, t);
      ShareNonNegative(c, op, t);
    }
  }

  lemma ShareNonNegative(c: real, op: Op, t: int)
    requires Factor(c) && (op.Add? ==> op.value >= 0.0)
    ensures Share(c, op, t) >= 0.0
  {
    if op.Add? {
      PowerRange(c, Age(t, op.time));
      MulNonNegative(op.value, Power(c, Age(t, op.time)));
    }
  }

  lemma {:induction false} TotalOfKey(c: real, ops: seq<Op>, k: Key, t: int)
    ensures TotalOf(c, ops, {k}, t) == EagerForm(c, EventsOf(ops, k), t)
  {
    if ops != [] {
      hide Share, Mul, Power;
      var init, op := ops[..|ops| - 1], ops[|ops| - 1];
      TotalOfKey(c, init, k, t);
      if op.Add? && op.key == k {
        EagerAppend(c, EventsOf(init, k), Event(op.value, op.time), t);
        ShareIs(c, op, t);
      }
    }
  }

  lemma ShareIs(c: real, op: Op, t: int)
    requires op.Add?
    ensures Share(c, op, t) == Mul(op.value, Power(c, Age(t, op.time)))
  {
  }

  lemma EagerAppend(c: real, events: seq<Event>, e: Event, t: int)
    ensures EagerForm(c, events + [e], t) == EagerForm(c, events, t) + Mul(e.value, Power(c, Age(t, e.time)))
  {
    assert (events + [e])[..|events|] == events;
  }

  lemma {:induction false} ManyKeys(c: real, epsilon: real, ops: seq<Op>, keys: set<Key>, t: int)
    requires forall k :: k in keys ==> TotalOf(c, ops, {k}, t) >= epsilon
    ensures Mul(epsilon, |keys| as real) <= TotalOf(c, ops, keys, t)
    decreases |keys|
  {
    if keys == {} {
      TotalOfNone(c, ops, t);
      MulZero(epsilon);
    } else {
      hide Mul, TotalOf;
      var k :| k in keys;
      ManyKeys(c, epsilon, ops, keys - {k}, t);
      TotalOfSplit(c, ops, keys, k, t);
      MulSuccessor(epsilon, |keys - {k}|);
    }
  }

  /** The memory the table really needs, over every run with regular events: after each operation
      it respects its limit, or its keys, epsilon each, weigh no more than the decayed total of
      all values added so far. */
  lemma MemoryBound(c: real, epsilon: real, maxKeys: int, ops: seq<Op>)
    requires ops != [] && Factor(c) && Regular(ops, ops[|ops| - 1].time)
    ensures var table, t := Execute(c, epsilon, maxKeys, ops).table, ops[|ops| - 1].time;
            |table| <= maxKeys || Mul(epsilon, |table| as real) <= DecayedTotal(c, ops, t)
  {
    var init, op := ops[..|ops| - 1], ops[|ops| - 1];
    var r, r', t := Execute(c, epsilon, maxKeys, init), Execute(c, epsilon, maxKeys, ops), op.time;
    var table := r'.table;
    hide Pruned, AddTo, ValueAt, DecayedTotal, TotalOf, CountLosses;
    if |table| > maxKeys {
      forall k | k in table
        ensures TotalOf(c, ops, {k}, t) >= epsilon
      {
        assert ValueAt(c, table[k], t) >= epsilon by {
          PrunedAre(c, epsilon, if op.Prune? then r.table else r.table[op.key := AddTo(c, Lookup(r.table, op.key), op.value, t)], t, k);
        }
        PruningCost(c, epsilon, maxKeys, ops, k, t);
        FullScore(c, epsilon, maxKeys, ops, k, t);
        TotalOfKey(c, ops, k, t);
      }
      ManyKeys(c, epsilon, ops, table.Keys, t);
      TotalOfAtMost(c, ops, table.Keys, t);
      assert |table.Keys| == |table|;
    }
  }

  lemma ExecuteAdd(c: real, epsilon: real, maxKeys: int, ops: seq<Op>, k: Key, v: real, t: int)
    ensures Execute(c, epsilon, maxKeys, ops + [Op.Add(k, v, t)]).table ==
              TableAdd(c, epsilon, maxKeys, Execute(c, epsilon, maxKeys, ops).table, k, v, t)
  {
    hide TableAdd, AddTo, CountLosses;
    assert (ops + [Op.Add(k, v, t)])[..|ops|] == ops;
  }

  lemma ExecutePrune(c: real, epsilon: real, maxKeys: int, ops: seq<Op>, t: int)
    ensures Execute(c, epsilon, maxKeys, ops + [Op.Prune(t)]).table == Pruned(c, epsilon, Execute(c, epsilon, maxKeys, ops).table, t)
  {
    hide Pruned, CountLosses;
    assert (ops + [Op.Prune(t)])[..|ops|] == ops;
  }

  lemma PrunedAre(c: real, epsilon: real, tbl: Table, t: int, k: Key)
    ensures k in Pruned(c, epsilon, tbl, t) ==> ValueAt(c, Pruned(c, epsilon, tbl, t)[k], t) >= epsilon
  {
  }

  // ---------------------------------------------------------------- below the limit nothing is pruned

  function KeysOf(ops: seq<Op>): set<Key> {
    if ops == [] then {}
    else KeysOf(ops[..|ops| - 1]) + if ops[|ops| - 1].Add? then {ops[|ops| - 1].key} else {}
  }

  ghost predicate OnlyAdds(ops: seq<Op>) {
    forall i :: 0 <= i < |ops| ==> ops[i].Add?
  }

  /** As long as no more keys occur than the limit allows, the table is the unpruned one. */
  lemma {:induction false} NeverPruned(c: real, epsilon: real, maxKeys: int, ops: seq<Op>)
    requires OnlyAdds(ops) && |KeysOf(ops)| <= maxKeys
    ensures var r := Execute(c, epsilon, maxKeys, ops);
            r.table == r.full && r.table.Keys == KeysOf(ops)
  {
    if ops != [] {
      hide AddTo, Pruned, CountLosses;
      var init, op := ops[..|ops| - 1], ops[|ops| - 1];
      SubsetCard(KeysOf(init), KeysOf(ops));
      NeverPruned(c, epsilon, maxKeys, init);
      var table := Execute(c, epsilon, maxKeys, init).table;
      var added := table[op.key := AddTo(c, Lookup(table, op.key), op.value, op.time)];
      assert added.Keys == KeysOf(ops) && |added| == |added.Keys|;
    }
  }

  /** Its scores are then exactly the documented sums. */
  lemma ExactScores(c: real, epsilon: real, maxKeys: int, ops: seq<Op>, k: Key, now: int)
    requires OnlyAdds(ops) && |KeysOf(ops)| <= maxKeys && Regular(ops, now)
    ensures ValueAt(c, Lookup(Execute(c, epsilon, maxKeys, ops).table, k), now) == EagerForm(c, EventsOf(ops, k), now)
  {
    hide Execute, Regular, EagerForm, EventsOf, ValueAt, Lookup;
    NeverPruned(c, epsilon, maxKeys, ops);
    FullScore(c, epsilon, maxKeys, ops, k, now);
  }

  // ---------------------------------------------------------------- scores in descending order

  type Score = (Key, real)

  ghost predicate Descending(s: seq<Score>) {
    forall i, j :: 0 <= i < j < |s| ==> s[i].1 >= s[j].1
  }

  function ByScore(): (key: Score -> real)
    ensures forall x: Score :: key(x) == -x.1
  {
    (x: Score) => -x.1
  }

  /** Sorting gives a rearrangement with the greatest scores first. */
  lemma SortScoresCorrect(s: seq<Score>)
    ensures Descending(SortBy(s, ByScore())) && multiset(SortBy(s, ByScore())) == multiset(s)
  {
    hide SortBy;
    SortByCorrect(s, ByScore());
  }

  /** Every key of a table once, with its score. */
  ghost predicate ScoresOf(c: real, tbl: Table, scored: seq<Score>, t: int) {
    && |scored| == |tbl|
    && (forall i :: 0 <= i < |scored| ==> scored[i].0 in tbl && scored[i].1 == ValueAt(c, tbl[scored[i].0], t))
    && DifferentKeys(scored)
    && (forall key :: key in tbl ==> Mentions(scored, key))
  }

  ghost predicate DifferentKeys(s: seq<Score>) {
    forall i, j :: 0 <= i < j < |s| ==> s[i].0 != s[j].0
  }

  ghost predicate Mentions(s: seq<Score>, key: Key) {
    exists i :: 0 <= i < |s| && s[i].0 == key
  }

  /** Different keys with their scores, highest first, and no other key scores more. */
  ghost predicate Highest(c: real, tbl: Table, top: seq<Score>, t: int) {
    && (forall i :: 0 <= i < |top| ==> top[i].0 in tbl && top[i].1 == ValueAt(c, tbl[top[i].0], t))
    && DifferentKeys(top) && Descending(top)
    && (forall key, i :: key in tbl && !Mentions(top, key) && 0 <= i < |top| ==> ValueAt(c, tbl[key], t) <= top[i].1)
  }

  lemma ScoreIs(c: real, tbl: Table, top: seq<Score>, t: int, i: nat)
    requires Highest(c, tbl, top, t) && i < |top|
    ensures top[i].0 in tbl && top[i].1 == ValueAt(c, tbl[top[i].0], t)
  {
  }

  lemma MentionedLater(s: seq<Score>, n: nat, key: Key)
    requires n <= |s| && Mentions(s, key) && !Mentions(s[..n], key)
    ensures exists j :: n <= j < |s| && s[j].0 == key
  {
    var j :| 0 <= j < |s| && s[j].0 == key;
    assert forall i :: 0 <= i < n ==> s[..n][i].0 != key;
    assert forall i :: 0 <= i < n ==> s[i] == s[..n][i];
  }

  lemma TakeHighest(c: real, tbl: Table, sorted: seq<Score>, n: nat, t: int)
    requires ScoresOf(c, tbl, sorted, t) && Descending(sorted) && n <= |sorted|
    ensures Highest(c, tbl, sorted[..n], t)
  {
    hide ValueAt;
    var top := sorted[..n];
    forall key, i | key in tbl && !Mentions(top, key) && 0 <= i < |top|
      ensures ValueAt(c, tbl[key], t) <= top[i].1
    {
      MentionedLater(sorted, n, key);
      var j :| n <= j < |sorted| && sorted[j].0 == key;
      assert sorted[i].1 >= sorted[j].1;
    }
  }

  /** The part of a table with some of its keys. */
  ghost function Among(tbl: Table, keys: set<Key>): Table {
    map k | k in tbl && k in keys :: tbl[k]
  }

  lemma NoScores(c: real, tbl: Table, t: int)
    ensures ScoresOf(c, Among(tbl, {}), [], t)
  {
    assert Among(tbl, {}) == map[];
  }

  lemma OneMoreScore(c: real, tbl: Table, done: set<Key>, scored: seq<Score>, key: Key, t: int)
    requires ScoresOf(c, Among(tbl, done), scored, t) && key in tbl && key !in done
    ensures ScoresOf(c, Among(tbl, done + {key}), scored + [(key, ValueAt(c, tbl[key], t))], t)
  {
    hide ValueAt;
    var part, part', scored' := Among(tbl, done), Among(tbl, done + {key}), scored + [(key, ValueAt(c, tbl[key], t))];
    assert part' == part[key := tbl[key]];
    hide Among;
    forall i | 0 <= i < |scored'|
      ensures scored'[i].0 in part' && scored'[i].1 == ValueAt(c, part'[scored'[i].0], t)
      ensures i < |scored| ==> scored'[i].0 in part
    {
    }
    MentionsMore(scored, key, ValueAt(c, tbl[key], t));
  }

  lemma MentionsMore(s: seq<Score>, key: Key, v: real)
    ensures Mentions(s + [(key, v)], key)
    ensures forall k :: Mentions(s, k) ==> Mentions(s + [(key, v)], k)
  {
    var s' := s + [(key, v)];
    assert s'[|s|].0 == key;
    forall k | Mentions(s, k)
      ensures Mentions(s', k)
    {
      var i :| 0 <= i < |s| && s[i].0 == k;
      assert s'[i].0 == k;
    }
  }

  lemma AllScores(c: real, tbl: Table, done: set<Key>, scored: seq<Score>, t: int)
    requires ScoresOf(c, Among(tbl, done), scored, t) && tbl.Keys <= done
    ensures ScoresOf(c, tbl, scored, t)
  {
    assert Among(tbl, done) == tbl;
  }

  lemma ScoresSize(c: real, tbl: Table, scored: seq<Score>, t: int)
    requires ScoresOf(c, tbl, scored, t)
    ensures |scored| == |tbl|
  {
  }

  /** A rearrangement still holds every key once. */
  lemma SortedScores(c: real, tbl: Table, scored: seq<Score>, sorted: seq<Score>, t: int)
    requires ScoresOf(c, tbl, scored, t) && multiset(sorted) == multiset(scored)
    ensures ScoresOf(c, tbl, sorted, t)
  {
    hide ValueAt;
    assert |sorted| == |multiset(sorted)| == |multiset(scored)| == |scored|;
    assert forall x :: x in sorted <==> x in multiset(sorted);
    assert forall x :: x in scored <==> x in multiset(scored);
    forall i | 0 <= i < |sorted|
      ensures sorted[i].0 in tbl && sorted[i].1 == ValueAt(c, tbl[sorted[i].0], t)
    {
      assert sorted[i] in scored;
    }
    OnceEach(scored);
    forall i, j | 0 <= i < j < |sorted|
      ensures sorted[i].0 != sorted[j].0
    {
      if sorted[i].0 == sorted[j].0 {
        Twice(sorted, i, j);
        assert false;
      }
    }
    forall key | key in tbl
      ensures Mentions(sorted, key)
    {
      assert Mentions(scored, key);
      var i :| 0 <= i < |scored| && scored[i].0 == key;
      assert scored[i] in sorted;
    }
  }

  lemma {:induction false} OnceEach(s: seq<Score>)
    requires DifferentKeys(s)
    ensures forall x :: multiset(s)[x] <= 1
  {
    if s != [] {
      var init, last := s[..|s| - 1], s[|s| - 1];
      OnceEach(init);
      assert s == init + [last];
      assert last !in init;
    }
  }

  lemma Twice(s: seq<Score>, i: nat, j: nat)
    requires i < j < |s| && s[i] == s[j]
    ensures multiset(s)[s[i]] >= 2
  {
    assert s == s[..j] + [s[j]] + s[j + 1..];
    assert s[i] == s[..j][i];
    assert s[i] in multiset(s[..j]);
  }

  // ---------------------------------------------------------------- the table of counters

  /** Every key has a counter of its own. */
  ghost predicate Separated(c: real, counters: map<Key, DecayingCounter>)
    reads set k | k in counters :: counters[k]
  {
    && (forall k :: k in counters ==> counters[k].factor == c && counters[k].Valid())
    && (forall k, l :: k in counters && l in counters && k != l ==> counters[k] != counters[l])
  }

  function Scores(counters: map<Key, DecayingCounter>): Table
    reads set k | k in counters :: counters[k]
  {
    map k | k in counters :: counters[k].State()
  }

  lemma SameKeys(counters: map<Key, DecayingCounter>)
    ensures Scores(counters).Keys == counters.Keys
  {
  }

  lemma OneMoreCounter(c: real, counters: map<Key, DecayingCounter>, key: Key, added: DecayingCounter)
    requires Separated(c, counters) && added.factor == c && added.Valid()
    requires forall k :: k in counters ==> counters[k] != added
    ensures Separated(c, counters[key := added])
    ensures Scores(counters[key := added]) == Scores(counters)[key := added.State()]
  {
    hide Fold;
  }

  lemma FewerCounters(c: real, counters: map<Key, DecayingCounter>, fewer: map<Key, DecayingCounter>)
    requires Separated(c, counters) && fewer.Keys <= counters.Keys && forall k :: k in fewer ==> fewer[k] == counters[k]
    ensures Separated(c, fewer)
    ensures Scores(fewer) == map k | k in Scores(counters) && k in fewer :: Scores(counters)[k]
  {
    hide Fold;
  }

  class DecayingKeyTable {
    const factor: real
    const epsilon: real
    const maxKeys: int
    var counters: map<Key, DecayingCounter>
    ghost var ops: seq<Op>   // every operation so far

    ghost function Objects(): set<DecayingCounter>
      reads this
    {
      set k | k in counters :: counters[k]
    }

    ghost predicate Separate()
      reads this, Objects()
    {
      Separated(factor, counters)
    }

    /** The table is what the operations so far make of an empty one. */
    ghost predicate Valid()
      reads this, Objects()
    {
      Separate() && State() == Execute(factor, epsilon, maxKeys, ops).table
    }

    function State(): Table
      reads this, set k | k in counters :: counters[k]
    {
      Scores(counters)
    }

    constructor (factor: real, epsilon: real, maxKeys: int)
      ensures Valid() && State() == map[] && ops == [] && counters == map[]
      ensures this.factor == factor && this.epsilon == epsilon && this.maxKeys == maxKeys
    {
      this.factor, this.epsilon, this.maxKeys := factor, epsilon, maxKeys;
      counters, ops := map[], [];
    }

    /** Counts an event of a key. The table respects its limit afterwards exactly when it did not
        grow over it or few enough keys score epsilon; otherwise the total weight bounds it. */
    method Add(key: Key, value: real, t: int)
      requires Valid()
      modifies this, Objects()
      ensures Valid() && fresh(Objects() - old(Objects())) && ops == old(ops) + [Op.Add(key, value, t)]
      ensures State() == TableAdd(factor, epsilon, maxKeys, old(State()), key, value, t)
      ensures |counters| <= maxKeys <==>
                || |old(State()).Keys + {key}| <= maxKeys
                || |Heavy(factor, epsilon, old(State())[key := AddTo(factor, Lookup(old(State()), key), value, t)], t)| <= maxKeys
      ensures Factor(factor) && Regular(ops, t) ==>
                |counters| <= maxKeys || Mul(epsilon, |counters| as real) <= DecayedTotal(factor, ops, t)
    {
      hide TableAdd, AddTo, Heavy, Regular, DecayedTotal, Mul, Execute, Lookup, Fold, Separated, Scores;
      ghost var before, was := State(), ops;
      Count(key, value, t);
      ops := ops + [Op.Add(key, value, t)];
      ExecuteAdd(factor, epsilon, maxKeys, was, key, value, t);
      assert Valid();
      SameKeys(counters);
      assert |State()| == |State().Keys| && |counters| == |counters.Keys|;
      WithinLimit(factor, epsilon, maxKeys, before, key, value, t);
      if Factor(factor) && Regular(ops, t) {
        MemoryBound(factor, epsilon, maxKeys, ops);
      }
    }

    method Count(key: Key, value: real, t: int)
      requires Separate()
      modifies `counters, Objects()
      ensures Separate() && fresh(Objects() - old(Objects()))
      ensures State() == TableAdd(factor, epsilon, maxKeys, old(State()), key, value, t)
    {
      hide AddTo, Pruned, Separated, Scores;
      Ensure(key);
      Update(key, value, t);
      assert State() == old(State())[key := AddTo(factor, Lookup(old(State()), key), value, t)];
      SameSize();
      if |counters| > maxKeys {
        Evict(t);
      }
    }

    lemma SameSize()
      ensures State().Keys == counters.Keys && |State()| == |counters|
    {
      assert State().Keys == counters.Keys;
      assert |State()| == |State().Keys| && |counters| == |counters.Keys|;
    }

    /** A key that is not in the table gets a fresh counter. */
    method Ensure(key: Key)
      requires Separate()
      modifies `counters
      ensures Separate() && fresh(Objects() - old(Objects())) && key in counters
      ensures State() == old(State())[key := Lookup(old(State()), key)]
    {
      hide Fold, Scores, Separated;
      SameKeys(counters);
      if key !in counters {
        var c := new DecayingCounter(factor);
        OneMoreCounter(factor, counters, key, c);
        counters := counters[key := c];
      } else {
        assert State()[key := Lookup(State(), key)] == State();
      }
    }

    method Update(key: Key, value: real, t: int)
      requires Separate() && key in counters
      modifies counters[key]
      ensures Separate() && counters == old(counters)
      ensures State() == old(State())[key := AddTo(factor, old(State())[key], value, t)]
    {
      hide AddTo, Fold;
      counters[key].Add(value, t);
    }

    /** Removes exactly the keys whose score is below epsilon. */
    method Prune(t: int)
      requires Valid()
      modifies this
      ensures Valid() && Objects() <= old(Objects()) && ops == old(ops) + [Op.Prune(t)]
      ensures State() == Pruned(factor, epsilon, old(State()), t)
    {
      hide Pruned, Execute, Separated, Scores;
      Evict(t);
      ops := ops + [Op.Prune(t)];
      ExecutePrune(factor, epsilon, maxKeys, old(ops), t);
    }

    method Evict(t: int)
      requires Separate()
      modifies `counters
      ensures Separate() && Objects() <= old(Objects())
      ensures State() == Pruned(factor, epsilon, old(State()), t)
    {
      hide ValueAt, Fold, Separated;
      var kept := map k | k in counters && ValueAt(factor, counters[k].State(), t) >= epsilon :: counters[k];
      FewerCounters(factor, counters, kept);
      counters := kept;
    }

    /** The keys with the highest scores, highest first; a negative k leaves out the last -k keys.
        For events in order each score is at most the documented sum over all events of its key,
        and falls short of it by at most epsilon for each time the key was pruned. */
    method TopK(k: int, t: int) returns (top: seq<Score>)
      requires Valid()
      ensures |top| == if k >= 0 then (if k <= |counters| then k else |counters|)
                       else (if -k <= |counters| then |counters| + k else 0)
      ensures Highest(factor, State(), top, t)
      ensures Factor(factor) && Regular(ops, t) ==> forall i :: 0 <= i < |top| ==> Faithful(top[i].0, top[i].1, t)
      ensures OnlyAdds(ops) && |KeysOf(ops)| <= maxKeys && Regular(ops, t) ==>
                forall i :: 0 <= i < |top| ==> top[i].1 == EagerForm(factor, EventsOf(ops, top[i].0), t)
    {
      hide ValueAt, Execute, Regular, Faithful, Highest, ScoresOf;
      var scored := Scored(t);
      SortScoresCorrect(scored);
      var sorted := SortBy(scored, ByScore());
      SortedScores(factor, State(), scored, sorted, t);
      SameSize();
      ScoresSize(factor, State(), sorted, t);
      var n := |sorted|;
      var m := if k >= 0 then (if k <= n then k else n) else (if -k <= n then n + k else 0);
      top := sorted[..m];
      TakeHighest(factor, State(), sorted, m, t);
      if Factor(factor) && Regular(ops, t) {
        forall i | 0 <= i < |top|
          ensures Faithful(top[i].0, top[i].1, t)
        {
          ScoreIs(factor, State(), top, t, i);
          ScoreBounds(top[i].0, t);
        }
      }
      if OnlyAdds(ops) && |KeysOf(ops)| <= maxKeys && Regular(ops, t) {
        forall i | 0 <= i < |top|
          ensures top[i].1 == EagerForm(factor, EventsOf(ops, top[i].0), t)
        {
          ScoreIs(factor, State(), top, t, i);
          ExactScores(factor, epsilon, maxKeys, ops, top[i].0, t);
        }
      }
    }

    method ScoreOf(key: Key, t: int) returns (v: real)
      requires Separate() && key in counters
      ensures v == ValueAt(factor, State()[key], t)
    {
      hide ValueAt, Fold, ClosedForm, EagerForm, Clock;
      v := counters[key].Value(t);
    }

    /** The score of every key, in any order. */
    method Scored(t: int) returns (scored: seq<Score>)
      requires Valid()
      ensures ScoresOf(factor, State(), scored, t)
    {
      hide ValueAt, Execute, ScoresOf, Among, Separated;
      scored := [];
      var rest := counters.Keys;
      ghost var done: set<Key> := {};
      NoScores(factor, State(), t);
      while rest != {}
        invariant counters.Keys == done + rest && done !! rest
        invariant ScoresOf(factor, Among(State(), done), scored, t)
        decreases |rest|
      {
        var key :| key in rest;
        var v := ScoreOf(key, t);
        OneMoreScore(factor, State(), done, scored, key, t);
        MoveOne(counters.Keys, done, rest, key);
        scored := scored + [(key, v)];
        rest, done := rest - {key}, done + {key};
      }
      AllScores(factor, State(), done, scored, t);
    }

    /** A score against the sum over all events of its key. */
    ghost predicate Faithful(key: Key, score: real, t: int)
      reads this
    {
      && (forall i :: 0 <= i < |EventsOf(ops, key)| ==> EventsOf(ops, key)[i].time <= t)
      && 0.0 <= EagerForm(factor, EventsOf(ops, key), t) - score
             <= Mul(epsilon, Get(Execute(factor, epsilon, maxKeys, ops).losses, key) as real)
    }

    lemma ScoreBounds(key: Key, t: int)
      requires Valid() && key in counters && Factor(factor) && Regular(ops, t)
      ensures Faithful(key, ValueAt(factor, State()[key], t), t)
    {
      hide Execute, Regular, ValueAt, EagerForm, EventsOf;
      PruningCost(factor, epsilon, maxKeys, ops, key, t);
      FullScore(factor, epsilon, maxKeys, ops, key, t);
    }

    /** The documented limit is not kept: two keys at one tick, with a limit of one. */
    static method OverLimit() returns (table: DecayingKeyTable)
      ensures table.Valid() && table.maxKeys == 1 && |table.counters| == 2
    {
      hide TableAdd, AddTo, Heavy, Regular, DecayedTotal, Mul, Execute;
      table := new DecayingKeyTable(0.5, 0.0001, 1);
      table.Add("a", 1.0, 0);
      table.Add("b", 1.0, 0);
      TwoKeys();
      table.SameSize();
    }
  }
}
