/** The alert engine of linkanalysis/alerts.py.

    The system clock is an arbitrary nondecreasing sequence of readings, taken one after the
    other; a window is judged by several readings. */
module Alerts {
  import opened Options
  import opened Reals
  import opened Powers
  import opened Counting

  datatype Config = Config(ewmaAlpha: real, warmupWindows: int, warnMultiplier: real, criticalMultiplier: real,
                           minPps: real, maxPorts: int, maxIps: int, cooldown: real, minWindowPackets: int)

  /** An alert type together with a source. */
  type Key = (string, string)

  const SPIKE: string := "TRAFFIC_SPIKE"
  const PORTS: string := "UNUSUAL_PORT_ACTIVITY"
  const FANOUT: string := "HIGH_FANOUT"
  const GLOBAL: Key := (SPIKE, "global")

  datatype Severity = Warn | Critical

  datatype Alert = Alert(key: Key, severity: Severity, current: real, baseline: real, changePct: real, threshold: real)

  /** An alert that was issued, with the time recorded for its cooldown. */
  datatype Fired = Fired(key: Key, time: real)

  // ---------------------------------------------------------------- the baseline

  /** The exponentially weighted mean: the first value, then a step of alpha towards each next. */
  function Ewma(alpha: real, s: seq<real>): real
    requires s != []
  {
    if |s| == 1 then s[0] else alpha * s[|s| - 1] + (1.0 - alpha) * Ewma(alpha, s[..|s| - 1])
  }

  lemma EwmaStep(alpha: real, s: seq<real>, x: real)
    ensures Ewma(alpha, s + [x]) == if s == [] then x else alpha * x + (1.0 - alpha) * Ewma(alpha, s)
  {
    assert (s + [x])[..|s|] == s;
  }

  /** The part of the mean that belongs to value i: the first value keeps what the later steps
      leave, each other one starts with alpha. */
  function Weight(alpha: real, n: nat, i: nat): real
    requires i < n
  {
    if i == n - 1 then (if n == 1 then 1.0 else alpha) else Mul(1.0 - alpha, Weight(alpha, n - 1, i))
  }

  function WeightedSum(alpha: real, s: seq<real>, n: nat, k: nat): real
    requires k <= |s| == n
  {
    if k == 0 then 0.0 else WeightedSum(alpha, s, n, k - 1) + Mul(Weight(alpha, n, k - 1), s[k - 1])
  }

  /** The weights are geometric: alpha * (1 - alpha)^age, and (1 - alpha)^age for the first. */
  lemma {:induction false} WeightIs(alpha: real, n: nat, i: nat)
    requires i < n
    ensures Weight(alpha, n, i) == Mul(if i == 0 then 1.0 else alpha, Power(1.0 - alpha, n - 1 - i))
  {
    var a := if i == 0 then 1.0 else alpha;
    if i < n - 1 {
      hide Mul;
      WeightIs(alpha, n - 1, i);
      MulRotate(1.0 - alpha, a, Power(1.0 - alpha, n - 2 - i));
    } else {
      MulOne(a);
    }
  }

  lemma {:induction false} WeightedShift(alpha: real, s: seq<real>, k: nat)
    requires s != [] && k < |s|
    ensures WeightedSum(alpha, s, |s|, k) == Mul(1.0 - alpha, WeightedSum(alpha, s[..|s| - 1], |s| - 1, k))
  {
    hide Mul;
    var n, init, b := |s|, s[..|s| - 1], 1.0 - alpha;
    if k > 0 {
      WeightedShift(alpha, s, k - 1);
      var w := Weight(alpha, n - 1, k - 1);
      MulDistribute(WeightedSum(alpha, init, n - 1, k - 1), Mul(w, s[k - 1]), b);
      MulRotate(b, w, s[k - 1]);
    } else {
      MulZero(b);
    }
  }

  /** The baseline is the weighted sum of its values. */
  lemma {:induction false} EwmaIsWeightedSum(alpha: real, s: seq<real>)
    requires s != []
    ensures Ewma(alpha, s) == WeightedSum(alpha, s, |s|, |s|)
  {
    EwmaLast(alpha, s);
    hide Ewma, Mul;
    if |s| > 1 {
      EwmaIsWeightedSum(alpha, s[..|s| - 1]);
      WeightedShift(alpha, s, |s| - 1);
    } else {
      assert WeightedSum(alpha, s, 1, 0) == 0.0;
      MulOne(s[0]);
    }
  }

  lemma EwmaLast(alpha: real, s: seq<real>)
    requires s != []
    ensures Ewma(alpha, s) == if |s| == 1 then s[0] else Mul(alpha, s[|s| - 1]) + Mul(1.0 - alpha, Ewma(alpha, s[..|s| - 1]))
  {
  }

  /** The baseline never leaves the range of the values it was built from. */
  lemma {:induction false} EwmaBounds(alpha: real, s: seq<real>, lo: real, hi: real)
    requires s != [] && 0.0 <= alpha <= 1.0
    requires forall i :: 0 <= i < |s| ==> lo <= s[i] <= hi
    ensures lo <= Ewma(alpha, s) <= hi
  {
    if |s| > 1 {
      EwmaBounds(alpha, s[..|s| - 1], lo, hi);
      Between(alpha, s[|s| - 1], Ewma(alpha, s[..|s| - 1]), lo, hi);
    }
  }

  lemma Between(alpha: real, x: real, y: real, lo: real, hi: real)
    requires 0.0 <= alpha <= 1.0 && lo <= x <= hi && lo <= y <= hi
    ensures lo <= alpha * x + (1.0 - alpha) * y <= hi
  {
    MulNonNegative(alpha, x - lo);
    MulNonNegative(alpha, hi - x);
    MulNonNegative(1.0 - alpha, y - lo);
    MulNonNegative(1.0 - alpha, hi - y);
    assert alpha * (x - lo) == alpha * x - alpha * lo;
    assert alpha * (hi - x) == alpha * hi - alpha * x;
    assert (1.0 - alpha) * (y - lo) == (1.0 - alpha) * y - (1.0 - alpha) * lo;
    assert (1.0 - alpha) * (hi - y) == (1.0 - alpha) * hi - (1.0 - alpha) * y;
    assert alpha * lo + (1.0 - alpha) * lo == lo && alpha * hi + (1.0 - alpha) * hi == hi;
  }

  // ---------------------------------------------------------------- cooldowns

  ghost predicate AllBusy(rates: seq<real>, minPps: real) {
    forall i :: 0 <= i < |rates| ==> rates[i] >= minPps
  }

  ghost predicate Nondecreasing(clock: nat -> real) {
    forall i: nat, j: nat :: i <= j ==> clock(i) <= clock(j)
  }

  /** Whether the key is still cooling down at a reading. */
  predicate Cooling(cooldowns: map<Key, real>, key: Key, now: real, cooldown: real) {
    key in cooldowns && now - cooldowns[key] < cooldown
  }

  /** An alert of the key was issued less than the cooldown ago. */
  ghost predicate Recent(fired: seq<Fired>, key: Key, now: real, cooldown: real) {
    exists i :: 0 <= i < |fired| && fired[i].key == key && now - fired[i].time < cooldown
  }

  /** A key is cooling down exactly if it had an alert less than the cooldown ago. */
  lemma CoolingIsRecent(fired: seq<Fired>, cooldowns: map<Key, real>, t: real, key: Key, now: real, cooldown: real)
    requires Recorded(fired, cooldowns, t)
    ensures Cooling(cooldowns, key, now, cooldown) <==> Recent(fired, key, now, cooldown)
  {
    if Cooling(cooldowns, key, now, cooldown) {
      var i :| 0 <= i < |fired| && fired[i] == Fired(key, cooldowns[key]);
    }
  }

  /** A cooldown that has run out stays so. */
  lemma CoolingEnds(cooldowns: map<Key, real>, key: Key, now: real, later: real, cooldown: real)
    requires now <= later && Cooling(cooldowns, key, later, cooldown)
    ensures Cooling(cooldowns, key, now, cooldown)
  {
  }

  /** Two maps agree on a key. */
  ghost predicate SameAt(m: map<Key, real>, m': map<Key, real>, k: Key) {
    (k in m <==> k in m') && (k in m ==> m[k] == m'[k])
  }

  /** Two alerts of the same key are at least the cooldown apart. */
  ghost predicate Spaced(fired: seq<Fired>, cooldown: real) {
    forall i, j :: 0 <= i < j < |fired| && fired[i].key == fired[j].key ==> fired[j].time - fired[i].time >= cooldown
  }

  lemma SpacedLess(fired: seq<Fired>, cooldown: real, less: real)
    requires Spaced(fired, cooldown) && less <= cooldown
    ensures Spaced(fired, less)
  {
  }

  /** No alert is newer than the reading t, and the recorded time of a key is that of its last alert. */
  ghost predicate Recorded(fired: seq<Fired>, cooldowns: map<Key, real>, t: real) {
    && (forall i :: 0 <= i < |fired| ==> fired[i].time <= t && fired[i].key in cooldowns && fired[i].time <= cooldowns[fired[i].key])
    && (forall k :: k in cooldowns ==> cooldowns[k] <= t && exists i :: 0 <= i < |fired| && fired[i] == Fired(k, cooldowns[k]))
  }

  lemma FireKeeps(fired: seq<Fired>, cooldowns: map<Key, real>, key: Key, t: real, now: real, later: real, cooldown: real)
    requires Spaced(fired, cooldown) && Recorded(fired, cooldowns, t) && t <= now <= later
    requires !Cooling(cooldowns, key, now, cooldown)
    ensures Spaced(fired + [Fired(key, later)], cooldown)
    ensures Recorded(fired + [Fired(key, later)], cooldowns[key := later], later)
  {
    var fired', cooldowns' := fired + [Fired(key, later)], cooldowns[key := later];
    forall k | k in cooldowns'
      ensures cooldowns'[k] <= later && exists i :: 0 <= i < |fired'| && fired'[i] == Fired(k, cooldowns'[k])
    {
      if k == key {
        assert fired'[|fired|] == Fired(k, later);
      } else {
        var i :| 0 <= i < |fired| && fired[i] == Fired(k, cooldowns[k]);
        assert fired'[i] == Fired(k, cooldowns'[k]);
      }
    }
  }

  lemma RecordedLater(fired: seq<Fired>, cooldowns: map<Key, real>, t: real, t': real)
    requires Recorded(fired, cooldowns, t) && t <= t'
    ensures Recorded(fired, cooldowns, t')
  {
  }

  // ---------------------------------------------------------------- saved cooldowns

  predicate BarFree(s: string) {
    '|' !in s
  }

  function JoinKey(k: Key): string {
    k.0 + "|" + k.1
  }

  /** Splits at the first bar. */
  function SplitKey(s: string): Key {
    if s == [] then ([], [])
    else if s[0] == '|' then ([], s[1..])
    else var k := SplitKey(s[1..]); ([s[0]] + k.0, k.1)
  }

  /** Splitting undoes joining, even when the source contains bars. */
  lemma {:induction false} SplitJoin(k: Key)
    requires BarFree(k.0)
    ensures SplitKey(JoinKey(k)) == k
    decreases |k.0|
  {
    if k.0 == [] {
      assert JoinKey(k)[1..] == k.1;
    } else {
      var rest := (k.0[1..], k.1);
      assert k.0 == [k.0[0]] + k.0[1..];
      SplitJoin(rest);
      assert JoinKey(k) == [k.0[0]] + JoinKey(rest);
    }
  }

  ghost predicate AllBarFree(m: map<Key, real>) {
    forall k :: k in m ==> BarFree(k.0)
  }

  /** The cooldowns as they are saved: one text key for each pair. */
  function Save(m: map<Key, real>): map<string, real>
    requires AllBarFree(m)
  {
    forall k | k in m
      ensures SplitKey(JoinKey(k)) == k
    {
      SplitJoin(k);
    }
    map s | s in (set k | k in m :: JoinKey(k)) :: m[SplitKey(s)]
  }

  /** No two text keys stand for the same pair. */
  ghost predicate Loadable(saved: map<string, real>) {
    forall s, t :: s in saved && t in saved && SplitKey(s) == SplitKey(t) ==> s == t
  }

  function Load(saved: map<string, real>): map<Key, real>
    requires Loadable(saved)
  {
    map s | s in saved :: SplitKey(s) := saved[s]
  }

  lemma InSave(m: map<Key, real>, k: Key)
    requires AllBarFree(m) && k in m
    ensures SplitKey(JoinKey(k)) == k && JoinKey(k) in Save(m) && Save(m)[JoinKey(k)] == m[k]
  {
    SplitJoin(k);
  }

  lemma FromSave(m: map<Key, real>, s: string)
    requires AllBarFree(m) && s in Save(m)
    ensures SplitKey(s) in m && JoinKey(SplitKey(s)) == s
  {
    var k :| k in m && s == JoinKey(k);
    SplitJoin(k);
  }

  lemma InLoad(saved: map<string, real>, s: string)
    requires Loadable(saved) && s in saved
    ensures SplitKey(s) in Load(saved) && Load(saved)[SplitKey(s)] == saved[s]
  {
  }

  lemma FromLoad(saved: map<string, real>, k: Key) returns (s: string)
    requires Loadable(saved) && k in Load(saved)
    ensures s in saved && k == SplitKey(s)
  {
    s :| s in saved && k == SplitKey(s);
  }

  /** Saving and loading the cooldowns loses nothing, because no two keys collide as text. */
  lemma SaveLoad(m: map<Key, real>)
    requires AllBarFree(m)
    ensures Loadable(Save(m)) && Load(Save(m)) == m
  {
    hide JoinKey, SplitKey, Save, Load;
    var saved := Save(m);
    forall s, t | s in saved && t in saved && SplitKey(s) == SplitKey(t)
      ensures s == t
    {
      FromSave(m, s);
      FromSave(m, t);
    }
    assert Loadable(saved);
    forall k
      ensures k in m <==> k in Load(saved)
      ensures k in m ==> Load(saved)[k] == m[k]
    {
      if k in m {
        InSave(m, k);
        InLoad(saved, JoinKey(k));
      }
      if k in Load(saved) {
        var s := FromLoad(saved, k);
        FromSave(m, s);
      }
    }
  }

  // ---------------------------------------------------------------- the engine

  class AlertEngine {
    const config: Config
    const clock: nat -> real
    var baseline: Option<real>
    var count: int
    var cooldowns: map<Key, real>
    var ticks: nat                   // how often the clock was read
    ghost var busy: seq<real>        // the rates of the windows with at least minPps
    ghost var fired: seq<Fired>      // every alert issued

    /** The baseline is the weighted mean of exactly the busy windows, and alerts of one key
        keep their distance. */
    ghost predicate Valid()
      reads this
    {
      && Nondecreasing(clock)
      && count == |busy|
      && AllBusy(busy, config.minPps)
      && baseline == (if busy == [] then None else Some(Ewma(config.ewmaAlpha, busy)))
      && Quiet()
    }

    ghost predicate Quiet()
      reads `fired, `cooldowns, `ticks
    {
      && Spaced(fired, config.cooldown)
      && Recorded(fired, cooldowns, clock(ticks))
      && AllBarFree(cooldowns)
    }

    constructor (config: Config, clock: nat -> real)
      requires Nondecreasing(clock)
      ensures Valid() && busy == [] && fired == [] && cooldowns == map[]
      ensures this.config == config && this.clock == clock
    {
      this.config, this.clock := config, clock;
      baseline, count, cooldowns, ticks := None, 0, map[], 0;
      busy, fired := [], [];
    }

    /** Reads the clock. */
    method Now() returns (t: real)
      requires Quiet() && Nondecreasing(clock)
      modifies `ticks
      ensures Quiet() && ticks == old(ticks) + 1 && t == clock(old(ticks)) <= clock(ticks)
    {
      t := clock(ticks);
      ticks := ticks + 1;
      RecordedLater(fired, cooldowns, clock(ticks - 1), clock(ticks));
    }

    lemma QuietRecorded()
      requires Quiet()
      ensures Recorded(fired, cooldowns, clock(ticks))
    {
    }

    /** Whether the key is cooling down, by a reading of the clock. */
    method InCooldown(key: Key) returns (cooling: bool)
      requires Quiet() && Nondecreasing(clock)
      modifies `ticks
      ensures Quiet() && ticks >= old(ticks)
      ensures cooling <==> Cooling(cooldowns, key, clock(old(ticks)), config.cooldown)
    {
      hide Spaced, Recorded, AllBarFree;
      if key !in cooldowns {
        return false;
      }
      var now := Now();
      return now - cooldowns[key] < config.cooldown;
    }

    /** Records the alert that was judged at an earlier reading. */
    method SetCooldown(key: Key, ghost judged: nat)
      requires Quiet() && Nondecreasing(clock) && BarFree(key.0)
      requires judged <= ticks && Recorded(fired, cooldowns, clock(judged))
      requires !Cooling(cooldowns, key, clock(judged), config.cooldown)
      modifies `ticks, `cooldowns, `fired
      ensures Quiet() && ticks == old(ticks) + 1
      ensures cooldowns == old(cooldowns)[key := clock(old(ticks))]
      ensures fired == old(fired) + [Fired(key, clock(old(ticks)))]
    {
      hide Spaced, Recorded;
      var later := Now();
      FireKeeps(fired, cooldowns, key, clock(judged), clock(judged), later, config.cooldown);
      cooldowns := cooldowns[key := later];
      fired := fired + [Fired(key, later)];
      RecordedLater(fired, cooldowns, later, clock(ticks));
    }

    /** The baseline after one more busy window. */
    method Learn(pps: real)
      requires Valid() && pps >= config.minPps
      modifies `baseline, `count, `busy
      ensures Valid() && busy == old(busy) + [pps] && count == old(count) + 1
      ensures baseline == Some(Ewma(config.ewmaAlpha, busy))
    {
      hide Spaced, Recorded, AllBarFree, Ewma;
      EwmaStep(config.ewmaAlpha, busy, pps);
      baseline := if baseline.None? then Some(pps)
                  else Some(config.ewmaAlpha * pps + (1.0 - config.ewmaAlpha) * baseline.value);
      count := count + 1;
      busy := busy + [pps];
      assert baseline.value == Ewma(config.ewmaAlpha, busy);
    }

    /** The spike rule. It learns exactly from the busy windows, judges a window against the
        baseline of the earlier ones, and is silent until there were enough of them. */
    method CheckTrafficSpike(pps: real) returns (alert: Option<Alert>)
      requires Valid()
      modifies this
      ensures Valid()
      ensures busy == if pps >= config.minPps then old(busy) + [pps] else old(busy)
      ensures alert.Some? <==>
                && pps >= config.minPps
                && |old(busy)| >= 1 && |old(busy)| >= config.warmupWindows - 1
                && (pps >= config.criticalMultiplier * Ewma(config.ewmaAlpha, old(busy))
                    || pps >= config.warnMultiplier * Ewma(config.ewmaAlpha, old(busy)))
                && !Cooling(old(cooldowns), GLOBAL, clock(old(ticks)), config.cooldown)
      ensures Cooling(old(cooldowns), GLOBAL, clock(old(ticks)), config.cooldown) <==>
                Recent(old(fired), ("TRAFFIC_SPIKE", "global"), clock(old(ticks)), config.cooldown)
      ensures alert.Some? ==>
                && alert.value.key == GLOBAL && alert.value.current == pps
                && alert.value.baseline == Ewma(config.ewmaAlpha, busy)
                && (alert.value.severity == Critical <==> pps >= config.criticalMultiplier * Ewma(config.ewmaAlpha, old(busy)))
                && alert.value.threshold == Ewma(config.ewmaAlpha, old(busy))
                     * (if alert.value.severity == Critical then config.criticalMultiplier else config.warnMultiplier)
                && alert.value.changePct == ChangePct(pps, Ewma(config.ewmaAlpha, old(busy)))
      ensures alert.Some? ==> exists t :: fired == old(fired) + [Fired(GLOBAL, t)] && cooldowns == old(cooldowns)[GLOBAL := t]
      ensures alert.None? ==> fired == old(fired) && cooldowns == old(cooldowns)
      ensures forall k: Key :: k != GLOBAL ==> SameAt(old(cooldowns), cooldowns, k)
      ensures ticks >= old(ticks) && (alert.Some? ==> ticks > old(ticks))
    {
      hide Quiet, Recorded, Nondecreasing, Ewma, Cooling, Recent;
      ghost var judged := ticks;
      QuietRecorded();
      CoolingIsRecent(fired, cooldowns, clock(ticks), GLOBAL, clock(ticks), config.cooldown);
      if pps < config.minPps {
        return None;
      }
      if baseline.None? {
        Learn(pps);
        return None;
      }
      var before := baseline.value;
      if count + 1 < config.warmupWindows {
        Learn(pps);
        return None;
      }
      var warnThreshold := config.warnMultiplier * before;
      var criticalThreshold := config.criticalMultiplier * before;
      var severity, threshold;
      if pps >= criticalThreshold {
        severity, threshold := Critical, criticalThreshold;
      } else if pps >= warnThreshold {
        severity, threshold := Warn, warnThreshold;
      } else {
        Learn(pps);
        return None;
      }
      Learn(pps);
      var changePct := ChangePct(pps, before);
      var cooling := InCooldown(GLOBAL);
      if cooling {
        return None;
      }
      SetCooldown(GLOBAL, judged);
      return Some(Alert(GLOBAL, severity, pps, baseline.value, changePct, threshold));
    }

    /** The two rules for one source: too many distinct ports, too many distinct addresses. An
        alert over a limit of 0 cannot be built, because the change against the limit divides by
        it; the check then raises, before it records anything. */
    method CheckCount(kind: string, src: string, distinct: int, limit: int) returns (alert: Option<Alert>, ok: bool)
      requires Valid() && BarFree(kind)
      modifies `ticks, `cooldowns, `fired
      ensures Valid()
      ensures var due := distinct > limit && !Cooling(old(cooldowns), (kind, src), clock(old(ticks)), config.cooldown);
              && (ok <==> !due || limit != 0)
              && (alert.Some? <==> due && limit != 0)
      ensures alert.Some? ==> exists t :: fired == old(fired) + [Fired((kind, src), t)] && cooldowns == old(cooldowns)[(kind, src) := t]
      ensures alert.None? ==> fired == old(fired) && cooldowns == old(cooldowns)
      ensures Logged(old(fired), fired, AsSeq(alert))
      ensures forall k: Key :: k != (kind, src) ==> SameAt(old(cooldowns), cooldowns, k)
      ensures alert.Some? ==>
                alert.value.key == (kind, src) && alert.value.severity == Warn && Reports(alert.value, distinct, limit)
      ensures ticks >= old(ticks) && (alert.Some? ==> ticks > old(ticks))
    {
      hide Quiet, Recorded, Nondecreasing, Cooling, Ewma;
      ghost var judged := ticks;
      QuietRecorded();
      if distinct <= limit {
        return None, true;
      }
      var cooling := InCooldown((kind, src));
      if cooling {
        return None, true;
      }
      if limit == 0 {
        return None, false;
      }
      PercentOf((distinct - limit) as real, limit as real);
      alert := Some(Alert((kind, src), Warn, distinct as real, limit as real,
                          (distinct - limit) as real / limit as real * 100.0, limit as real));
      ok := true;
      SetCooldown((kind, src), judged);
    }

    /** The counting rules for one source: its alerts come exactly as the cooldowns of its keys
        allow, and no other key is touched. It only raises when a limit is 0. */
    method CheckSource(src: string, w: Window) returns (alerts: seq<Alert>, ok: bool)
      requires Valid()
      modifies `ticks, `cooldowns, `fired
      ensures Valid() && ticks >= old(ticks)
      ensures !ok ==> alerts == [] && DividesByZero(config, src, w)
      ensures ok ==> Logged(old(fired), fired, alerts)
      ensures forall a :: a in alerts ==> a.key != GLOBAL && a.key.1 == src && Justified(config, a, w)
      ensures ok ==> Answered(config, src, w, old(cooldowns), clock(old(ticks)), alerts)
      ensures Awake(clock, ticks, old(cooldowns), config.cooldown, alerts)
      ensures Untouched(old(cooldowns), cooldowns, src)
    {
      hide Quiet, Ewma, Cooling, Nondecreasing, Answered, Reports, Lookup, Untouched, Awake, Logged, Justified;
      alerts := [];
      if !Eligible(config, src, w) {
        NotEligible(config, src, w, clock, ticks, cooldowns, fired);
        return [], true;
      }
      ghost var t0, cooldowns0, fired0 := ticks, cooldowns, fired;
      var a, okA := CheckCount(PORTS, src, Lookup(w.ports, src, 0), config.maxPorts);
      KindsDiffer(cooldowns0, cooldowns, src);
      if !okA {
        NoneAwake(clock, ticks, cooldowns0, config.cooldown);
        return [], false;
      }
      if a.Some? {
        alerts := [a.value];
      }
      ghost var t1, cooldowns1, fired1 := ticks, cooldowns, fired;
      var b, okB := CheckCount(FANOUT, src, Lookup(w.ips, src, 0), config.maxIps);
      UntouchedTwice(cooldowns0, cooldowns1, cooldowns, src);
      if !okB {
        NoneAwake(clock, ticks, cooldowns0, config.cooldown);
        return [], false;
      }
      if b.Some? {
        alerts := alerts + [b.value];
      }
      ok := true;
      assert alerts == AsSeq(a) + AsSeq(b);
      LoggedConcat(fired0, fired1, fired, AsSeq(a), AsSeq(b));
      SourceAnswered(config, clock, src, w, t0, t1, cooldowns0, cooldowns1, a, b, alerts);
      SourceJustified(config, src, w, a, b);
      SourceAwake(clock, src, t0, t1, ticks, cooldowns0, cooldowns1, config.cooldown, a, b);
    }

    /** The counting rules for every source of a window, in any order. */
    method CheckSources(w: Window) returns (alerts: seq<Alert>, ok: bool)
      requires Valid()
      modifies `ticks, `cooldowns, `fired
      ensures Valid() && ticks >= old(ticks)
      ensures !ok ==> alerts == [] && exists src :: DividesByZero(config, src, w)
      ensures ok ==> Logged(old(fired), fired, alerts)
      ensures CountingOnly(config, w, alerts)
      ensures Awake(clock, ticks, old(cooldowns), config.cooldown, alerts)
      ensures ok ==> forall src :: Answered(config, src, w, old(cooldowns), clock(old(ticks)), alerts)
    {
      hide Quiet, Ewma, Nondecreasing, Answered, Logged, Awake, Untouched, DividesByZero, CountingOnly, AllBusy, Justified, Progress;
      alerts := [];
      ghost var first, t0 := cooldowns, ticks;
      var rest := w.packets.Keys + w.ports.Keys + w.ips.Keys;
      ghost var all, done: set<string> := rest, {};
      ProgressStart(config, w, clock, t0, first, fired, rest);
      while rest != {}
        invariant all == done + rest && Valid()
        invariant Progress(config, w, clock, t0, ticks, first, cooldowns, old(fired), fired, rest, done, alerts)
        decreases |rest|
      {
        var src :| src in rest;
        ghost var fired1, cooldowns1, t1 := fired, cooldowns, ticks;
        var more;
        more, ok := CheckSource(src, w);
        if !ok {
          NothingRaised(config, w, clock, ticks, first);
          ProgressTime(config, w, clock, t0, t1, first, cooldowns1, old(fired), fired1, rest, done, alerts);
          return [], false;
        }
        ProgressStep(config, w, clock, t0, t1, ticks, first, cooldowns1, cooldowns, old(fired), fired1, fired, rest, done, src, alerts, more);
        MoveOne(all, done, rest, src);
        alerts := alerts + more;
        rest, done := rest - {src}, done + {src};
      }
      ok := true;
      ProgressTime(config, w, clock, t0, ticks, first, cooldowns, old(fired), fired, rest, done, alerts);
      ProgressEnd(config, w, clock, t0, ticks, first, cooldowns, old(fired), fired, done, alerts);
    }

    /** One window: the spike rule, then the counting rules. Every alert is justified, logged and
        out of its cooldown at the last reading; an eligible source over a limit gets its alert
        unless its key was cooling down at the first. The call only raises when a limit is 0. */
    method EvaluateWindow(pps: real, w: Window) returns (alerts: seq<Alert>, ok: bool)
      requires Valid()
      modifies this
      ensures Valid()
      ensures busy == if pps >= config.minPps then old(busy) + [pps] else old(busy)
      ensures !ok ==> exists src :: DividesByZero(config, src, w)
      ensures !ok ==> exists key: Key :: Deserved(config, w, key) && 0 == if key.0 == PORTS then config.maxPorts else config.maxIps
      ensures ok ==> Logged(old(fired), fired, alerts)
      ensures forall a :: a in alerts ==> if a.key == GLOBAL then |old(busy)| >= WarmUp(config) else Justified(config, a, w)
      ensures Awake(clock, ticks, old(cooldowns), config.cooldown, alerts)
      ensures ok ==> forall src :: Answered(config, src, w, old(cooldowns), clock(old(ticks)), alerts)
      ensures ok ==> forall src :: DueAlerts(config, w, src, old(fired), clock(old(ticks)), alerts)
      ensures forall a :: a in alerts && a.key != GLOBAL ==> Deserved(config, w, a.key)
      ensures forall a :: a in alerts && a.key == GLOBAL ==> |old(busy)| >= 1 && |old(busy)| >= config.warmupWindows - 1
      ensures forall a :: a in alerts ==> ticks > 0 && !Recent(old(fired), a.key, clock(ticks - 1), config.cooldown)
    {
      hide Quiet, Ewma, Cooling, Nondecreasing, Justified, Answered, Logged, Eligible, Awake, DividesByZero, AllBusy, CountingOnly,
           Recent, Recorded, DueAlerts, Deserved;
      alerts := [];
      ghost var t0, first, log := ticks, cooldowns, fired;
      QuietRecorded();
      var spike := CheckTrafficSpike(pps);
      if spike.Some? {
        alerts := [spike.value];
      }
      SpikeAwake(clock, t0, ticks, old(cooldowns), config.cooldown, spike);
      LoggedSpike(old(fired), fired, spike);
      ghost var before, fired1, cooldowns1, t1 := alerts, fired, cooldowns, ticks;
      var more;
      more, ok := CheckSources(w);
      if !ok {
        NoneAwake(clock, ticks, old(cooldowns), config.cooldown);
        ghost var src :| DividesByZero(config, src, w);
        RaisesOnDeserved(config, w, src);
        return [], false;
      }
      alerts := alerts + more;
      LoggedConcat(old(fired), fired1, fired, before, more);
      CountingAre(config, w, more);
      MoreAwake(clock, t1, ticks, old(cooldowns), cooldowns1, config.cooldown, before, more);
      forall src
        ensures Answered(config, src, w, old(cooldowns), clock(t0), alerts)
      {
        AnsweredLater(config, w, clock, t0, t1, old(cooldowns), cooldowns1, src, before, more);
      }
      AnsweredIsDue(config, w, clock, t0, ticks, first, log, alerts);
    }

    method TakeSnapshot() returns (s: Snapshot)
      requires Valid()
      ensures s == Snapshot(baseline, count, Save(cooldowns))
      ensures forall k: Key :: k in cooldowns ==> k.0 + "|" + k.1 in s.cooldowns && s.cooldowns[k.0 + "|" + k.1] == cooldowns[k]
      ensures forall t :: t in s.cooldowns ==> exists k: Key :: k in cooldowns && t == k.0 + "|" + k.1
    {
      hide Save;
      forall k: Key | k in cooldowns
        ensures JoinKey(k) in Save(cooldowns) && Save(cooldowns)[JoinKey(k)] == cooldowns[k]
      {
        InSave(cooldowns, k);
      }
      forall t | t in Save(cooldowns)
        ensures exists k: Key :: k in cooldowns && t == k.0 + "|" + k.1
      {
        FromSave(cooldowns, t);
        var k := SplitKey(t);
        assert t == k.0 + "|" + k.1;
      }
      s := Snapshot(baseline, count, Save(cooldowns));
    }

    /** An engine restored from the snapshot of a valid one, on a clock that has moved on, goes
        on with the same baseline and the same cooldowns. Under the same learning rule and a
        cooldown that is not longer it is valid with the same history, so that the distances
        between alerts are kept over the restart. */
    constructor FromSnapshot(config: Config, clock: nat -> real, s: Snapshot, ghost origin: AlertEngine)
      requires origin.Valid() && s == Snapshot(origin.baseline, origin.count, Save(origin.cooldowns))
      requires Nondecreasing(clock) && origin.clock(origin.ticks) <= clock(0)
      ensures baseline == origin.baseline && count == origin.count && cooldowns == origin.cooldowns
      ensures this.config == config && this.clock == clock && busy == origin.busy && fired == origin.fired
      ensures SameRules(config, origin.config) ==> Valid()
    {
      hide Save, Load, JoinKey, SplitKey, Ewma, Spaced, Recorded, AllBarFree, Nondecreasing;
      SaveLoad(origin.cooldowns);
      this.config, this.clock := config, clock;
      baseline, count, cooldowns, ticks := s.baseline, s.count, Load(s.cooldowns), 0;
      busy, fired := origin.busy, origin.fired;
      new;
      RecordedLater(fired, cooldowns, origin.clock(origin.ticks), clock(0));
      if config.cooldown <= origin.config.cooldown {
        SpacedLess(fired, origin.config.cooldown, config.cooldown);
      }
    }

    /** With the documented rules, a warm-up of 30 windows and three times the baseline, an alert
        comes after 29 busy windows already, and at exactly three times the baseline. */
    static method AlertInThirtiethWindow() returns (e: AlertEngine, alert: Option<Alert>)
      ensures e.Valid() && e.config.warmupWindows == 30 && e.config.warnMultiplier == 3.0
      ensures |e.busy| == 30 && forall i :: 0 <= i < 29 ==> e.busy[i] == 60.0
      ensures alert.Some? && alert.value.current == 3.0 * 60.0 == 3.0 * Ewma(e.config.ewmaAlpha, e.busy[..29])
    {
      hide AlertEngine.Quiet, Ewma;
      e := new AlertEngine(Config(0.1, 30, 3.0, 6.0, 50.0, 20, 30, 60.0, 10), i => 0.0);
      var n := 0;
      while n < 29
        invariant 0 <= n <= 29 && e.Valid() && fresh(e)
        invariant e.config == Config(0.1, 30, 3.0, 6.0, 50.0, 20, 30, 60.0, 10)
        invariant |e.busy| == n && (forall i :: 0 <= i < n ==> e.busy[i] == 60.0) && e.cooldowns == map[]
      {
        var none := e.CheckTrafficSpike(60.0);
        n := n + 1;
      }
      EwmaBounds(0.1, e.busy, 60.0, 60.0);
      ghost var earlier := e.busy;
      alert := e.CheckTrafficSpike(180.0);
      assert e.busy[..29] == earlier;
    }
  }

  /** The same learning rule, and a cooldown that is not longer. */
  predicate SameRules(config: Config, other: Config) {
    config.ewmaAlpha == other.ewmaAlpha && config.minPps == other.minPps && config.cooldown <= other.cooldown
  }

  /** What is saved of an engine. */
  datatype Snapshot = Snapshot(baseline: Option<real>, count: int, cooldowns: map<string, real>)

  lemma Later(clock: nat -> real, i: nat, j: nat)
    requires Nondecreasing(clock) && i <= j
    ensures clock(i) <= clock(j)
  {
  }

  lemma StillAwake(clock: nat -> real, i: nat, j: nat, cooldowns: map<Key, real>, key: Key, cooldown: real)
    requires Nondecreasing(clock) && i <= j && !Cooling(cooldowns, key, clock(i), cooldown)
    ensures !Cooling(cooldowns, key, clock(j), cooldown)
  {
    Later(clock, i, j);
    if Cooling(cooldowns, key, clock(j), cooldown) {
      CoolingEnds(cooldowns, key, clock(i), clock(j), cooldown);
    }
  }

  /** More alerts, whose keys had their first cooldowns until then, stay out of those, too. */
  lemma MoreAwake(clock: nat -> real, from: nat, to: nat, first: map<Key, real>, cooldowns: map<Key, real>,
                  cooldown: real, before: seq<Alert>, more: seq<Alert>)
    requires Nondecreasing(clock) && from <= to
    requires Awake(clock, from, first, cooldown, before) && Awake(clock, to, cooldowns, cooldown, more)
    requires forall a :: a in more ==> SameAt(first, cooldowns, a.key)
    ensures Awake(clock, to, first, cooldown, before + more)
  {
    hide Cooling, Nondecreasing;
    forall a | a in before + more
      ensures to > 0 && !Cooling(first, a.key, clock(to - 1), cooldown)
    {
      if a in before {
        StillAwake(clock, from - 1, to - 1, first, a.key, cooldown);
      } else {
        SameCooling(first, cooldowns, a.key, clock(to - 1), cooldown);
      }
    }
  }

  /** Alerts whose keys are out of their cooldowns at the last of n readings. */
  ghost predicate Awake(clock: nat -> real, n: nat, cooldowns: map<Key, real>, cooldown: real, alerts: seq<Alert>) {
    forall a :: a in alerts ==> n > 0 && !Cooling(cooldowns, a.key, clock(n - 1), cooldown)
  }

  lemma NoneAwake(clock: nat -> real, n: nat, cooldowns: map<Key, real>, cooldown: real)
    ensures Awake(clock, n, cooldowns, cooldown, [])
  {
  }

  function AsSeq(alert: Option<Alert>): seq<Alert> {
    if alert.Some? then [alert.value] else []
  }

  lemma SourceAwake(clock: nat -> real, src: string, t0: nat, t1: nat, t2: nat,
                    cooldowns0: map<Key, real>, cooldowns1: map<Key, real>, cooldown: real, a: Option<Alert>, b: Option<Alert>)
    requires Nondecreasing(clock) && t0 <= t1 <= t2 && SameAt(cooldowns0, cooldowns1, (FANOUT, src))
    requires a.Some? ==> t0 < t1 && a.value.key == (PORTS, src) && !Cooling(cooldowns0, (PORTS, src), clock(t0), cooldown)
    requires b.Some? ==> t1 < t2 && b.value.key == (FANOUT, src) && !Cooling(cooldowns1, (FANOUT, src), clock(t1), cooldown)
    ensures Awake(clock, t2, cooldowns0, cooldown, AsSeq(a) + AsSeq(b))
  {
    hide Cooling, Nondecreasing, SameAt;
    if a.Some? {
      StillAwake(clock, t0, t2 - 1, cooldowns0, (PORTS, src), cooldown);
    }
    if b.Some? {
      StillAwake(clock, t1, t2 - 1, cooldowns1, (FANOUT, src), cooldown);
      SameCooling(cooldowns0, cooldowns1, (FANOUT, src), clock(t2 - 1), cooldown);
    }
  }

  lemma SpikeAwake(clock: nat -> real, from: nat, to: nat, cooldowns: map<Key, real>, cooldown: real, spike: Option<Alert>)
    requires Nondecreasing(clock)
    requires spike.Some? ==> from < to && spike.value.key == GLOBAL && !Cooling(cooldowns, GLOBAL, clock(from), cooldown)
    ensures Awake(clock, to, cooldowns, cooldown, AsSeq(spike))
  {
    hide Cooling, Nondecreasing;
    if spike.Some? {
      StillAwake(clock, from, to - 1, cooldowns, GLOBAL, cooldown);
    }
  }

  /** The check of a source changes the cooldowns of its own counting keys only. */
  ghost predicate Untouched(before: map<Key, real>, after: map<Key, real>, src: string) {
    forall k: Key :: k.1 != src || k.0 == SPIKE ==> SameAt(before, after, k)
  }

  lemma KindsDiffer(before: map<Key, real>, after: map<Key, real>, src: string)
    requires forall k: Key :: k != (PORTS, src) ==> SameAt(before, after, k)
    ensures PORTS != FANOUT && SPIKE != PORTS && SPIKE != FANOUT
    ensures SameAt(before, after, (FANOUT, src)) && Untouched(before, after, src)
  {
    assert PORTS[0] != FANOUT[0] && SPIKE[0] != PORTS[0] && SPIKE[0] != FANOUT[0];
  }

  lemma UntouchedTwice(m: map<Key, real>, m': map<Key, real>, m'': map<Key, real>, src: string)
    requires Untouched(m, m', src) && forall k: Key :: k != (FANOUT, src) ==> SameAt(m', m'', k)
    ensures Untouched(m, m'', src)
  {
    assert SPIKE[0] != FANOUT[0];
    forall k: Key | k.1 != src || k.0 == SPIKE
      ensures SameAt(m, m'', k)
    {
      assert SameAt(m, m', k) && SameAt(m', m'', k);
    }
  }

  /** The cooldowns of the remaining sources are still the first ones. */
  ghost predicate Frame(first: map<Key, real>, cooldowns: map<Key, real>, rest: set<string>) {
    forall k: Key :: k != GLOBAL && k.1 in rest ==> SameAt(first, cooldowns, k)
  }

  /** The loop over all sources, with some of them done: their alerts are logged, justified and
      out of their cooldowns, the due ones are there, and the rest still has its first cooldowns. */
  ghost predicate Progress(config: Config, w: Window, clock: nat -> real, t0: nat, t1: nat,
                           first: map<Key, real>, cooldowns: map<Key, real>, fired0: seq<Fired>, fired: seq<Fired>,
                           rest: set<string>, done: set<string>, alerts: seq<Alert>)
  {
    && t0 <= t1 && Logged(fired0, fired, alerts) && CountingOnly(config, w, alerts)
    && Awake(clock, t1, first, config.cooldown, alerts)
    && Frame(first, cooldowns, rest)
    && AllAnswered(config, w, first, clock(t0), done, alerts)
  }

  lemma ProgressStart(config: Config, w: Window, clock: nat -> real, n: nat, cooldowns: map<Key, real>, fired: seq<Fired>, rest: set<string>)
    ensures Progress(config, w, clock, n, n, cooldowns, cooldowns, fired, fired, rest, {}, [])
  {
  }

  lemma ProgressTime(config: Config, w: Window, clock: nat -> real, t0: nat, t1: nat,
                     first: map<Key, real>, cooldowns: map<Key, real>, fired0: seq<Fired>, fired: seq<Fired>,
                     rest: set<string>, done: set<string>, alerts: seq<Alert>)
    requires Progress(config, w, clock, t0, t1, first, cooldowns, fired0, fired, rest, done, alerts)
    ensures t0 <= t1
  {
  }

  /** The check of one source. */
  lemma ProgressStep(config: Config, w: Window, clock: nat -> real, t0: nat, t1: nat, t2: nat,
                     first: map<Key, real>, cooldowns1: map<Key, real>, cooldowns2: map<Key, real>,
                     fired0: seq<Fired>, fired1: seq<Fired>, fired2: seq<Fired>,
                     rest: set<string>, done: set<string>, src: string, before: seq<Alert>, more: seq<Alert>)
    requires Nondecreasing(clock) && t1 <= t2 && src in rest
    requires Progress(config, w, clock, t0, t1, first, cooldowns1, fired0, fired1, rest, done, before)
    requires Logged(fired1, fired2, more)
    requires forall a :: a in more ==> a.key != GLOBAL && a.key.1 == src && Justified(config, a, w)
    requires Awake(clock, t2, cooldowns1, config.cooldown, more) && Answered(config, src, w, cooldowns1, clock(t1), more)
    requires Untouched(cooldowns1, cooldowns2, src)
    ensures Progress(config, w, clock, t0, t2, first, cooldowns2, fired0, fired2, rest - {src}, done + {src}, before + more)
  {
    hide Nondecreasing, Justified, Answered, Awake, Untouched, Frame, AllAnswered, SameAt, Logged;
    LoggedConcat(fired0, fired1, fired2, before, more);
    FrameKeys(first, cooldowns1, rest, src, more);
    MoreAwake(clock, t1, t2, first, cooldowns1, config.cooldown, before, more);
    OneMoreAnswered(config, w, clock, t0, t1, first, cooldowns1, done, src, before, more);
    FrameStep(first, cooldowns1, cooldowns2, rest, src);
  }

  lemma ProgressEnd(config: Config, w: Window, clock: nat -> real, t0: nat, t1: nat,
                    first: map<Key, real>, cooldowns: map<Key, real>, fired0: seq<Fired>, fired: seq<Fired>,
                    done: set<string>, alerts: seq<Alert>)
    requires Progress(config, w, clock, t0, t1, first, cooldowns, fired0, fired, {}, done, alerts)
    requires w.packets.Keys + w.ports.Keys + w.ips.Keys <= done
    ensures Logged(fired0, fired, alerts) && CountingOnly(config, w, alerts)
    ensures Awake(clock, t1, first, config.cooldown, alerts)
    ensures forall src :: Answered(config, src, w, first, clock(t0), alerts)
  {
    hide Logged, CountingOnly, Awake, Frame, AllAnswered, Answered;
    EveryAnswered(config, w, first, clock(t0), done, alerts);
  }

  lemma NothingRaised(config: Config, w: Window, clock: nat -> real, n: nat, cooldowns: map<Key, real>)
    ensures CountingOnly(config, w, []) && Awake(clock, n, cooldowns, config.cooldown, [])
  {
  }

  lemma FrameKeys(first: map<Key, real>, cooldowns: map<Key, real>, rest: set<string>, src: string, alerts: seq<Alert>)
    requires Frame(first, cooldowns, rest) && src in rest
    ensures SameAt(first, cooldowns, (PORTS, src)) && SameAt(first, cooldowns, (FANOUT, src))
    ensures forall a :: a in alerts && a.key != GLOBAL && a.key.1 == src ==> SameAt(first, cooldowns, a.key)
  {
    assert PORTS[0] != SPIKE[0] && FANOUT[0] != SPIKE[0];
  }

  lemma FrameStep(first: map<Key, real>, before: map<Key, real>, after: map<Key, real>, rest: set<string>, src: string)
    requires Frame(first, before, rest) && Untouched(before, after, src)
    ensures Frame(first, after, rest - {src})
  {
    forall k: Key | k != GLOBAL && k.1 in rest - {src}
      ensures SameAt(first, after, k)
    {
      assert SameAt(first, before, k) && SameAt(before, after, k);
    }
  }

  /** What a window reports per source: distinct ports, distinct addresses, packets. */
  datatype Window = Window(ports: map<string, int>, ips: map<string, int>, packets: map<string, int>)

  /** The issued alerts are what the log gained. */
  ghost predicate Logged(before: seq<Fired>, after: seq<Fired>, alerts: seq<Alert>) {
    && before <= after && |after| == |before| + |alerts|
    && forall i :: 0 <= i < |alerts| ==> after[|before| + i].key == alerts[i].key
  }

  lemma LoggedConcat(before: seq<Fired>, middle: seq<Fired>, after: seq<Fired>, a: seq<Alert>, b: seq<Alert>)
    requires Logged(before, middle, a) && Logged(middle, after, b)
    ensures Logged(before, after, a + b)
  {
    forall i | 0 <= i < |a + b|
      ensures after[|before| + i].key == (a + b)[i].key
    {
      if i < |a| {
        assert middle[|before| + i].key == a[i].key;
      } else {
        assert after[|middle| + (i - |a|)].key == b[i - |a|].key;
      }
    }
  }

  lemma LoggedSpike(before: seq<Fired>, after: seq<Fired>, spike: Option<Alert>)
    requires spike.Some? ==> spike.value.key == GLOBAL && exists t :: after == before + [Fired(GLOBAL, t)]
    requires spike.None? ==> after == before
    ensures Logged(before, after, AsSeq(spike))
  {
  }

  /** Some alert carries the key. */
  predicate Raised(alerts: seq<Alert>, key: Key) {
    exists i :: 0 <= i < |alerts| && alerts[i].key == key
  }

  /** An eligible source over a limit has its alert, unless its key is cooling down. */
  ghost predicate Answered(config: Config, src: string, w: Window, cooldowns: map<Key, real>, now: real, alerts: seq<Alert>) {
    Eligible(config, src, w) ==>
      && (Lookup(w.ports, src, 0) > config.maxPorts && !Cooling(cooldowns, (PORTS, src), now, config.cooldown) ==>
            Raised(alerts, (PORTS, src)))
      && (Lookup(w.ips, src, 0) > config.maxIps && !Cooling(cooldowns, (FANOUT, src), now, config.cooldown) ==>
            Raised(alerts, (FANOUT, src)))
  }

  lemma SourceAnswered(config: Config, clock: nat -> real, src: string, w: Window, t0: nat, t1: nat,
                       cooldowns0: map<Key, real>, cooldowns1: map<Key, real>,
                       a: Option<Alert>, b: Option<Alert>, alerts: seq<Alert>)
    requires Nondecreasing(clock) && t0 <= t1 && SameAt(cooldowns0, cooldowns1, (FANOUT, src))
    requires Lookup(w.ports, src, 0) > config.maxPorts && !Cooling(cooldowns0, (PORTS, src), clock(t0), config.cooldown) ==> a.Some?
    requires Lookup(w.ips, src, 0) > config.maxIps && !Cooling(cooldowns1, (FANOUT, src), clock(t1), config.cooldown) ==> b.Some?
    requires a.Some? ==> a.value in alerts && a.value.key == (PORTS, src)
    requires b.Some? ==> b.value in alerts && b.value.key == (FANOUT, src)
    ensures Answered(config, src, w, cooldowns0, clock(t0), alerts)
  {
    hide Cooling;
    SameCooling(cooldowns0, cooldowns1, (FANOUT, src), clock(t1), config.cooldown);
    if !Cooling(cooldowns0, (FANOUT, src), clock(t0), config.cooldown) {
      StillAwake(clock, t0, t1, cooldowns0, (FANOUT, src), config.cooldown);
    }
  }

  lemma SameCooling(m: map<Key, real>, m': map<Key, real>, key: Key, now: real, cooldown: real)
    requires SameAt(m, m', key)
    ensures Cooling(m, key, now, cooldown) <==> Cooling(m', key, now, cooldown)
  {
  }

  lemma NotEligible(config: Config, src: string, w: Window, clock: nat -> real, n: nat, cooldowns: map<Key, real>, fired: seq<Fired>)
    requires !Eligible(config, src, w)
    ensures Answered(config, src, w, cooldowns, clock(n), [])
    ensures Logged(fired, fired, []) && Awake(clock, n, cooldowns, config.cooldown, []) && Untouched(cooldowns, cooldowns, src)
  {
  }

  lemma AnsweredMore(config: Config, src: string, w: Window, cooldowns: map<Key, real>, now: real, a: seq<Alert>, b: seq<Alert>)
    requires Answered(config, src, w, cooldowns, now, a) || Answered(config, src, w, cooldowns, now, b)
    ensures Answered(config, src, w, cooldowns, now, a + b)
  {
    RaisedConcat(a, b, (PORTS, src));
    RaisedConcat(a, b, (FANOUT, src));
  }

  lemma RaisedConcat(a: seq<Alert>, b: seq<Alert>, key: Key)
    ensures Raised(a, key) || Raised(b, key) ==> Raised(a + b, key)
  {
    if Raised(a, key) {
      var i :| 0 <= i < |a| && a[i].key == key;
      assert (a + b)[i].key == key;
    } else if Raised(b, key) {
      var i :| 0 <= i < |b| && b[i].key == key;
      assert (a + b)[|a| + i].key == key;
    }
  }

  ghost predicate AllAnswered(config: Config, w: Window, cooldowns: map<Key, real>, now: real, sources: set<string>, alerts: seq<Alert>) {
    forall src :: src in sources ==> Answered(config, src, w, cooldowns, now, alerts)
  }

  lemma AnsweredBefore(config: Config, src: string, w: Window, first: map<Key, real>, start: real,
                       cooldowns: map<Key, real>, now: real, alerts: seq<Alert>)
    requires Answered(config, src, w, cooldowns, now, alerts) && start <= now
    requires SameAt(first, cooldowns, (PORTS, src)) && SameAt(first, cooldowns, (FANOUT, src))
    ensures Answered(config, src, w, first, start, alerts)
  {
  }

  /** What the check of one more source answers at its own readings, it answers for the first. */
  lemma OneMoreAnswered(config: Config, w: Window, clock: nat -> real, t0: nat, t1: nat,
                        first: map<Key, real>, cooldowns: map<Key, real>, sources: set<string>, src: string,
                        before: seq<Alert>, more: seq<Alert>)
    requires Nondecreasing(clock) && t0 <= t1
    requires AllAnswered(config, w, first, clock(t0), sources, before)
    requires Answered(config, src, w, cooldowns, clock(t1), more)
    requires SameAt(first, cooldowns, (PORTS, src)) && SameAt(first, cooldowns, (FANOUT, src))
    ensures AllAnswered(config, w, first, clock(t0), sources + {src}, before + more)
  {
    hide Answered, SameAt, Nondecreasing;
    Later(clock, t0, t1);
    AnsweredBefore(config, src, w, first, clock(t0), cooldowns, clock(t1), more);
    forall s | s in sources + {src}
      ensures Answered(config, s, w, first, clock(t0), before + more)
    {
      AnsweredMore(config, s, w, first, clock(t0), before, more);
    }
  }

  lemma AnsweredLater(config: Config, w: Window, clock: nat -> real, t0: nat, t1: nat,
                      first: map<Key, real>, cooldowns: map<Key, real>, src: string, before: seq<Alert>, more: seq<Alert>)
    requires Nondecreasing(clock) && t0 <= t1
    requires forall k: Key :: k != GLOBAL ==> SameAt(first, cooldowns, k)
    requires Answered(config, src, w, cooldowns, clock(t1), more)
    ensures Answered(config, src, w, first, clock(t0), before + more)
  {
    hide Answered, SameAt, Nondecreasing;
    Later(clock, t0, t1);
    assert PORTS[0] != SPIKE[0] && FANOUT[0] != SPIKE[0];
    AnsweredBefore(config, src, w, first, clock(t0), cooldowns, clock(t1), more);
    AnsweredMore(config, src, w, first, clock(t0), before, more);
  }

  lemma EveryAnswered(config: Config, w: Window, cooldowns: map<Key, real>, now: real, all: set<string>, alerts: seq<Alert>)
    requires AllAnswered(config, w, cooldowns, now, all, alerts)
    requires w.packets.Keys + w.ports.Keys + w.ips.Keys <= all
    ensures forall src :: Answered(config, src, w, cooldowns, now, alerts)
  {
    hide Answered;
    forall src
      ensures Answered(config, src, w, cooldowns, now, alerts)
    {
      if src !in all {
        NotInWindow(config, src, w, cooldowns, now, alerts);
      }
    }
  }

  /** Justified alerts of the counting rules. */
  ghost predicate CountingOnly(config: Config, w: Window, alerts: seq<Alert>) {
    forall a :: a in alerts ==> a.key != GLOBAL && Justified(config, a, w)
  }

  lemma CountingAre(config: Config, w: Window, alerts: seq<Alert>)
    requires CountingOnly(config, w, alerts)
    ensures forall a :: a in alerts ==> a.key != GLOBAL && Justified(config, a, w)
  {
    hide Justified;
  }

  lemma NotInWindow(config: Config, src: string, w: Window, cooldowns: map<Key, real>, now: real, alerts: seq<Alert>)
    requires src !in w.packets && src !in w.ports && src !in w.ips
    ensures Answered(config, src, w, cooldowns, now, alerts)
  {
  }

  function Lookup(m: map<string, int>, k: string, default: int): int {
    if k in m then m[k] else default
  }

  /** A source that occurs in the window and is not known to have too few packets. */
  predicate Eligible(config: Config, src: string, w: Window) {
    && (src in w.packets || src in w.ports || src in w.ips)
    && Lookup(w.packets, src, config.minWindowPackets + 1) >= config.minWindowPackets
  }

  /** A counting alert reports a count over its limit, of an eligible source. */
  predicate Justified(config: Config, a: Alert, w: Window) {
    && Eligible(config, a.key.1, w)
    && ((a.key.0 == PORTS && Reports(a, Lookup(w.ports, a.key.1, 0), config.maxPorts))
        || (a.key.0 == FANOUT && Reports(a, Lookup(w.ips, a.key.1, 0), config.maxIps)))
  }

  predicate Reports(a: Alert, distinct: int, limit: int) {
    && distinct > limit && limit != 0
    && a.current == distinct as real && a.baseline == a.threshold == limit as real
    && a.changePct * limit as real == (distinct - limit) as real * 100.0
  }

  lemma SourceJustified(config: Config, src: string, w: Window, a: Option<Alert>, b: Option<Alert>)
    requires Eligible(config, src, w) && PORTS != SPIKE && FANOUT != SPIKE
    requires a.Some? ==> a.value.key == (PORTS, src) && Reports(a.value, Lookup(w.ports, src, 0), config.maxPorts)
    requires b.Some? ==> b.value.key == (FANOUT, src) && Reports(b.value, Lookup(w.ips, src, 0), config.maxIps)
    ensures forall x :: x in AsSeq(a) + AsSeq(b) ==> x.key != GLOBAL && x.key.1 == src && Justified(config, x, w)
  {
    hide Reports, Eligible, Lookup;
  }

  /** What has to be raised for a source of the window that has no packet count or enough packets:
      an alert for each count over its limit, unless one was issued less than the cooldown ago. */
  ghost predicate DueAlerts(config: Config, w: Window, src: string, fired: seq<Fired>, now: real, alerts: seq<Alert>) {
    (src in w.packets || src in w.ports || src in w.ips) && (src in w.packets ==> w.packets[src] >= config.minWindowPackets) ==>
      && ((if src in w.ports then w.ports[src] else 0) > config.maxPorts ==>
            Recent(fired, ("UNUSUAL_PORT_ACTIVITY", src), now, config.cooldown) || Raised(alerts, ("UNUSUAL_PORT_ACTIVITY", src)))
      && ((if src in w.ips then w.ips[src] else 0) > config.maxIps ==>
            Recent(fired, ("HIGH_FANOUT", src), now, config.cooldown) || Raised(alerts, ("HIGH_FANOUT", src)))
  }

  /** Which keys may be raised: of sources of the window that do not have too few packets, with a
      count over its limit. */
  ghost predicate Deserved(config: Config, w: Window, key: Key) {
    var src := key.1;
    && (src in w.packets || src in w.ports || src in w.ips)
    && (src in w.packets ==> w.packets[src] >= config.minWindowPackets)
    && ((key.0 == "UNUSUAL_PORT_ACTIVITY" && (if src in w.ports then w.ports[src] else 0) > config.maxPorts)
        || (key.0 == "HIGH_FANOUT" && (if src in w.ips then w.ips[src] else 0) > config.maxIps))
  }

  lemma RaisesOnDeserved(config: Config, w: Window, src: string)
    requires DividesByZero(config, src, w)
    ensures exists key: Key :: Deserved(config, w, key) && 0 == if key.0 == PORTS then config.maxPorts else config.maxIps
  {
    assert PORTS[0] != FANOUT[0];
    if config.maxPorts == 0 && Lookup(w.ports, src, 0) > 0 {
      assert Deserved(config, w, (PORTS, src));
    } else {
      assert Deserved(config, w, (FANOUT, src));
    }
  }

  lemma JustifiedIsDeserved(config: Config, w: Window, a: Alert)
    requires Justified(config, a, w)
    ensures Deserved(config, w, a.key)
  {
  }

  /** Answered and awake, in terms of the window and the alerts issued before it. */
  lemma AnsweredIsDue(config: Config, w: Window, clock: nat -> real, t0: nat, t1: nat,
                      cooldowns: map<Key, real>, fired: seq<Fired>, alerts: seq<Alert>)
    requires Recorded(fired, cooldowns, clock(t0)) && Awake(clock, t1, cooldowns, config.cooldown, alerts)
    requires forall src :: Answered(config, src, w, cooldowns, clock(t0), alerts)
    requires forall a :: a in alerts && a.key != GLOBAL ==> Justified(config, a, w)
    ensures forall src :: DueAlerts(config, w, src, fired, clock(t0), alerts)
    ensures forall a :: a in alerts && a.key != GLOBAL ==> Deserved(config, w, a.key)
    ensures forall a :: a in alerts ==> t1 > 0 && !Recent(fired, a.key, clock(t1 - 1), config.cooldown)
  {
    hide Recorded, Cooling, Recent, Raised, Justified, Deserved;
    forall src
      ensures DueAlerts(config, w, src, fired, clock(t0), alerts)
    {
      assert Answered(config, src, w, cooldowns, clock(t0), alerts);
      CoolingIsRecent(fired, cooldowns, clock(t0), (PORTS, src), clock(t0), config.cooldown);
      CoolingIsRecent(fired, cooldowns, clock(t0), (FANOUT, src), clock(t0), config.cooldown);
    }
    forall a | a in alerts
      ensures t1 > 0 && !Recent(fired, a.key, clock(t1 - 1), config.cooldown)
      ensures a.key != GLOBAL ==> Deserved(config, w, a.key)
    {
      CoolingIsRecent(fired, cooldowns, clock(t0), a.key, clock(t1 - 1), config.cooldown);
      if a.key != GLOBAL {
        JustifiedIsDeserved(config, w, a);
      }
    }
  }

  /** The source is over a limit of 0. */
  predicate DividesByZero(config: Config, src: string, w: Window) {
    && Eligible(config, src, w)
    && ((config.maxPorts == 0 && Lookup(w.ports, src, 0) > 0) || (config.maxIps == 0 && Lookup(w.ips, src, 0) > 0))
  }

  /** How many busy windows have to come before the window of a spike alert. */
  function WarmUp(config: Config): (w: int)
    ensures w >= 1 && w >= config.warmupWindows - 1
  {
    if config.warmupWindows - 1 > 1 then config.warmupWindows - 1 else 1
  }

  lemma PercentOf(a: real, n: real)
    requires n != 0.0
    ensures a / n * 100.0 * n == a * 100.0
  {
    Quotient(a, n);
    assert a / n * 100.0 * n == a / n * n * 100.0;
  }

  /** The change against the baseline in percent. */
  function ChangePct(pps: real, before: real): (pct: real)
    ensures before > 0.0 && pps >= before ==> pct >= 0.0
    ensures pct == 0.0 <==> before <= 0.0 || pps == before
    ensures before > 0.0 ==> pct * before == (pps - before) * 100.0
  {
    if before > 0.0 then
      Quotient(pps - before, before);
      PercentOf(pps - before, before);
      SignOfProduct((pps - before) / before, before);
      (pps - before) / before * 100.0
    else 0.0
  }
}
