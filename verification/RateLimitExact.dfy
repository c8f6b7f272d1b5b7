/** The exact condition under which eviction is invisible and the rate bound holds: for every
    configuration that fails it, a run whose grants exceed the bound. */
module RateLimitExact {
  import opened Fractions
  import opened RateLimit
  import opened RateLimitRuns

  // ------------------------------------------------------------------------ runs end to end

  /** The buckets after a run. */
  function After(cfg: Config, m: Buckets, evs: seq<Event>): Buckets
    decreases evs
  {
    if evs == [] then m else After(cfg, Next(cfg, m, evs[0], true).0, evs[1..])
  }

  function Ended(evs: seq<Event>, clock: int): int {
    if evs == [] then clock else TimeOf(evs[|evs| - 1])
  }

  /** Requests of key "k" granted in a run. */
  function Grants(cfg: Config, m: Buckets, evs: seq<Event>): nat {
    Granted(evs, Answers(cfg, m, evs, true), "k")
  }

  lemma {:induction false} RunsAppend(cfg: Config, m: Buckets, a: seq<Event>, b: seq<Event>)
    ensures After(cfg, m, a + b) == After(cfg, After(cfg, m, a), b)
    ensures Grants(cfg, m, a + b) == Grants(cfg, m, a) + Grants(cfg, After(cfg, m, a), b)
    decreases a
  {
    hide Next;
    if a == [] {
      assert a + b == b;
    } else {
      var m' := Next(cfg, m, a[0], true).0;
      assert (a + b)[1..] == a[1..] + b;
      RunsAppend(cfg, m', a[1..], b);
      GrantedHead(cfg, m, a, true, "k");
      GrantedHead(cfg, m, a + b, true, "k");
    }
  }

  lemma {:induction false} TimedAppend(a: seq<Event>, b: seq<Event>, clock: int, gap: nat)
    requires WellTimed(a, clock, gap) && WellTimed(b, Ended(a, clock), gap)
    ensures WellTimed(a + b, clock, gap) && Ended(a + b, clock) == Ended(b, Ended(a, clock))
    decreases a
  {
    if a == [] {
      assert a + b == b;
    } else {
      assert (a + b)[1..] == a[1..] + b;
      TimedAppend(a[1..], b, TimeOf(a[0]), gap);
    }
  }

  lemma UsedAppend(a: seq<Event>, b: seq<Event>, from: int, to: int)
    requires UsedWithin(a, "k", from, to) && UsedWithin(b, "k", from, to)
    ensures UsedWithin(a + b, "k", from, to)
  {
  }

  lemma UsedLonger(evs: seq<Event>, from: int, to: int, later: int)
    requires UsedWithin(evs, "k", from, to) && to <= later
    ensures UsedWithin(evs, "k", from, later)
  {
  }

  /** One request as a run. */
  lemma OneRequest(cfg: Config, m: Buckets, seen: int, used: int)
    ensures var (m', ok) := AllowStep(cfg, m, "k", seen, used);
            var one := [Allow("k", seen, used)];
            After(cfg, m, one) == m' && Grants(cfg, m, one) == if ok then 1 else 0
  {
    var one := [Allow("k", seen, used)];
    assert one[1..] == [];
    GrantedHead(cfg, m, one, true, "k");
  }

  // ------------------------------------------------------------------------ parts of the runs

  function Burst(at: int, n: nat): seq<Event> {
    if n == 0 then [] else Burst(at, n - 1) + [Allow("k", at, at)]
  }

  /** A request every nanosecond after `since`. */
  function Poll(since: int, n: nat): seq<Event> {
    if n == 0 then [] else Poll(since, n - 1) + [Allow("k", since + n, since + n)]
  }

  lemma {:induction false} BurstTimed(at: int, n: nat, gap: nat)
    ensures WellTimed(Burst(at, n), at, gap) && Ended(Burst(at, n), at) == at
    ensures UsedWithin(Burst(at, n), "k", at, at)
  {
    if n > 0 {
      BurstTimed(at, n - 1, gap);
      TimedAppend(Burst(at, n - 1), [Allow("k", at, at)], at, gap);
    }
  }

  lemma {:induction false} PollTimed(since: int, n: nat, gap: nat)
    ensures WellTimed(Poll(since, n), since, gap) && Ended(Poll(since, n), since) == since + n
    ensures UsedWithin(Poll(since, n), "k", since, since + n)
  {
    if n > 0 {
      PollTimed(since, n - 1, gap);
      TimedAppend(Poll(since, n - 1), [Allow("k", since + n, since + n)], since, gap);
    }
  }

  function Only(s: Slot): Buckets {
    map["k" := s]
  }

  /** A burst on a full or missing bucket is granted up to the burst size. */
  lemma {:induction false} BurstGranted(cfg: Config, at: int, n: nat)
    requires 0 < n <= cfg.burst
    ensures After(cfg, map[], Burst(at, n)) == Only(Slot(at, (cfg.burst - n) as real, at))
    ensures Grants(cfg, map[], Burst(at, n)) == n
  {
    hide Available;
    var one := [Allow("k", at, at)];
    var before := if n == 1 then map[] else Only(Slot(at, (cfg.burst - (n - 1)) as real, at));
    if n > 1 {
      BurstGranted(cfg, at, n - 1);
      AvailableGain(cfg, before["k"], at);
      GainFacts(cfg, 0, 0);
    } else {
      FreshIsFull(cfg, at, at);
    }
    assert After(cfg, map[], Burst(at, n - 1)) == before && Grants(cfg, map[], Burst(at, n - 1)) == n - 1;
    RunsAppend(cfg, map[], Burst(at, n - 1), one);
    OneRequest(cfg, before, at, at);
  }

  /** A bucket of at least two tokens that holds the fractional part of what was refilled so far:
      one more request, made before the next whole token, keeps it that way. */
  lemma {:induction false} FractionStep(cfg: Config, since: int, seen: int, used: int)
    requires cfg.burst >= 2 && since <= used && Gain(cfg, used - since) < 1.0
    ensures var m := Only(Slot(since, Frac(Gain(cfg, since)), since));
            var one := [Allow("k", seen, used)];
            && After(cfg, m, one) == Only(Slot(seen, Frac(Gain(cfg, used)), used))
            && Grants(cfg, m, one) == Gain(cfg, used).Floor - Gain(cfg, since).Floor
  {
    hide Gain, Available;
    var s := Slot(since, Frac(Gain(cfg, since)), since);
    GainFacts(cfg, since, used - since);
    GainFacts(cfg, used - since, 0);
    AvailableGain(cfg, s, used);
    FracAdd(Gain(cfg, since), Gain(cfg, used - since));
    OneRequest(cfg, Only(s), seen, used);
  }

  lemma {:induction false} PollGranted(cfg: Config, n: nat)
    requires cfg.burst >= 2 && Gain(cfg, 1) < 1.0
    ensures var m := Only(Slot(0, 0.0, 0));
            && After(cfg, m, Poll(0, n)) == Only(Slot(n, Frac(Gain(cfg, n)), n))
            && Grants(cfg, m, Poll(0, n)) == Gain(cfg, n).Floor
  {
    hide Gain, AllowStep, Available;
    var m := Only(Slot(0, 0.0, 0));
    GainFacts(cfg, 0, 0);
    FracIs(Gain(cfg, 0), 0, 0.0);
    if n > 0 {
      PollGranted(cfg, n - 1);
      FractionStep(cfg, n - 1, n, n);
      RunsAppend(cfg, m, Poll(0, n - 1), [Allow("k", n, n)]);
    }
  }

  // ------------------------------------------------------------------- one sweep too early

  function Sweep(cfg: Config, now: int): seq<Event>
    requires cfg.burst >= 0
  {
    [Evict(now)] + Burst(now, cfg.burst)
  }

  lemma SweepGrants(cfg: Config, s: Slot, now: int)
    requires cfg.burst > 0 && Idle(cfg, s, now)
    ensures Grants(cfg, Only(s), Sweep(cfg, now)) == cfg.burst
  {
    hide Gain, AllowStep;
    var tail := Sweep(cfg, now);
    BurstGranted(cfg, now, cfg.burst);
    assert tail[1..] == Burst(now, cfg.burst) && tail[0] == Evict(now);
    assert EvictStep(cfg, Only(s), now) == map[];
    GrantedHead(cfg, Only(s), tail, true, "k");
  }

  /** A run of `n` grants in a window is followed by a sweep that removes the bucket, and by a
      whole burst: too much when the refill of the window is less than `n`. */
  lemma SweepBreaksBound(cfg: Config, gap: nat, clock: int, evs: seq<Event>, s: Slot, from: int, now: int)
    requires cfg.burst > 0 && WellTimed(evs, clock, gap) && Ended(evs, clock) <= now
    requires UsedWithin(evs, "k", from, now) && from <= now
    requires After(cfg, map[], evs) == Only(s) && Idle(cfg, s, now)
    requires Grants(cfg, map[], evs) as real > Refill(cfg, from, now)
    ensures !RateBounded(cfg, gap, true)
  {
    hide Gain, AllowStep, Next, After;
    var b, tail, all := Burst(now, cfg.burst), Sweep(cfg, now), evs + Sweep(cfg, now);
    BurstTimed(now, cfg.burst, gap);
    SweepGrants(cfg, s, now);
    assert tail[1..] == b && tail[0] == Evict(now);
    assert WellTimed(tail, Ended(evs, clock), gap);
    TimedAppend(evs, tail, clock, gap);
    UsedAppend([Evict(now)], b, from, now);
    UsedAppend(evs, tail, from, now);
    RunsAppend(cfg, map[], evs, tail);
    assert all[0..|all|] == all;
    assert Answers(cfg, map[], all, true)[0..|all|] == Answers(cfg, map[], all, true);
    assert GrantedBetween(cfg, all, true, 0, |all|, "k") == Grants(cfg, map[], evs) + cfg.burst;
  }

  /** A bucket that never gives anything is always full. */
  lemma NonPositiveBurst(cfg: Config, gap: nat)
    ensures cfg.burst <= 0 ==> RefillsWhileIdle(cfg, gap)
  {
    GainFacts(cfg, IdleFloor(cfg, gap), 0);
  }

  /** The bucket is drained, with both readings equal. */
  lemma DrainBreaksBound(cfg: Config)
    requires !RefillsWhileIdle(cfg, 0)
    ensures !RateBounded(cfg, 0, true)
  {
    hide Gain;
    GainFacts(cfg, 0, 0);
    NonPositiveBurst(cfg, 0);
    var n := cfg.burst;
    BurstTimed(0, n, 0);
    BurstGranted(cfg, 0, n);
    GainFacts(cfg, IdleFloor(cfg, 0), 0);
    SweepBreaksBound(cfg, 0, 0, Burst(0, n), Slot(0, 0.0, 0), 0, IdleFloor(cfg, 0));
  }

  /** A fresh bucket gives one token, the readings `gap` apart: the gap brings in nothing. */
  lemma FreshBreaksBound(cfg: Config, gap: nat)
    requires cfg.burst == 1 || Gain(cfg, gap) >= cfg.burst as real
    requires !RefillsWhileIdle(cfg, gap)
    ensures !RateBounded(cfg, gap, true)
  {
    hide Gain, Available;
    var evs := [Allow("k", 0, gap)];
    assert evs[1..] == [];
    FreshIsFull(cfg, 0, gap);
    OneRequest(cfg, map[], 0, gap);
    GainFacts(cfg, IdleFloor(cfg, gap), 0);
    SweepBreaksBound(cfg, gap, 0, evs, Slot(0, (cfg.burst - 1) as real, gap), gap, gap + IdleFloor(cfg, gap));
  }

  /** The bucket is drained, then gives a token that came in during the gap. */
  lemma LateTokenBreaksBound(cfg: Config, gap: nat)
    requires 1.0 <= Gain(cfg, gap) < cfg.burst as real
    requires !RefillsWhileIdle(cfg, gap)
    ensures !RateBounded(cfg, gap, true)
  {
    hide Gain, Available;
    var n, one, idle := cfg.burst, [Allow("k", 0, gap)], IdleFloor(cfg, gap);
    var drained := Slot(0, 0.0, 0);
    BurstTimed(0, n, gap);
    BurstGranted(cfg, 0, n);
    assert one[1..] == [];
    TimedAppend(Burst(0, n), one, 0, gap);
    UsedAppend(Burst(0, n), one, 0, gap);
    AvailableGain(cfg, drained, gap);
    OneRequest(cfg, Only(drained), 0, gap);
    RunsAppend(cfg, map[], Burst(0, n), one);
    GainFacts(cfg, gap, idle);
    GainFacts(cfg, idle, 0);
    SweepBreaksBound(cfg, gap, 0, Burst(0, n) + one, Slot(0, Gain(cfg, gap) - 1.0, gap), 0, gap + idle);
  }

  /** Drain the bucket, poll it, and end with a request whose readings are `gap` apart. */
  function PollRun(cfg: Config, gap: nat, w: nat): seq<Event>
    requires cfg.burst >= 0 && gap <= w
  {
    Burst(0, cfg.burst) + (Poll(0, w - gap) + [Allow("k", w - gap, w)])
  }

  lemma PollRunTimed(cfg: Config, gap: nat, w: nat)
    requires cfg.burst >= 0 && gap <= w
    ensures var evs := PollRun(cfg, gap, w);
            WellTimed(evs, 0, gap) && Ended(evs, 0) == w && UsedWithin(evs, "k", 0, w)
  {
    var n, one := w - gap, [Allow("k", w - gap, w)];
    BurstTimed(0, cfg.burst, gap);
    PollTimed(0, n, gap);
    assert one[1..] == [];
    TimedAppend(Poll(0, n), one, 0, gap);
    TimedAppend(Burst(0, cfg.burst), Poll(0, n) + one, 0, gap);
    UsedAppend(Poll(0, n), one, 0, w);
    UsedAppend(Burst(0, cfg.burst), Poll(0, n) + one, 0, w);
  }

  lemma PollRunGrants(cfg: Config, gap: nat, w: nat)
    requires cfg.burst >= 2 && 0 < gap <= w && Gain(cfg, gap) < 1.0
    ensures var evs := PollRun(cfg, gap, w);
            && After(cfg, map[], evs) == Only(Slot(w - gap, Frac(Gain(cfg, w)), w))
            && Grants(cfg, map[], evs) == cfg.burst + Gain(cfg, w).Floor
  {
    hide Gain, AllowStep, After, Grants;
    var n, one, drained := w - gap, [Allow("k", w - gap, w)], Only(Slot(0, 0.0, 0));
    GainFacts(cfg, 1, gap);
    BurstGranted(cfg, 0, cfg.burst);
    PollGranted(cfg, n);
    FractionStep(cfg, n, n, w);
    RunsAppend(cfg, drained, Poll(0, n), one);
    RunsAppend(cfg, map[], Burst(0, cfg.burst), Poll(0, n) + one);
  }

  /** A request whose gap ends just after a whole token came in leaves next to nothing. */
  lemma PollBreaksBound(cfg: Config, gap: nat)
    requires cfg.burst >= 2 && gap > 0 && Gain(cfg, gap) < 1.0
    requires !RefillsWhileIdle(cfg, gap)
    ensures !RateBounded(cfg, gap, true)
  {
    var idle := IdleFloor(cfg, gap);
    var w := SmallFraction(PerNano(cfg), gap, cfg.burst as real - Gain(cfg, idle));
    assert Frac(Gain(cfg, w)) < cfg.burst as real - Gain(cfg, idle);
    hide Gain, RateBounded, After, Grants, PollRun, WellTimed;
    PollRunTimed(cfg, gap, w);
    PollRunGrants(cfg, gap, w);
    GainFacts(cfg, w, idle);
    GainFacts(cfg, idle, 0);
    UsedLonger(PollRun(cfg, gap, w), 0, w, w + idle);
    SweepBreaksBound(cfg, gap, 0, PollRun(cfg, gap, w), Slot(w - gap, Frac(Gain(cfg, w)), w), 0, w + idle);
  }

  // ------------------------------------------------------------------------ the main results

  /** A bucket that may be evicted before it is full breaks the rate bound. */
  lemma SlowRefillBreaksBound(cfg: Config, gap: nat)
    requires !RefillsWhileIdle(cfg, gap)
    ensures !RateBounded(cfg, gap, true)
  {
    hide RefillsWhileIdle, RateBounded;
    NonPositiveBurst(cfg, gap);
    if gap == 0 {
      DrainBreaksBound(cfg);
    } else if cfg.burst == 1 || Gain(cfg, gap) >= cfg.burst as real {
      FreshBreaksBound(cfg, gap);
    } else if Gain(cfg, gap) >= 1.0 {
      LateTokenBreaksBound(cfg, gap);
    } else {
      PollBreaksBound(cfg, gap);
    }
  }

  /** For every gap between the two readings of a call, eviction is invisible, and the rate bound
      holds, for exactly the configurations whose buckets refill while they are idle. */
  lemma EvictionInvisibleExactly(cfg: Config, gap: nat)
    ensures EvictionInvisible(cfg, gap) <==> RefillsWhileIdle(cfg, gap)
    ensures RateBounded(cfg, gap, true) <==> RefillsWhileIdle(cfg, gap)
  {
    hide RefillsWhileIdle, RateBounded, EvictionInvisible;
    if RefillsWhileIdle(cfg, gap) {
      EvictionRefinesNoEviction(cfg, gap);
    } else {
      SlowRefillBreaksBound(cfg, gap);
    }
    if EvictionInvisible(cfg, gap) {
      InvisibleIsRateBounded(cfg, gap);
    }
  }

  /** The condition for equal readings is not enough when they differ: one request per second,
      half a second between the readings. */
  lemma GapMatters()
    ensures exists cfg, gap: nat :: RefillsWhileIdle(cfg, 0) && !EvictionInvisible(cfg, gap)
  {
    var cfg, half := Config(1.0, 1, NANOS_PER_SECOND - 1), NANOS_PER_SECOND / 2;
    assert Gain(cfg, half) == 0.5 && Gain(cfg, NANOS_PER_SECOND) == 1.0 && Gain(cfg, 0) == 0.0;
    EvictionInvisibleExactly(cfg, half);
    assert RefillsWhileIdle(cfg, 0) && !EvictionInvisible(cfg, half);
  }

  const DEFAULT_LIMITS := Config(50.0, 100, 300 * NANOS_PER_SECOND)

  /** The longest gap the shipped defaults absorb: 299.98 seconds and one nanosecond. */
  const DEFAULT_SLACK := 299_980_000_001

  lemma DefaultsAreInvisibleExactly(gap: nat)
    ensures EvictionInvisible(DEFAULT_LIMITS, gap) <==> gap <= DEFAULT_SLACK
    ensures RateBounded(DEFAULT_LIMITS, gap, true) <==> gap <= DEFAULT_SLACK
  {
    hide EvictionInvisible, RateBounded;
    EvictionInvisibleExactly(DEFAULT_LIMITS, gap);
    var idle := IdleFloor(DEFAULT_LIMITS, gap);
    assert PerNano(DEFAULT_LIMITS) == 0.00000005;
    assert Gain(DEFAULT_LIMITS, gap) == 0.00000005 * (gap as real);
    assert Gain(DEFAULT_LIMITS, idle) == 0.00000005 * (idle as real);
  }
}
