/** Whole runs of the limiter: when is eviction invisible to callers, and how many requests of
    one key can be granted in a window of time? */
module RateLimitRuns {
  import opened Fractions
  import opened RateLimit

  datatype Event =
    | Allow(key: string, seen: int, used: int)
    | Evict(now: int)

  function TimeOf(e: Event): int {
    if e.Allow? then e.used else e.now
  }

  /** The clock never goes back, and the two readings of one Allow are at most `gap` apart. */
  ghost predicate WellTimed(evs: seq<Event>, clock: int, gap: nat) {
    evs == [] ||
    match evs[0]
    case Allow(_, seen, used) => clock <= seen <= used <= seen + gap && WellTimed(evs[1..], used, gap)
    case Evict(now) => clock <= now && WellTimed(evs[1..], now, gap)
  }

  function Next(cfg: Config, m: Buckets, e: Event, sweeping: bool): (Buckets, bool) {
    match e
    case Allow(key, seen, used) => AllowStep(cfg, m, key, seen, used)
    case Evict(now) => (if sweeping then EvictStep(cfg, m, now) else m, false)
  }

  /** The answers of a run, one for each event (a sweep answers false).  A limiter that is not
      `sweeping` never evicts. */
  function Answers(cfg: Config, m: Buckets, evs: seq<Event>, sweeping: bool): (r: seq<bool>)
    ensures |r| == |evs|
    decreases evs
  {
    if evs == [] then []
    else
      var (m', ok) := Next(cfg, m, evs[0], sweeping);
      [ok] + Answers(cfg, m', evs[1..], sweeping)
  }

  function Granted(evs: seq<Event>, answers: seq<bool>, key: string): (n: nat)
    requires |evs| == |answers|
    ensures n <= |evs|
  {
    if evs == [] then 0
    else
      var first := if evs[0].Allow? && evs[0].key == key && answers[0] then 1 else 0;
      first + Granted(evs[1..], answers[1..], key)
  }

  function Max(a: real, b: real): real {
    if a < b then b else a
  }

  function Min(a: real, b: real): real {
    if a < b then a else b
  }

  /** Tokens refilled in `n` nanoseconds, before the cap. */
  function Gain(cfg: Config, n: int): real {
    Times(PerNano(cfg), n)
  }

  /** The least time that passes after the refill of a request whose readings are `gap` apart
      before a sweep can remove the bucket. */
  function IdleFloor(cfg: Config, gap: nat): nat {
    if cfg.idleTTL + 1 - gap < 0 then 0 else cfg.idleTTL + 1 - gap
  }

  /** What such a request leaves at least: during the gap the bucket was refilled. */
  function LeftOver(cfg: Config, gap: int): real {
    var burst := cfg.burst as real;
    if cfg.burst <= 0 then burst else Max(0.0, Min(burst, Gain(cfg, gap)) - 1.0)
  }

  /** A bucket is full again before it can be evicted. */
  predicate RefillsWhileIdle(cfg: Config, gap: nat) {
    LeftOver(cfg, gap) + Gain(cfg, IdleFloor(cfg, gap)) >= cfg.burst as real
  }

  /** Eviction changes no answer of any run that starts with no buckets. */
  ghost predicate EvictionInvisible(cfg: Config, gap: nat) {
    forall evs, clock | WellTimed(evs, clock, gap) ::
      Answers(cfg, map[], evs, true) == Answers(cfg, map[], evs, false)
  }

  ghost predicate UsedWithin(evs: seq<Event>, key: string, from: int, to: int) {
    forall i | 0 <= i < |evs| :: evs[i].Allow? && evs[i].key == key ==> from <= evs[i].used <= to
  }

  function Allowance(cfg: Config, from: int, to: int): real {
    Max(0.0, cfg.burst as real) + Refill(cfg, from, if to < from then from else to)
  }

  /** In every run, every stretch of events in which `key` is used between times `from` and
      `to` grants it at most burst + rate * (to - from) requests. */
  ghost predicate RateBounded(cfg: Config, gap: nat, sweeping: bool) {
    forall evs, clock, i: nat, j: nat, key, from, to ::
      WellTimed(evs, clock, gap) && i <= j <= |evs| && UsedWithin(evs[i..j], key, from, to) ==>
        GrantedBetween(cfg, evs, sweeping, i, j, key) as real <= Allowance(cfg, from, to)
  }

  function GrantedBetween(cfg: Config, evs: seq<Event>, sweeping: bool, i: nat, j: nat, key: string): nat
    requires i <= j <= |evs|
  {
    Granted(evs[i..j], Answers(cfg, map[], evs, sweeping)[i..j], key)
  }

  // ---------------------------------------------------------------- arithmetic of one bucket

  lemma GainFacts(cfg: Config, a: int, b: int)
    ensures Gain(cfg, a + b) == Gain(cfg, a) + Gain(cfg, b)
    ensures a >= 0 ==> Gain(cfg, a) >= 0.0
    ensures a <= b ==> Gain(cfg, a) <= Gain(cfg, b)
    ensures Gain(cfg, 0) == 0.0
  {
    var r := PerNano(cfg);
    assert r * (a + b) as real == r * (a as real) + r * (b as real);
    if a <= b {
      assert r * (b - a) as real >= 0.0;
      assert r * (b as real) - r * (a as real) == r * (b - a) as real;
    }
  }

  lemma AvailableGain(cfg: Config, s: Slot, now: int)
    ensures Available(cfg, s, now) == Min(cfg.burst as real, s.tokens + Gain(cfg, Elapsed(s.filledAt, now)))
  {
  }

  /** What holds of every stored bucket while the clock is at least `clock`. */
  ghost predicate SlotOk(cfg: Config, s: Slot, clock: int, gap: nat) {
    && s.lastSeen <= s.filledAt <= s.lastSeen + gap
    && s.filledAt <= clock
    && LeftOver(cfg, s.filledAt - s.lastSeen) <= s.tokens <= cfg.burst as real
  }

  ghost predicate AllOk(cfg: Config, m: Buckets, clock: int, gap: nat) {
    forall k | k in m :: SlotOk(cfg, m[k], clock, gap)
  }

  ghost predicate Full(cfg: Config, s: Slot, clock: int) {
    forall t | t >= clock :: Available(cfg, s, t) == cfg.burst as real
  }

  lemma FullAfter(cfg: Config, s: Slot, clock: int)
    requires s.filledAt <= clock
    requires s.tokens + Gain(cfg, clock - s.filledAt) >= cfg.burst as real
    ensures Full(cfg, s, clock)
  {
    hide Gain, Available;
    forall t | t >= clock ensures Available(cfg, s, t) == cfg.burst as real {
      AvailableGain(cfg, s, t);
      GainFacts(cfg, clock - s.filledAt, t - s.filledAt);
    }
  }

  /** A smaller gap refills less during the gap, and as much more after it. */
  lemma LeftOverShifts(cfg: Config, less: nat, gap: nat)
    requires less <= gap
    ensures LeftOver(cfg, gap) <= LeftOver(cfg, less) + Gain(cfg, gap - less)
    ensures LeftOver(cfg, less) <= LeftOver(cfg, gap)
  {
    hide Gain;
    GainFacts(cfg, less, gap - less);
    GainFacts(cfg, gap - less, 0);
  }

  lemma IdleIsFull(cfg: Config, s: Slot, now: int, gap: nat)
    requires SlotOk(cfg, s, now, gap) && Idle(cfg, s, now) && RefillsWhileIdle(cfg, gap)
    ensures Full(cfg, s, now)
  {
    var less, elapsed := s.filledAt - s.lastSeen, now - s.filledAt;
    var idle := IdleFloor(cfg, gap);
    LeftOverShifts(cfg, less, gap);
    hide Gain;
    GainFacts(cfg, idle, gap - less);
    GainFacts(cfg, 0, elapsed);
    if cfg.burst > 0 {
      assert idle == cfg.idleTTL + 1 - gap;
      GainFacts(cfg, idle + (gap - less), elapsed);
    }
    FullAfter(cfg, s, now);
  }

  /** A request leaves what the gap between its readings brought in, less one token. */
  lemma RequestLeaves(cfg: Config, s: Slot, seen: int, used: int)
    requires s.filledAt <= seen <= used && LeftOver(cfg, 0) <= s.tokens <= cfg.burst as real
    ensures var avail := Available(cfg, s, used);
            LeftOver(cfg, used - seen) <= (if avail >= 1.0 then avail - 1.0 else avail) <= cfg.burst as real
  {
    hide Gain, Available;
    AvailableGain(cfg, s, used);
    GainFacts(cfg, used - seen, used - s.filledAt);
    GainFacts(cfg, used - seen, 0);
  }

  lemma StepKeepsOk(cfg: Config, m: Buckets, e: Event, sweeping: bool, clock: int, gap: nat)
    requires AllOk(cfg, m, clock, gap) && WellTimed([e], clock, gap)
    ensures AllOk(cfg, Next(cfg, m, e, sweeping).0, TimeOf(e), gap)
  {
    hide Gain, Available, LeftOver;
    if e.Allow? {
      var s := SlotOf(cfg, m, e.key, e.seen, e.used);
      if e.key in m {
        LeftOverShifts(cfg, 0, s.filledAt - s.lastSeen);
        RequestLeaves(cfg, s, e.seen, e.used);
      } else {
        FreshLeaves(cfg, e.seen, e.used);
      }
    }
  }

  lemma FreshLeaves(cfg: Config, seen: int, used: int)
    ensures var s := FreshSlot(cfg, seen, used);
            var avail := Available(cfg, s, used);
            LeftOver(cfg, used - seen) <= (if avail >= 1.0 then avail - 1.0 else avail) <= cfg.burst as real
  {
    hide Gain;
    AvailableGain(cfg, FreshSlot(cfg, seen, used), used);
    GainFacts(cfg, 0, 0);
  }

  // ------------------------------------------------------------- eviction refines no eviction

  /** The sweeping limiter holds a subset of the buckets; every bucket it dropped is full. */
  ghost predicate Similar(cfg: Config, swept: Buckets, kept: Buckets, clock: int, gap: nat) {
    && swept.Keys <= kept.Keys
    && AllOk(cfg, kept, clock, gap)
    && (forall k | k in swept :: swept[k] == kept[k])
    && (forall k | k in kept && k !in swept :: Full(cfg, kept[k], clock))
  }

  lemma FreshIsFull(cfg: Config, seen: int, used: int)
    ensures Available(cfg, FreshSlot(cfg, seen, used), used) == cfg.burst as real
  {
    AvailableGain(cfg, FreshSlot(cfg, seen, used), used);
    GainFacts(cfg, 0, 0);
  }

  /** One event: the same answer, and the limiters stay similar. */
  lemma SimilarStep(cfg: Config, swept: Buckets, kept: Buckets, e: Event, clock: int, gap: nat)
    requires Similar(cfg, swept, kept, clock, gap) && WellTimed([e], clock, gap) && RefillsWhileIdle(cfg, gap)
    ensures Next(cfg, swept, e, true).1 == Next(cfg, kept, e, false).1
    ensures Similar(cfg, Next(cfg, swept, e, true).0, Next(cfg, kept, e, false).0, TimeOf(e), gap)
  {
    hide Available, RefillsWhileIdle, SlotOk;
    StepKeepsOk(cfg, kept, e, false, clock, gap);
    if e.Evict? {
      forall k | k in kept && k !in EvictStep(cfg, swept, e.now) ensures Full(cfg, kept[k], e.now) {
        if k in swept {
          OkLater(cfg, kept[k], clock, e.now, gap);
          IdleIsFull(cfg, kept[k], e.now, gap);
        }
      }
    } else if e.key !in swept {
      FreshIsFull(cfg, e.seen, e.used);
    }
  }

  lemma OkLater(cfg: Config, s: Slot, clock: int, now: int, gap: nat)
    requires SlotOk(cfg, s, clock, gap) && clock <= now
    ensures SlotOk(cfg, s, now, gap)
  {
  }

  lemma {:induction false} SimilarAnswers(cfg: Config, swept: Buckets, kept: Buckets, evs: seq<Event>,
                                          clock: int, gap: nat)
    requires Similar(cfg, swept, kept, clock, gap) && WellTimed(evs, clock, gap) && RefillsWhileIdle(cfg, gap)
    ensures Answers(cfg, swept, evs, true) == Answers(cfg, kept, evs, false)
    decreases evs
  {
    hide Similar, Next, RefillsWhileIdle;
    if evs != [] {
      var e := evs[0];
      assert WellTimed([e], clock, gap);
      SimilarStep(cfg, swept, kept, e, clock, gap);
      SimilarAnswers(cfg, Next(cfg, swept, e, true).0, Next(cfg, kept, e, false).0, evs[1..], TimeOf(e), gap);
    }
  }

  // --------------------------------------------------------------------------- rate bounds

  /** Tokens `key` could draw on at time `t`. */
  function Credit(cfg: Config, m: Buckets, key: string, t: int): real {
    if key in m then Available(cfg, m[key], t) else cfg.burst as real
  }

  lemma CreditGrows(cfg: Config, m: Buckets, key: string, t: int, u: int)
    requires t <= u
    ensures Credit(cfg, m, key, u) <= Credit(cfg, m, key, t) + Refill(cfg, t, u)
    ensures Credit(cfg, m, key, u) <= cfg.burst as real
  {
    hide Gain, Available;
    GainFacts(cfg, 0, u - t);
    if key in m {
      var a, b := Elapsed(m[key].filledAt, t), Elapsed(m[key].filledAt, u);
      AvailableGain(cfg, m[key], t);
      AvailableGain(cfg, m[key], u);
      GainFacts(cfg, a, u - t);
      GainFacts(cfg, b, a + (u - t));
    }
  }

  function Refill(cfg: Config, since: int, now: int): real {
    Gain(cfg, now - since)
  }

  lemma RefillAdds(cfg: Config, a: int, b: int, c: int)
    requires a <= b <= c
    ensures Refill(cfg, a, c) == Refill(cfg, a, b) + Refill(cfg, b, c)
    ensures Refill(cfg, a, b) >= 0.0 && Refill(cfg, b, c) >= 0.0
  {
    hide Gain;
    GainFacts(cfg, b - a, c - b);
    GainFacts(cfg, c - b, 0);
  }

  lemma UsedTail(evs: seq<Event>, key: string, from: int, to: int)
    requires evs != [] && UsedWithin(evs, key, from, to)
    ensures UsedWithin(evs[1..], key, from, to)
  {
    assert forall i | 0 <= i < |evs| - 1 :: evs[1..][i] == evs[i + 1];
  }

  lemma GrantedHead(cfg: Config, m: Buckets, evs: seq<Event>, sweeping: bool, key: string)
    requires evs != []
    ensures var (m', ok) := Next(cfg, m, evs[0], sweeping);
            Granted(evs, Answers(cfg, m, evs, sweeping), key)
            == (if evs[0].Allow? && evs[0].key == key && ok then 1 else 0)
               + Granted(evs[1..], Answers(cfg, m', evs[1..], sweeping), key)
  {
    var m' := Next(cfg, m, evs[0], sweeping).0;
    assert Answers(cfg, m, evs, sweeping)[1..] == Answers(cfg, m', evs[1..], sweeping);
  }

  /** One request of `key` at time `used` is paid for by the credit at `from` and the refill. */
  lemma RequestPaid(cfg: Config, m: Buckets, key: string, seen: int, used: int, from: int)
    requires from <= used
    ensures var (m', ok) := AllowStep(cfg, m, key, seen, used);
            (if ok then 1.0 else 0.0) + Max(0.0, Credit(cfg, m', key, used))
            <= Max(0.0, Credit(cfg, m, key, from)) + Refill(cfg, from, used)
  {
    var (m', ok) := AllowStep(cfg, m, key, seen, used);
    CreditGrows(cfg, m, key, from, used);
    CreditGrows(cfg, m, key, used, used);
    assert Available(cfg, SlotOf(cfg, m, key, seen, used), used) == Credit(cfg, m, key, used);
    assert Credit(cfg, m', key, used) == m'[key].tokens;
    RefillAdds(cfg, from, from, used);
  }

  /** Without sweeps, the grants of `key` between `from` and `to` are paid for by the credit at
      `from` and the refill since. */
  lemma {:induction false} CreditPays(cfg: Config, m: Buckets, evs: seq<Event>, clock: int, gap: nat,
                                      key: string, from: int, to: int)
    requires WellTimed(evs, clock, gap) && UsedWithin(evs, key, from, to) && from <= to
    ensures Granted(evs, Answers(cfg, m, evs, false), key) as real
      <= Max(0.0, Credit(cfg, m, key, from)) + Refill(cfg, from, to)
    decreases evs
  {
    if evs == [] {
      RefillAdds(cfg, from, from, to);
    } else {
      var e, rest := evs[0], evs[1..];
      var m' := Next(cfg, m, e, false).0;
      UsedTail(evs, key, from, to);
      GrantedHead(cfg, m, evs, false, key);
      if e.Allow? && e.key == key {
        LaterUses(rest, e.used, gap, key, from, to);
        CreditPays(cfg, m', rest, e.used, gap, key, e.used, to);
        RequestPaid(cfg, m, key, e.seen, e.used, from);
        RefillAdds(cfg, from, e.used, to);
      } else {
        CreditPays(cfg, m', rest, TimeOf(e), gap, key, from, to);
      }
    }
  }

  lemma {:induction false} LaterUses(evs: seq<Event>, clock: int, gap: nat, key: string, from: int, to: int)
    requires WellTimed(evs, clock, gap) && UsedWithin(evs, key, from, to)
    ensures UsedWithin(evs, key, clock, to)
  {
    if evs != [] {
      var rest := evs[1..];
      assert forall i | 0 <= i < |rest| :: rest[i] == evs[i + 1];
      LaterUses(rest, TimeOf(evs[0]), gap, key, from, to);
      assert forall i | 0 < i < |evs| :: evs[i] == rest[i - 1];
    }
  }

  /** The bound for a limiter that never evicts, from any state a run can be in. */
  lemma {:induction false} WindowBound(cfg: Config, m: Buckets, evs: seq<Event>, clock: int, gap: nat,
                                       i: nat, j: nat, key: string, from: int, to: int)
    requires WellTimed(evs, clock, gap)
    requires i <= j <= |evs| && UsedWithin(evs[i..j], key, from, to)
    ensures Granted(evs[i..j], Answers(cfg, m, evs, false)[i..j], key) as real <= Allowance(cfg, from, to)
    decreases i
  {
    if i > 0 {
      var e, rest := evs[0], evs[1..];
      var m' := Next(cfg, m, e, false).0;
      assert rest[i - 1..j - 1] == evs[i..j];
      assert Answers(cfg, m, evs, false)[1..] == Answers(cfg, m', rest, false);
      assert Answers(cfg, m, evs, false)[i..j] == Answers(cfg, m', rest, false)[i - 1..j - 1];
      WindowBound(cfg, m', rest, TimeOf(e), gap, i - 1, j - 1, key, from, to);
    } else {
      assert evs[i..j] == evs[..j];
      assert Answers(cfg, m, evs, false)[i..j] == Answers(cfg, m, evs, false)[..j];
      AnswersPrefix(cfg, m, evs, j, false);
      WellTimedPrefix(evs, j, clock, gap);
      RunBound(cfg, m, evs[..j], clock, gap, key, from, to);
    }
  }

  lemma RunBound(cfg: Config, m: Buckets, evs: seq<Event>, clock: int, gap: nat, key: string, from: int, to: int)
    requires WellTimed(evs, clock, gap) && UsedWithin(evs, key, from, to)
    ensures Granted(evs, Answers(cfg, m, evs, false), key) as real <= Allowance(cfg, from, to)
  {
    if from <= to {
      CreditPays(cfg, m, evs, clock, gap, key, from, to);
      assert Credit(cfg, m, key, from) <= cfg.burst as real;
    } else {
      RefillAdds(cfg, from, from, from);
      NeverUsed(evs, Answers(cfg, m, evs, false), key);
    }
  }

  lemma {:induction false} NeverUsed(evs: seq<Event>, answers: seq<bool>, key: string)
    requires |evs| == |answers|
    requires forall i | 0 <= i < |evs| :: !(evs[i].Allow? && evs[i].key == key)
    ensures Granted(evs, answers, key) == 0
  {
    if evs != [] {
      NeverUsed(evs[1..], answers[1..], key);
    }
  }

  lemma {:induction false} WellTimedPrefix(evs: seq<Event>, j: nat, clock: int, gap: nat)
    requires WellTimed(evs, clock, gap) && j <= |evs|
    ensures WellTimed(evs[..j], clock, gap)
  {
    if j > 0 {
      assert evs[..j][1..] == evs[1..][..j - 1];
      WellTimedPrefix(evs[1..], j - 1, TimeOf(evs[0]), gap);
    }
  }

  lemma {:induction false} AnswersPrefix(cfg: Config, m: Buckets, evs: seq<Event>, j: nat, sweeping: bool)
    requires j <= |evs|
    ensures Answers(cfg, m, evs, sweeping)[..j] == Answers(cfg, m, evs[..j], sweeping)
    decreases j
  {
    if j > 0 {
      assert evs[..j][1..] == evs[1..][..j - 1];
      AnswersPrefix(cfg, Next(cfg, m, evs[0], sweeping).0, evs[1..], j - 1, sweeping);
    }
  }

  // ------------------------------------------------------------- what follows for whole runs

  /** Eviction refines no eviction when buckets refill while they are idle. */
  lemma EvictionRefinesNoEviction(cfg: Config, gap: nat)
    requires RefillsWhileIdle(cfg, gap)
    ensures EvictionInvisible(cfg, gap)
  {
    forall evs, clock | WellTimed(evs, clock, gap)
      ensures Answers(cfg, map[], evs, true) == Answers(cfg, map[], evs, false)
    {
      SimilarAnswers(cfg, map[], map[], evs, clock, gap);
    }
  }

  lemma KeptIsRateBounded(cfg: Config, gap: nat)
    ensures RateBounded(cfg, gap, false)
  {
    forall evs, clock, i: nat, j: nat, key, from, to
      | WellTimed(evs, clock, gap) && i <= j <= |evs| && UsedWithin(evs[i..j], key, from, to)
      ensures GrantedBetween(cfg, evs, false, i, j, key) as real <= Allowance(cfg, from, to)
    {
      WindowBound(cfg, map[], evs, clock, gap, i, j, key, from, to);
    }
  }

  lemma InvisibleIsRateBounded(cfg: Config, gap: nat)
    requires EvictionInvisible(cfg, gap)
    ensures RateBounded(cfg, gap, true)
  {
    KeptIsRateBounded(cfg, gap);
    forall evs, clock, i: nat, j: nat, key, from, to
      | WellTimed(evs, clock, gap) && i <= j <= |evs| && UsedWithin(evs[i..j], key, from, to)
      ensures GrantedBetween(cfg, evs, true, i, j, key) as real <= Allowance(cfg, from, to)
    {
      assert GrantedBetween(cfg, evs, true, i, j, key) == GrantedBetween(cfg, evs, false, i, j, key);
    }
  }
}
