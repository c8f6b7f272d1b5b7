/** Per-key token buckets with idle eviction: the state, one step of each operation, and the
    class whose methods perform those steps in place.

    Clock readings are nanoseconds.  A bucket of golang.org/x/time/rate is represented by the
    tokens it held at its last call; it starts full, refills linearly, is capped at the burst
    and gives one token per granted request. */
module RateLimit {

  const NANOS_PER_SECOND := 1_000_000_000

  datatype Config = Config(requestsPerSec: real, burst: int, idleTTL: int)

  /** What the limiter stores for one key: when the key was last seen, and the bucket. */
  datatype Slot = Slot(lastSeen: int, tokens: real, filledAt: int)

  type Buckets = map<string, Slot>

  /** Refill speed in tokens per nanosecond; a non-positive limit never refills. */
  function PerNano(cfg: Config): (r: real)
    ensures r >= 0.0
  {
    if cfg.requestsPerSec <= 0.0 then 0.0 else cfg.requestsPerSec / (NANOS_PER_SECOND as real)
  }

  function Elapsed(since: int, now: int): nat {
    if now < since then 0 else now - since
  }

  /** Tokens in a bucket at time `now`. */
  function Available(cfg: Config, slot: Slot, now: int): real {
    var refilled := slot.tokens + PerNano(cfg) * (Elapsed(slot.filledAt, now) as real);
    if refilled > cfg.burst as real then cfg.burst as real else refilled
  }

  lemma SeenIrrelevant(cfg: Config, slot: Slot, seen: int, now: int)
    ensures Available(cfg, slot.(lastSeen := seen), now) == Available(cfg, slot, now)
  {
  }

  /** A reading before the latest refill refills nothing, and takes nothing back. */
  lemma EarlierReading(cfg: Config, slot: Slot, now: int)
    requires now <= slot.filledAt && slot.tokens <= cfg.burst as real
    ensures Available(cfg, slot, now) == slot.tokens
  {
  }

  function FreshSlot(cfg: Config, seen: int, used: int): Slot {
    Slot(seen, cfg.burst as real, used)
  }

  function SlotOf(cfg: Config, m: Buckets, key: string, seen: int, used: int): Slot {
    if key in m then m[key] else FreshSlot(cfg, seen, used)
  }

  /** One request: `seen` is the reading stored in lastSeen, `used` the later reading taken by
      the bucket itself. */
  function AllowStep(cfg: Config, m: Buckets, key: string, seen: int, used: int): (Buckets, bool) {
    var avail := Available(cfg, SlotOf(cfg, m, key, seen, used), used);
    if avail >= 1.0 then (m[key := Slot(seen, avail - 1.0, used)], true)
    else (m[key := Slot(seen, avail, used)], false)
  }

  /** A bucket is idle when it was last seen strictly before the cutoff. */
  predicate Idle(cfg: Config, slot: Slot, now: int) {
    slot.lastSeen < now - cfg.idleTTL
  }

  function EvictStep(cfg: Config, m: Buckets, now: int): Buckets {
    map key | key in m && !Idle(cfg, m[key], now) :: m[key]
  }

  /** A bucket object, updated in place. */
  class Entry {
    var lastSeen: int
    var tokens: real
    var filledAt: int

    constructor (tokens: real, filledAt: int)
      ensures this.tokens == tokens && this.filledAt == filledAt
    {
      this.tokens := tokens;
      this.filledAt := filledAt;
    }

    function Value(): Slot
      reads this
    {
      Slot(lastSeen, tokens, filledAt)
    }

    /** Refill up to `now`, then take one token if there is one. */
    method Take(cfg: Config, now: int) returns (ok: bool)
      modifies this`tokens, this`filledAt
      ensures filledAt == now
      ensures var avail := Available(cfg, old(Value()), now);
              ok == (avail >= 1.0) && tokens == if ok then avail - 1.0 else avail
    {
      var avail := Available(cfg, Value(), now);
      filledAt := now;
      ok := avail >= 1.0;
      tokens := if ok then avail - 1.0 else avail;
    }
  }

  lemma OneUpdate(before: Buckets, after: Buckets, key: string, slot: Slot)
    requires after.Keys == before.Keys + {key} && after[key] == slot
    requires forall k :: k in before && k != key ==> after[k] == before[k]
    ensures after == before[key := slot]
  {
  }

  class Limiter {
    var buckets: map<string, Entry>
    const cfg: Config

    /** Two keys never share a bucket. */
    ghost predicate Valid()
      reads this
    {
      forall k1, k2 :: k1 in buckets && k2 in buckets && k1 != k2 ==> buckets[k1] != buckets[k2]
    }

    ghost function Contents(): Buckets
      reads this, buckets.Values
    {
      map key | key in buckets :: buckets[key].Value()
    }

    constructor (requestsPerSec: real, burst: int, idleTTL: int)
      ensures Valid() && Contents() == map[]
      ensures cfg == Config(requestsPerSec, burst, idleTTL)
    {
      buckets := map[];
      cfg := Config(requestsPerSec, burst, idleTTL);
    }

    method Allow(key: string, seen: int, used: int) returns (ok: bool)
      requires Valid()
      modifies this, buckets.Values
      ensures Valid() && fresh(buckets.Values - old(buckets.Values))
      ensures (Contents(), ok) == AllowStep(cfg, old(Contents()), key, seen, used)
    {
      hide Available, Contents;
      ghost var before := Contents();
      ContentsOf();
      if key !in buckets {
        var e := new Entry(cfg.burst as real, used);
        buckets := buckets[key := e];
      }
      var entry := buckets[key];
      entry.lastSeen := seen;
      SeenIrrelevant(cfg, SlotOf(cfg, before, key, seen, used), seen, used);
      ok := entry.Take(cfg, used);
      ContentsOf();
      OneUpdate(before, Contents(), key, entry.Value());
    }

    lemma ContentsOf()
      ensures Contents().Keys == buckets.Keys
      ensures forall k :: k in buckets ==> Contents()[k] == buckets[k].Value()
    {
    }

    /** Sweep every bucket, deleting the idle ones while ranging over the map. */
    method Evict(now: int)
      requires Valid()
      modifies this
      ensures Valid() && buckets.Values <= old(buckets.Values)
      ensures Contents() == EvictStep(cfg, old(Contents()), now)
    {
      ghost var before := buckets;
      var cutoff := now - cfg.idleTTL;
      var todo := buckets.Keys;
      while todo != {}
        invariant todo <= before.Keys
        invariant buckets.Keys <= before.Keys
        invariant forall k :: k in buckets ==> buckets[k] == before[k]
        invariant forall k :: k in before.Keys ==>
          (k in buckets <==> k in todo || before[k].lastSeen >= cutoff)
        decreases todo
      {
        var key :| key in todo;
        if buckets[key].lastSeen < cutoff {
          buckets := buckets - {key};
        }
        todo := todo - {key};
      }
    }
  }
}
