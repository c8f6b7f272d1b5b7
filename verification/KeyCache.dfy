/** The cache of JWT verification keys: its guarded fields and the operations on them.
    Times and durations are nanoseconds; an operation that reads the clock gets its readings
    as arguments. */
module KeyCache {
  import opened Wrappers
  import opened Jwt

  const SECOND := 1_000_000_000
  const MINUTE := 60 * SECOND
  const HOUR := 60 * MINUTE

  const DEFAULT_REFRESH_INTERVAL := 5 * MINUTE
  const DEFAULT_FETCH_TIMEOUT := 15 * SECOND

  type Keys = seq<string>

  datatype State = State(
    keys: Keys,
    lastSuccess: Option<int>,
    staleLogged: bool,
    lastStaleLog: int,
    refreshInterval: int,
    refreshTimeout: int)

  const FRESH := State([], None, false, 0, DEFAULT_REFRESH_INTERVAL, DEFAULT_FETCH_TIMEOUT)

  /** A fetch reports keys or an error. */
  datatype FetchResult = Fetched(keys: Keys) | Failed

  predicate IsGood(r: FetchResult) {
    r.Fetched? && r.keys != []
  }

  /** What the select of a refresh ended with. */
  datatype Outcome = Reply(result: FetchResult) | TimedOut

  function ConfigureStep(s: State, refreshInterval: int, fetchTimeout: int): State {
    s.(refreshInterval := if refreshInterval > 0 then refreshInterval else s.refreshInterval,
       refreshTimeout := if fetchTimeout > 0 then fetchTimeout else s.refreshTimeout)
  }

  function StoreStep(s: State, keys: Keys, now: int): State {
    s.(keys := keys, lastSuccess := Some(now), staleLogged := false)
  }

  /** Too long without a success, seen at time `checked`. */
  predicate Stale(s: State, checked: int) {
    s.lastSuccess.None? || checked - s.lastSuccess.value >= s.refreshInterval
  }

  /** The new state, and whether a report is logged: `checked` and `now` are the two readings. */
  function NoteStaleStep(s: State, checked: int, now: int): (State, bool) {
    if Stale(s, checked) && (!s.staleLogged || now - s.lastStaleLog >= HOUR)
    then (s.(staleLogged := true, lastStaleLog := now), true)
    else (s, false)
  }

  function RefreshStep(s: State, o: Outcome, checked: int, now: int): (State, bool) {
    if o.Reply? && IsGood(o.result) then (StoreStep(s, o.result.keys, now), false)
    else NoteStaleStep(s, checked, now)
  }

  /** The first key that verifies the token decides; without one, the last error. */
  function FirstAccepted(verify: Verifier, token: string, keys: Keys, opts: VerifyOpts): Option<Claims> {
    if keys == [] then None
    else
      match verify(token, keys[0], opts)
      case Ok(claims) => Some(claims)
      case Err(_) => FirstAccepted(verify, token, keys[1..], opts)
  }

  const NO_KEYS := "no public keys available"

  /** The keys a cache offers to others. */
  function Offered(keys: Keys): Result<Keys, string> {
    if keys == [] then Err(NO_KEYS) else Ok(keys)
  }

  function LastError(verify: Verifier, token: string, keys: Keys, opts: VerifyOpts): string {
    if keys == [] then NO_KEYS
    else
      match verify(token, keys[|keys| - 1], opts)
      case Ok(_) => ""
      case Err(e) => e
  }

  /** The error is that of the key tried last. */
  lemma LastErrorExactly(verify: Verifier, token: string, keys: Keys, key: string, opts: VerifyOpts)
    requires verify(token, key, opts).Err?
    ensures LastError(verify, token, keys + [key], opts) == verify(token, key, opts).error
    ensures LastError(verify, token, [], opts) == "no public keys available"
  {
    assert (keys + [key])[|keys + [key]| - 1] == key;
  }

  class Cache {
    var keys: Keys
    var lastSuccess: Option<int>
    var staleLogged: bool
    var lastStaleLog: int
    var refreshInterval: int
    var refreshTimeout: int

    function Value(): State
      reads this
    {
      State(keys, lastSuccess, staleLogged, lastStaleLog, refreshInterval, refreshTimeout)
    }

    constructor ()
      ensures Value() == FRESH
    {
      keys, lastSuccess, staleLogged, lastStaleLog := [], None, false, 0;
      refreshInterval, refreshTimeout := DEFAULT_REFRESH_INTERVAL, DEFAULT_FETCH_TIMEOUT;
    }

    method Configure(interval: int, fetchTimeout: int)
      modifies this
      ensures Value() == ConfigureStep(old(Value()), interval, fetchTimeout)
    {
      if interval > 0 {
        refreshInterval := interval;
      }
      if fetchTimeout > 0 {
        refreshTimeout := fetchTimeout;
      }
    }

    method NoteStale(checked: int, now: int) returns (reported: bool)
      modifies this
      ensures (Value(), reported) == NoteStaleStep(old(Value()), checked, now)
    {
      if lastSuccess.Some? && checked - lastSuccess.value < refreshInterval {
        return false;
      }
      reported := !staleLogged || now - lastStaleLog >= HOUR;
      if reported {
        staleLogged := true;
        lastStaleLog := now;
      }
    }

    /** What refresh does once its select has ended. */
    method FinishRefresh(outcome: Outcome, checked: int, now: int) returns (reported: bool)
      modifies this
      ensures (Value(), reported) == RefreshStep(old(Value()), outcome, checked, now)
    {
      match outcome {
        case Reply(res) =>
          if res.Failed? {
            reported := NoteStale(checked, now);
          } else if |res.keys| == 0 {
            reported := NoteStale(checked, now);
          } else {
            keys := res.keys;
            lastSuccess := Some(now);
            staleLogged := false;
            reported := false;
          }
        case TimedOut =>
          reported := NoteStale(checked, now);
      }
    }

    method GetPublicKeys() returns (r: Result<Keys, string>)
      ensures r == Offered(keys)
    {
      if |keys| == 0 {
        return Err(NO_KEYS);
      }
      return Ok(keys);
    }

    /** Verify tries each cached key in turn; when none accepts, the error is that of the last. */
    method Verify(verify: Verifier, token: string) returns (r: Result<Claims, string>)
      ensures var first := FirstAccepted(verify, token, keys, VerifyDefault);
              r == if first.Some? then Ok(first.value) else Err(LastError(verify, token, keys, VerifyDefault))
    {
      if |keys| == 0 {
        return Err(NO_KEYS);
      }
      var lastErr := "";
      for i := 0 to |keys|
        invariant FirstAccepted(verify, token, keys, VerifyDefault)
               == FirstAccepted(verify, token, keys[i..], VerifyDefault)
        invariant i > 0 ==> verify(token, keys[i - 1], VerifyDefault) == Err(lastErr)
      {
        var v := verify(token, keys[i], VerifyDefault);
        if v.Ok? {
          return v;
        }
        lastErr := v.error;
      }
      return Err(lastErr);
    }
  }
}
