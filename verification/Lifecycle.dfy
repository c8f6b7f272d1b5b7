/** The life of an application: initializers, background routines, shutdown. */
module Lifecycle {
  import opened Wrappers
  import KeyCache
  import RateLimit
  import opened Supervisor

  /** The shipped initializers, and any other. */
  datatype Initializer =
    | JWTKeys(refreshSecs: int, timeoutSecs: int)
    | RateLimiter(rps: int, burst: int, idleTTLSecs: int)
    | OtherInitializer(fails: bool)

  datatype Routine = JWTKeysFetcher | RateLimitEvictor | OtherRoutine

  /** What the initializers prepare: the key cache's settings and the limiter of the gRPC
      configuration. */
  datatype Settings = Settings(cache: KeyCache.State, limiter: Option<RateLimit.Config>)

  const UNSET := Settings(KeyCache.FRESH, None)

  function Initialize(s: Settings, i: Initializer): Settings {
    match i
    case JWTKeys(refresh, timeout) =>
      s.(cache := KeyCache.ConfigureStep(s.cache, refresh * KeyCache.SECOND, timeout * KeyCache.SECOND))
    case RateLimiter(rps, burst, ttl) =>
      s.(limiter := Some(RateLimit.Config(rps as real, burst, ttl * KeyCache.SECOND)))
    case OtherInitializer(_) => s
  }

  function InitializeAll(s: Settings, inits: seq<Initializer>): Settings
    decreases |inits|
  {
    if inits == [] then s else InitializeAll(Initialize(s, inits[0]), inits[1..])
  }

  class GrpcConfig {
    var rateLimiter: RateLimit.Limiter?

    constructor ()
      ensures rateLimiter == null
    {
      rateLimiter := null;
    }
  }

  class App {
    const cache: KeyCache.Cache
    const grpcConfig: GrpcConfig

    constructor (cache: KeyCache.Cache, grpcConfig: GrpcConfig)
      ensures this.cache == cache && this.grpcConfig == grpcConfig
    {
      this.cache := cache;
      this.grpcConfig := grpcConfig;
    }

    function Current(): Settings
      reads cache, grpcConfig
    {
      Settings(cache.Value(), if grpcConfig.rateLimiter == null then None else Some(grpcConfig.rateLimiter.cfg))
    }

    /** Every initializer runs, in order; a failing one is only logged. */
    method RunInitializers(initializers: seq<Initializer>)
      modifies cache, grpcConfig
      ensures Current() == InitializeAll(old(Current()), initializers)
    {
      ghost var done := InitializeAll(Current(), initializers);
      for k := 0 to |initializers|
        invariant done == InitializeAll(Current(), initializers[k..])
      {
        assert initializers[k..][1..] == initializers[k + 1..];
        match initializers[k] {
          case JWTKeys(refresh, timeout) =>
            cache.Configure(refresh * KeyCache.SECOND, timeout * KeyCache.SECOND);
          case RateLimiter(rps, burst, ttl) =>
            grpcConfig.rateLimiter := new RateLimit.Limiter(rps as real, burst, ttl * KeyCache.SECOND);
          case OtherInitializer(_) =>
        }
      }
    }
  }

  // ------------------------------------------------------------------------- all interleavings

  datatype Phase = Initializing(next: nat) | Spawning(next: nat) | Serving | Stopping | Awaiting | ShutdownComplete

  /** Where a background routine is.  The key fetcher remembers the interval of its ticker, the
      evictor the limiter its latest tick saw, and whether it received from ctx.Done. */
  datatype Place =
    | Fetching(control: Control, ticker: Option<int>)
    | Evicting(done: bool, swept: Option<Option<RateLimit.Config>>)
    | Elsewhere

  datatype Status = NotStarted | Running(place: Place) | Finished

  datatype System = System(
    phase: Phase,
    settings: Settings,
    cancelled: bool,
    now: int,
    waitGroup: int,
    routines: seq<Status>)

  datatype Label =
    | RunInitializer
    | AddToWaitGroup
    | Spawn
    | Serve
    | Signal
    | CancelContext
    | Shutdown
    | Advance(delay: nat)
    | FirstRefreshDone(r: nat)
    | FetcherMove(r: nat, move: Move)
    | EvictorTick(r: nat)
    | EvictorDone(r: nat)
    | End(r: nat)

  datatype Setup = Setup(initializers: seq<Initializer>, routines: seq<Routine>)

  function Init(setup: Setup): System {
    System(Initializing(0), UNSET, false, 0, 0, seq(|setup.routines|, _ => NotStarted))
  }

  function PlaceOf(routine: Routine): Place {
    match routine
    case JWTKeysFetcher => Fetching(FirstRefresh, None)
    case RateLimitEvictor => Evicting(false, None)
    case OtherRoutine => Elsewhere
  }

  predicate IsRunning(s: System, r: nat) {
    r < |s.routines| && s.routines[r].Running?
  }

  predicate IsFetching(s: System, r: nat) {
    IsRunning(s, r) && s.routines[r].place.Fetching?
  }

  predicate IsEvicting(s: System, r: nat) {
    IsRunning(s, r) && s.routines[r].place.Evicting?
  }

  /** The shipped routines call Done where their loops return. */
  predicate MayEnd(place: Place) {
    match place
    case Fetching(control, _) => control.Ended?
    case Evicting(done, _) => done
    case Elsewhere => true
  }

  predicate Enabled(setup: Setup, s: System, l: Label) {
    match l
    case RunInitializer => s.phase.Initializing? && s.phase.next < |setup.initializers|
    case AddToWaitGroup => s.phase == Initializing(|setup.initializers|)
    case Spawn => s.phase.Spawning? && s.phase.next < |setup.routines| == |s.routines|
    case Serve => s.phase == Spawning(|setup.routines|)
    case Signal => s.phase.Serving?
    case CancelContext => s.phase.Stopping?
    case Shutdown => s.phase.Awaiting? && s.waitGroup == 0
    case Advance(_) => true
    case FirstRefreshDone(r) => IsFetching(s, r) && s.routines[r].place.control.FirstRefresh?
    case FetcherMove(r, move) => IsFetching(s, r) && CanMove(s.routines[r].place.control, move, s.cancelled, s.now)
    case EvictorTick(r) => IsEvicting(s, r) && !s.routines[r].place.done
    case EvictorDone(r) => IsEvicting(s, r) && s.cancelled
    case End(r) => IsRunning(s, r) && MayEnd(s.routines[r].place)
  }

  function WithPlace(s: System, r: nat, place: Place): System
    requires r < |s.routines|
  {
    s.(routines := s.routines[r := Running(place)])
  }

  function Step(setup: Setup, s: System, l: Label): System
    requires Enabled(setup, s, l)
  {
    match l
    case RunInitializer =>
      s.(phase := Initializing(s.phase.next + 1), settings := Initialize(s.settings, setup.initializers[s.phase.next]))
    case AddToWaitGroup => s.(phase := Spawning(0), waitGroup := s.waitGroup + |setup.routines|)
    case Spawn =>
      var r := s.phase.next;
      WithPlace(s, r, PlaceOf(setup.routines[r])).(phase := Spawning(r + 1))
    case Serve => s.(phase := Serving)
    case Signal => s.(phase := Stopping)
    case CancelContext => s.(phase := Awaiting, cancelled := true)
    case Shutdown => s.(phase := ShutdownComplete)
    case Advance(delay) => s.(now := s.now + delay)
    case FirstRefreshDone(r) => WithPlace(s, r, s.routines[r].place.(control := Entering))
    case FetcherMove(r, move) =>
      var place := s.routines[r].place;
      WithPlace(s, r, Fetching(Moved(place.control, move, s.now),
                               if move.MakeTicker? then Some(s.settings.cache.refreshInterval) else place.ticker))
    case EvictorTick(r) => WithPlace(s, r, s.routines[r].place.(swept := Some(s.settings.limiter)))
    case EvictorDone(r) => WithPlace(s, r, s.routines[r].place.(done := true))
    case End(r) => s.(routines := s.routines[r := Finished], waitGroup := s.waitGroup - 1)
  }

  function Run(setup: Setup, ls: seq<Label>): Option<System> {
    if ls == [] then Some(Init(setup))
    else
      var before := Run(setup, ls[..|ls| - 1]);
      if before.Some? && Enabled(setup, before.value, ls[|ls| - 1])
      then Some(Step(setup, before.value, ls[|ls| - 1]))
      else None
  }

  function Unfinished(rs: seq<Status>): nat {
    if rs == [] then 0 else Unfinished(rs[..|rs| - 1]) + (if rs[|rs| - 1].Finished? then 0 else 1)
  }

  lemma {:induction false} UnfinishedUpdate(rs: seq<Status>, r: nat, new': Status)
    requires r < |rs|
    ensures Unfinished(rs[r := new'])
         == Unfinished(rs) - (if rs[r].Finished? then 0 else 1) + (if new'.Finished? then 0 else 1)
  {
    var rest := rs[..|rs| - 1];
    if r < |rs| - 1 {
      assert rs[r := new'][..|rs| - 1] == rest[r := new'];
      UnfinishedUpdate(rest, r, new');
    } else {
      assert rs[r := new'][..|rs| - 1] == rest;
    }
  }

  lemma {:induction false} AllUnfinished(rs: seq<Status>)
    requires forall r | 0 <= r < |rs| :: rs[r].NotStarted?
    ensures Unfinished(rs) == |rs|
  {
    if rs != [] {
      AllUnfinished(rs[..|rs| - 1]);
    }
  }

  lemma {:induction false} NoneUnfinished(rs: seq<Status>, r: nat)
    requires Unfinished(rs) == 0 && r < |rs|
    ensures rs[r].Finished?
  {
    if r < |rs| - 1 {
      NoneUnfinished(rs[..|rs| - 1], r);
    }
  }

  /** How far the initializers have come, and that the first `Started` routines are the only
      ones ever started. */
  function Initialized(setup: Setup, p: Phase): nat {
    if p.Initializing? && p.next <= |setup.initializers| then p.next else |setup.initializers|
  }

  function Started(setup: Setup, p: Phase): nat {
    if p.Initializing? then 0 else if p.Spawning? then p.next else |setup.routines|
  }

  /** A running routine works with what the initializers prepared; a shipped one is past its loop,
      and a finished one can be, only when the context is cancelled. */
  ghost predicate RoutineOk(setup: Setup, routine: Routine, status: Status, cancelled: bool) {
    var prepared := InitializeAll(UNSET, setup.initializers);
    match status
    case NotStarted => true
    case Finished => routine.OtherRoutine? || cancelled
    case Running(Fetching(control, ticker)) =>
      routine.JWTKeysFetcher? && Honest(control, cancelled) &&
      (ticker.Some? ==> ticker.value == prepared.cache.refreshInterval)
    case Running(Evicting(done, swept)) =>
      routine.RateLimitEvictor? && (done ==> cancelled) && (swept.Some? ==> swept.value == prepared.limiter)
    case Running(Elsewhere) => routine.OtherRoutine?
  }

  ghost predicate Inv(setup: Setup, s: System) {
    && |s.routines| == |setup.routines|
    && Started(setup, s.phase) <= |setup.routines|
    && (s.phase.Initializing? ==> s.phase.next <= |setup.initializers|)
    && s.settings == InitializeAll(UNSET, setup.initializers[..Initialized(setup, s.phase)])
    && (forall r | 0 <= r < |s.routines| :: s.routines[r].NotStarted? <==> r >= Started(setup, s.phase))
    && (forall r | 0 <= r < |s.routines| :: RoutineOk(setup, setup.routines[r], s.routines[r], s.cancelled))
    && s.waitGroup == (if s.phase.Initializing? then 0 else Unfinished(s.routines))
    && (s.phase.ShutdownComplete? ==> s.waitGroup == 0)
    && (s.cancelled <==> s.phase.Awaiting? || s.phase.ShutdownComplete?)
  }

  lemma {:induction false} InitializeSnoc(s: Settings, inits: seq<Initializer>, i: Initializer)
    ensures InitializeAll(s, inits + [i]) == Initialize(InitializeAll(s, inits), i)
    decreases |inits|
  {
    if inits == [] {
      assert ([i])[1..] == [] && inits + [i] == [i];
    } else {
      assert (inits + [i])[1..] == inits[1..] + [i];
      InitializeSnoc(Initialize(s, inits[0]), inits[1..], i);
    }
  }

  lemma RunningSettings(setup: Setup, s: System, r: nat)
    requires Inv(setup, s) && IsRunning(s, r)
    ensures s.settings == InitializeAll(UNSET, setup.initializers)
    ensures RoutineOk(setup, setup.routines[r], s.routines[r], s.cancelled)
  {
    assert setup.initializers[..|setup.initializers|] == setup.initializers;
  }

  /** A running routine changes, or ends. */
  lemma RoutineKeepsInv(setup: Setup, s: System, r: nat, status: Status)
    requires Inv(setup, s) && IsRunning(s, r)
    requires !status.NotStarted? && RoutineOk(setup, setup.routines[r], status, s.cancelled)
    ensures Inv(setup, s.(routines := s.routines[r := status],
                          waitGroup := s.waitGroup - (if status.Finished? then 1 else 0)))
  {
    hide InitializeAll, Unfinished, RoutineOk;
    UnfinishedUpdate(s.routines, r, status);
    AfterShutdown(setup, s, r);
  }

  /** The steps of a background routine. */
  lemma RoutineStepKeepsInv(setup: Setup, s: System, l: Label)
    requires Inv(setup, s) && Enabled(setup, s, l)
    requires l.FirstRefreshDone? || l.FetcherMove? || l.EvictorTick? || l.EvictorDone? || l.End?
    ensures Inv(setup, Step(setup, s, l))
  {
    hide Inv, InitializeAll;
    RunningSettings(setup, s, l.r);
    if l.FetcherMove? {
      hide CanMove, Moved;
      MoveKeepsHonest(s.routines[l.r].place.control, l.move, s.cancelled, s.now);
    }
    RoutineKeepsInv(setup, s, l.r, Step(setup, s, l).routines[l.r]);
  }

  lemma CancelKeepsRoutine(setup: Setup, routine: Routine, status: Status)
    requires RoutineOk(setup, routine, status, false)
    ensures RoutineOk(setup, routine, status, true)
  {
  }

  lemma StepKeepsInv(setup: Setup, s: System, l: Label)
    requires Inv(setup, s) && Enabled(setup, s, l)
    ensures Inv(setup, Step(setup, s, l))
  {
    hide InitializeAll, Unfinished, Initialize, RoutineOk, CanMove, Moved;
    match l {
      case RunInitializer =>
        var k := s.phase.next;
        assert setup.initializers[..k + 1] == setup.initializers[..k] + [setup.initializers[k]];
        InitializeSnoc(UNSET, setup.initializers[..k], setup.initializers[k]);
      case AddToWaitGroup =>
        AllUnfinished(s.routines);
      case Spawn =>
        var r := s.phase.next;
        SpawnedOk(setup, setup.routines[r]);
        UnfinishedUpdate(s.routines, r, Running(PlaceOf(setup.routines[r])));
      case CancelContext =>
        forall r | 0 <= r < |s.routines| ensures RoutineOk(setup, setup.routines[r], s.routines[r], true) {
          CancelKeepsRoutine(setup, setup.routines[r], s.routines[r]);
        }
      case FirstRefreshDone(_) => RoutineStepKeepsInv(setup, s, l);
      case FetcherMove(_, _) => RoutineStepKeepsInv(setup, s, l);
      case EvictorTick(_) => RoutineStepKeepsInv(setup, s, l);
      case EvictorDone(_) => RoutineStepKeepsInv(setup, s, l);
      case End(_) => RoutineStepKeepsInv(setup, s, l);
      case _ =>
    }
  }

  lemma SpawnedOk(setup: Setup, routine: Routine)
    ensures RoutineOk(setup, routine, Running(PlaceOf(routine)), false)
  {
  }

  lemma AfterShutdown(setup: Setup, s: System, r: nat)
    requires Inv(setup, s) && IsRunning(s, r)
    ensures !s.phase.ShutdownComplete?
  {
    if s.phase.ShutdownComplete? {
      NoneUnfinished(s.routines, r);
    }
  }

  lemma {:induction false} RunInv(setup: Setup, ls: seq<Label>)
    requires Run(setup, ls).Some?
    ensures Inv(setup, Run(setup, ls).value)
    decreases |ls|
  {
    if ls == [] {
      assert setup.initializers[..0] == [];
    } else {
      RunInv(setup, ls[..|ls| - 1]);
      StepKeepsInv(setup, Run(setup, ls[..|ls| - 1]).value, ls[|ls| - 1]);
    }
  }

  // --------------------------------------------------------------- the state, told from the labels

  /** The time passed. */
  function Clock(ls: seq<Label>): nat {
    if ls == [] then 0
    else Clock(ls[..|ls| - 1]) + if ls[|ls| - 1].Advance? then ls[|ls| - 1].delay else 0
  }

  /** How far the application is. */
  ghost predicate PhaseTold(ls: seq<Label>, s: System) {
    var complete := s.phase.ShutdownComplete?;
    var cancelled := complete || s.phase.Awaiting?;
    var signalled := cancelled || s.phase.Stopping?;
    && s.now == Clock(ls)
    && (AddToWaitGroup in ls <==> !s.phase.Initializing?)
    && (Serve in ls <==> signalled || s.phase.Serving?)
    && (Signal in ls <==> signalled)
    && (CancelContext in ls <==> cancelled)
    && (Shutdown in ls <==> complete)
  }

  /** How far a routine is. */
  ghost predicate RoutineTold(ls: seq<Label>, r: nat, status: Status) {
    && (status.NotStarted? ==> FirstRefreshDone(r) !in ls && EvictorTick(r) !in ls && EvictorDone(r) !in ls)
    && (status.Finished? <==> End(r) in ls)
    && match status
       case Running(Fetching(control, ticker)) =>
         (control.FirstRefresh? <==> FirstRefreshDone(r) !in ls) && (control.Ticking? ==> ticker.Some?)
       case Running(Evicting(done, swept)) =>
         (swept.Some? <==> EvictorTick(r) in ls) && (done <==> EvictorDone(r) in ls)
       case _ => true
  }

  lemma StepKeepsPhaseTold(setup: Setup, ls: seq<Label>, s: System, l: Label)
    requires PhaseTold(ls, s) && Enabled(setup, s, l)
    ensures PhaseTold(ls + [l], Step(setup, s, l))
  {
    hide Initialize, CanMove, Moved;
    assert (ls + [l])[..|ls|] == ls;
  }

  lemma StepKeepsRoutineTold(setup: Setup, ls: seq<Label>, s: System, l: Label, r: nat)
    requires r < |s.routines| && RoutineTold(ls, r, s.routines[r]) && Enabled(setup, s, l)
    requires l.Spawn? ==> s.routines[s.phase.next].NotStarted?
    ensures RoutineTold(ls + [l], r, Step(setup, s, l).routines[r])
  {
    hide Initialize;
  }

  /** In every run the phase, the time and the progress of every routine are told from the labels. */
  lemma {:induction false} RunTold(setup: Setup, ls: seq<Label>)
    requires Run(setup, ls).Some?
    ensures var s := Run(setup, ls).value;
            PhaseTold(ls, s) && forall r: nat | r < |s.routines| :: RoutineTold(ls, r, s.routines[r])
    decreases |ls|
  {
    if ls != [] {
      var front, last := ls[..|ls| - 1], ls[|ls| - 1];
      assert ls == front + [last];
      RunTold(setup, front);
      RunInv(setup, front);
      var s := Run(setup, front).value;
      hide PhaseTold, RoutineTold, RoutineOk, Step, InitializeAll;
      StepKeepsPhaseTold(setup, front, s, last);
      StepKeepsInv(setup, s, last);
      forall r: nat | r < |s.routines| ensures RoutineTold(ls, r, Run(setup, ls).value.routines[r]) {
        StepKeepsRoutineTold(setup, front, s, last, r);
      }
    }
  }

  // ------------------------------------------------------------------------ the main results

  /** No background routine runs before every initializer has returned. */
  lemma RoutinesStartInitialized(setup: Setup, ls: seq<Label>, r: nat)
    requires Run(setup, ls).Some? && r < |setup.routines|
    ensures var s := Run(setup, ls).value;
            r < |s.routines| && (!s.routines[r].NotStarted? ==>
              !s.phase.Initializing? && s.settings == InitializeAll(UNSET, setup.initializers))
  {
    RunInv(setup, ls);
    assert setup.initializers[..|setup.initializers|] == setup.initializers;
  }

  /** The counter is the number of unfinished routines, never negative, and a completed
      shutdown means that all of them have finished. */
  lemma ShutdownWaitsForAll(setup: Setup, ls: seq<Label>)
    requires Run(setup, ls).Some?
    ensures var s := Run(setup, ls).value;
            && s.waitGroup >= 0
            && (!s.phase.Initializing? ==> s.waitGroup == Unfinished(s.routines))
            && (s.phase.ShutdownComplete? ==> forall r | 0 <= r < |s.routines| :: s.routines[r].Finished?)
  {
    RunInv(setup, ls);
    var s := Run(setup, ls).value;
    if s.phase.ShutdownComplete? {
      forall r | 0 <= r < |s.routines| ensures s.routines[r].Finished? {
        NoneUnfinished(s.routines, r);
      }
    }
  }

  /** The last positive refresh interval any initializer configures, else the default. */
  function ConfiguredInterval(inits: seq<Initializer>): int {
    if inits == [] then KeyCache.DEFAULT_REFRESH_INTERVAL
    else
      var last := inits[|inits| - 1];
      if last.JWTKeys? && last.refreshSecs > 0 then last.refreshSecs * KeyCache.SECOND
      else ConfiguredInterval(inits[..|inits| - 1])
  }

  /** The last positive fetch timeout any initializer configures, else the default. */
  function ConfiguredTimeout(inits: seq<Initializer>): int {
    if inits == [] then KeyCache.DEFAULT_FETCH_TIMEOUT
    else
      var last := inits[|inits| - 1];
      if last.JWTKeys? && last.timeoutSecs > 0 then last.timeoutSecs * KeyCache.SECOND
      else ConfiguredTimeout(inits[..|inits| - 1])
  }

  function AttachedLimiter(inits: seq<Initializer>): Option<RateLimit.Config> {
    if inits == [] then None
    else
      var last := inits[|inits| - 1];
      if last.RateLimiter? then Some(RateLimit.Config(last.rps as real, last.burst, last.idleTTLSecs * KeyCache.SECOND))
      else AttachedLimiter(inits[..|inits| - 1])
  }

  lemma {:induction false} PreparedSettings(inits: seq<Initializer>)
    ensures InitializeAll(UNSET, inits).cache.refreshInterval == ConfiguredInterval(inits)
    ensures InitializeAll(UNSET, inits).cache.refreshTimeout == ConfiguredTimeout(inits)
    ensures InitializeAll(UNSET, inits).limiter == AttachedLimiter(inits)
    decreases |inits|
  {
    if inits != [] {
      var front, last := inits[..|inits| - 1], inits[|inits| - 1];
      PreparedSettings(front);
      assert inits == front + [last];
      InitializeSnoc(UNSET, front, last);
    }
  }

  /** In every run the key fetcher ticks at the configured interval, and every sweep of the evictor
      sees the limiter that the initializers attached. */
  lemma RoutinesSeeConfiguration(setup: Setup, ls: seq<Label>, r: nat)
    requires Run(setup, ls).Some? && r < |setup.routines|
    ensures var s := Run(setup, ls).value;
            && r < |s.routines|
            && (IsFetching(s, r) && s.routines[r].place.control.Ticking? ==>
                  s.routines[r].place.ticker == Some(ConfiguredInterval(setup.initializers)))
            && (IsEvicting(s, r) ==>
                  s.routines[r].place.swept ==
                  if EvictorTick(r) in ls then Some(AttachedLimiter(setup.initializers)) else None)
  {
    RunInv(setup, ls);
    RunTold(setup, ls);
    var s := Run(setup, ls).value;
    assert RoutineTold(ls, r, s.routines[r]);
    assert RoutineOk(setup, setup.routines[r], s.routines[r], s.cancelled);
    PreparedSettings(setup.initializers);
  }

  /** A shipped routine finishes only after the context was cancelled, whatever panics occur in
      its loop; that is after the signal, and after the servers have stopped. */
  lemma ShippedEndOnlyCancelled(setup: Setup, ls: seq<Label>, r: nat)
    requires Run(setup, ls).Some? && r < |setup.routines| && !setup.routines[r].OtherRoutine?
    ensures var s := Run(setup, ls).value;
            r < |s.routines| && (s.routines[r].Finished? ==> s.phase.Awaiting? || s.phase.ShutdownComplete?)
  {
    RunInv(setup, ls);
    var s := Run(setup, ls).value;
    assert RoutineOk(setup, setup.routines[r], s.routines[r], s.cancelled);
  }
}
