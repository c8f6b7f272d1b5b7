/** All runs of a key cache with one refresh loop: fetches in child goroutines with a channel of
    capacity one each, timeouts, panics, configuration, cancellation and readers, interleaved in
    any order. */
module KeyCacheRuns {
  import opened Wrappers
  import opened KeyCache
  import opened Supervisor

  /** A fetch: still calling the service, about to send its result, or finished. */
  datatype Phase = Calling | Sending(result: FetchResult) | Finished

  datatype Child = Child(phase: Phase, chan: seq<FetchResult>, sent: nat)

  const CHANNEL_CAPACITY := 1

  /** The refresh that the goroutine of the loop is in, if any. */
  datatype Refresh = Idle | Selecting(id: nat, deadline: int) | Selected(outcome: Outcome)

  datatype System = System(
    cache: State,
    now: int,
    cancelled: bool,
    control: Control,
    refresh: Refresh,
    children: map<nat, Child>,
    reports: seq<int>)

  datatype Label =
    | Advance(delay: nat)
    | Begin(id: nat)
    | FetchReturn(id: nat, result: FetchResult)
    | FetchPanic(id: nat)
    | FetchSend(id: nat)
    | TakeReply(id: nat)
    | TakeTimeout(id: nat)
    | Finish(delay: nat)
    | Loop(move: Move)
    | Cancel
    | Configure(interval: int, timeout: int)
    | Read(seen: Keys)

  function Init(now: int): System {
    System(FRESH, now, false, FirstRefresh, Idle, map[], [])
  }

  function WithPhase(s: System, id: nat, phase: Phase): System
    requires id in s.children
  {
    s.(children := s.children[id := s.children[id].(phase := phase)])
  }

  /** The good keys that a select has received but that are not stored yet. */
  predicate Storing(s: System) {
    s.refresh.Selected? && s.refresh.outcome.Reply? && IsGood(s.refresh.outcome.result)
  }

  /** A panic may happen anywhere in tick but between receiving good keys and storing them; all
      other moves of the loop are made outside a refresh. */
  predicate Enabled(s: System, l: Label) {
    match l
    case Advance(_) => true
    case Begin(id) => s.refresh.Idle? && (s.control.FirstRefresh? || s.control.Ticking?) && id !in s.children
    case FetchReturn(id, _) => id in s.children && s.children[id].phase.Calling?
    case FetchPanic(id) => id in s.children && s.children[id].phase.Calling?
    case FetchSend(id) =>
      id in s.children && s.children[id].phase.Sending? && |s.children[id].chan| < CHANNEL_CAPACITY
    case TakeReply(id) =>
      s.refresh.Selecting? && s.refresh.id == id && id in s.children && s.children[id].chan != []
    case TakeTimeout(id) => s.refresh.Selecting? && s.refresh.id == id && s.now >= s.refresh.deadline
    case Finish(_) => s.refresh.Selected?
    case Loop(move) =>
      CanMove(s.control, move, s.cancelled, s.now) && (if move.Panic? then !Storing(s) else s.refresh.Idle?)
    case Cancel => true
    case Configure(_, _) => true
    case Read(seen) => seen == s.cache.keys
  }

  function Step(s: System, l: Label): System
    requires Enabled(s, l)
  {
    match l
    case Advance(delay) => s.(now := s.now + delay)
    case Begin(id) =>
      s.(refresh := Selecting(id, s.now + s.cache.refreshTimeout), children := s.children[id := Child(Calling, [], 0)])
    case FetchReturn(id, result) => WithPhase(s, id, Sending(result))
    case FetchPanic(id) => WithPhase(s, id, Sending(Failed))
    case FetchSend(id) =>
      var c := s.children[id];
      s.(children := s.children[id := Child(Finished, c.chan + [c.phase.result], c.sent + 1)])
    case TakeReply(id) =>
      var c := s.children[id];
      s.(refresh := Selected(Reply(c.chan[0])), children := s.children[id := c.(chan := c.chan[1..])])
    case TakeTimeout(_) => s.(refresh := Selected(TimedOut))
    case Finish(delay) =>
      var now := s.now + delay;
      var (cache, reported) := RefreshStep(s.cache, s.refresh.outcome, s.now, now);
      s.(cache := cache, now := now, refresh := Idle,
         control := if s.control.FirstRefresh? then Entering else s.control,
         reports := if reported then s.reports + [now] else s.reports)
    case Loop(move) => s.(control := Moved(s.control, move, s.now), refresh := Idle)
    case Cancel => s.(cancelled := true)
    case Configure(interval, timeout) => s.(cache := ConfigureStep(s.cache, interval, timeout))
    case Read(_) => s
  }

  /** The labels of a run that starts at time `start`; None when one is not enabled. */
  function Run(start: int, ls: seq<Label>): Option<System> {
    if ls == [] then Some(Init(start))
    else
      var before := Run(start, Front(ls));
      if before.Some? && Enabled(before.value, Last(ls)) then Some(Step(before.value, Last(ls))) else None
  }

  function Front(ls: seq<Label>): seq<Label>
    requires ls != []
  {
    ls[..|ls| - 1]
  }

  function Last(ls: seq<Label>): Label
    requires ls != []
  {
    ls[|ls| - 1]
  }

  // ------------------------------------------------------------------ history, from labels

  /** What fetch `id` came back with, a panic counting as a failure. */
  function ReplyOf(ls: seq<Label>, id: nat): Option<FetchResult> {
    if ls == [] then None
    else match Last(ls)
      case FetchReturn(i, result) => if i == id then Some(result) else ReplyOf(Front(ls), id)
      case FetchPanic(i) => if i == id then Some(Failed) else ReplyOf(Front(ls), id)
      case _ => ReplyOf(Front(ls), id)
  }

  predicate TakesGood(ls: seq<Label>, l: Label) {
    l.TakeReply? && ReplyOf(ls, l.id).Some? && IsGood(ReplyOf(ls, l.id).value)
  }

  /** The keys of the latest refresh whose own select received a non-empty success. */
  function LatestGood(ls: seq<Label>): Keys {
    if ls == [] then []
    else if TakesGood(Front(ls), Last(ls)) then ReplyOf(Front(ls), Last(ls).id).value.keys
    else LatestGood(Front(ls))
  }

  /** The keys of the refresh before that one. */
  function PreviousGood(ls: seq<Label>): Keys {
    if ls == [] then []
    else if TakesGood(Front(ls), Last(ls)) then LatestGood(Front(ls))
    else PreviousGood(Front(ls))
  }

  /** Whether the latest select to end received a non-empty success. */
  predicate SelectedGood(ls: seq<Label>) {
    ls != [] &&
    match Last(ls)
    case TakeReply(_) => TakesGood(Front(ls), Last(ls))
    case TakeTimeout(_) => false
    case _ => SelectedGood(Front(ls))
  }

  /** The time after a run that starts at `start`. */
  function Clock(start: int, ls: seq<Label>): int {
    if ls == [] then start
    else match Last(ls)
      case Advance(delay) => Clock(start, Front(ls)) + delay
      case Finish(delay) => Clock(start, Front(ls)) + delay
      case _ => Clock(start, Front(ls))
  }

  /** When the latest refresh that received a non-empty success ended, and stored it. */
  function LastStored(start: int, ls: seq<Label>): Option<int> {
    if ls == [] then None
    else if Last(ls).Finish? && SelectedGood(Front(ls)) then Some(Clock(start, ls))
    else LastStored(start, Front(ls))
  }

  /** The refresh interval: the positive one configured last, else the default. */
  function IntervalSet(ls: seq<Label>): int {
    if ls == [] then DEFAULT_REFRESH_INTERVAL
    else if Last(ls).Configure? && Last(ls).interval > 0 then Last(ls).interval
    else IntervalSet(Front(ls))
  }

  /** The fetch timeout: the positive one configured last, else the default. */
  function TimeoutSet(ls: seq<Label>): int {
    if ls == [] then DEFAULT_FETCH_TIMEOUT
    else if Last(ls).Configure? && Last(ls).timeout > 0 then Last(ls).timeout
    else TimeoutSet(Front(ls))
  }

  /** When runLoop last branched on the result of tick. */
  function BranchedAt(start: int, ls: seq<Label>): int {
    if ls == [] then start
    else if Last(ls) == Loop(Branch) then Clock(start, ls)
    else BranchedAt(start, Front(ls))
  }

  // ------------------------------------------------------------------------- the invariants

  /** A child that is about to send finds its channel empty; a finished one sent once. */
  ghost predicate ChildOk(c: Child, reply: Option<FetchResult>) {
    match c.phase
    case Calling => c.sent == 0 && c.chan == [] && reply.None?
    case Sending(result) => c.sent == 0 && c.chan == [] && reply == Some(result)
    case Finished => c.sent == 1 && reply.Some? && (c.chan == [] || c.chan == [reply.value])
  }

  /** The fetches of a run, tied to the run's labels. */
  ghost predicate FetchesInv(ls: seq<Label>, s: System) {
    && (forall id | id in s.children :: ChildOk(s.children[id], ReplyOf(ls, id)))
    && (forall id: nat | id !in s.children :: ReplyOf(ls, id).None?)
    && (s.refresh.Selecting? ==> s.refresh.id in s.children)
  }

  /** The cache of a run, tied to the run's labels. */
  ghost predicate CacheInv(ls: seq<Label>, s: System) {
    && (if Storing(s) then LatestGood(ls) == s.refresh.outcome.result.keys else LatestGood(ls) == s.cache.keys)
    && (Storing(s) ==> s.cache.keys == PreviousGood(ls))
    && (s.cache.keys != [] <==> s.cache.lastSuccess.Some?)
    && (s.cache.lastSuccess.Some? ==> s.cache.lastSuccess.value <= s.now)
    && s.cache.refreshInterval > 0 && s.cache.refreshTimeout > 0
    && Honest(s.control, s.cancelled)
    && (s.cancelled <==> Cancel in ls)
  }

  ghost predicate Inv(ls: seq<Label>, s: System) {
    FetchesInv(ls, s) && CacheInv(ls, s)
  }

  lemma CancelLabel(ls: seq<Label>)
    requires ls != []
    ensures Cancel in ls <==> Cancel in Front(ls) || Last(ls) == Cancel
  {
    assert ls == Front(ls) + [Last(ls)];
  }

  /** Labels that change a fetch. */
  predicate Touches(l: Label) {
    l.Begin? || l.FetchReturn? || l.FetchPanic? || l.FetchSend? || l.TakeReply?
  }

  lemma OthersTouchNoFetch(s: System, l: Label)
    requires Enabled(s, l) && !Touches(l)
    ensures Step(s, l).children == s.children
  {
    hide RefreshStep, ConfigureStep;
  }

  lemma StepKeepsFetch(ls: seq<Label>, s: System, id: nat)
    requires ls != [] && FetchesInv(Front(ls), s) && Enabled(s, Last(ls))
    ensures var s' := Step(s, Last(ls));
            if id in s'.children then ChildOk(s'.children[id], ReplyOf(ls, id))
            else id !in s.children && ReplyOf(ls, id).None?
  {
    hide RefreshStep, ConfigureStep;
    assert id in s.children ==> ChildOk(s.children[id], ReplyOf(Front(ls), id));
    if !Touches(Last(ls)) {
      hide Enabled, Step;
      OthersTouchNoFetch(s, Last(ls));
    } else if Last(ls).id != id {
      assert ReplyOf(ls, id) == ReplyOf(Front(ls), id);
    }
  }

  lemma StepKeepsFetches(ls: seq<Label>, s: System)
    requires ls != [] && FetchesInv(Front(ls), s) && Enabled(s, Last(ls))
    ensures FetchesInv(ls, Step(s, Last(ls)))
  {
    hide RefreshStep, ConfigureStep, ChildOk, ReplyOf;
    forall id: nat ensures var s' := Step(s, Last(ls));
      if id in s'.children then ChildOk(s'.children[id], ReplyOf(ls, id))
      else id !in s.children && ReplyOf(ls, id).None?
    {
      StepKeepsFetch(ls, s, id);
    }
  }

  lemma StepKeepsCache(ls: seq<Label>, s: System)
    requires ls != [] && Inv(Front(ls), s) && Enabled(s, Last(ls))
    ensures CacheInv(ls, Step(s, Last(ls)))
  {
    CancelLabel(ls);
    var l := Last(ls);
    if l.TakeReply? {
      assert ChildOk(s.children[l.id], ReplyOf(Front(ls), l.id));
    }
  }

  lemma StepKeepsInv(ls: seq<Label>, s: System)
    requires ls != [] && Inv(Front(ls), s) && Enabled(s, Last(ls))
    ensures Inv(ls, Step(s, Last(ls)))
  {
    hide FetchesInv, CacheInv, Enabled, Step;
    assert FetchesInv(Front(ls), s);
    StepKeepsFetches(ls, s);
    StepKeepsCache(ls, s);
  }

  lemma {:induction false} RunInv(start: int, ls: seq<Label>)
    requires Run(start, ls).Some?
    ensures Inv(ls, Run(start, ls).value)
    decreases |ls|
  {
    if ls != [] {
      RunInv(start, Front(ls));
      StepKeepsInv(ls, Run(start, Front(ls)).value);
    }
  }

  lemma {:induction false} RunPrefix(start: int, ls: seq<Label>, i: nat)
    requires Run(start, ls).Some? && i <= |ls|
    ensures Run(start, ls[..i]).Some?
    decreases |ls|
  {
    if i == |ls| {
      assert ls[..i] == ls;
    } else {
      assert ls[..i] == Front(ls)[..i];
      RunPrefix(start, Front(ls), i);
    }
  }

  // ------------------------------------------------------------------------ the main results

  /** In every run the cached keys are those of the latest refresh that received a non-empty
      success in its own select; until that refresh has stored them, those of the one before. */
  lemma KeysAreLatestGood(start: int, ls: seq<Label>)
    requires Run(start, ls).Some?
    ensures var s := Run(start, ls).value;
            s.cache.keys == if Storing(s) then PreviousGood(ls) else LatestGood(ls)
  {
    RunInv(start, ls);
  }

  /** What a reader sees is the latest good result, or the one before it while the latest is
      being stored; it is empty only before the first success is stored. */
  lemma ReadersSeeGoodKeys(start: int, ls: seq<Label>, i: nat)
    requires Run(start, ls).Some? && i < |ls| && ls[i].Read?
    ensures var s := Run(start, ls[..i]);
            s.Some? && ls[i].seen == (if Storing(s.value) then PreviousGood(ls[..i]) else LatestGood(ls[..i]))
            && (ls[i].seen == [] <==> s.value.cache.lastSuccess.None?)
  {
    RunPrefix(start, ls, i + 1);
    RunInv(start, ls[..i + 1]);
    assert Front(ls[..i + 1]) == ls[..i];
    RunPrefix(start, ls, i);
    RunInv(start, ls[..i]);
  }

  /** A send never blocks: whenever a child is about to send, its channel has room; and no
      channel ever gets a second message. */
  lemma SendsNeverBlock(start: int, ls: seq<Label>, id: nat)
    requires Run(start, ls).Some? && id in Run(start, ls).value.children
    ensures var s := Run(start, ls).value;
            s.children[id].sent <= 1 && (s.children[id].phase.Sending? ==> Enabled(s, FetchSend(id)))
  {
    RunInv(start, ls);
    assert ChildOk(Run(start, ls).value.children[id], ReplyOf(ls, id));
  }

  /** Selects end once: after a timeout of `id` nothing takes its reply, and `id` is not used
      again. */
  ghost predicate SelectOver(s: System, id: nat) {
    id in s.children && !(s.refresh.Selecting? && s.refresh.id == id)
  }

  lemma StepKeepsSelectOver(s: System, l: Label, id: nat)
    requires Enabled(s, l) && SelectOver(s, id)
    ensures SelectOver(Step(s, l), id) && l != TakeReply(id)
  {
    hide RefreshStep, ConfigureStep;
  }

  lemma {:induction false} SelectStaysOver(start: int, ls: seq<Label>, i: nat, id: nat)
    requires Run(start, ls).Some? && i <= |ls|
    requires Run(start, ls[..i]).Some? && SelectOver(Run(start, ls[..i]).value, id)
    ensures SelectOver(Run(start, ls).value, id)
    ensures forall j | i <= j < |ls| :: ls[j] != TakeReply(id)
    decreases |ls|
  {
    hide Step, Enabled, SelectOver;
    if i == |ls| {
      assert ls[..i] == ls;
    } else {
      assert ls[..i] == Front(ls)[..i];
      SelectStaysOver(start, Front(ls), i, id);
      StepKeepsSelectOver(Run(start, Front(ls)).value, Last(ls), id);
      assert forall j | i <= j < |ls| - 1 :: ls[j] == Front(ls)[j];
    }
  }

  /** A reply that comes after its timeout is never taken, and its arrival changes no field of
      the cache. */
  lemma LateRepliesIgnored(start: int, ls: seq<Label>, i: nat, id: nat)
    requires Run(start, ls).Some? && i < |ls| && ls[i] == TakeTimeout(id)
    ensures forall j | i <= j < |ls| :: ls[j] != TakeReply(id)
    ensures forall j | i < j < |ls| && ls[j] == FetchSend(id) ::
      Run(start, ls[..j]).Some? && Run(start, ls[..j + 1]).Some?
      && Run(start, ls[..j + 1]).value.cache == Run(start, ls[..j]).value.cache
  {
    RunPrefix(start, ls, i + 1);
    assert Front(ls[..i + 1]) == ls[..i];
    RunInv(start, ls[..i]);
    SelectStaysOver(start, ls, i + 1, id);
    forall j | i < j < |ls| && ls[j] == FetchSend(id)
      ensures Run(start, ls[..j]).Some? && Run(start, ls[..j + 1]).Some?
        && Run(start, ls[..j + 1]).value.cache == Run(start, ls[..j]).value.cache
    {
      SendKeepsCache(start, ls, j);
    }
  }

  lemma SendKeepsCache(start: int, ls: seq<Label>, j: nat)
    requires Run(start, ls).Some? && j < |ls| && ls[j].FetchSend?
    ensures Run(start, ls[..j]).Some? && Run(start, ls[..j + 1]).Some?
    ensures Run(start, ls[..j + 1]).value.cache == Run(start, ls[..j]).value.cache
  {
    RunPrefix(start, ls, j);
    RunPrefix(start, ls, j + 1);
    assert Front(ls[..j + 1]) == ls[..j];
  }

  /** Once there are keys, there are keys for the rest of the run. */
  lemma {:induction false} KeysStay(start: int, ls: seq<Label>, i: nat)
    requires Run(start, ls).Some? && i <= |ls|
    requires Run(start, ls[..i]).Some? && Run(start, ls[..i]).value.cache.keys != []
    ensures Run(start, ls).value.cache.keys != []
    decreases |ls|
  {
    if i == |ls| {
      assert ls[..i] == ls;
    } else {
      assert ls[..i] == Front(ls)[..i];
      KeysStay(start, Front(ls), i);
    }
  }

  /** The goroutine of the loop ends only after cancellation, whatever panics occur: tick returns
      true only when it saw the context cancelled, also when a panic follows that.  The interval a
      ticker is made with is always positive, so making one never panics. */
  lemma LoopEndsOnlyCancelled(start: int, ls: seq<Label>)
    requires Run(start, ls).Some?
    ensures var s := Run(start, ls).value;
            && (s.control.Ended? || s.control == Returned(true) ==> Cancel in ls)
            && s.cache.refreshInterval > 0 && s.cache.refreshTimeout > 0
  {
    RunInv(start, ls);
  }

  lemma StepKeepsHeldBack(s: System, l: Label, panicked: int)
    requires Enabled(s, l) && HeldBack(s.control, panicked, s.now)
    requires s.control.FirstRefresh? || s.control.Ticking? || s.refresh.Idle?
    ensures HeldBack(Step(s, l).control, panicked, Step(s, l).now)
  {
    hide RefreshStep, ConfigureStep;
    if l.Loop? {
      MoveKeepsHeldBack(s.control, l.move, s.cancelled, panicked, s.now);
    }
  }

  /** Refreshes happen in the first refresh and in tick only. */
  lemma {:induction false} RefreshPlaces(start: int, ls: seq<Label>)
    requires Run(start, ls).Some?
    ensures var s := Run(start, ls).value; s.control.FirstRefresh? || s.control.Ticking? || s.refresh.Idle?
    decreases |ls|
  {
    hide RefreshStep, ConfigureStep;
    if ls != [] {
      RefreshPlaces(start, Front(ls));
    }
  }

  lemma {:induction false} StaysHeldBack(start: int, ls: seq<Label>, i: nat, panicked: int)
    requires Run(start, ls).Some? && i <= |ls|
    requires Run(start, ls[..i]).Some?
    requires HeldBack(Run(start, ls[..i]).value.control, panicked, Run(start, ls[..i]).value.now)
    ensures HeldBack(Run(start, ls).value.control, panicked, Run(start, ls).value.now)
    decreases |ls|
  {
    hide Step, Enabled, HeldBack;
    if i == |ls| {
      assert ls[..i] == ls;
    } else {
      assert ls[..i] == Front(ls)[..i];
      StaysHeldBack(start, Front(ls), i, panicked);
      RefreshPlaces(start, Front(ls));
      StepKeepsHeldBack(Run(start, Front(ls)).value, Last(ls), panicked);
    }
  }

  /** After a panic no fetch begins for a minute. */
  lemma PanicsBackOff(start: int, ls: seq<Label>, i: nat, j: nat)
    requires Run(start, ls).Some? && i < j < |ls| && ls[i] == Loop(Panic) && ls[j].Begin?
    ensures Run(start, ls[..i]).Some? && Run(start, ls[..j]).Some?
    ensures Run(start, ls[..j]).value.now >= Run(start, ls[..i]).value.now + MINUTE
  {
    RunPrefix(start, ls, i);
    RunPrefix(start, ls, i + 1);
    RunPrefix(start, ls, j);
    RunPrefix(start, ls, j + 1);
    assert Front(ls[..i + 1]) == ls[..i] && Front(ls[..j + 1]) == ls[..j];
    assert ls[..j][..i + 1] == ls[..i + 1];
    StaysHeldBack(start, ls[..j], i + 1, Run(start, ls[..i]).value.now);
  }

  /** The clock, the last success, the settings, the end of a back-off and the outcome of a select,
      told from the labels. */
  ghost predicate TimesInv(start: int, ls: seq<Label>, s: System) {
    && s.now == Clock(start, ls)
    && s.cache.lastSuccess == LastStored(start, ls)
    && s.cache.refreshInterval == IntervalSet(ls)
    && s.cache.refreshTimeout == TimeoutSet(ls)
    && (s.control.BackingOff? ==> s.control.until == BranchedAt(start, ls) + MINUTE)
    && (s.refresh.Selected? ==> (Storing(s) <==> SelectedGood(ls)))
  }

  lemma StepKeepsTimes(start: int, ls: seq<Label>, s: System)
    requires ls != [] && TimesInv(start, Front(ls), s) && FetchesInv(Front(ls), s) && Enabled(s, Last(ls))
    ensures TimesInv(start, ls, Step(s, Last(ls)))
  {
    var l := Last(ls);
    if l.TakeReply? {
      assert ChildOk(s.children[l.id], ReplyOf(Front(ls), l.id));
    }
  }

  /** In every run the last success is the time at which the latest refresh that received a non-empty
      success stored it, and there is none before the first; the settings are those configured last. */
  lemma {:induction false} LastSuccessIsLatest(start: int, ls: seq<Label>)
    requires Run(start, ls).Some?
    ensures TimesInv(start, ls, Run(start, ls).value)
    decreases |ls|
  {
    hide TimesInv, Step, Enabled;
    if ls == [] {
      TimesStart(start);
    } else {
      LastSuccessIsLatest(start, Front(ls));
      RunInv(start, Front(ls));
      StepKeepsTimes(start, ls, Run(start, Front(ls)).value);
    }
  }

  lemma TimesStart(start: int)
    ensures TimesInv(start, [], Init(start))
  {
  }

  /** A goroutine that backs off goes on exactly a minute after tick has returned, or gives up when
      the context is cancelled. */
  lemma ResumesExactly(start: int, ls: seq<Label>)
    requires Run(start, ls).Some? && Run(start, ls).value.control.BackingOff?
    ensures var s := Run(start, ls).value;
            && (Enabled(s, Loop(Resume)) <==> Clock(start, ls) >= BranchedAt(start, ls) + MINUTE)
            && (Enabled(s, Loop(GiveUp)) <==> Cancel in ls)
  {
    LastSuccessIsLatest(start, ls);
    RunInv(start, ls);
    RefreshPlaces(start, ls);
  }

  lemma StepKeepsStopping(s: System, l: Label)
    requires Enabled(s, l) && Stopping(s.control) && l != Loop(Panic)
    ensures Stopping(Step(s, l).control) && !l.Begin?
    ensures Step(s, l).control.Ended? <==> s.control.Ended? || l == Loop(Branch)
  {
    hide RefreshStep, ConfigureStep;
  }

  /** Once tick has seen the cancellation, no fetch begins any more unless it panics, and with the
      next branch of runLoop the goroutine has ended. */
  lemma {:induction false} DoneEndsLoop(start: int, ls: seq<Label>, i: nat)
    requires Run(start, ls).Some? && i < |ls| && ls[i] == Loop(SeeDone)
    requires forall j | i < j < |ls| :: ls[j] != Loop(Panic)
    ensures Stopping(Run(start, ls).value.control)
    ensures forall j | i < j < |ls| :: !ls[j].Begin?
    ensures Run(start, ls).value.control.Ended? <==> exists j :: i < j < |ls| && ls[j] == Loop(Branch)
    decreases |ls|
  {
    hide RefreshStep, ConfigureStep;
    if i < |ls| - 1 {
      var front := Front(ls);
      assert forall j | i <= j < |front| :: ls[j] == front[j];
      DoneEndsLoop(start, front, i);
      hide Step, Enabled;
      StepKeepsStopping(Run(start, front).value, Last(ls));
    }
  }

  // ------------------------------------------------------------------------- never stuck

  ghost predicate CanBegin(s: System) {
    forall id | id !in s.children :: Enabled(s, Begin(id))
  }

  /** A step towards the next fetch, whatever the fetches under way do. */
  function Towards(s: System): Label {
    match s.refresh
    case Selecting(id, deadline) => if s.now < deadline then Advance(deadline - s.now) else TakeTimeout(id)
    case Selected(_) => Finish(0)
    case Idle =>
      match s.control
      case Panicking(_) => Loop(Recover)
      case Leaving(_) => Loop(Return)
      case Returned(_) => Loop(Branch)
      case BackingOff(until) => if s.now < until then Advance(until - s.now) else Loop(Resume)
      case _ => Loop(MakeTicker)
  }

  /** How far that is. */
  function Distance(s: System): nat {
    match s.refresh
    case Selecting(_, deadline) => if s.now < deadline then 4 else 3
    case Selected(_) => 2
    case Idle =>
      match s.control
      case Panicking(_) => 6
      case Leaving(_) => 6
      case Returned(_) => 5
      case BackingOff(until) => if s.now < until then 4 else 3
      case Entering => 1
      case _ => 0
  }

  lemma StepTowards(s: System)
    requires !Stopping(s.control) && (s.control.FirstRefresh? || s.control.Ticking? || s.refresh.Idle?)
    ensures CanBegin(s) ||
      (Enabled(s, Towards(s)) && !Stopping(Step(s, Towards(s)).control) && Distance(Step(s, Towards(s))) < Distance(s))
  {
    hide RefreshStep, ConfigureStep;
  }

  /** No run is stuck: unless tick has seen the cancellation, the goroutine can come to fetch again,
      after any panic and however late the fetches are. */
  lemma {:induction false} CanFetchAgain(start: int, ls: seq<Label>) returns (more: seq<Label>)
    requires Run(start, ls).Some? && !Stopping(Run(start, ls).value.control)
    ensures Run(start, ls + more).Some? && CanBegin(Run(start, ls + more).value)
    decreases Distance(Run(start, ls).value)
  {
    hide Step, Enabled, CanBegin, Towards, Distance;
    var s := Run(start, ls).value;
    RefreshPlaces(start, ls);
    StepTowards(s);
    if CanBegin(s) {
      more := [];
      assert ls + more == ls;
    } else {
      var l := Towards(s);
      assert Front(ls + [l]) == ls;
      var rest := CanFetchAgain(start, ls + [l]);
      more := [l] + rest;
      assert ls + more == ls + [l] + rest;
    }
  }

  // ------------------------------------------------------------------------------- timeouts

  /** The select of fetch `id`, if it is still going on, waits until `deadline` at least. */
  ghost predicate WaitsUntil(s: System, id: nat, deadline: int) {
    id in s.children && (s.refresh.Selecting? && s.refresh.id == id ==> s.refresh.deadline == deadline)
  }

  lemma StepKeepsDeadline(s: System, l: Label, id: nat, deadline: int)
    requires Enabled(s, l) && WaitsUntil(s, id, deadline)
    ensures WaitsUntil(Step(s, l), id, deadline)
  {
    hide RefreshStep, ConfigureStep;
  }

  lemma {:induction false} DeadlineStays(start: int, ls: seq<Label>, i: nat, id: nat, deadline: int)
    requires Run(start, ls).Some? && i <= |ls|
    requires Run(start, ls[..i]).Some? && WaitsUntil(Run(start, ls[..i]).value, id, deadline)
    ensures WaitsUntil(Run(start, ls).value, id, deadline)
    decreases |ls|
  {
    hide Step, Enabled, WaitsUntil;
    if i == |ls| {
      assert ls[..i] == ls;
    } else {
      assert ls[..i] == Front(ls)[..i];
      DeadlineStays(start, Front(ls), i, id, deadline);
      StepKeepsDeadline(Run(start, Front(ls)).value, Last(ls), id, deadline);
    }
  }

  /** A refresh times out exactly from the moment on at which the timeout that was configured when it
      began has passed, unless its select has ended. */
  lemma TimeoutExactly(start: int, ls: seq<Label>, i: nat, id: nat)
    requires Run(start, ls).Some? && i < |ls| && ls[i] == Begin(id)
    ensures Run(start, ls[..i]).Some?
    ensures var s := Run(start, ls).value;
            s.refresh.Selecting? && s.refresh.id == id ==>
              (Enabled(s, TakeTimeout(id)) <==> Clock(start, ls) >= Clock(start, ls[..i]) + TimeoutSet(ls[..i]))
  {
    RunPrefix(start, ls, i);
    RunPrefix(start, ls, i + 1);
    assert Front(ls[..i + 1]) == ls[..i];
    var began := Run(start, ls[..i]).value;
    DeadlineStays(start, ls, i + 1, id, began.now + began.cache.refreshTimeout);
    LastSuccessIsLatest(start, ls);
    LastSuccessIsLatest(start, ls[..i]);
  }

  // ------------------------------------------------------------------ throttling of reports

  /** `l`, taken in state `s`, stores fresh keys. */
  predicate Stores(s: System, l: Label) {
    l.Finish? && Storing(s)
  }

  /** Number of reports logged before the latest success. */
  function ReportsBefore(start: int, ls: seq<Label>): (n: nat)
    ensures Run(start, ls).Some? ==> n <= |Run(start, ls).value.reports|
  {
    if ls == [] then 0
    else
      var before := Run(start, Front(ls));
      if before.Some? && Stores(before.value, Last(ls)) then |before.value.reports| else ReportsBefore(start, Front(ls))
  }

  /** Times at least an hour apart. */
  ghost predicate HourApart(times: seq<int>) {
    forall i | 0 <= i < |times| - 1 :: times[i + 1] - times[i] >= HOUR
  }

  /** staleLogged and lastStaleLog tell of the reports since the latest success. */
  ghost predicate ReportInv(s: System, n: nat) {
    && n <= |s.reports|
    && HourApart(s.reports[n..])
    && (s.cache.staleLogged <==> n < |s.reports|)
    && (s.cache.staleLogged ==> s.cache.lastStaleLog == s.reports[|s.reports| - 1])
    && (s.cache.lastSuccess.Some? ==> s.cache.lastSuccess.value <= s.now)
    && (s.cache.staleLogged ==> s.cache.lastStaleLog <= s.now)
    && (s.cache.staleLogged && s.cache.lastSuccess.Some? ==> AllSince(s.cache.lastSuccess.value, s.reports[n..]))
  }

  ghost predicate AllSince(t: int, times: seq<int>) {
    forall i | 0 <= i < |times| :: t <= times[i]
  }

  lemma FinishStale(s: System, delay: nat)
    requires s.refresh.Selected? && !Storing(s)
    ensures var now := s.now + delay;
            var reported := NoteStaleStep(s.cache, s.now, now).1;
            Step(s, Finish(delay)) ==
            s.(cache := NoteStaleStep(s.cache, s.now, now).0, now := now, refresh := Idle,
               control := if s.control.FirstRefresh? then Entering else s.control,
               reports := if reported then s.reports + [now] else s.reports)
  {
  }

  lemma HourAppend(times: seq<int>, t: int)
    requires HourApart(times) && (times == [] || t - times[|times| - 1] >= HOUR)
    ensures HourApart(times + [t])
  {
  }

  lemma SinceAppend(since: int, times: seq<int>, t: int)
    requires times != [] ==> AllSince(since, times)
    requires since <= t
    ensures AllSince(since, times + [t])
  {
  }

  lemma ReportFinish(s: System, n: nat, delay: nat)
    requires ReportInv(s, n) && s.refresh.Selected? && !Storing(s)
    ensures ReportInv(Step(s, Finish(delay)), n)
  {
    hide Step, HourApart, AllSince, Storing;
    FinishStale(s, delay);
    var now := s.now + delay;
    if NoteStaleStep(s.cache, s.now, now).1 {
      assert (s.reports + [now])[n..] == s.reports[n..] + [now];
      HourAppend(s.reports[n..], now);
      if s.cache.lastSuccess.Some? {
        SinceAppend(s.cache.lastSuccess.value, s.reports[n..], now);
      }
    }
  }

  lemma ReportStep(s: System, n: nat, l: Label)
    requires ReportInv(s, n) && Enabled(s, l)
    ensures ReportInv(Step(s, l), if Stores(s, l) then |s.reports| else n)
  {
    if l.Finish? && !Storing(s) {
      ReportFinish(s, n, l.delay);
    }
  }

  lemma {:induction false} RunReports(start: int, ls: seq<Label>)
    requires Run(start, ls).Some?
    ensures ReportInv(Run(start, ls).value, ReportsBefore(start, ls))
    decreases |ls|
  {
    if ls != [] {
      RunReports(start, Front(ls));
      ReportStep(Run(start, Front(ls)).value, ReportsBefore(start, Front(ls)), Last(ls));
    }
  }

  /** Exactly when a refresh that ends without good keys reports staleness: nothing stored yet, or
      nothing within the refresh interval; and no report since the latest success, or none within
      the last hour. */
  lemma ReportsExactly(start: int, ls: seq<Label>, delay: nat)
    requires Run(start, ls).Some? && Run(start, ls).value.refresh.Selected? && !Storing(Run(start, ls).value)
    ensures var s := Run(start, ls).value;
            var n, stored := ReportsBefore(start, ls), LastStored(start, ls);
            |Step(s, Finish(delay)).reports| > |s.reports| <==>
              && (stored.None? || Clock(start, ls) - stored.value >= IntervalSet(ls))
              && (n == |s.reports| || Clock(start, ls) + delay - s.reports[|s.reports| - 1] >= HOUR)
  {
    hide Step, HourApart, Run, ReportsBefore, LastStored, Clock, SelectedGood, IntervalSet, TimeoutSet, BranchedAt;
    RunReports(start, ls);
    LastSuccessIsLatest(start, ls);
    FinishStale(Run(start, ls).value, delay);
  }

  lemma {:induction false} SpacedCount(times: seq<int>)
    requires times != [] && HourApart(times)
    ensures times[|times| - 1] - times[0] >= (|times| - 1) * HOUR
    decreases |times|
  {
    if |times| > 1 {
      var rest := times[..|times| - 1];
      forall i | 0 <= i < |rest| - 1 ensures rest[i + 1] - rest[i] >= HOUR {
        assert times[i + 1] - times[i] >= HOUR;
      }
      SpacedCount(rest);
      assert times[|times| - 2 + 1] - times[|times| - 2] >= HOUR;
    }
  }

  /** Reports between two successes are at least an hour apart, and an outage that lasts D
      hours after its first report logs at most 1 + floor(D) reports. The flag staleLogged tells
      whether the outage has reported at all; while it is set, no success is later than the
      latest report. */
  lemma {:induction false} OutageReports(start: int, ls: seq<Label>)
    requires Run(start, ls).Some?
    ensures var s := Run(start, ls).value;
            var outage := s.reports[ReportsBefore(start, ls)..];
            && HourApart(outage)
            && (outage != [] ==> |outage| <= 1 + (s.now - outage[0]) / HOUR)
            && (s.cache.staleLogged <==> outage != [])
            && (s.cache.staleLogged && s.cache.lastSuccess.Some? ==> s.cache.lastSuccess.value <= s.cache.lastStaleLog)
  {
    hide Run, ReportsBefore;
    RunReports(start, ls);
    var s := Run(start, ls).value;
    var outage := s.reports[ReportsBefore(start, ls)..];
    if outage != [] {
      SpacedCount(outage);
      assert outage[|outage| - 1] == s.cache.lastStaleLog <= s.now;
      assert s.cache.lastSuccess.Some? ==> s.cache.lastSuccess.value <= outage[|outage| - 1];
      DivideBound(s.now - outage[0], |outage| - 1);
    }
  }

  lemma DivideBound(elapsed: int, n: nat)
    requires elapsed >= n * HOUR
    ensures elapsed / HOUR >= n
  {
  }
}
