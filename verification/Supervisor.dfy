/** The goroutine that refreshes a key cache: the first refresh, then runLoop, which calls tick
    until tick says that it has stopped.  `stopped` is the result of tick, as far as it is set. */
module Supervisor {
  import opened KeyCache

  datatype Control =
    | FirstRefresh
    | Entering
    | Ticking
    | Leaving(stopped: bool)
    | Panicking(stopped: bool)
    | Returned(stopped: bool)
    | BackingOff(until: int)
    | Ended

  /** SeeDone and GiveUp are the branches of the two selects that receive from ctx.Done. */
  datatype Move = MakeTicker | SeeDone | Panic | Recover | Return | Branch | GiveUp | Resume

  /** Moves of the goroutine at a time; a panic is recovered by tick only, so one in the first
      refresh is not a move. */
  predicate CanMove(c: Control, m: Move, cancelled: bool, now: int) {
    match m
    case MakeTicker => c.Entering?
    case SeeDone => c.Ticking? && cancelled
    case Panic => c.Entering? || c.Ticking? || c.Leaving?
    case Recover => c.Panicking?
    case Return => c.Leaving?
    case Branch => c.Returned?
    case GiveUp => c.BackingOff? && cancelled
    case Resume => c.BackingOff? && now >= c.until
  }

  function Moved(c: Control, m: Move, now: int): Control {
    match m
    case MakeTicker => Ticking
    case SeeDone => Leaving(true)
    case Panic => Panicking(if c.Leaving? then c.stopped else false)
    case Recover => Returned(false)
    case Return => if c.Leaving? then Returned(c.stopped) else c
    case Branch => if c == Returned(true) then Ended else BackingOff(now + MINUTE)
    case GiveUp => Ended
    case Resume => Entering
  }

  /** Where the goroutine has seen the context cancelled, it is. */
  ghost predicate Honest(c: Control, cancelled: bool) {
    c.Ended? || ((c.Leaving? || c.Panicking? || c.Returned?) && c.stopped) ==> cancelled
  }

  lemma MoveKeepsHonest(c: Control, m: Move, cancelled: bool, now: int)
    requires CanMove(c, m, cancelled, now) && Honest(c, cancelled)
    ensures Honest(Moved(c, m, now), cancelled)
  {
  }

  /** tick is about to say that it has stopped, or has said so. */
  predicate Stopping(c: Control) {
    c == Leaving(true) || c == Returned(true) || c.Ended?
  }

  lemma MoveKeepsStopping(c: Control, m: Move, cancelled: bool, now: int)
    requires CanMove(c, m, cancelled, now) && Stopping(c) && m != Panic
    ensures Stopping(Moved(c, m, now)) && (Moved(c, m, now).Ended? <==> m == Branch)
  {
  }

  /** Since a panic the goroutine has not started another round, or a minute has passed. */
  ghost predicate HeldBack(c: Control, panicked: int, now: int) {
    now >= panicked && (
      now >= panicked + MINUTE || c.Panicking? || c == Returned(false) || c.Ended? ||
      (c.BackingOff? && c.until >= panicked + MINUTE))
  }

  lemma MoveKeepsHeldBack(c: Control, m: Move, cancelled: bool, panicked: int, now: int)
    requires CanMove(c, m, cancelled, now) && HeldBack(c, panicked, now)
    ensures HeldBack(Moved(c, m, now), panicked, now)
  {
  }
}
