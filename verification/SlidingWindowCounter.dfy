/** The decision of the sliding window counter: the previous window's count, weighted, plus the current one's. */
module SlidingWindowCounter {
  import opened Wrappers
  import opened Limiter
  import opened Runs

  datatype Parameters = Parameters(maxRequests: nat, windowSecs: nat)

  /** A window of no seconds would divide by zero. */
  type Config = p: Parameters | p.windowSecs > 0 witness Parameters(0, 1)

  datatype State = State(prevCount: nat, currCount: nat, currWindowId: nat)

  function WindowOf(cfg: Config, now: nat): nat {
    now / 1000 / cfg.windowSecs
  }

  /** How far into its window a clock reading is, in seconds. */
  function OffsetOf(cfg: Config, now: nat): (e: nat)
    ensures e < cfg.windowSecs
  {
    now / 1000 % cfg.windowSecs
  }

  function Fresh(cfg: Config, now: nat): State {
    State(0, 0, WindowOf(cfg, now))
  }

  /** The state moved on to the window of `now`; a state from a later window is relabelled, not cleared. */
  function Rolled(cfg: Config, s: State, now: nat): State {
    var windowId := WindowOf(cfg, now);
    match SaturatingSub(windowId, s.currWindowId)
    case 0 => State(s.prevCount, s.currCount, windowId)
    case 1 => State(s.currCount, 0, windowId)
    case _ => State(0, 0, windowId)
  }

  /** The weighted estimate of a rolled state `offset` seconds into its window. */
  function Weighted(cfg: Config, s: State, offset: nat): real {
    s.prevCount as real * (1.0 - offset as real / cfg.windowSecs as real) + s.currCount as real
  }

  function Step(cfg: Config, s: State, now: nat, cost: U32): Verdict<State> {
    var fraction := OffsetOf(cfg, now) as real / cfg.windowSecs as real;
    var rolled := Rolled(cfg, s, now);
    var weighted := Weighted(cfg, rolled, OffsetOf(cfg, now));
    var allowed := weighted + cost as real <= cfg.maxRequests as real;
    var newCurr := if allowed then rolled.currCount + cost else rolled.currCount;
    var retry := if allowed then 0 else AsI64((1.0 - fraction) * cfg.windowSecs as real * 1000.0);
    var remaining := AsI64(MaxReal(cfg.maxRequests as real - weighted - cost as real, 0.0));
    Verdict(rolled.(currCount := newCurr),
            Decision(allowed, cfg.maxRequests, if allowed then remaining else 0, retry))
  }

  /** What `get` returned, read as a state: an absent key reads as the fresh one. */
  function Found(cfg: Config, stored: Option<State>, now: nat): State {
    if stored.Some? then stored.value else Fresh(cfg, now)
  }

  /** One attempt, from what `get` returned. */
  function Attempt(cfg: Config, stored: Option<State>, now: nat, cost: U32): Verdict<State> {
    Step(cfg, Found(cfg, stored, now), now, cost)
  }

  ghost predicate Implements(cfg: Config, decide: Decider<State>) {
    forall stored, now, cost {:trigger Attempt(cfg, stored, now, cost)} ::
      decide(stored, now, cost) == Attempt(cfg, stored, now, cost)
  }

  function Decide(cfg: Config): (decide: Decider<State>)
    ensures Implements(cfg, decide)
  {
    (stored: Option<State>, now: nat, cost: U32) => Attempt(cfg, stored, now, cost)
  }
}
