/** The decision of the fixed window counter: one counter per aligned window. */
module FixedWindow {
  import opened Wrappers
  import opened Limiter
  import opened Runs

  datatype Parameters = Parameters(maxRequests: nat, windowSecs: nat)

  /** A window of no seconds would divide by zero. */
  type Config = p: Parameters | p.windowSecs > 0 witness Parameters(0, 1)

  datatype State = State(count: nat, windowId: nat)

  /** The window a clock reading in ms falls in; the source reads this clock in whole seconds. */
  function WindowOf(cfg: Config, now: nat): nat {
    now / 1000 / cfg.windowSecs
  }

  function Fresh(cfg: Config, now: nat): State {
    State(0, WindowOf(cfg, now))
  }

  /** The count of the current window: a state left by any other window counts for nothing. */
  function CountAt(cfg: Config, s: State, now: nat): nat {
    if s.windowId == WindowOf(cfg, now) then s.count else 0
  }

  function Step(cfg: Config, s: State, now: nat, cost: U32): Verdict<State> {
    var windowId := WindowOf(cfg, now);
    var count := CountAt(cfg, s, now);
    var allowed := count + cost <= cfg.maxRequests;
    var newCount := if allowed then count + cost else count;
    var windowEnd := (windowId + 1) * cfg.windowSecs;
    var retry := if allowed then 0 else SaturatingSub(windowEnd, now / 1000) * 1000;
    Verdict(State(newCount, windowId),
            Decision(allowed, cfg.maxRequests, SaturatingSub(cfg.maxRequests, newCount), retry))
  }

  /** What `get` returned, read as a state: an absent key reads as the fresh one. */
  function Found(cfg: Config, stored: Option<State>, now: nat): State {
    if stored.Some? then stored.value else Fresh(cfg, now)
  }

  /** One attempt, from what `get` returned. */
  function Attempt(cfg: Config, stored: Option<State>, now: nat, cost: U32): Verdict<State> {
    Step(cfg, Found(cfg, stored, now), now, cost)
  }

  ghost predicate Implements(cfg: Config, decide: Decider<State>) {
    forall stored, now, cost {:trigger Attempt(cfg, stored, now, cost)} ::
      decide(stored, now, cost) == Attempt(cfg, stored, now, cost)
  }

  function Decide(cfg: Config): (decide: Decider<State>)
    ensures Implements(cfg, decide)
  {
    (stored: Option<State>, now: nat, cost: U32) => Attempt(cfg, stored, now, cost)
  }
}
