/** The decision of the leaky bucket: lazy leak, then queue `cost` units if they fit. */
module LeakyBucket {
  import opened Wrappers
  import opened Limiter
  import opened Runs

  datatype Parameters = Parameters(leakRate: real, capacity: nat)

  type Config = p: Parameters | p.leakRate >= 0.0 witness Parameters(0.0, 0)

  datatype State = State(queue: real, lastLeakMs: int)

  function Fresh(now: int): State {
    State(0.0, now)
  }

  /** The queue depth at `now`, after what has leaked out since the last write. */
  function Leaked(cfg: Config, s: State, now: int): real {
    MaxReal(s.queue - ElapsedSecs(s.lastLeakMs, now) * cfg.leakRate, 0.0)
  }

  function Step(cfg: Config, s: State, now: int, cost: U32): Verdict<State> {
    var cap := cfg.capacity as real;
    var queue := Leaked(cfg, s, now);
    var newQueue := queue + cost as real;
    var allowed := newQueue <= cap;
    var finalQueue := if allowed then newQueue else queue;
    var retry := if allowed then 0 else WaitMs(newQueue - cap, cfg.leakRate);
    Verdict(State(finalQueue, now), Decision(allowed, cfg.capacity, AsI64(cap - finalQueue), retry))
  }

  /** What `get` returned, read as a state: an absent key reads as the fresh one. */
  function Found(cfg: Config, stored: Option<State>, now: nat): State {
    if stored.Some? then stored.value else Fresh(now)
  }

  /** One attempt, from what `get` returned. */
  function Attempt(cfg: Config, stored: Option<State>, now: nat, cost: U32): Verdict<State> {
    Step(cfg, Found(cfg, stored, now), now, cost)
  }

  ghost predicate Implements(cfg: Config, decide: Decider<State>) {
    forall stored, now, cost {:trigger Attempt(cfg, stored, now, cost)} ::
      decide(stored, now, cost) == Attempt(cfg, stored, now, cost)
  }

  function Decide(cfg: Config): (decide: Decider<State>)
    ensures Implements(cfg, decide)
  {
    (stored: Option<State>, now: nat, cost: U32) => Attempt(cfg, stored, now, cost)
  }
}
