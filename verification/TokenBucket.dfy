/** The decision of the token bucket: lazy refill, then take `cost` tokens if they are there. */
module TokenBucket {
  import opened Wrappers
  import opened Limiter
  import opened Runs

  datatype Parameters = Parameters(capacity: real, refillRate: real)

  type Config = p: Parameters | p.capacity >= 0.0 && p.refillRate >= 0.0 witness Parameters(0.0, 0.0)

  datatype State = State(tokens: real, lastRefillMs: int)

  function Fresh(cfg: Config, now: int): State {
    State(cfg.capacity, now)
  }

  /** The tokens present at `now`, after the refill owed since the last write. */
  function Refilled(cfg: Config, s: State, now: int): real {
    MinReal(s.tokens + ElapsedSecs(s.lastRefillMs, now) * cfg.refillRate, cfg.capacity)
  }

  function Step(cfg: Config, s: State, now: int, cost: U32): Verdict<State> {
    var tokens := Refilled(cfg, s, now);
    var allowed := tokens >= cost as real;
    var newTokens := if allowed then tokens - cost as real else tokens;
    var retry := if allowed then 0 else WaitMs(cost as real - tokens, cfg.refillRate);
    Verdict(State(newTokens, now), Decision(allowed, AsI64(cfg.capacity), AsI64(newTokens), retry))
  }

  /** What `get` returned, read as a state: an absent key reads as the fresh one. */
  function Found(cfg: Config, stored: Option<State>, now: nat): State {
    if stored.Some? then stored.value else Fresh(cfg, now)
  }

  /** One attempt, from what `get` returned. */
  function Attempt(cfg: Config, stored: Option<State>, now: nat, cost: U32): Verdict<State> {
    Step(cfg, Found(cfg, stored, now), now, cost)
  }

  ghost predicate Implements(cfg: Config, decide: Decider<State>) {
    forall stored, now, cost {:trigger Attempt(cfg, stored, now, cost)} ::
      decide(stored, now, cost) == Attempt(cfg, stored, now, cost)
  }

  function Decide(cfg: Config): (decide: Decider<State>)
    ensures Implements(cfg, decide)
  {
    (stored: Option<State>, now: nat, cost: U32) => Attempt(cfg, stored, now, cost)
  }
}
