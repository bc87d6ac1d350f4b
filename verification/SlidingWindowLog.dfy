/** The decision of the sliding window log: one timestamp per admitted unit, pruned on every check. */
module SlidingWindowLog {
  import opened Wrappers
  import opened Limiter
  import opened Runs

  datatype Parameters = Parameters(maxRequests: nat, windowMs: int)

  type Config = p: Parameters | p.windowMs > 0 witness Parameters(0, 1000)

  datatype State = State(timestampsMs: seq<int>)

  function Fresh(): State {
    State([])
  }

  /** The timestamps newer than `cutoff`, in their order: `retain(|&t| t > cutoff)`. */
  function Pruned(log: seq<int>, cutoff: int): seq<int> {
    if log == [] then [] else
    var n := |log| - 1;
    var kept := Pruned(log[..n], cutoff);
    if log[n] > cutoff then kept + [log[n]] else kept
  }

  /** `cost` copies of `now`. */
  function Stamps(now: int, cost: nat): seq<int> {
    if cost == 0 then [] else Stamps(now, cost - 1) + [now]
  }

  /** The decision on a log that has just been pruned. */
  function Decided(cfg: Config, kept: seq<int>, now: int, cost: U32): Verdict<State> {
    var current := |kept|;
    var allowed := current + cost <= cfg.maxRequests;
    var charge := if allowed then cost else 0;
    var oldest := if kept == [] then now else kept[0];
    var wait := oldest + cfg.windowMs - now;
    var retry := if allowed || wait < 0 then 0 else wait;
    Verdict(State(kept + Stamps(now, charge)),
            Decision(allowed, cfg.maxRequests, SaturatingSub(cfg.maxRequests, current + charge), retry))
  }

  function Step(cfg: Config, s: State, now: int, cost: U32): Verdict<State> {
    Decided(cfg, Pruned(s.timestampsMs, now - cfg.windowMs), now, cost)
  }

  /** What `get` returned, read as a state: an absent key reads as the fresh one. */
  function Found(cfg: Config, stored: Option<State>, now: nat): State {
    if stored.Some? then stored.value else Fresh()
  }

  /** One attempt, from what `get` returned. */
  function Attempt(cfg: Config, stored: Option<State>, now: nat, cost: U32): Verdict<State> {
    Step(cfg, Found(cfg, stored, now), now, cost)
  }

  ghost predicate Implements(cfg: Config, decide: Decider<State>) {
    forall stored, now, cost {:trigger Attempt(cfg, stored, now, cost)} ::
      decide(stored, now, cost) == Attempt(cfg, stored, now, cost)
  }

  function Decide(cfg: Config): (decide: Decider<State>)
    ensures Implements(cfg, decide)
  {
    (stored: Option<State>, now: nat, cost: U32) => Attempt(cfg, stored, now, cost)
  }
}
