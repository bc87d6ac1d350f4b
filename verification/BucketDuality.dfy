/** The leaky bucket is the token bucket seen from the other end. */
module BucketDuality {
  import opened Wrappers
  import opened Limiter
  import opened Runs
  import TB = TokenBucket
  import LB = LeakyBucket
  import TBR = TokenBucketRuns

  /** The token bucket with the same rate and a capacity equal to the queue's. */
  function Dual(cfg: LB.Config): TB.Config {
    TB.Parameters(cfg.capacity as real, cfg.leakRate)
  }

  /** A queue depth, as the tokens left beside it. */
  function DualState(cfg: LB.Config, s: LB.State): TB.State {
    TB.State(cfg.capacity as real - s.queue, s.lastLeakMs)
  }

  lemma LevelDual(cfg: LB.Config, s: LB.State, now: int)
    ensures TB.Refilled(Dual(cfg), DualState(cfg, s), now) == cfg.capacity as real - LB.Leaked(cfg, s, now)
  {
  }

  /** The same answer, but for the limit: the source casts a `u64` to `i64` for one and an `f64` for the other. */
  predicate SameButLimit(d: Decision, e: Decision) {
    d.allowed == e.allowed && d.remaining == e.remaining && d.retryAfterMs == e.retryAfterMs
  }

  /** The same step, whatever the state, the clock readings and the cost. */
  lemma StepDual(cfg: LB.Config, s: LB.State, now: int, cost: U32)
    ensures var leaky, token := LB.Step(cfg, s, now, cost), TB.Step(Dual(cfg), DualState(cfg, s), now, cost);
            && token.state == DualState(cfg, leaky.state)
            && SameButLimit(token.decision, leaky.decision)
            && (cfg.capacity <= I64_MAX ==> token.decision == leaky.decision)
  {
    LevelDual(cfg, s, now);
    assert (cfg.capacity as real).Floor == cfg.capacity;
  }

  lemma AttemptDual(cfg: LB.Config, leaky: Decider<LB.State>, token: Decider<TB.State>, s: LB.State, now: nat,
                    cost: U32)
    requires LB.Implements(cfg, leaky) && TB.Implements(Dual(cfg), token)
    ensures SameButLimit(leaky(Some(s), now, cost).decision, token(Some(DualState(cfg, s)), now, cost).decision)
  {
    assert leaky(Some(s), now, cost) == LB.Attempt(cfg, Some(s), now, cost);
    assert token(Some(DualState(cfg, s)), now, cost) == TB.Attempt(Dual(cfg), Some(DualState(cfg, s)), now, cost);
    StepDual(cfg, s, now, cost);
  }

  /** One more commit to each, from states that are dual. */
  lemma {:induction false} NextDual(cfg: LB.Config, leaky: Decider<LB.State>, token: Decider<TB.State>,
                                    reqs: seq<Request>, r: Request)
    requires LB.Implements(cfg, leaky) && TB.Implements(Dual(cfg), token)
    requires StoredDual(cfg, Replay(leaky, reqs), Replay(token, reqs))
    ensures var q, t := Next(leaky, reqs, r), Next(token, reqs, r);
            && t.state == DualState(cfg, q.state)
            && SameButLimit(q.decision, t.decision)
            && (cfg.capacity <= I64_MAX ==> q.decision == t.decision)
  {
    var q, t := Replay(leaky, reqs), Replay(token, reqs);
    var _ := LB.Attempt(cfg, q, r.now, r.cost);
    var _ := TB.Attempt(Dual(cfg), t, r.now, r.cost);
    StepDual(cfg, LB.Found(cfg, q, r.now), r.now, r.cost);
  }

  predicate StoredDual(cfg: LB.Config, q: Option<LB.State>, t: Option<TB.State>) {
    (q.Some? <==> t.Some?) && (q.Some? ==> t.value == DualState(cfg, q.value))
  }

  predicate AllSameButLimit(ds: seq<Decision>, es: seq<Decision>) {
    |ds| == |es| && forall k :: 0 <= k < |ds| ==> SameButLimit(ds[k], es[k])
  }

  /**
   Duality over whole runs: with equal rates and capacities, and whatever the clock readings, the
   two limiters give the same decision (allowed, remaining and retry hint, and the limit too as
   long as it is an `i64`) to every check.
   */
  lemma {:induction false} RunsDual(cfg: LB.Config, leaky: Decider<LB.State>, token: Decider<TB.State>,
                                    reqs: seq<Request>)
    requires LB.Implements(cfg, leaky) && TB.Implements(Dual(cfg), token)
    ensures AllSameButLimit(Decisions(leaky, reqs), Decisions(token, reqs))
    ensures cfg.capacity <= I64_MAX ==> Decisions(leaky, reqs) == Decisions(token, reqs)
    ensures Charges(leaky, reqs) == Charges(token, reqs)
    ensures StoredDual(cfg, Replay(leaky, reqs), Replay(token, reqs))
  {
    if reqs != [] {
      var n := |reqs| - 1;
      var front, r := reqs[..n], reqs[n];
      assert reqs == front + [r];
      RunsDual(cfg, leaky, token, front);
      NextDual(cfg, leaky, token, front, r);
      RunExtended(leaky, front, r);
      RunExtended(token, front, r);
    }
  }

  /** The leaky bucket's share of the token bucket's results: the envelope of every stretch. */
  lemma {:induction false} LeakyStretchBound(cfg: LB.Config, leaky: Decider<LB.State>, token: Decider<TB.State>,
                                             reqs: seq<Request>, a: nat, b: nat)
    requires LB.Implements(cfg, leaky) && TB.Implements(Dual(cfg), token)
    requires Nondecreasing(reqs) && a < b <= |reqs|
    ensures Sum(Charges(leaky, reqs)[a..b]) as real
         <= cfg.capacity as real + TBR.Gain(Dual(cfg), reqs[a].now, reqs[b - 1].now)
  {
    RunsDual(cfg, leaky, token, reqs);
    TBR.StretchBound(Dual(cfg), token, reqs, a, b);
  }

  /** Conservation, whatever the commit times: all that was ever admitted is still queued or has had time to drain. */
  lemma {:induction false} QueueConserved(cfg: LB.Config, leaky: Decider<LB.State>, token: Decider<TB.State>,
                                          reqs: seq<Request>)
    requires LB.Implements(cfg, leaky) && TB.Implements(Dual(cfg), token)
    requires reqs != []
    ensures Replay(leaky, reqs).Some?
    ensures Sum(Charges(leaky, reqs)) as real <= Replay(leaky, reqs).value.queue + TBR.Accrued(Dual(cfg), reqs)
  {
    RunsDual(cfg, leaky, token, reqs);
    TBR.TokensConserved(Dual(cfg), token, reqs, 0);
    assert Charges(token, reqs)[0..] == Charges(token, reqs) && reqs[0..] == reqs;
  }

  /** And the retry hint, for any cost: the last whole millisecond in which no more drains than is in the way. */
  lemma LeakyRetryHintExact(cfg: LB.Config, s: LB.State, now: nat, cost: U32)
    requires !LB.Step(cfg, s, now, cost).decision.allowed
    ensures var v := LB.Step(cfg, s, now, cost);
            var hint, over := v.decision.retryAfterMs, v.state.queue + cost as real - cfg.capacity as real;
            && 0 <= hint <= I64_MAX
            && TBR.Gain(Dual(cfg), now, now + hint) <= over
            && (hint < I64_MAX ==> over < TBR.Gain(Dual(cfg), now, now + hint + 1))
  {
    StepDual(cfg, s, now, cost);
    TBR.RetryHintExact(Dual(cfg), DualState(cfg, s), now, cost);
  }

  /** Which is tight to a millisecond. */
  lemma LeakyRetryHintTight(cfg: LB.Config, s: LB.State, now: nat, cost: U32, k: nat)
    requires !LB.Step(cfg, s, now, cost).decision.allowed
    ensures var v := LB.Step(cfg, s, now, cost);
            var again := LB.Step(cfg, v.state, now + k, cost).decision;
            && (k < v.decision.retryAfterMs ==> !again.allowed)
            && (k == v.decision.retryAfterMs
                ==> (again.allowed
                     <==> cost <= cfg.capacity && TBR.Gain(Dual(cfg), now, now + k)
                                                  == v.state.queue + cost as real - cfg.capacity as real))
            && (v.decision.retryAfterMs < k && v.decision.retryAfterMs < I64_MAX
                ==> (again.allowed <==> cost <= cfg.capacity))
  {
    StepDual(cfg, s, now, cost);
    StepDual(cfg, LB.Step(cfg, s, now, cost).state, now + k, cost);
    TBR.RetryHintTight(Dual(cfg), DualState(cfg, s), now, cost, k);
  }
}
