/** What the token bucket promises over whole runs of commits. */
module TokenBucketRuns {
  import opened Wrappers
  import opened Limiter
  import opened Runs
  import TB = TokenBucket

  /** What refills between two clock readings. */
  function Gain(cfg: TB.Config, since: int, now: int): real {
    ElapsedSecs(since, now) * cfg.refillRate
  }

  /** The tokens a check at `now` finds after the run `reqs`. */
  function Level(cfg: TB.Config, decide: Decider<TB.State>, reqs: seq<Request>, now: nat): real
  {
    TB.Refilled(cfg, TB.Found(cfg, Replay(decide, reqs), now), now)
  }

  /** How far the clock moved forward over a run, in ms: its steps back count for nothing. */
  function Forward(reqs: seq<Request>): nat {
    if |reqs| <= 1 then 0 else
    var n := |reqs| - 1;
    Forward(reqs[..n]) + SaturatingSub(reqs[n].now, reqs[n - 1].now)
  }

  /** How far it moved forward from commit `i` on, up to a check at `now`. */
  function Passed(reqs: seq<Request>, i: nat, now: nat): nat
    requires i <= |reqs|
  {
    Forward(reqs[i..]) + if i < |reqs| then SaturatingSub(now, reqs[|reqs| - 1].now) else 0
  }

  /**
   What the rate envelope anchored at commit `i` still leaves at `now`: a full bucket, plus what
   accrued since commit `i`, minus what commits `i..` were charged. At `i == |reqs|` the anchor is `now`.
   */
  function Headroom(cfg: TB.Config, decide: Decider<TB.State>, reqs: seq<Request>, now: nat, i: nat): real
    requires i <= |reqs|
  {
    cfg.capacity + Gain(cfg, 0, Passed(reqs, i, now)) - Sum(Charges(decide, reqs)[i..]) as real
  }

  lemma GainSplits(cfg: TB.Config, a: int, b: int, c: int)
    requires a <= b <= c
    ensures Gain(cfg, a, c) == Gain(cfg, a, b) + Gain(cfg, b, c)
  {
    assert ElapsedSecs(a, c) == ElapsedSecs(a, b) + ElapsedSecs(b, c);
  }

  lemma GainNonneg(cfg: TB.Config, a: int, b: int)
    ensures Gain(cfg, a, b) >= 0.0
    ensures Gain(cfg, a, a) == 0.0
  {
  }

  /** The state after one more commit, in terms of the level the commit found. */
  lemma {:induction false} StateExtended(cfg: TB.Config, decide: Decider<TB.State>, reqs: seq<Request>, r: Request)
    requires TB.Implements(cfg, decide)
    ensures var level, charge := Level(cfg, decide, reqs, r.now), NextCharge(decide, reqs, r);
            && charge == (if r.cost as real <= level then r.cost else 0)
            && Replay(decide, reqs + [r]) == Some(TB.State(level - charge as real, r.now))
  {
    RunExtended(decide, reqs, r);
    var _ := TB.Attempt(cfg, Replay(decide, reqs), r.now, r.cost);
  }

  lemma RefilledByGain(cfg: TB.Config, tokens: real, since: int, now: int)
    ensures TB.Refilled(cfg, TB.State(tokens, since), now) == MinReal(tokens + Gain(cfg, since, now), cfg.capacity)
  {
  }

  /** The level after a run that left `tokens` at `since`. */
  lemma {:induction false} LevelOfState(cfg: TB.Config, decide: Decider<TB.State>, reqs: seq<Request>, now: nat,
                                        tokens: real, since: int)
    requires Replay(decide, reqs) == Some(TB.State(tokens, since))
    ensures Level(cfg, decide, reqs, now) == MinReal(tokens + Gain(cfg, since, now), cfg.capacity)
  {
    RefilledByGain(cfg, tokens, since, now);
  }

  lemma PassedExtended(reqs: seq<Request>, r: Request, now: nat, i: nat)
    requires i <= |reqs|
    ensures Passed(reqs + [r], i, now) == Passed(reqs, i, r.now) + SaturatingSub(now, r.now)
  {
    assert (reqs + [r])[i..] == reqs[i..] + [r];
    assert (reqs[i..] + [r])[..|reqs| - i] == reqs[i..];
  }

  lemma GainOfMoves(cfg: TB.Config, f: nat, since: nat, now: nat)
    ensures Gain(cfg, 0, f + SaturatingSub(now, since)) == Gain(cfg, 0, f) + Gain(cfg, since, now)
  {
    GainSplits(cfg, 0, f, f + SaturatingSub(now, since));
    assert ElapsedSecs(f, f + SaturatingSub(now, since)) == ElapsedSecs(since, now);
  }

  lemma HeadroomExtended(cfg: TB.Config, decide: Decider<TB.State>, reqs: seq<Request>, r: Request, now: nat, i: nat)
    requires i <= |reqs|
    ensures Headroom(cfg, decide, reqs + [r], now, i)
         == Headroom(cfg, decide, reqs, r.now, i) - NextCharge(decide, reqs, r) as real + Gain(cfg, r.now, now)
  {
    TailExtended(decide, reqs, r, i);
    PassedExtended(reqs, r, now, i);
    GainOfMoves(cfg, Passed(reqs, i, r.now), r.now, now);
  }

  lemma FreshHeadroom(cfg: TB.Config, decide: Decider<TB.State>, reqs: seq<Request>, now: nat)
    ensures Headroom(cfg, decide, reqs, now, |reqs|) == cfg.capacity
  {
    GainNonneg(cfg, 0, 0);
  }

  /** The level is under every envelope, and on one of them. */
  ghost predicate LeastHeadroom(cfg: TB.Config, decide: Decider<TB.State>, reqs: seq<Request>, now: nat) {
    && (forall i :: 0 <= i <= |reqs| ==> Level(cfg, decide, reqs, now) <= Headroom(cfg, decide, reqs, now, i))
    && (exists i :: 0 <= i <= |reqs| && Level(cfg, decide, reqs, now) == Headroom(cfg, decide, reqs, now, i))
  }

  lemma LeastAtFirst(cfg: TB.Config, decide: Decider<TB.State>, now: nat)
    ensures LeastHeadroom(cfg, decide, [], now)
  {
    FreshHeadroom(cfg, decide, [], now);
    GainNonneg(cfg, now, now);
  }

  lemma LevelOfCommit(cfg: TB.Config, decide: Decider<TB.State>, reqs: seq<Request>, r: Request, now: nat)
    requires TB.Implements(cfg, decide)
    ensures Level(cfg, decide, reqs + [r], now)
         == MinReal(Level(cfg, decide, reqs, r.now) - NextCharge(decide, reqs, r) as real + Gain(cfg, r.now, now),
                    cfg.capacity)
  {
    StateExtended(cfg, decide, reqs, r);
    LevelOfState(cfg, decide, reqs + [r], now, Replay(decide, reqs + [r]).value.tokens, r.now);
  }

  lemma LeastExtended(cfg: TB.Config, decide: Decider<TB.State>, reqs: seq<Request>, r: Request, now: nat)
    requires TB.Implements(cfg, decide) && LeastHeadroom(cfg, decide, reqs, r.now)
    ensures LeastHeadroom(cfg, decide, reqs + [r], now)
  {
    hide Level, Headroom, Gain;
    LevelOfCommit(cfg, decide, reqs, r, now);
    FreshHeadroom(cfg, decide, reqs + [r], now);
    forall i | 0 <= i <= |reqs|
      ensures Level(cfg, decide, reqs + [r], now) <= Headroom(cfg, decide, reqs + [r], now, i)
    {
      HeadroomExtended(cfg, decide, reqs, r, now, i);
    }
    if Level(cfg, decide, reqs + [r], now) != cfg.capacity {
      var t :| 0 <= t <= |reqs| && Level(cfg, decide, reqs, r.now) == Headroom(cfg, decide, reqs, r.now, t);
      HeadroomExtended(cfg, decide, reqs, r, now, t);
      assert Level(cfg, decide, reqs + [r], now) == Headroom(cfg, decide, reqs + [r], now, t);
    } else {
      assert Level(cfg, decide, reqs + [r], now) == Headroom(cfg, decide, reqs + [r], now, |reqs| + 1);
    }
  }

  /** On any clock the level is the least headroom. */
  lemma {:induction false} LevelIsLeastHeadroom(cfg: TB.Config, decide: Decider<TB.State>, reqs: seq<Request>, now: nat)
    requires TB.Implements(cfg, decide)
    ensures LeastHeadroom(cfg, decide, reqs, now)
  {
    hide LeastHeadroom;
    if reqs == [] {
      LeastAtFirst(cfg, decide, now);
    } else {
      var n := |reqs| - 1;
      LevelIsLeastHeadroom(cfg, decide, reqs[..n], reqs[n].now);
      LeastExtended(cfg, decide, reqs[..n], reqs[n], now);
      assert reqs == reqs[..n] + [reqs[n]];
    }
  }

  /**
   The bucket is exactly its rate envelope, on any clock: a check is admitted if and only if its
   cost fits, together with everything charged since any earlier commit (or since now), under a
   full bucket plus what accrued since that commit. Steps back of the clock accrue nothing.
   */
  lemma {:induction false} AdmitsExactlyTheEnvelope(cfg: TB.Config, decide: Decider<TB.State>, reqs: seq<Request>,
                                                    now: nat, cost: U32)
    requires TB.Implements(cfg, decide)
    ensures decide(Replay(decide, reqs), now, cost).decision.allowed
       <==> forall i :: 0 <= i <= |reqs| ==> cost as real <= Headroom(cfg, decide, reqs, now, i)
  {
    hide Headroom;
    LevelIsLeastHeadroom(cfg, decide, reqs, now);
    var _ := TB.Attempt(cfg, Replay(decide, reqs), now, cost);
  }

  lemma PassedInTime(reqs: seq<Request>, i: nat, now: nat)
    requires Nondecreasing(reqs) && i < |reqs| && reqs[|reqs| - 1].now <= now
    ensures Passed(reqs, i, now) == now - reqs[i].now
  {
    ForwardIsElapsed(reqs[i..]);
  }

  lemma GainFromZero(cfg: TB.Config, since: nat, now: nat)
    requires since <= now
    ensures Gain(cfg, 0, now - since) == Gain(cfg, since, now)
  {
    assert ElapsedSecs(0, now - since) == ElapsedSecs(since, now);
  }

  /** On a clock that does not go back, what accrued since a commit is the refill of the time since. */
  lemma {:induction false} HeadroomInTime(cfg: TB.Config, decide: Decider<TB.State>, reqs: seq<Request>, now: nat,
                                          i: nat, since: nat)
    requires Nondecreasing(reqs) && i < |reqs| && since == reqs[i].now <= reqs[|reqs| - 1].now <= now
    ensures Headroom(cfg, decide, reqs, now, i)
         == cfg.capacity + Gain(cfg, since, now) - Sum(Charges(decide, reqs)[i..]) as real
  {
    hide Gain, Charges, Sum;
    PassedInTime(reqs, i, now);
    GainFromZero(cfg, since, now);
  }

  /** The stored tokens stay between empty and capacity, whatever the commit times. */
  lemma {:induction false} TokensInRange(cfg: TB.Config, decide: Decider<TB.State>, reqs: seq<Request>)
    requires TB.Implements(cfg, decide)
    requires reqs != []
    ensures var s := Replay(decide, reqs);
            && s.Some?
            && 0.0 <= s.value.tokens <= cfg.capacity
            && s.value.lastRefillMs == reqs[|reqs| - 1].now
  {
    var n := |reqs| - 1;
    var front, r := reqs[..n], reqs[n];
    assert reqs == front + [r];
    StateExtended(cfg, decide, front, r);
    if n > 0 {
      TokensInRange(cfg, decide, front);
      var s := Replay(decide, front).value;
      RefilledByGain(cfg, s.tokens, s.lastRefillMs, r.now);
      GainNonneg(cfg, s.lastRefillMs, r.now);
    }
  }

  lemma LevelNonneg(cfg: TB.Config, decide: Decider<TB.State>, reqs: seq<Request>, now: nat)
    requires TB.Implements(cfg, decide)
    ensures 0.0 <= Level(cfg, decide, reqs, now) <= cfg.capacity
  {
    GainNonneg(cfg, now, now);
    if reqs != [] {
      TokensInRange(cfg, decide, reqs);
      var s := Replay(decide, reqs).value;
      RefilledByGain(cfg, s.tokens, s.lastRefillMs, now);
      GainNonneg(cfg, s.lastRefillMs, now);
    }
  }

  /** Everything that refills over a run. */
  function Accrued(cfg: TB.Config, reqs: seq<Request>): real {
    Gain(cfg, 0, Forward(reqs))
  }

  lemma AccruedExtended(cfg: TB.Config, reqs: seq<Request>, r: Request)
    requires reqs != []
    ensures Accrued(cfg, reqs + [r]) == Accrued(cfg, reqs) + Gain(cfg, reqs[|reqs| - 1].now, r.now)
  {
    assert (reqs + [r])[..|reqs|] == reqs;
    GainOfMoves(cfg, Forward(reqs), reqs[|reqs| - 1].now, r.now);
  }

  lemma {:induction false} ConservedByCommit(cfg: TB.Config, decide: Decider<TB.State>, reqs: seq<Request>, r: Request)
    requires TB.Implements(cfg, decide) && reqs != []
    ensures Replay(decide, reqs).Some? && Replay(decide, reqs + [r]).Some?
    ensures Replay(decide, reqs + [r]).value.tokens + NextCharge(decide, reqs, r) as real
         <= Replay(decide, reqs).value.tokens + Gain(cfg, reqs[|reqs| - 1].now, r.now)
  {
    TokensInRange(cfg, decide, reqs);
    StateExtended(cfg, decide, reqs, r);
    var s := Replay(decide, reqs).value;
    RefilledByGain(cfg, s.tokens, s.lastRefillMs, r.now);
  }

  /**
   Conservation, with no assumption on the commit times: from any commit on, what is left plus
   everything admitted never exceeds a full bucket plus the refill of the forward clock moves.
   */
  lemma {:induction false} TokensConserved(cfg: TB.Config, decide: Decider<TB.State>, reqs: seq<Request>, a: nat)
    requires TB.Implements(cfg, decide) && a < |reqs|
    ensures Replay(decide, reqs).Some?
    ensures Replay(decide, reqs).value.tokens + Sum(Charges(decide, reqs)[a..]) as real
         <= cfg.capacity + Accrued(cfg, reqs[a..])
  {
    var n := |reqs| - 1;
    var front, r := reqs[..n], reqs[n];
    assert reqs == front + [r];
    TailExtended(decide, front, r, a);
    assert reqs[a..] == front[a..] + [r];
    if a < n {
      TokensConserved(cfg, decide, front, a);
      ConservedByCommit(cfg, decide, front, r);
      AccruedExtended(cfg, front[a..], r);
    } else {
      StateExtended(cfg, decide, front, r);
      LevelNonneg(cfg, decide, front, r.now);
      GainNonneg(cfg, 0, 0);
      assert Charges(decide, front)[a..] == [];
    }
  }

  lemma {:induction false} ForwardIsElapsed(reqs: seq<Request>)
    requires Nondecreasing(reqs) && reqs != []
    ensures Forward(reqs) == reqs[|reqs| - 1].now - reqs[0].now
  {
    if |reqs| > 1 { ForwardIsElapsed(reqs[..|reqs| - 1]); }
  }

  /** When the clock readings do not regress, what accrues over a run is the refill of the time it took. */
  lemma AccruedIsElapsed(cfg: TB.Config, reqs: seq<Request>)
    requires Nondecreasing(reqs) && reqs != []
    ensures Accrued(cfg, reqs) == Gain(cfg, reqs[0].now, reqs[|reqs| - 1].now)
  {
    ForwardIsElapsed(reqs);
    assert ElapsedSecs(0, Forward(reqs)) == ElapsedSecs(reqs[0].now, reqs[|reqs| - 1].now);
  }

  lemma AccruedSince(cfg: TB.Config, reqs: seq<Request>, a: nat)
    requires Nondecreasing(reqs) && a < |reqs|
    ensures Accrued(cfg, reqs[a..]) == Gain(cfg, reqs[a].now, reqs[|reqs| - 1].now)
  {
    AccruedIsElapsed(cfg, reqs[a..]);
  }

  lemma {:induction false} AdmittedSinceCommit(cfg: TB.Config, decide: Decider<TB.State>, reqs: seq<Request>, a: nat)
    requires TB.Implements(cfg, decide) && a < |reqs|
    ensures Sum(Charges(decide, reqs)[a..]) as real <= cfg.capacity + Accrued(cfg, reqs[a..])
  {
    TokensConserved(cfg, decide, reqs, a);
    TokensInRange(cfg, decide, reqs);
  }

  lemma {:induction false} StretchCharges(decide: Decider<TB.State>, reqs: seq<Request>, a: nat, b: nat)
    requires a < b <= |reqs|
    ensures Charges(decide, reqs[..b])[a..] == Charges(decide, reqs)[a..b]
  {
    DecisionsOfPrefix(decide, reqs, b);
  }

  lemma {:induction false} AdmittedInTime(cfg: TB.Config, decide: Decider<TB.State>, reqs: seq<Request>, a: nat,
                                          first: nat, last: nat)
    requires TB.Implements(cfg, decide) && Nondecreasing(reqs) && a < |reqs|
    requires first == reqs[a].now && last == reqs[|reqs| - 1].now
    ensures Sum(Charges(decide, reqs)[a..]) as real <= cfg.capacity + Gain(cfg, first, last)
  {
    AdmittedSinceCommit(cfg, decide, reqs, a);
    AccruedSince(cfg, reqs, a);
  }

  /** Every stretch of every run admits at most a full bucket plus what accrues while it lasts. */
  lemma {:induction false} StretchBound(cfg: TB.Config, decide: Decider<TB.State>, reqs: seq<Request>, a: nat, b: nat)
    requires TB.Implements(cfg, decide)
    requires Nondecreasing(reqs) && a < b <= |reqs|
    ensures Sum(Charges(decide, reqs)[a..b]) as real
         <= cfg.capacity + Gain(cfg, reqs[a].now, reqs[b - 1].now)
  {
    AdmittedInTime(cfg, decide, reqs[..b], a, reqs[a].now, reqs[b - 1].now);
    StretchCharges(decide, reqs, a, b);
  }

  /**
   A denied request repeated `k` ms later, with nothing admitted in between, is admitted exactly
   when the refill of `k` ms covers the deficit, provided it fits in the bucket at all.
   */
  lemma RepeatedAfterDenial(cfg: TB.Config, s: TB.State, now: nat, cost: U32, k: nat)
    requires !TB.Step(cfg, s, now, cost).decision.allowed
    ensures var v := TB.Step(cfg, s, now, cost);
            TB.Step(cfg, v.state, now + k, cost).decision.allowed
            <==> cost as real <= cfg.capacity && cost as real - v.state.tokens <= Gain(cfg, now, now + k)
  {
    RefilledByGain(cfg, TB.Step(cfg, s, now, cost).state.tokens, now, now + k);
  }

  lemma ScaledOrder(x: real, y: real, rate: real)
    requires rate > 0.0
    ensures x <= y <==> x * rate <= y * rate
  {
  }

  /** `k` ms refill a deficit exactly when `k` reaches the wait, before its truncation. */
  lemma GainCoversDeficit(cfg: TB.Config, deficit: real, now: nat, k: nat)
    requires cfg.refillRate > 0.0
    ensures deficit <= Gain(cfg, now, now + k) <==> deficit / cfg.refillRate * 1000.0 <= k as real
    ensures Gain(cfg, now, now + k) <= deficit <==> k as real <= deficit / cfg.refillRate * 1000.0
  {
    var q, e := deficit / cfg.refillRate, ElapsedSecs(now, now + k);
    assert e == k as real / 1000.0;
    assert q * cfg.refillRate == deficit;
    ScaledOrder(q, e, cfg.refillRate);
    ScaledOrder(e, q, cfg.refillRate);
  }

  /**
   The hint itself, for any cost: the last whole millisecond whose refill does not exceed what the
   denied request lacks, or the end of the `i64` range if that comes first.
   */
  lemma RetryHintExact(cfg: TB.Config, s: TB.State, now: nat, cost: U32)
    requires !TB.Step(cfg, s, now, cost).decision.allowed
    ensures var v := TB.Step(cfg, s, now, cost);
            var hint, lack := v.decision.retryAfterMs, cost as real - v.state.tokens;
            && 0 <= hint <= I64_MAX
            && Gain(cfg, now, now + hint) <= lack
            && (hint < I64_MAX ==> lack < Gain(cfg, now, now + hint + 1))
  {
    var lack := cost as real - TB.Step(cfg, s, now, cost).state.tokens;
    assert lack > 0.0;
    if cfg.refillRate == 0.0 {
      assert TB.Step(cfg, s, now, cost).decision.retryAfterMs == I64_MAX;
      assert Gain(cfg, now, now + I64_MAX) == 0.0;
    } else {
      HintCoversLack(cfg, lack, now);
    }
  }

  lemma HintCoversLack(cfg: TB.Config, lack: real, now: nat)
    requires cfg.refillRate > 0.0 && lack > 0.0
    ensures var hint := WaitMs(lack, cfg.refillRate);
            && 0 <= hint <= I64_MAX
            && Gain(cfg, now, now + hint) <= lack
            && (hint < I64_MAX ==> lack < Gain(cfg, now, now + hint + 1))
  {
    var wait := lack / cfg.refillRate * 1000.0;
    PositiveWait(lack, cfg.refillRate);
    AsI64Truncates(wait);
    var hint := AsI64(wait);
    GainCoversDeficit(cfg, lack, now, hint);
    GainCoversDeficit(cfg, lack, now, hint + 1);
  }

  lemma PositiveWait(lack: real, rate: real)
    requires lack > 0.0 && rate > 0.0
    ensures lack / rate * 1000.0 > 0.0
  {
    var q := lack / rate;
    assert q * rate == lack;
  }

  /** What refills, in the units of the configuration: a rate per second, and clock readings in ms. */
  lemma GainInTime(cfg: TB.Config, since: int, now: int)
    ensures since <= now ==> Gain(cfg, since, now) * 1000.0 == cfg.refillRate * (now - since) as real
    ensures now <= since ==> Gain(cfg, since, now) == 0.0
  {
    var e := ElapsedSecs(since, now);
    if since <= now {
      assert e * 1000.0 == (now - since) as real;
      assert (e * cfg.refillRate) * 1000.0 == (e * 1000.0) * cfg.refillRate;
    }
  }

  /**
   The retry hint of a denied request is tight to a millisecond: repeated earlier it is denied
   again, repeated later it is admitted exactly when the bucket can hold its cost at all. A hint
   that saturated at the end of the `i64` range (a zero rate does that) promises only the first half.
   */
  lemma RetryHintTight(cfg: TB.Config, s: TB.State, now: nat, cost: U32, k: nat)
    requires !TB.Step(cfg, s, now, cost).decision.allowed
    ensures var v := TB.Step(cfg, s, now, cost);
            var again := TB.Step(cfg, v.state, now + k, cost).decision;
            && (k < v.decision.retryAfterMs ==> !again.allowed)
            && (k == v.decision.retryAfterMs
                ==> (again.allowed <==> cost as real <= cfg.capacity
                                        && Gain(cfg, now, now + k) == cost as real - v.state.tokens))
            && (v.decision.retryAfterMs < k && v.decision.retryAfterMs < I64_MAX
                ==> (again.allowed <==> cost as real <= cfg.capacity))
  {
    RepeatedAfterDenial(cfg, s, now, cost, k);
    RetryHintExact(cfg, s, now, cost);
    var deficit := cost as real - TB.Step(cfg, s, now, cost).state.tokens;
    if cfg.refillRate > 0.0 {
      GainCoversDeficit(cfg, deficit, now, k);
      GainCoversDeficit(cfg, deficit, now, 0);
      GainNonneg(cfg, now, now);
      AsI64Truncates(deficit / cfg.refillRate * 1000.0);
    } else {
      assert Gain(cfg, now, now + k) == 0.0;
    }
  }
}
