/** The clocks on which denied checks leave no trace in a bucket: those that never turn. */
module DeniedBuckets {
  import opened BucketDuality
  import opened DeniedChecks
  import opened Limiter
  import opened Runs
  import opened Wrappers

  import LB = LeakyBucket
  import LBC = LeakyBucketClocks
  import TB = TokenBucket
  import TBC = TokenBucketClocks
  import TBR = TokenBucketRuns

  predicate Between(a: nat, b: nat, c: nat) {
    a <= b <= c || a >= b >= c
  }

  /** Of any three readings, the middle one was read in the middle: the clock only goes forward, or only back. */
  ghost predicate NeverTurns(reqs: seq<Request>) {
    forall h, i, j :: 0 <= h < i < j < |reqs| ==> Between(reqs[h].now, reqs[i].now, reqs[j].now)
  }

  lemma {:induction false} NeverTurnsKept(reqs: seq<Request>, keep: seq<bool>)
    requires |reqs| == |keep| && NeverTurns(reqs)
    ensures NeverTurns(Select(reqs, keep))
  {
    var kept := Select(reqs, keep);
    forall h, i, j | 0 <= h < i < j < |kept| ensures Between(kept[h].now, kept[i].now, kept[j].now) {
      OriginsInOrder(reqs, keep, h, i);
      OriginsInOrder(reqs, keep, i, j);
    }
  }

  // ---- Enough ----

  /** The level at `now` that the charges alone would have left. */
  function LevelFrom(cfg: TB.Config, charged: seq<Request>, now: nat): (level: real)
    ensures level <= cfg.capacity
  {
    if charged == [] then cfg.capacity else
    var n := |charged| - 1;
    var last := charged[n];
    MinReal(LevelFrom(cfg, charged[..n], last.now) - last.cost as real + TBR.Gain(cfg, last.now, now), cfg.capacity)
  }

  /** From one commit's reading to a later check's, by way of another reading in between. */
  lemma RefillByTheWay(cfg: TB.Config, since: nat, way: nat, now: nat)
    requires Between(since, way, now)
    ensures TBR.Gain(cfg, since, now) == TBR.Gain(cfg, since, way) + TBR.Gain(cfg, way, now)
  {
    if since <= way <= now { TBR.GainSplits(cfg, since, way, now); }
  }

  /** A denied commit in between changes nothing at `now`. */
  lemma {:induction false} DeniedByTheWay(cfg: TB.Config, decide: Decider<TB.State>, reqs: seq<Request>, r: Request,
                                          now: nat)
    requires TB.Implements(cfg, decide) && NextCharge(decide, reqs, r) == 0
    requires reqs != [] ==> Between(reqs[|reqs| - 1].now, r.now, now)
    ensures TBR.Level(cfg, decide, reqs + [r], now) == TBR.Level(cfg, decide, reqs, now)
  {
    TBR.LevelOfCommit(cfg, decide, reqs, r, now);
    TBR.GainNonneg(cfg, r.now, now);
    if reqs == [] {
      TBR.GainNonneg(cfg, now, now);
      TBR.GainNonneg(cfg, r.now, r.now);
    } else {
      TBR.TokensInRange(cfg, decide, reqs);
      var s := Replay(decide, reqs).value;
      TBR.LevelOfState(cfg, decide, reqs, now, s.tokens, s.lastRefillMs);
      TBR.LevelOfState(cfg, decide, reqs, r.now, s.tokens, s.lastRefillMs);
      RefillByTheWay(cfg, s.lastRefillMs as nat, r.now, now);
    }
  }

  /** On a clock that never turns, what the first `n` commits leave for commit `j` is told by what they were charged. */
  lemma {:induction false} LevelTold(cfg: TB.Config, decide: Decider<TB.State>, reqs: seq<Request>, n: nat, j: nat)
    requires TB.Implements(cfg, decide) && NeverTurns(reqs) && n <= j < |reqs|
    ensures TBR.Level(cfg, decide, reqs[..n], reqs[j].now) == LevelFrom(cfg, ChargedRun(decide, reqs[..n]), reqs[j].now)
  {
    if n == 0 {
      TBR.GainNonneg(cfg, reqs[j].now, reqs[j].now);
    } else {
      var front, r := reqs[..n - 1], reqs[n - 1];
      assert reqs[..n] == front + [r];
      ChargedExtended(decide, front, r);
      if NextCharge(decide, front, r) > 0 {
        LevelTold(cfg, decide, reqs, n - 1, n - 1);
        TBR.LevelOfCommit(cfg, decide, front, r, reqs[j].now);
      } else {
        LevelTold(cfg, decide, reqs, n - 1, j);
        DeniedByTheWay(cfg, decide, front, r, reqs[j].now);
      }
    }
  }

  /** The decision a token bucket gives on what the charges alone would have left. */
  function TokenTeller(cfg: TB.Config): Teller {
    (charged: seq<Request>, now: nat, cost: U32) =>
      TB.Step(cfg, TB.State(LevelFrom(cfg, charged, now), now), now, cost).decision
  }

  lemma TokenByLevel(cfg: TB.Config, decide: Decider<TB.State>, stored: Option<TB.State>, now: nat, cost: U32)
    requires TB.Implements(cfg, decide)
    ensures var level := TB.Refilled(cfg, TB.Found(cfg, stored, now), now);
            decide(stored, now, cost).decision == TB.Step(cfg, TB.State(level, now), now, cost).decision
  {
    hide AsI64, WaitMs, ElapsedSecs;
    var level := TB.Refilled(cfg, TB.Found(cfg, stored, now), now);
    TBR.RefilledByGain(cfg, level, now, now);
    TBR.GainNonneg(cfg, now, now);
    var _ := TB.Attempt(cfg, stored, now, cost);
  }

  lemma {:induction false} TokenTold(cfg: TB.Config, decide: Decider<TB.State>, reqs: seq<Request>)
    requires TB.Implements(cfg, decide) && NeverTurns(reqs)
    ensures Told(decide, TokenTeller(cfg), reqs)
  {
    forall n | 0 <= n < |reqs| ensures ToldAt(decide, TokenTeller(cfg), reqs, n) {
      LevelTold(cfg, decide, reqs, n, n);
      TokenByLevel(cfg, decide, Replay(decide, reqs[..n]), reqs[n].now, reqs[n].cost);
    }
  }

  lemma TokenBucketHides(cfg: TB.Config, reqs: seq<Request>, keep: seq<bool>)
    requires |reqs| == |keep| && NeverTurns(reqs)
    ensures Hidden(TB.Decide(cfg), reqs, keep)
  {
    NeverTurnsKept(reqs, keep);
    TokenTold(cfg, TB.Decide(cfg), reqs);
    TokenTold(cfg, TB.Decide(cfg), Select(reqs, keep));
    HiddenIfTold(TB.Decide(cfg), TokenTeller(cfg), reqs, keep);
  }

  // ---- And needed ----

  lemma {:induction false} ForwardSplits(reqs: seq<Request>, i: nat)
    requires i < |reqs|
    ensures TBR.Forward(reqs) == TBR.Forward(reqs[..i + 1]) + TBR.Forward(reqs[i..])
  {
    var n := |reqs| - 1;
    if i == n {
      assert reqs[..i + 1] == reqs;
    } else {
      ForwardSplits(reqs[..n], i);
      assert reqs[..n][..i + 1] == reqs[..i + 1] && reqs[..n][i..] == reqs[i..n];
      assert reqs[i..][..n - i] == reqs[i..n];
    }
  }

  lemma {:induction false} ForwardReaches(reqs: seq<Request>)
    requires reqs != []
    ensures TBR.Forward(reqs) >= SaturatingSub(reqs[|reqs| - 1].now, reqs[0].now)
  {
    if |reqs| > 1 { ForwardReaches(reqs[..|reqs| - 1]); }
  }

  /** By way of a reading that is not in between, the clock moves forward further than it gets. */
  lemma {:induction false} TurningAccrues(reqs: seq<Request>, h: nat, i: nat, j: nat)
    requires h < i < j < |reqs| && !Between(reqs[h].now, reqs[i].now, reqs[j].now)
    ensures TBR.Forward(reqs[h..j + 1]) > SaturatingSub(reqs[j].now, reqs[h].now)
  {
    var stretch := reqs[h..j + 1];
    ForwardSplits(stretch, i - h);
    ForwardReaches(stretch[..i - h + 1]);
    ForwardReaches(stretch[i - h..]);
  }

  lemma TokenAdmits(cfg: TB.Config, decide: Decider<TB.State>, reqs: seq<Request>, r: Request)
    requires TB.Implements(cfg, decide)
    ensures Next(decide, reqs, r).decision.allowed <==> TBR.Level(cfg, decide, reqs, r.now) >= r.cost as real
  {
    var _ := TB.Attempt(cfg, Replay(decide, reqs), r.now, r.cost);
  }

  /** One token, refilled by a forward move that is longer than the way from `r` to `q`. */
  lemma {:induction false} TokenTwice(forward: nat, decide: Decider<TB.State>, r: Request, q: Request)
    requires forward > SaturatingSub(q.now, r.now) && r.cost == q.cost == 1
    requires TB.Implements(TBC.OneToken(forward), decide)
    ensures !Next(decide, [r], q).decision.allowed
  {
    var cfg := TBC.OneToken(forward);
    TBC.FullLevel(cfg, decide, [], r.now);
    TBR.StateExtended(cfg, decide, [], r);
    assert [] + [r] == [r];
    TBR.LevelOfState(cfg, decide, [r], q.now, 0.0, r.now);
    var moved := SaturatingSub(q.now, r.now);
    assert ElapsedSecs(r.now, q.now) == ElapsedSecs(0, moved);
    TBC.OneTokenGain(forward, moved);
    assert moved as real / forward as real < 1.0;
    TokenAdmits(cfg, decide, [r], q);
  }

  /** The two-request run on a clock that turns. */
  function TurningRun(clock: seq<Request>, h: nat, j: nat): seq<Request> {
    Asking(clock, h, 1, j, 1, 2)
  }

  lemma {:induction false} TurningDecisions(clock: seq<Request>, h: nat, i: nat, j: nat, forward: nat)
    requires h < i < j < |clock| && !Between(clock[h].now, clock[i].now, clock[j].now)
    requires forward == TBR.Forward(TurningRun(clock, h, j)[h..j + 1])
    ensures forward > 0
    ensures var decide, reqs := TB.Decide(TBC.OneToken(forward)), TurningRun(clock, h, j);
            && DeniedElsewhere(decide, reqs, h, j)
            && Next(decide, reqs[..j], reqs[j]).decision.allowed
            && !Next(decide, [reqs[h]], reqs[j]).decision.allowed
  {
    var reqs := TurningRun(clock, h, j);
    TurningAccrues(reqs, h, i, j);
    var cfg := TBC.OneToken(forward);
    var decide := TB.Decide(cfg);
    forall k | 0 <= k < |reqs| && k != h && k != j ensures !Next(decide, reqs[..k], reqs[k]).decision.allowed {
      TBR.LevelNonneg(cfg, decide, reqs[..k], reqs[k].now);
      TokenAdmits(cfg, decide, reqs[..k], reqs[k]);
    }
    TBC.ProbeRun(decide, reqs, h, j, j, forward, (now: nat) => true);
    TBC.ProbeLevel(decide, reqs, h, j, j, forward, (now: nat) => true);
    TokenAdmits(cfg, decide, reqs[..j], reqs[j]);
    TokenTwice(forward, decide, reqs[h], reqs[j]);
  }

  /** Denied checks leave no trace in a token bucket on exactly the clocks that never turn. */
  lemma TokenBucketHidesExactly(clock: seq<Request>)
    ensures (forall cfg: TB.Config :: AlwaysHides(TB.Decide(cfg), clock)) <==> NeverTurns(clock)
  {
    if NeverTurns(clock) {
      forall cfg: TB.Config, reqs: seq<Request>, keep: seq<bool> | SameClock(reqs, clock) && |reqs| == |keep|
        ensures Hidden(TB.Decide(cfg), reqs, keep)
      {
        assert NeverTurns(reqs);
        TokenBucketHides(cfg, reqs, keep);
      }
    } else {
      var h, i, j :| 0 <= h < i < j < |clock| && !Between(clock[h].now, clock[i].now, clock[j].now);
      var reqs := TurningRun(clock, h, j);
      var forward := TBR.Forward(reqs[h..j + 1]);
      TurningDecisions(clock, h, i, j, forward);
      var decide := TB.Decide(TBC.OneToken(forward));
      if AlwaysHides(decide, clock) { OnlyTwo(decide, clock, reqs, h, j); }
    }
  }

  // ---- And the queue, by duality ----

  /** The leaky bucket's answer is its dual's, but for the limit. */
  function QueueTeller(cfg: LB.Config): Teller {
    (charged: seq<Request>, now: nat, cost: U32) =>
      TokenTeller(Dual(cfg))(charged, now, cost).(limit := cfg.capacity)
  }

  lemma {:induction false} ChargedAlike(cfg: LB.Config, leaky: Decider<LB.State>, token: Decider<TB.State>,
                                        reqs: seq<Request>)
    requires LB.Implements(cfg, leaky) && TB.Implements(Dual(cfg), token)
    ensures ChargedRun(leaky, reqs) == ChargedRun(token, reqs)
  {
    if reqs != [] {
      var front, r := reqs[..|reqs| - 1], reqs[|reqs| - 1];
      ChargedAlike(cfg, leaky, token, front);
      RunsDual(cfg, leaky, token, front);
      NextDual(cfg, leaky, token, front, r);
    }
  }

  lemma {:induction false} QueueTold(cfg: LB.Config, leaky: Decider<LB.State>, reqs: seq<Request>)
    requires LB.Implements(cfg, leaky) && NeverTurns(reqs)
    ensures Told(leaky, QueueTeller(cfg), reqs)
  {
    var token := TB.Decide(Dual(cfg));
    TokenTold(Dual(cfg), token, reqs);
    forall n | 0 <= n < |reqs| ensures ToldAt(leaky, QueueTeller(cfg), reqs, n) {
      assert ToldAt(token, TokenTeller(Dual(cfg)), reqs, n);
      ChargedAlike(cfg, leaky, token, reqs[..n]);
      RunsDual(cfg, leaky, token, reqs[..n]);
      NextDual(cfg, leaky, token, reqs[..n], reqs[n]);
      var _ := LB.Attempt(cfg, Replay(leaky, reqs[..n]), reqs[n].now, reqs[n].cost);
    }
  }

  lemma LeakyBucketHides(cfg: LB.Config, reqs: seq<Request>, keep: seq<bool>)
    requires |reqs| == |keep| && NeverTurns(reqs)
    ensures Hidden(LB.Decide(cfg), reqs, keep)
  {
    NeverTurnsKept(reqs, keep);
    QueueTold(cfg, LB.Decide(cfg), reqs);
    QueueTold(cfg, LB.Decide(cfg), Select(reqs, keep));
    HiddenIfTold(LB.Decide(cfg), QueueTeller(cfg), reqs, keep);
  }

  lemma {:induction false} AdmitsAlike(cfg: LB.Config, leaky: Decider<LB.State>, token: Decider<TB.State>,
                                       reqs: seq<Request>, r: Request)
    requires LB.Implements(cfg, leaky) && TB.Implements(Dual(cfg), token)
    ensures Next(leaky, reqs, r).decision.allowed == Next(token, reqs, r).decision.allowed
  {
    RunsDual(cfg, leaky, token, reqs);
    NextDual(cfg, leaky, token, reqs, r);
  }

  lemma {:induction false} TurningShowsDenials(clock: seq<Request>, h: nat, i: nat, j: nat)
    requires h < i < j < |clock| && !Between(clock[h].now, clock[i].now, clock[j].now)
    ensures exists cfg: LB.Config :: !AlwaysHides(LB.Decide(cfg), clock)
  {
    var reqs := TurningRun(clock, h, j);
    var forward := TBR.Forward(reqs[h..j + 1]);
    TurningDecisions(clock, h, i, j, forward);
    var token := TB.Decide(TBC.OneToken(forward));
    var cfg := LBC.OnePlace(forward);
    var leaky := LB.Decide(cfg);
    assert Dual(cfg) == TBC.OneToken(forward);
    forall k | 0 <= k < |reqs| ensures
      Next(leaky, reqs[..k], reqs[k]).decision.allowed == Next(token, reqs[..k], reqs[k]).decision.allowed
    {
      AdmitsAlike(cfg, leaky, token, reqs[..k], reqs[k]);
    }
    AdmitsAlike(cfg, leaky, token, [reqs[h]], reqs[j]);
    if AlwaysHides(leaky, clock) { OnlyTwo(leaky, clock, reqs, h, j); }
  }

  /** Denied checks leave no trace in a leaky bucket on the same clocks. */
  lemma LeakyBucketHidesExactly(clock: seq<Request>)
    ensures (forall cfg: LB.Config :: AlwaysHides(LB.Decide(cfg), clock)) <==> NeverTurns(clock)
  {
    if NeverTurns(clock) {
      forall cfg: LB.Config, reqs: seq<Request>, keep: seq<bool> | SameClock(reqs, clock) && |reqs| == |keep|
        ensures Hidden(LB.Decide(cfg), reqs, keep)
      {
        assert NeverTurns(reqs);
        LeakyBucketHides(cfg, reqs, keep);
      }
    } else {
      var h, i, j :| 0 <= h < i < j < |clock| && !Between(clock[h].now, clock[i].now, clock[j].now);
      TurningShowsDenials(clock, h, i, j);
    }
  }
}
