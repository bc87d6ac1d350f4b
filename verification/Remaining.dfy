/** What `remaining` tells the caller: exactly what a further check at the same instant could still cost. */
module Remaining {
  import opened Wrappers
  import opened Limiter
  import opened Runs
  import TB = TokenBucket
  import LB = LeakyBucket
  import FW = FixedWindow
  import SC = SlidingWindowCounter
  import SL = SlidingWindowLog
  import TBR = TokenBucketRuns
  import LBD = BucketDuality
  import FWR = FixedWindowRuns
  import SCR = SlidingCounterRuns
  import SLR = SlidingLogRuns

  /** After the verdict, a further check at `now` is admitted if and only if its cost is within `remaining`. */
  ghost predicate Exact<V>(decide: Decider<V>, v: Verdict<V>, now: nat) {
    forall c: U32 :: decide(Some(v.state), now, c).decision.allowed <==> c <= v.decision.remaining
  }

  /** `n` is the whole part of `x`, or the end of the `i64` range if that is less. */
  predicate WholePart(n: int, x: real) {
    0 <= n <= I64_MAX && n as real <= x && (n < I64_MAX ==> x < n as real + 1.0)
  }

  lemma TokenBucketExact(cfg: TB.Config, decide: Decider<TB.State>, reqs: seq<Request>, r: Request)
    requires TB.Implements(cfg, decide)
    ensures Exact(decide, Next(decide, reqs, r), r.now)
    ensures WholePart(Next(decide, reqs, r).decision.remaining, Next(decide, reqs, r).state.tokens)
  {
    var v := Next(decide, reqs, r);
    var level := TBR.Level(cfg, decide, reqs, r.now);
    TBR.LevelNonneg(cfg, decide, reqs, r.now);
    assert v == TB.Attempt(cfg, Replay(decide, reqs), r.now, r.cost);
    var left := v.state.tokens;
    assert v.state == TB.State(left, r.now) && v.decision.remaining == AsI64(left) && 0.0 <= left <= cfg.capacity;
    AsI64Truncates(left);
    TBR.RefilledByGain(cfg, left, r.now, r.now);
    TBR.GainNonneg(cfg, r.now, r.now);
    forall c: U32
      ensures decide(Some(v.state), r.now, c).decision.allowed <==> c <= v.decision.remaining
    {
      assert decide(Some(v.state), r.now, c) == TB.Attempt(cfg, Some(v.state), r.now, c);
      AsI64Bounds(left, c);
    }
  }

  lemma LeakyBucketExact(cfg: LB.Config, decide: Decider<LB.State>, reqs: seq<Request>, r: Request)
    requires LB.Implements(cfg, decide)
    ensures Exact(decide, Next(decide, reqs, r), r.now)
    ensures WholePart(Next(decide, reqs, r).decision.remaining,
                      cfg.capacity as real - Next(decide, reqs, r).state.queue)
  {
    var token := TB.Decide(LBD.Dual(cfg));
    TokenBucketExact(LBD.Dual(cfg), token, reqs, r);
    LBD.RunsDual(cfg, decide, token, reqs);
    LBD.NextDual(cfg, decide, token, reqs, r);
    forall c: U32
      ensures decide(Some(Next(decide, reqs, r).state), r.now, c).decision.allowed
         <==> c <= Next(decide, reqs, r).decision.remaining
    {
      LBD.AttemptDual(cfg, decide, token, Next(decide, reqs, r).state, r.now, c);
    }
  }

  lemma {:induction false} FixedCountFits(cfg: FW.Config, decide: Decider<FW.State>, reqs: seq<Request>)
    requires FW.Implements(cfg, decide) && reqs != []
    ensures var s := Replay(decide, reqs);
            s.Some? && s.value.count <= cfg.maxRequests
  {
    var n := |reqs| - 1;
    assert reqs == reqs[..n] + [reqs[n]];
    FWR.CountExtended(cfg, decide, reqs[..n], reqs[n]);
    if n > 0 { FixedCountFits(cfg, decide, reqs[..n]); }
  }

  lemma FixedWindowExact(cfg: FW.Config, decide: Decider<FW.State>, reqs: seq<Request>, r: Request)
    requires FW.Implements(cfg, decide)
    ensures Exact(decide, Next(decide, reqs, r), r.now)
    ensures Next(decide, reqs, r).decision.remaining == cfg.maxRequests - Next(decide, reqs, r).state.count
  {
    var v := Next(decide, reqs, r);
    FWR.AttemptCounts(cfg, decide, Replay(decide, reqs), r.now, r.cost);
    assert v == FW.Attempt(cfg, Replay(decide, reqs), r.now, r.cost);
    RunExtended(decide, reqs, r);
    FixedCountFits(cfg, decide, reqs + [r]);
    forall c: U32
      ensures decide(Some(v.state), r.now, c).decision.allowed <==> c <= v.decision.remaining
    {
      FWR.AttemptCounts(cfg, decide, Some(v.state), r.now, c);
    }
  }

  lemma {:induction false} NothingPruned(log: seq<int>, cutoff: int, now: int, charge: nat)
    requires cutoff < now
    ensures var stored := SL.Pruned(log, cutoff) + SL.Stamps(now, charge);
            SL.Pruned(stored, cutoff) == stored
    ensures |SL.Pruned(log, cutoff) + SL.Stamps(now, charge)| == |SL.Pruned(log, cutoff)| + charge
  {
    SLR.PrunedIsNewer(log, cutoff);
    SLR.StampsAreNow(now, charge);
    SLR.PrunedIsNewer(SL.Pruned(log, cutoff) + SL.Stamps(now, charge), cutoff);
  }

  lemma {:induction false} AttemptStores(cfg: SL.Config, decide: Decider<SL.State>, stored: Option<SL.State>,
                                         now: nat, cost: U32)
    requires SL.Implements(cfg, decide)
    ensures var v, kept := decide(stored, now, cost), SL.Pruned(SLR.LogOf(stored), now - cfg.windowMs);
            var charge := Charge(v.decision, cost);
            && v.state.timestampsMs == kept + SL.Stamps(now, charge)
            && v.decision.remaining == SaturatingSub(cfg.maxRequests, |kept| + charge)
  {
    var _ := SL.Attempt(cfg, stored, now, cost);
  }

  /** Everything just stored is still in the window, and `remaining` is what it leaves of the limit. */
  lemma JustStored(cfg: SL.Config, decide: Decider<SL.State>, reqs: seq<Request>, r: Request)
    requires SL.Implements(cfg, decide)
    ensures var v := Next(decide, reqs, r);
            && SL.Pruned(v.state.timestampsMs, r.now - cfg.windowMs) == v.state.timestampsMs
            && v.decision.remaining == SaturatingSub(cfg.maxRequests, |v.state.timestampsMs|)
  {
    hide SL.Implements, SL.Pruned, SL.Stamps;
    AttemptStores(cfg, decide, Replay(decide, reqs), r.now, r.cost);
    NothingPruned(SLR.LogAfter(decide, reqs), r.now - cfg.windowMs, r.now, NextCharge(decide, reqs, r));
  }

  lemma SlidingLogExact(cfg: SL.Config, decide: Decider<SL.State>, reqs: seq<Request>, r: Request)
    requires SL.Implements(cfg, decide)
    ensures Exact(decide, Next(decide, reqs, r), r.now)
    ensures Next(decide, reqs, r).decision.remaining
         == cfg.maxRequests - |Next(decide, reqs, r).state.timestampsMs|
  {
    var v := Next(decide, reqs, r);
    JustStored(cfg, decide, reqs, r);
    RunExtended(decide, reqs, r);
    SLR.LogFits(cfg, decide, reqs + [r]);
    forall c: U32
      ensures decide(Some(v.state), r.now, c).decision.allowed <==> c <= v.decision.remaining
    {
      assert decide(Some(v.state), r.now, c) == SL.Attempt(cfg, Some(v.state), r.now, c);
    }
  }

  /** What the sliding counter's estimate leaves of the limit. */
  function Room(cfg: SC.Config, decide: Decider<SC.State>, reqs: seq<Request>, now: nat): real {
    cfg.maxRequests as real - SC.Weighted(cfg, SCR.View(cfg, decide, reqs, now), SC.OffsetOf(cfg, now))
  }

  lemma CounterAt(cfg: SC.Config, decide: Decider<SC.State>, s: SC.State, now: nat, c: U32)
    requires SC.Implements(cfg, decide) && s.currWindowId == SC.WindowOf(cfg, now)
    ensures decide(Some(s), now, c).decision.allowed
       <==> SC.Weighted(cfg, s, SC.OffsetOf(cfg, now)) + c as real <= cfg.maxRequests as real
  {
    assert decide(Some(s), now, c) == SC.Attempt(cfg, Some(s), now, c);
    assert SC.Rolled(cfg, s, now) == s;
  }

  lemma CounterAgain(cfg: SC.Config, decide: Decider<SC.State>, reqs: seq<Request>, r: Request, c: U32)
    requires SC.Implements(cfg, decide)
    ensures decide(Some(Next(decide, reqs, r).state), r.now, c).decision.allowed
       <==> NextCharge(decide, reqs, r) as real + c as real <= Room(cfg, decide, reqs, r.now)
  {
    SCR.AttemptCounts(cfg, decide, Replay(decide, reqs), r.now, r.cost);
    CounterAt(cfg, decide, Next(decide, reqs, r).state, r.now, c);
  }

  lemma CounterDecides(cfg: SC.Config, decide: Decider<SC.State>, reqs: seq<Request>, r: Request)
    requires SC.Implements(cfg, decide)
    ensures var d, room := Next(decide, reqs, r).decision, Room(cfg, decide, reqs, r.now);
            && (d.allowed <==> r.cost as real <= room)
            && d.remaining == (if d.allowed then AsI64(room - r.cost as real) else 0)
  {
    assert Next(decide, reqs, r) == SC.Attempt(cfg, Replay(decide, reqs), r.now, r.cost);
  }

  lemma AllowedExact(cfg: SC.Config, decide: Decider<SC.State>, reqs: seq<Request>, r: Request)
    requires SC.Implements(cfg, decide) && r.cost as real <= Room(cfg, decide, reqs, r.now)
    ensures Exact(decide, Next(decide, reqs, r), r.now)
  {
    CounterDecides(cfg, decide, reqs, r);
    forall c: U32
      ensures decide(Some(Next(decide, reqs, r).state), r.now, c).decision.allowed
         <==> c <= Next(decide, reqs, r).decision.remaining
    {
      CounterAgain(cfg, decide, reqs, r, c);
      AsI64Bounds(Room(cfg, decide, reqs, r.now) - r.cost as real, c);
    }
  }

  lemma DeniedExact(cfg: SC.Config, decide: Decider<SC.State>, reqs: seq<Request>, r: Request)
    requires SC.Implements(cfg, decide) && Room(cfg, decide, reqs, r.now) < r.cost as real
    ensures Exact(decide, Next(decide, reqs, r), r.now) <==> 0.0 <= Room(cfg, decide, reqs, r.now) < 1.0
  {
    CounterDecides(cfg, decide, reqs, r);
    CounterAgain(cfg, decide, reqs, r, 0);
    CounterAgain(cfg, decide, reqs, r, 1);
    if 0.0 <= Room(cfg, decide, reqs, r.now) < 1.0 {
      forall c: U32
        ensures decide(Some(Next(decide, reqs, r).state), r.now, c).decision.allowed
           <==> c <= Next(decide, reqs, r).decision.remaining
      {
        CounterAgain(cfg, decide, reqs, r, c);
      }
    }
  }

  /**
   The sliding counter keeps the promise when the request fits in the room its estimate leaves. A
   larger request is told that nothing remains, which is exact when not even one unit would fit.
   */
  lemma SlidingCounterExact(cfg: SC.Config, decide: Decider<SC.State>, reqs: seq<Request>, r: Request)
    requires SC.Implements(cfg, decide)
    ensures var room := Room(cfg, decide, reqs, r.now);
            Exact(decide, Next(decide, reqs, r), r.now) <==> r.cost as real <= room || 0.0 <= room < 1.0
    ensures var room, remaining := Room(cfg, decide, reqs, r.now), Next(decide, reqs, r).decision.remaining;
            if r.cost as real <= room then WholePart(remaining, room - r.cost as real) else remaining == 0
  {
    CounterDecides(cfg, decide, reqs, r);
    AsI64Truncates(Room(cfg, decide, reqs, r.now) - r.cost as real);
    if r.cost as real <= Room(cfg, decide, reqs, r.now) {
      AllowedExact(cfg, decide, reqs, r);
    } else {
      DeniedExact(cfg, decide, reqs, r);
    }
  }

  /** The case that breaks the promise: too large a request is told that nothing remains, of a whole window. */
  lemma SlidingCounterUnderreports(decide: Decider<SC.State>)
    requires SC.Implements(SC.Parameters(10, 1), decide)
    ensures var v := decide(None, 0, 11);
            && v.decision == Decision(false, 10, 0, 1000)
            && decide(Some(v.state), 0, 10).decision.allowed
  {
    var cfg: SC.Config := SC.Parameters(10, 1);
    assert decide(None, 0, 11) == SC.Attempt(cfg, None, 0, 11);
    var v := decide(None, 0, 11);
    assert decide(Some(v.state), 0, 10) == SC.Attempt(cfg, Some(v.state), 0, 10);
  }
}
