/** The clocks on which the leaky bucket keeps its interval bound: those of its dual. */
module LeakyBucketClocks {
  import opened BucketDuality
  import opened Limiter
  import opened Runs

  import LB = LeakyBucket
  import TB = TokenBucket
  import TBC = TokenBucketClocks
  import TBR = TokenBucketRuns

  /** Every interval of time admits at most a full queue plus what drains. */
  ghost predicate IntervalsBounded(cfg: LB.Config, decide: Decider<LB.State>, reqs: seq<Request>) {
    forall lo: nat, hi: nat :: lo <= hi ==>
      AdmittedWhere(decide, reqs, InMs(lo, hi)) as real <= cfg.capacity as real + TBR.Gain(Dual(cfg), lo, hi)
  }

  lemma {:induction false} AdmitsLikeDual(cfg: LB.Config, leaky: Decider<LB.State>, reqs: seq<Request>, p: nat -> bool)
    requires LB.Implements(cfg, leaky)
    ensures AdmittedWhere(leaky, reqs, p) == AdmittedWhere(TB.Decide(Dual(cfg)), reqs, p)
  {
    RunsDual(cfg, leaky, TB.Decide(Dual(cfg)), reqs);
    SameCharges(leaky, TB.Decide(Dual(cfg)), reqs, p);
  }

  lemma {:induction false} StraightClockBound(cfg: LB.Config, leaky: Decider<LB.State>, reqs: seq<Request>, lo: nat,
                                              hi: nat)
    requires LB.Implements(cfg, leaky)
    requires TBC.AlwaysStraight(reqs) && lo <= hi
    ensures AdmittedWhere(leaky, reqs, InMs(lo, hi)) as real <= cfg.capacity as real + TBR.Gain(Dual(cfg), lo, hi)
  {
    AdmitsLikeDual(cfg, leaky, reqs, InMs(lo, hi));
    TBC.StraightClockBound(Dual(cfg), TB.Decide(Dual(cfg)), reqs, lo, hi);
  }

  ghost predicate AlwaysBounded(clock: seq<Request>) {
    forall cfg: LB.Config, reqs: seq<Request> :: SameClock(reqs, clock) ==> IntervalsBounded(cfg, LB.Decide(cfg), reqs)
  }

  /** The queue dual to a bucket of one token. */
  function OnePlace(forward: nat): LB.Config
    requires forward > 0
  {
    LB.Parameters(1000.0 / forward as real, 1)
  }

  lemma CrookedClockOveradmits(clock: seq<Request>, a: nat, b: nat)
    requires a < b < |clock| && !TBC.Straight(clock, a, b)
    ensures !AlwaysBounded(clock)
  {
    var reqs := Probe(clock, a, b);
    TBC.CrookedClockOveradmits(clock, a, b);
    var forward := TBR.Forward(reqs[a..b + 1]);
    var cfg := OnePlace(forward);
    assert Dual(cfg) == TBC.OneToken(forward);
    var lo: nat, hi: nat :| lo <= hi
      && !(AdmittedWhere(TB.Decide(Dual(cfg)), reqs, InMs(lo, hi)) as real <= 1.0 + TBR.Gain(Dual(cfg), lo, hi));
    AdmitsLikeDual(cfg, LB.Decide(cfg), reqs, InMs(lo, hi));
    assert !IntervalsBounded(cfg, LB.Decide(cfg), reqs);
    assert SameClock(reqs, clock);
  }

  /** The interval bound holds, whatever the capacity, the rate and the costs, on exactly the token bucket's clocks. */
  lemma BoundedExactly(clock: seq<Request>)
    ensures AlwaysBounded(clock) <==> TBC.AlwaysStraight(clock)
  {
    if TBC.AlwaysStraight(clock) {
      forall cfg: LB.Config, reqs: seq<Request> | SameClock(reqs, clock)
        ensures IntervalsBounded(cfg, LB.Decide(cfg), reqs)
      {
        TBC.SameClockStraight(reqs, clock);
        forall lo: nat, hi: nat | lo <= hi
          ensures AdmittedWhere(LB.Decide(cfg), reqs, InMs(lo, hi)) as real
               <= cfg.capacity as real + TBR.Gain(Dual(cfg), lo, hi)
        {
          StraightClockBound(cfg, LB.Decide(cfg), reqs, lo, hi);
        }
      }
    } else {
      var a, b :| 0 <= a < b < |clock| && !TBC.Straight(clock, a, b);
      CrookedClockOveradmits(clock, a, b);
    }
  }
}
