/** Which clocks the interval bound of the token bucket holds on: exactly which, not only those that go forward. */
module TokenBucketClocks {
  import opened Limiter
  import opened Runs
  import opened TokenBucketRuns
  import opened Wrappers

  import TB = TokenBucket

  function Min(x: nat, y: nat): nat {
    if x <= y then x else y
  }

  function Max(x: nat, y: nat): nat {
    if x >= y then x else y
  }

  /** From commit `a` to commit `b` the clock moved forward, in all, no further than the two readings are apart. */
  predicate Straight(reqs: seq<Request>, a: nat, b: nat)
    requires a < b < |reqs|
  {
    Forward(reqs[a..b + 1]) <= Max(reqs[a].now, reqs[b].now) - Min(reqs[a].now, reqs[b].now)
  }

  ghost predicate AlwaysStraight(reqs: seq<Request>) {
    forall a, b :: 0 <= a < b < |reqs| ==> Straight(reqs, a, b)
  }

  /** Every interval of time admits at most a full bucket plus its refill. */
  ghost predicate IntervalsBounded(cfg: TB.Config, decide: Decider<TB.State>, reqs: seq<Request>) {
    forall lo: nat, hi: nat :: lo <= hi ==>
      AdmittedWhere(decide, reqs, InMs(lo, hi)) as real <= cfg.capacity + Gain(cfg, lo, hi)
  }

  // ---- Enough ----

  lemma {:induction false} AdmittedFrom(decide: Decider<TB.State>, reqs: seq<Request>, p: nat -> bool, a: nat)
    requires a <= |reqs| && NoneIn(reqs[..a], p)
    ensures AdmittedWhere(decide, reqs, p) <= Sum(Charges(decide, reqs)[a..])
  {
    if a == |reqs| {
      assert reqs[..a] == reqs;
      AdmittedNone(decide, reqs, p);
    } else {
      var n := |reqs| - 1;
      var front, r := reqs[..n], reqs[n];
      assert reqs == front + [r] && front[..a] == reqs[..a];
      AdmittedFrom(decide, front, p, a);
      AdmittedExtended(decide, front, r, p);
      TailExtended(decide, front, r, a);
    }
  }

  /** The first commit whose reading satisfies `p`. */
  function First(reqs: seq<Request>, p: nat -> bool): (a: nat)
    ensures a <= |reqs| && NoneIn(reqs[..a], p)
    ensures a < |reqs| ==> p(reqs[a].now)
  {
    if reqs == [] then 0 else
    var n := |reqs| - 1;
    var a := First(reqs[..n], p);
    assert reqs[..n][..a] == reqs[..a];
    if a < n || p(reqs[n].now) then a else
    assert NoneIn(reqs[..n + 1], p);
    n + 1
  }

  lemma GainMonotone(cfg: TB.Config, f: nat, lo: nat, hi: nat)
    requires f <= hi - lo
    ensures Gain(cfg, 0, f) <= Gain(cfg, lo, hi)
  {
    assert ElapsedSecs(0, f) <= ElapsedSecs(lo, hi);
  }

  lemma StraightTail(cfg: TB.Config, reqs: seq<Request>, a: nat, lo: nat, hi: nat)
    requires AlwaysStraight(reqs) && a < |reqs|
    requires lo <= reqs[a].now <= hi && lo <= reqs[|reqs| - 1].now <= hi
    ensures Accrued(cfg, reqs[a..]) <= Gain(cfg, lo, hi)
  {
    var n := |reqs| - 1;
    if a < n {
      assert Straight(reqs, a, n) && reqs[a..n + 1] == reqs[a..];
    }
    GainMonotone(cfg, Forward(reqs[a..]), lo, hi);
  }

  lemma StraightBefore(reqs: seq<Request>, n: nat)
    requires AlwaysStraight(reqs) && n <= |reqs|
    ensures AlwaysStraight(reqs[..n])
  {
    forall a, b | 0 <= a < b < n
      ensures Straight(reqs[..n], a, b)
    {
      assert Straight(reqs, a, b) && reqs[..n][a..b + 1] == reqs[a..b + 1];
    }
  }

  lemma {:induction false} EndingInside(cfg: TB.Config, decide: Decider<TB.State>, reqs: seq<Request>, lo: nat, hi: nat)
    requires TB.Implements(cfg, decide) && AlwaysStraight(reqs)
    requires reqs != [] && lo <= reqs[|reqs| - 1].now <= hi
    ensures AdmittedWhere(decide, reqs, InMs(lo, hi)) as real <= cfg.capacity + Gain(cfg, lo, hi)
  {
    var a := First(reqs, InMs(lo, hi));
    assert a < |reqs| by {
      assert InMs(lo, hi)(reqs[..|reqs|][|reqs| - 1].now);
    }
    AdmittedFrom(decide, reqs, InMs(lo, hi), a);
    AdmittedSinceCommit(cfg, decide, reqs, a);
    StraightTail(cfg, reqs, a, lo, hi);
  }

  lemma {:induction false} StraightClockBound(cfg: TB.Config, decide: Decider<TB.State>, reqs: seq<Request>, lo: nat,
                                              hi: nat)
    requires TB.Implements(cfg, decide) && AlwaysStraight(reqs) && lo <= hi
    ensures AdmittedWhere(decide, reqs, InMs(lo, hi)) as real <= cfg.capacity + Gain(cfg, lo, hi)
  {
    if reqs == [] {
      GainNonneg(cfg, lo, hi);
    } else if lo <= reqs[|reqs| - 1].now <= hi {
      EndingInside(cfg, decide, reqs, lo, hi);
    } else {
      var n := |reqs| - 1;
      assert reqs == reqs[..n] + [reqs[n]];
      StraightBefore(reqs, n);
      StraightClockBound(cfg, decide, reqs[..n], lo, hi);
      AdmittedExtended(decide, reqs[..n], reqs[n], InMs(lo, hi));
    }
  }

  // ---- And needed ----

  lemma {:induction false} SameForward(reqs: seq<Request>, other: seq<Request>)
    requires SameClock(reqs, other)
    ensures Forward(reqs) == Forward(other)
  {
    if |reqs| > 1 {
      SameForward(reqs[..|reqs| - 1], other[..|reqs| - 1]);
    }
  }

  lemma SameStraight(reqs: seq<Request>, other: seq<Request>, a: nat, b: nat)
    requires SameClock(reqs, other) && a < b < |reqs|
    ensures Straight(reqs, a, b) <==> Straight(other, a, b)
  {
    SameForward(reqs[a..b + 1], other[a..b + 1]);
  }

  lemma SameClockStraight(reqs: seq<Request>, clock: seq<Request>)
    requires SameClock(reqs, clock) && AlwaysStraight(clock)
    ensures AlwaysStraight(reqs)
  {
    forall a, b | 0 <= a < b < |reqs| ensures Straight(reqs, a, b) {
      assert Straight(clock, a, b);
      SameStraight(reqs, clock, a, b);
    }
  }

  lemma {:induction false} ForwardGrows(reqs: seq<Request>, n: nat)
    requires n <= |reqs|
    ensures Forward(reqs[..n]) <= Forward(reqs)
  {
    if n < |reqs| {
      ForwardGrows(reqs[..|reqs| - 1], n);
      assert reqs[..|reqs| - 1][..n] == reqs[..n];
    } else {
      assert reqs[..n] == reqs;
    }
  }

  /** A bucket of one token, refilled just once by the forward moves between the two requests. */
  function OneToken(forward: nat): TB.Config
    requires forward > 0
  {
    TB.Parameters(1.0, 1000.0 / forward as real)
  }

  lemma OneTokenGain(forward: nat, f: nat)
    requires f <= forward && forward > 0
    ensures Gain(OneToken(forward), 0, f) == f as real / forward as real <= 1.0
    ensures Gain(OneToken(forward), 0, forward) == 1.0
  {
    assert ElapsedSecs(0, f) == f as real / 1000.0;
    assert f as real / 1000.0 * (1000.0 / forward as real) == f as real / forward as real;
    assert forward as real / forward as real == 1.0;
  }

  /** What the probe has stored, and admitted in `p`, after `n` commits. */
  ghost predicate ProbeState(cfg: TB.Config, decide: Decider<TB.State>, reqs: seq<Request>, a: nat, b: nat, n: nat,
                             p: nat -> bool)
    requires a < b < |reqs| && n <= |reqs|
  {
    var stored, admitted := Replay(decide, reqs[..n]), AdmittedWhere(decide, reqs[..n], p);
    && (n <= a ==> stored.Some? ==> stored.value.tokens == 1.0)
    && (a < n <= b ==> stored == Some(TB.State(Accrued(cfg, reqs[a..n]), reqs[n - 1].now)) && admitted >= 1)
    && (b < n ==> admitted >= 2)
  }

  lemma {:induction false} FullLevel(cfg: TB.Config, decide: Decider<TB.State>, reqs: seq<Request>, now: nat)
    requires cfg.capacity == 1.0
    requires Replay(decide, reqs).Some? ==> Replay(decide, reqs).value.tokens == 1.0
    ensures Level(cfg, decide, reqs, now) == 1.0
  {
    GainNonneg(cfg, now, now);
    if Replay(decide, reqs).Some? {
      var s := Replay(decide, reqs).value;
      RefilledByGain(cfg, s.tokens, s.lastRefillMs, now);
      GainNonneg(cfg, s.lastRefillMs, now);
    }
  }

  lemma FillingLevel(decide: Decider<TB.State>, reqs: seq<Request>, a: nat, b: nat, n: nat, forward: nat)
    requires a < n <= b < |reqs| && forward == Forward(reqs[a..b + 1]) > 0
    requires Replay(decide, reqs[..n]) == Some(TB.State(Accrued(OneToken(forward), reqs[a..n]), reqs[n - 1].now))
    ensures Level(OneToken(forward), decide, reqs[..n], reqs[n].now)
         == Accrued(OneToken(forward), reqs[a..n + 1]) <= 1.0
    ensures n == b ==> Level(OneToken(forward), decide, reqs[..n], reqs[n].now) == 1.0
  {
    var cfg := OneToken(forward);
    LevelOfState(cfg, decide, reqs[..n], reqs[n].now, Accrued(cfg, reqs[a..n]), reqs[n - 1].now);
    AccruedExtended(cfg, reqs[a..n], reqs[n]);
    assert reqs[a..n] + [reqs[n]] == reqs[a..n + 1];
    ForwardGrows(reqs[a..b + 1], n + 1 - a);
    assert reqs[a..b + 1][..n + 1 - a] == reqs[a..n + 1];
    OneTokenGain(forward, Forward(reqs[a..n + 1]));
    OneTokenGain(forward, forward);
  }

  lemma NothingAccruedYet(cfg: TB.Config, r: Request)
    ensures Accrued(cfg, [r]) == 0.0
  {
    GainNonneg(cfg, 0, 0);
  }

  /** What commit `k` of the probe finds: a full bucket up to the first request, one full again at the second. */
  lemma ProbeLevel(decide: Decider<TB.State>, reqs: seq<Request>, a: nat, b: nat, k: nat, forward: nat, p: nat -> bool)
    requires a < b < |reqs| && k < |reqs| && forward == Forward(reqs[a..b + 1]) > 0
    requires ProbeState(OneToken(forward), decide, reqs, a, b, k, p)
    ensures var level := Level(OneToken(forward), decide, reqs[..k], reqs[k].now);
            && (k <= a || k == b ==> level == 1.0)
            && (a < k <= b ==> level == Accrued(OneToken(forward), reqs[a..k + 1]) <= 1.0)
  {
    if k <= a {
      FullLevel(OneToken(forward), decide, reqs[..k], reqs[k].now);
    } else if k <= b {
      FillingLevel(decide, reqs, a, b, k, forward);
    }
  }

  lemma ProbeCommit(decide: Decider<TB.State>, reqs: seq<Request>, a: nat, b: nat, k: nat, forward: nat, p: nat -> bool)
    requires a < b < |reqs| && k < |reqs| && forward == Forward(reqs[a..b + 1]) > 0
    requires TB.Implements(OneToken(forward), decide) && p(reqs[a].now) && p(reqs[b].now)
    requires reqs[k].cost == 1 <==> k == a || k == b
    requires ProbeState(OneToken(forward), decide, reqs, a, b, k, p)
    ensures ProbeState(OneToken(forward), decide, reqs, a, b, k + 1, p)
  {
    hide OneToken, Level, TB.Implements, NextCharge, AdmittedWhere, Replay, Forward;
    var cfg := OneToken(forward);
    assert reqs[..k + 1] == reqs[..k] + [reqs[k]];
    ProbeLevel(decide, reqs, a, b, k, forward, p);
    StateExtended(cfg, decide, reqs[..k], reqs[k]);
    AdmittedExtended(decide, reqs[..k], reqs[k], p);
    if k == a {
      assert reqs[k..k + 1] == [reqs[k]];
      NothingAccruedYet(cfg, reqs[k]);
    }
  }

  lemma ProbeBegins(cfg: TB.Config, decide: Decider<TB.State>, reqs: seq<Request>, a: nat, b: nat, p: nat -> bool)
    requires a < b < |reqs|
    ensures ProbeState(cfg, decide, reqs, a, b, 0, p)
  {
  }

  lemma {:induction false} ProbeRun(decide: Decider<TB.State>, reqs: seq<Request>, a: nat, b: nat, n: nat,
                                    forward: nat, p: nat -> bool)
    requires a < b < |reqs| && n <= |reqs| && OneUnitAt(reqs, a, b)
    requires forward == Forward(reqs[a..b + 1]) > 0
    requires TB.Implements(OneToken(forward), decide) && p(reqs[a].now) && p(reqs[b].now)
    ensures ProbeState(OneToken(forward), decide, reqs, a, b, n, p)
  {
    hide ProbeState, Forward, OneToken, TB.Implements;
    if n == 0 {
      ProbeBegins(OneToken(forward), decide, reqs, a, b, p);
    } else {
      ProbeRun(decide, reqs, a, b, n - 1, forward, p);
      ProbeCommit(decide, reqs, a, b, n - 1, forward, p);
    }
  }

  /** A clock that goes forward further than it gets hands out the same refill twice. */
  lemma CrookedClockOveradmits(clock: seq<Request>, a: nat, b: nat)
    requires a < b < |clock| && !Straight(clock, a, b)
    ensures var forward := Forward(Probe(clock, a, b)[a..b + 1]);
            && forward > 0
            && !IntervalsBounded(OneToken(forward), TB.Decide(OneToken(forward)), Probe(clock, a, b))
  {
    var reqs := Probe(clock, a, b);
    SameStraight(reqs, clock, a, b);
    var forward := Forward(reqs[a..b + 1]);
    var cfg, lo, hi := OneToken(forward), Min(clock[a].now, clock[b].now), Max(clock[a].now, clock[b].now);
    ProbeRun(TB.Decide(cfg), reqs, a, b, |clock|, forward, InMs(lo, hi));
    assert reqs[..|clock|] == reqs;
    TooSlow(forward, lo, hi);
    assert AdmittedWhere(TB.Decide(cfg), reqs, InMs(lo, hi)) >= 2;
  }

  lemma TooSlow(forward: nat, lo: nat, hi: nat)
    requires lo <= hi && hi - lo < forward
    ensures Gain(OneToken(forward), lo, hi) < 1.0
  {
    assert ElapsedSecs(lo, hi) == ElapsedSecs(0, hi - lo);
    OneTokenGain(forward, hi - lo);
    assert (hi - lo) as real / forward as real < 1.0;
  }

  ghost predicate AlwaysBounded(clock: seq<Request>) {
    forall cfg: TB.Config, reqs: seq<Request> :: SameClock(reqs, clock) ==> IntervalsBounded(cfg, TB.Decide(cfg), reqs)
  }

  /**
   The interval bound holds, whatever the capacity, the rate and the costs, on exactly the clocks
   that between any two commits move forward no further than the two readings are apart.
   */
  lemma BoundedExactly(clock: seq<Request>)
    ensures AlwaysBounded(clock) <==> AlwaysStraight(clock)
  {
    if AlwaysStraight(clock) {
      forall cfg: TB.Config, reqs: seq<Request> | SameClock(reqs, clock)
        ensures IntervalsBounded(cfg, TB.Decide(cfg), reqs)
      {
        SameClockStraight(reqs, clock);
        forall lo: nat, hi: nat | lo <= hi
          ensures AdmittedWhere(TB.Decide(cfg), reqs, InMs(lo, hi)) as real <= cfg.capacity + Gain(cfg, lo, hi)
        {
          StraightClockBound(cfg, TB.Decide(cfg), reqs, lo, hi);
        }
      }
    } else {
      var a, b :| 0 <= a < b < |clock| && !Straight(clock, a, b);
      CrookedClockOveradmits(clock, a, b);
      assert SameClock(Probe(clock, a, b), clock);
    }
  }

  /** Clock readings that never go backwards are among them. */
  lemma ForwardClockIsSafe(reqs: seq<Request>)
    requires Nondecreasing(reqs)
    ensures AlwaysStraight(reqs)
  {
    forall a, b | 0 <= a < b < |reqs| ensures Straight(reqs, a, b) {
      ForwardIsElapsed(reqs[a..b + 1]);
    }
  }
}
