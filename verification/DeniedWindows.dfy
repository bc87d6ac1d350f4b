/** The clocks on which denied checks leave no trace in a fixed window or in a log: those their bounds are exact on. */
module DeniedWindows {
  import opened DeniedChecks
  import opened Limiter
  import opened Runs
  import opened Wrappers

  import FW = FixedWindow
  import FWR = FixedWindowRuns
  import SL = SlidingWindowLog
  import SLR = SlidingLogRuns

  // ---- The fixed window ----

  /** The decision a fixed window gives on the cost charged in the window of `now`. */
  function FixedTeller(cfg: FW.Config): Teller {
    (charged: seq<Request>, now: nat, cost: U32) =>
      var w := FW.WindowOf(cfg, now);
      FW.Step(cfg, FW.State(CostWhere(charged, FWR.InWindow(cfg, w)), w), now, cost).decision
  }

  lemma FixedByCount(cfg: FW.Config, decide: Decider<FW.State>, stored: Option<FW.State>, now: nat, cost: U32)
    requires FW.Implements(cfg, decide)
    ensures var count := FW.CountAt(cfg, FW.Found(cfg, stored, now), now);
            var counted := FW.Step(cfg, FW.State(count, FW.WindowOf(cfg, now)), now, cost);
            decide(stored, now, cost).decision == counted.decision
  {
    var _ := FW.Attempt(cfg, stored, now, cost);
  }

  lemma {:induction false} FixedTold(cfg: FW.Config, decide: Decider<FW.State>, reqs: seq<Request>)
    requires FW.Implements(cfg, decide) && FWR.NeverRevisits(cfg, reqs)
    ensures Told(decide, FixedTeller(cfg), reqs)
  {
    forall n | 0 <= n < |reqs| ensures ToldAt(decide, FixedTeller(cfg), reqs, n) {
      FWR.CountIsAdmitted(cfg, decide, reqs, n);
      AdmittedFromCharged(decide, reqs[..n], FWR.InWindow(cfg, FW.WindowOf(cfg, reqs[n].now)));
      FixedByCount(cfg, decide, Replay(decide, reqs[..n]), reqs[n].now, reqs[n].cost);
    }
  }

  lemma {:induction false} NeverRevisitsKept(cfg: FW.Config, reqs: seq<Request>, keep: seq<bool>)
    requires |reqs| == |keep| && FWR.NeverRevisits(cfg, reqs)
    ensures FWR.NeverRevisits(cfg, Select(reqs, keep))
  {
    var kept := Select(reqs, keep);
    forall h, i, j | 0 <= h < i < j < |kept| ensures !FWR.Revisits(cfg, kept, h, i, j) {
      OriginsInOrder(reqs, keep, h, i);
      OriginsInOrder(reqs, keep, i, j);
      assert !FWR.Revisits(cfg, reqs, Origin(reqs, keep, h), Origin(reqs, keep, i), Origin(reqs, keep, j));
    }
  }

  lemma FixedWindowHides(cfg: FW.Config, reqs: seq<Request>, keep: seq<bool>)
    requires |reqs| == |keep| && FWR.NeverRevisits(cfg, reqs)
    ensures Hidden(FW.Decide(cfg), reqs, keep)
  {
    NeverRevisitsKept(cfg, reqs, keep);
    FixedTold(cfg, FW.Decide(cfg), reqs);
    FixedTold(cfg, FW.Decide(cfg), Select(reqs, keep));
    HiddenIfTold(FW.Decide(cfg), FixedTeller(cfg), reqs, keep);
  }

  /** With a limit of one, the window left in between forgets the first unit, which hiding would bring back. */
  lemma {:induction false} RevisitShowsDenials(cfg: FW.Config, clock: seq<Request>, h: nat, i: nat, j: nat)
    requires cfg.maxRequests == 1 && h < i < j < |clock| && FWR.Revisits(cfg, clock, h, i, j)
    ensures !AlwaysHides(FW.Decide(cfg), clock)
  {
    var decide, reqs := FW.Decide(cfg), Asking(clock, h, 1, j, 1, 2);
    assert FWR.Revisits(cfg, reqs, h, i, j);
    forall k | 0 <= k < |reqs| && k != h && k != j ensures !Next(decide, reqs[..k], reqs[k]).decision.allowed {
      FWR.AttemptCounts(cfg, decide, Replay(decide, reqs[..k]), reqs[k].now, reqs[k].cost);
    }
    FWR.ProbeRun(cfg, decide, reqs, h, i, j, j);
    FWR.AttemptCounts(cfg, decide, Replay(decide, reqs[..j]), reqs[j].now, 1);
    FWR.CountExtended(cfg, decide, [], reqs[h]);
    assert [] + [reqs[h]] == [reqs[h]];
    FWR.AttemptCounts(cfg, decide, Replay(decide, [reqs[h]]), reqs[j].now, 1);
    if AlwaysHides(decide, clock) { OnlyTwo(decide, clock, reqs, h, j); }
  }

  /** Denied checks leave no trace in a fixed window on exactly the clocks that never re-enter a window they left. */
  lemma FixedWindowHidesExactly(cfg: FW.Config, clock: seq<Request>)
    ensures (forall c: FW.Config :: c.windowSecs == cfg.windowSecs ==> AlwaysHides(FW.Decide(c), clock))
       <==> FWR.NeverRevisits(cfg, clock)
  {
    if FWR.NeverRevisits(cfg, clock) {
      forall c: FW.Config, reqs: seq<Request>, keep: seq<bool>
        | c.windowSecs == cfg.windowSecs && SameClock(reqs, clock) && |reqs| == |keep|
        ensures Hidden(FW.Decide(c), reqs, keep)
      {
        forall h, i, j | 0 <= h < i < j < |reqs| ensures !FWR.Revisits(c, reqs, h, i, j) {
          assert !FWR.Revisits(cfg, clock, h, i, j);
        }
        FixedWindowHides(c, reqs, keep);
      }
    } else {
      var h, i, j :| 0 <= h < i < j < |clock| && FWR.Revisits(cfg, clock, h, i, j);
      var one: FW.Config := FW.Parameters(1, cfg.windowSecs);
      assert FWR.Revisits(one, clock, h, i, j);
      RevisitShowsDenials(one, clock, h, i, j);
    }
  }

  // ---- The sliding log ----

  /** One timestamp for every unit charged. */
  function Stamped(charged: seq<Request>): seq<int> {
    if charged == [] then [] else
    var n := |charged| - 1;
    Stamped(charged[..n]) + SL.Stamps(charged[n].now, charged[n].cost)
  }

  lemma {:induction false} HistoryFromCharged(decide: Decider<SL.State>, reqs: seq<Request>)
    ensures SLR.History(decide, reqs) == Stamped(ChargedRun(decide, reqs))
  {
    if reqs != [] { HistoryFromCharged(decide, reqs[..|reqs| - 1]); }
  }

  /** The decision the full history of charges gives. */
  function LogTeller(cfg: SL.Config): Teller {
    (charged: seq<Request>, now: nat, cost: U32) => SLR.FromHistory(cfg, Stamped(charged), now, cost)
  }

  lemma {:induction false} LogTold(cfg: SL.Config, decide: Decider<SL.State>, reqs: seq<Request>)
    requires SL.Implements(cfg, decide) && SLR.PrunedForGood(cfg, reqs)
    ensures Told(decide, LogTeller(cfg), reqs)
  {
    SLR.SafeClockAgrees(cfg, decide, reqs);
    forall n | 0 <= n < |reqs| ensures ToldAt(decide, LogTeller(cfg), reqs, n) {
      DecisionAt(decide, reqs, n);
      HistoryFromCharged(decide, reqs[..n]);
    }
  }

  lemma {:induction false} PrunedForGoodKept(cfg: SL.Config, reqs: seq<Request>, keep: seq<bool>)
    requires |reqs| == |keep| && SLR.PrunedForGood(cfg, reqs)
    ensures SLR.PrunedForGood(cfg, Select(reqs, keep))
  {
    var kept := Select(reqs, keep);
    forall h, i, j | 0 <= h < i < j < |kept| && SLR.Prunes(cfg, kept, h, i) ensures SLR.Prunes(cfg, kept, h, j) {
      OriginsInOrder(reqs, keep, h, i);
      OriginsInOrder(reqs, keep, i, j);
      assert SLR.Prunes(cfg, reqs, Origin(reqs, keep, h), Origin(reqs, keep, i));
      assert SLR.Prunes(cfg, reqs, Origin(reqs, keep, h), Origin(reqs, keep, j));
    }
  }

  lemma SlidingLogHides(cfg: SL.Config, reqs: seq<Request>, keep: seq<bool>)
    requires |reqs| == |keep| && SLR.PrunedForGood(cfg, reqs)
    ensures Hidden(SL.Decide(cfg), reqs, keep)
  {
    PrunedForGoodKept(cfg, reqs, keep);
    LogTold(cfg, SL.Decide(cfg), reqs);
    LogTold(cfg, SL.Decide(cfg), Select(reqs, keep));
    HiddenIfTold(SL.Decide(cfg), LogTeller(cfg), reqs, keep);
  }

  lemma {:induction false} LogAdmits(cfg: SL.Config, decide: Decider<SL.State>, stored: Option<SL.State>, now: nat,
                                     cost: U32)
    requires SL.Implements(cfg, decide)
    ensures decide(stored, now, cost).decision.allowed
       <==> |SL.Pruned(SLR.LogOf(stored), now - cfg.windowMs)| + cost <= cfg.maxRequests
  {
    var _ := SL.Attempt(cfg, stored, now, cost);
  }

  lemma {:induction false} OneLogged(cfg: SL.Config, decide: Decider<SL.State>, r: Request)
    requires SL.Implements(cfg, decide) && cfg.maxRequests == 1 && r.cost == 1
    ensures SLR.LogAfter(decide, [r]) == [r.now]
  {
    hide SL.Implements, SL.Stamps, SL.Pruned;
    SLR.LogExtended(cfg, decide, [], r);
    assert [] + [r] == [r];
    assert SLR.LogAfter(decide, []) == [];
    SLR.StampsFew(r.now);
    SLR.PrunedSingleton(r.now, r.now - cfg.windowMs);
  }

  lemma AfterOne(cfg: SL.Config, decide: Decider<SL.State>, r: Request, now: nat)
    requires SL.Implements(cfg, decide) && cfg.maxRequests == 1 && r.cost == 1 && r.now > now - cfg.windowMs
    ensures !Next(decide, [r], Request(now, 1)).decision.allowed
  {
    OneLogged(cfg, decide, r);
    SLR.PrunedSingleton(r.now, now - cfg.windowMs);
    LogAdmits(cfg, decide, Replay(decide, [r]), now, 1);
  }

  /** With a limit of one, the check in between prunes the first unit, which hiding would bring back. */
  lemma {:induction false} PruningShowsDenials(cfg: SL.Config, clock: seq<Request>, h: nat, i: nat, j: nat)
    requires cfg.maxRequests == 1
    requires h < i < j < |clock| && SLR.Prunes(cfg, clock, h, i) && !SLR.Prunes(cfg, clock, h, j)
    ensures !AlwaysHides(SL.Decide(cfg), clock)
  {
    var decide, reqs := SL.Decide(cfg), Asking(clock, h, 1, j, 1, 2);
    forall k | 0 <= k < |reqs| && k != h && k != j ensures !Next(decide, reqs[..k], reqs[k]).decision.allowed {
      LogAdmits(cfg, decide, Replay(decide, reqs[..k]), reqs[k].now, reqs[k].cost);
    }
    SLR.ProbeRun(cfg, decide, reqs, h, i, j, j);
    SLR.PrunedSingleton(reqs[h].now, reqs[j].now - cfg.windowMs);
    LogAdmits(cfg, decide, Replay(decide, reqs[..j]), reqs[j].now, 1);
    AfterOne(cfg, decide, reqs[h], reqs[j].now);
    if AlwaysHides(decide, clock) { OnlyTwo(decide, clock, reqs, h, j); }
  }

  /** Denied checks leave no trace in a log on exactly the clocks where what one check prunes, no later one counts. */
  lemma SlidingLogHidesExactly(cfg: SL.Config, clock: seq<Request>)
    ensures (forall c: SL.Config :: c.windowMs == cfg.windowMs ==> AlwaysHides(SL.Decide(c), clock))
       <==> SLR.PrunedForGood(cfg, clock)
  {
    if SLR.PrunedForGood(cfg, clock) {
      forall c: SL.Config, reqs: seq<Request>, keep: seq<bool>
        | c.windowMs == cfg.windowMs && SameClock(reqs, clock) && |reqs| == |keep|
        ensures Hidden(SL.Decide(c), reqs, keep)
      {
        forall h, i, j | 0 <= h < i < j < |reqs| && SLR.Prunes(c, reqs, h, i) ensures SLR.Prunes(c, reqs, h, j) {
          assert SLR.Prunes(cfg, clock, h, i) && SLR.Prunes(cfg, clock, h, j);
        }
        SlidingLogHides(c, reqs, keep);
      }
    } else {
      var h, i, j :| 0 <= h < i < j < |clock| && SLR.Prunes(cfg, clock, h, i) && !SLR.Prunes(cfg, clock, h, j);
      var one: SL.Config := SL.Parameters(1, cfg.windowMs);
      assert SLR.Prunes(one, clock, h, i) && !SLR.Prunes(one, clock, h, j);
      PruningShowsDenials(one, clock, h, i, j);
    }
  }
}
