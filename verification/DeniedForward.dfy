/** On a clock that goes forward, denied checks leave no trace in any of the five limiters. */
module DeniedForward {
  import opened DeniedBuckets
  import opened DeniedChecks
  import opened DeniedCounter
  import opened DeniedWindows
  import opened Limiter
  import opened Runs

  import FW = FixedWindow
  import FWR = FixedWindowRuns
  import LB = LeakyBucket
  import SC = SlidingWindowCounter
  import SCR = SlidingCounterRuns
  import SL = SlidingWindowLog
  import SLR = SlidingLogRuns
  import TB = TokenBucket

  /** For each of the five algorithms, deleting any set of denied commits leaves every other decision unchanged. */
  lemma AllFiveHideDenials(tb: TB.Config, lb: LB.Config, fw: FW.Config, sc: SC.Config, sl: SL.Config,
                           reqs: seq<Request>, keep: seq<bool>)
    requires |reqs| == |keep| && Nondecreasing(reqs)
    ensures Hidden(TB.Decide(tb), reqs, keep)
    ensures Hidden(LB.Decide(lb), reqs, keep)
    ensures Hidden(FW.Decide(fw), reqs, keep)
    ensures Hidden(SC.Decide(sc), reqs, keep)
    ensures Hidden(SL.Decide(sl), reqs, keep)
  {
    assert NeverTurns(reqs);
    TokenBucketHides(tb, reqs, keep);
    LeakyBucketHides(lb, reqs, keep);
    FWR.ForwardClockIsSafe(fw, reqs);
    FixedWindowHides(fw, reqs, keep);
    SCR.ForwardClockInOrder(sc, reqs);
    WindowsInOrderKeepWeights(sc, reqs);
    SlidingCounterHides(sc, reqs, keep);
    SLR.ForwardClockIsSafe(sl, reqs);
    SlidingLogHides(sl, reqs, keep);
  }
}
