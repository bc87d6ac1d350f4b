/**
 The whole chain, from the steps of the protocol to a bound in time: under a key that only checks
 write, in every interleaving, with or without store faults, for any set of callers. The states
 spoken of are those of the protocol, and so also those that the imperative `Check`s leave.
 */
module EndToEnd {
  import opened Accounting
  import opened Arithmetic
  import opened CheckLoop
  import opened Limiter
  import opened Protocol
  import opened ProtocolTheorems
  import opened Runs

  import FW = FixedWindow
  import FWR = FixedWindowRuns
  import LB = LeakyBucket
  import LBC = LeakyBucketClocks
  import LBD = BucketDuality
  import SC = SlidingWindowCounter
  import SCC = SlidingCounterClocks
  import SL = SlidingWindowLog
  import SLR = SlidingLogRuns
  import TB = TokenBucket
  import TBC = TokenBucketClocks
  import TBR = TokenBucketRuns

  /** A state of the protocol, the callers in question, and a key that nothing but checks has written. */
  ghost predicate Scene<V(!new)>(cfg: Config<V>, s: Sys<V>, ids: seq<Pid>, key: string) {
    Reached(cfg, false, s) && Distinct(ids) && OnlyCommits(s.log, key)
  }

  /** The commits on the key, in the order in which they took effect. */
  function RunOn<V>(s: Sys<V>, key: string): seq<Request> {
    CommitsOn(s.log, key)
  }

  /** Callers never get more than the sequential run of the key admits. */
  lemma {:induction false} CallersGetTheRun<V(!new)>(cfg: Config<V>, s: Sys<V>, ids: seq<Pid>, key: string,
                                                     p: nat -> bool)
    requires Scene(cfg, s, ids, key)
    ensures AdmittedTo(s, ids, key, p) <= AdmittedWhere(cfg.decide, RunOn(s, key), p)
  {
    var events :| Legal(cfg, events) && After(cfg, events) == s;
    AdmittedAtMostRun(cfg, events, ids, key, p);
  }

  /** Token bucket: an interval admits at most a full bucket plus its refill. */
  lemma {:induction false} TokenBucketCallers(c: TB.Config, limit: int, s: Sys<TB.State>, ids: seq<Pid>, key: string,
                                              lo: nat, hi: nat)
    requires Scene(Config(TB.Decide(c), limit), s, ids, key) && lo <= hi
    requires TBC.AlwaysStraight(RunOn(s, key))
    ensures AdmittedTo(s, ids, key, InMs(lo, hi)) as real <= c.capacity + TBR.Gain(c, lo, hi)
  {
    CallersGetTheRun(Config(TB.Decide(c), limit), s, ids, key, InMs(lo, hi));
    TBC.StraightClockBound(c, TB.Decide(c), RunOn(s, key), lo, hi);
  }

  /** Leaky bucket: an interval admits at most a full queue plus what drains. */
  lemma {:induction false} LeakyBucketCallers(c: LB.Config, limit: int, s: Sys<LB.State>, ids: seq<Pid>, key: string,
                                              lo: nat, hi: nat)
    requires Scene(Config(LB.Decide(c), limit), s, ids, key) && lo <= hi
    requires TBC.AlwaysStraight(RunOn(s, key))
    ensures AdmittedTo(s, ids, key, InMs(lo, hi)) as real <= c.capacity as real + TBR.Gain(LBD.Dual(c), lo, hi)
  {
    CallersGetTheRun(Config(LB.Decide(c), limit), s, ids, key, InMs(lo, hi));
    LBC.StraightClockBound(c, LB.Decide(c), RunOn(s, key), lo, hi);
  }

  /** Fixed window: an interval admits at most the limit times the aligned windows it touches. */
  lemma {:induction false} FixedWindowCallers(c: FW.Config, limit: int, s: Sys<FW.State>, ids: seq<Pid>, key: string,
                                              lo: nat, hi: nat)
    requires Scene(Config(FW.Decide(c), limit), s, ids, key) && lo <= hi
    requires FWR.NeverRevisits(c, RunOn(s, key))
    ensures AdmittedTo(s, ids, key, InMs(lo, hi)) <= c.maxRequests * (FW.WindowOf(c, hi) - FW.WindowOf(c, lo) + 1)
  {
    CallersGetTheRun(Config(FW.Decide(c), limit), s, ids, key, InMs(lo, hi));
    FWR.SpanBound(c, FW.Decide(c), RunOn(s, key), lo, hi);
  }

  /** Sliding counter: a window's length ending `offset` seconds into a window admits `max * (1 + offset / window)`. */
  lemma {:induction false} SlidingCounterCallers(c: SC.Config, limit: int, s: Sys<SC.State>, ids: seq<Pid>,
                                                 key: string, last: nat)
    requires Scene(Config(SC.Decide(c), limit), s, ids, key)
    requires SCC.SpansKept(c, RunOn(s, key))
    ensures AdmittedTo(s, ids, key, SCC.LastWindow(c, last)) * c.windowSecs
         <= c.maxRequests * (c.windowSecs + SC.OffsetOf(c, last))
  {
    CallersGetTheRun(Config(SC.Decide(c), limit), s, ids, key, SCC.LastWindow(c, last));
    SCC.SpanBound(c, SC.Decide(c), RunOn(s, key), last);
    MulMonotone(c.windowSecs, AdmittedTo(s, ids, key, SCC.LastWindow(c, last)),
                AdmittedWhere(SC.Decide(c), RunOn(s, key), SCC.LastWindow(c, last)));
  }

  /** The units in a span of the full history are the cost admitted in that span. */
  lemma {:induction false} HistoryIsAdmitted(c: SL.Config, decide: Decider<SL.State>, reqs: seq<Request>, t: int)
    requires SL.Implements(c, decide)
    ensures SLR.CountWithin(SLR.History(decide, reqs), c.windowMs, t)
         == AdmittedWhere(decide, reqs, InMs(t - c.windowMs + 1, t))
  {
    if reqs != [] {
      var n := |reqs| - 1;
      var front, r := reqs[..n], reqs[n];
      assert reqs == front + [r];
      HistoryIsAdmitted(c, decide, front, t);
      SLR.CountExtended(c, decide, front, r, t);
      RunExtended(decide, front, r);
      AdmittedExtended(decide, front, r, InMs(t - c.windowMs + 1, t));
    }
  }

  /** Sliding log: no span of one window, ending at any instant, admits more than the limit. */
  lemma {:induction false} SlidingLogCallers(c: SL.Config, limit: int, s: Sys<SL.State>, ids: seq<Pid>, key: string,
                                             t: int)
    requires Scene(Config(SL.Decide(c), limit), s, ids, key)
    requires SLR.PrunedFromSight(c, RunOn(s, key))
    ensures AdmittedTo(s, ids, key, InMs(t - c.windowMs + 1, t)) <= c.maxRequests
  {
    CallersGetTheRun(Config(SL.Decide(c), limit), s, ids, key, InMs(t - c.windowMs + 1, t));
    HistoryIsAdmitted(c, SL.Decide(c), RunOn(s, key), t);
    SLR.SafeClockBound(c, SL.Decide(c), RunOn(s, key), t);
  }

  // ---- One more check, with others around it ----

  /**
   Whatever others do around a check, their own checks on the same key included, the state it leaves
   is one the bounds above speak of, for any callers, this check among them.
   */
  lemma {:induction false} CheckKeepsScene<V(!new)>(cfg: Config<V>, remote: bool, p: Pid, sched: seq<Moment<V>>,
                                                    s: Sys<V>, key: string, cost: U32, ids: seq<Pid>)
    requires Reached(cfg, !remote, s) && p !in s.calls && Distinct(ids)
    requires OnlyCommits(s.log, key) && NobodyPuts(sched)
    ensures Scene(cfg, CheckRun(cfg, remote, p, sched, Stepped(cfg, s, Start(p, key, cost))), ids, key)
  {
    var started := Stepped(cfg, s, Start(p, key, cost));
    TakeReached(cfg, !remote, s, Start(p, key, cost));
    CheckIsInterleaving(cfg, remote, p, sched, started);
    CheckKeepsCommits(cfg, remote, p, sched, started, key);
  }

  /** For one: what the token bucket has admitted to any callers once such a check has returned. */
  lemma {:induction false} TokenBucketCheck(c: TB.Config, limit: int, remote: bool, p: Pid,
                                            sched: seq<Moment<TB.State>>, s: Sys<TB.State>, key: string, cost: U32,
                                            ids: seq<Pid>, lo: nat, hi: nat)
    requires Reached(Config(TB.Decide(c), limit), !remote, s) && p !in s.calls && Distinct(ids) && lo <= hi
    requires OnlyCommits(s.log, key) && NobodyPuts(sched)
    ensures var s' := CheckRun(Config(TB.Decide(c), limit), remote, p, sched,
                               Stepped(Config(TB.Decide(c), limit), s, Start(p, key, cost)));
            TBC.AlwaysStraight(RunOn(s', key))
            ==> AdmittedTo(s', ids, key, InMs(lo, hi)) as real <= c.capacity + TBR.Gain(c, lo, hi)
  {
    var cfg := Config(TB.Decide(c), limit);
    var s' := CheckRun(cfg, remote, p, sched, Stepped(cfg, s, Start(p, key, cost)));
    CheckKeepsScene(cfg, remote, p, sched, s, key, cost, ids);
    if TBC.AlwaysStraight(RunOn(s', key)) {
      TokenBucketCallers(c, limit, s', ids, key, lo, hi);
    }
  }

  /** On the local store, a check that gave up was overtaken by commits of five others to its key. */
  lemma {:induction false} CheckGaveUp<V(!new)>(cfg: Config<V>, s: Sys<V>, p: Pid, key: string, cost: U32, d: Decision)
    requires Reached(cfg, true, s) && Returned(s, p, key, cost, d, false) && OnlyCommits(s.log, key)
    ensures var c := s.calls[p];
            && c.startedAt <= c.phase.endedAt <= |s.log|
            && |Committers(s.log[c.startedAt..c.phase.endedAt], key, p)| >= 5
            && d == GiveUp(cfg.limit)
  {
    var events :| Legal(cfg, events) && AllFaultless(events) && After(cfg, events) == s;
    GiveUpNeedsFiveOthers(cfg, events, p);
    Linearizable(cfg, events);
  }
}
