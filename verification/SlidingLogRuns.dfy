/** What the sliding window log promises over whole runs of commits. */
module SlidingLogRuns {
  import opened Wrappers
  import opened Limiter
  import opened Runs
  import SL = SlidingWindowLog

  function Filter(log: seq<int>, p: int -> bool): seq<int> {
    if log == [] then [] else
    var n := |log| - 1;
    var kept := Filter(log[..n], p);
    if p(log[n]) then kept + [log[n]] else kept
  }

  /** Newer than `cutoff`. */
  function Newer(cutoff: int): int -> bool {
    x => x > cutoff
  }

  /** In the half-open span `(t - width, t]`. */
  function Within(width: int, t: int): int -> bool {
    x => t - width < x <= t
  }

  /** How many of the timestamps lie in the half-open span `(t - width, t]`. */
  function CountWithin(log: seq<int>, width: int, t: int): nat {
    |Filter(log, Within(width, t))|
  }

  function LogOf(stored: Option<SL.State>): seq<int> {
    if stored.Some? then stored.value.timestampsMs else []
  }

  /** The timestamps stored after a run. */
  function LogAfter(decide: Decider<SL.State>, reqs: seq<Request>): seq<int> {
    LogOf(Replay(decide, reqs))
  }

  /** The full history of a run: one timestamp for every unit ever admitted, never pruned. */
  function History(decide: Decider<SL.State>, reqs: seq<Request>): seq<int>
  {
    if reqs == [] then [] else
    var n := |reqs| - 1;
    History(decide, reqs[..n]) + SL.Stamps(reqs[n].now, NextCharge(decide, reqs[..n], reqs[n]))
  }

  lemma {:induction false} FilterAppend(a: seq<int>, b: seq<int>, p: int -> bool)
    ensures Filter(a + b, p) == Filter(a, p) + Filter(b, p)
  {
    if b == [] {
      assert a + b == a;
    } else {
      var n := |b| - 1;
      assert (a + b)[..|a + b| - 1] == a + b[..n];
      FilterAppend(a, b[..n], p);
    }
  }

  lemma {:induction false} FilterStamps(now: int, cost: nat, p: int -> bool)
    ensures Filter(SL.Stamps(now, cost), p) == SL.Stamps(now, if p(now) then cost else 0)
  {
    if cost > 0 {
      FilterStamps(now, cost - 1, p);
      FilterAppend(SL.Stamps(now, cost - 1), [now], p);
    }
  }

  lemma {:induction false} PruningIsFiltering(log: seq<int>, cutoff: int)
    ensures SL.Pruned(log, cutoff) == Filter(log, Newer(cutoff))
  {
    if log != [] {
      PruningIsFiltering(log[..|log| - 1], cutoff);
    }
  }

  /** Pruning first loses nothing a filter would keep, if the filter refuses what was pruned. */
  lemma {:induction false} FilterAfterPruning(log: seq<int>, cutoff: int, p: int -> bool)
    requires FailsUpTo(log, cutoff, p)
    ensures Filter(SL.Pruned(log, cutoff), p) == Filter(log, p)
  {
    if log != [] {
      var n := |log| - 1;
      FilterAfterPruning(log[..n], cutoff, p);
      FilterAppend(SL.Pruned(log[..n], cutoff), [log[n]], p);
    }
  }

  /** The stored log after one more commit. */
  lemma {:induction false} LogExtended(cfg: SL.Config, decide: Decider<SL.State>, reqs: seq<Request>, r: Request)
    requires SL.Implements(cfg, decide)
    ensures var kept, charge := SL.Pruned(LogAfter(decide, reqs), r.now - cfg.windowMs), NextCharge(decide, reqs, r);
            && charge == (if |kept| + r.cost <= cfg.maxRequests then r.cost else 0)
            && LogAfter(decide, reqs + [r]) == kept + SL.Stamps(r.now, charge)
            && History(decide, reqs + [r]) == History(decide, reqs) + SL.Stamps(r.now, charge)
  {
    RunExtended(decide, reqs, r);
    var _ := SL.Attempt(cfg, Replay(decide, reqs), r.now, r.cost);
    assert (reqs + [r])[..|reqs|] == reqs;
  }

  lemma {:induction false} StampsAreNow(now: int, cost: nat)
    ensures |SL.Stamps(now, cost)| == cost
    ensures forall k :: 0 <= k < cost ==> SL.Stamps(now, cost)[k] == now
  {
    if cost > 0 { StampsAreNow(now, cost - 1); }
  }

  lemma {:induction false} PrunedIsSubset(log: seq<int>, cutoff: int)
    ensures forall x :: x in SL.Pruned(log, cutoff) ==> x in log && x > cutoff
  {
    if log != [] { PrunedIsSubset(log[..|log| - 1], cutoff); }
  }

  /** Every stored timestamp is the clock reading of some commit: what holds of all readings holds of it. */
  lemma {:induction false} LogHoldsReadings(cfg: SL.Config, decide: Decider<SL.State>, reqs: seq<Request>,
                                            q: int -> bool)
    requires SL.Implements(cfg, decide)
    requires forall h :: 0 <= h < |reqs| ==> q(reqs[h].now)
    ensures forall x :: x in LogAfter(decide, reqs) ==> q(x)
  {
    if reqs != [] {
      var n := |reqs| - 1;
      var front, r := reqs[..n], reqs[n];
      assert reqs == front + [r];
      LogHoldsReadings(cfg, decide, front, q);
      LogExtended(cfg, decide, front, r);
      PrunedIsSubset(LogAfter(decide, front), r.now - cfg.windowMs);
      StampsAreNow(r.now, NextCharge(decide, front, r));
    }
  }

  /** Commit `i` prunes the timestamps that commit `h` stored. */
  predicate Prunes(cfg: SL.Config, reqs: seq<Request>, h: nat, i: nat)
    requires h < i < |reqs|
  {
    reqs[h].now <= reqs[i].now - cfg.windowMs
  }

  /** No timestamp that some commit pruned satisfies `p`. */
  ghost predicate NonePruned(cfg: SL.Config, reqs: seq<Request>, p: int -> bool) {
    forall h, i :: 0 <= h < i < |reqs| && Prunes(cfg, reqs, h, i) ==> !p(reqs[h].now)
  }

  lemma NonePrunedBefore(cfg: SL.Config, reqs: seq<Request>, n: nat, p: int -> bool)
    requires n <= |reqs| && NonePruned(cfg, reqs, p)
    ensures NonePruned(cfg, reqs[..n], p)
  {
    forall h, i | 0 <= h < i < n && Prunes(cfg, reqs[..n], h, i)
      ensures !p(reqs[..n][h].now)
    {
      assert Prunes(cfg, reqs, h, i);
    }
  }

  /** What is pruned from the log, no question is asked about. */
  ghost predicate FailsUpTo(log: seq<int>, cutoff: int, p: int -> bool) {
    forall x :: x in log && x <= cutoff ==> !p(x)
  }

  lemma PrunedReadingsFail(cfg: SL.Config, decide: Decider<SL.State>, reqs: seq<Request>, n: nat, p: int -> bool)
    requires SL.Implements(cfg, decide) && n < |reqs| && NonePruned(cfg, reqs, p)
    ensures FailsUpTo(LogAfter(decide, reqs[..n]), reqs[n].now - cfg.windowMs, p)
  {
    var front, cutoff := reqs[..n], reqs[n].now - cfg.windowMs;
    forall h | 0 <= h < n
      ensures front[h].now <= cutoff ==> !p(front[h].now)
    {
      assert Prunes(cfg, reqs, h, n) <==> front[h].now <= cutoff;
    }
    LogHoldsReadings(cfg, decide, front, x => x <= cutoff ==> !p(x));
  }

  lemma {:induction false} AnswersExtended(cfg: SL.Config, decide: Decider<SL.State>, reqs: seq<Request>, r: Request,
                                           p: int -> bool)
    requires SL.Implements(cfg, decide)
    requires Filter(LogAfter(decide, reqs), p) == Filter(History(decide, reqs), p)
    requires FailsUpTo(LogAfter(decide, reqs), r.now - cfg.windowMs, p)
    ensures Filter(LogAfter(decide, reqs + [r]), p) == Filter(History(decide, reqs + [r]), p)
  {
    var log, cutoff := LogAfter(decide, reqs), r.now - cfg.windowMs;
    var stamps := SL.Stamps(r.now, NextCharge(decide, reqs, r));
    LogExtended(cfg, decide, reqs, r);
    FilterAfterPruning(log, cutoff, p);
    FilterAppend(SL.Pruned(log, cutoff), stamps, p);
    FilterAppend(History(decide, reqs), stamps, p);
  }

  /** Any question that no pruned timestamp answers is answered alike by the stored log and by the full history. */
  lemma {:induction false} LogAnswersLikeHistory(cfg: SL.Config, decide: Decider<SL.State>, reqs: seq<Request>,
                                                 p: int -> bool)
    requires SL.Implements(cfg, decide)
    requires NonePruned(cfg, reqs, p)
    ensures Filter(LogAfter(decide, reqs), p) == Filter(History(decide, reqs), p)
  {
    if reqs != [] {
      var n := |reqs| - 1;
      assert reqs == reqs[..n] + [reqs[n]];
      NonePrunedBefore(cfg, reqs, n, p);
      LogAnswersLikeHistory(cfg, decide, reqs[..n], p);
      PrunedReadingsFail(cfg, decide, reqs, n, p);
      AnswersExtended(cfg, decide, reqs[..n], reqs[n], p);
    }
  }

  lemma {:induction false} FilterMonotone(log: seq<int>, p: int -> bool, q: int -> bool)
    requires forall x :: p(x) ==> q(x)
    ensures |Filter(log, p)| <= |Filter(log, q)|
  {
    if log != [] {
      FilterMonotone(log[..|log| - 1], p, q);
    }
  }

  lemma {:induction false} FilterAll(log: seq<int>, p: int -> bool)
    requires forall k :: 0 <= k < |log| ==> p(log[k])
    ensures Filter(log, p) == log
  {
    if log != [] {
      var n := |log| - 1;
      assert log == log[..n] + [log[n]];
      FilterAll(log[..n], p);
    }
  }

  // ---- Which clock readings the log is exact on ----

  /** A reading pruned once stays out of the window of every later check. */
  ghost predicate PrunedForGood(cfg: SL.Config, reqs: seq<Request>) {
    forall h, i, j :: 0 <= h < i < j < |reqs| && Prunes(cfg, reqs, h, i) ==> Prunes(cfg, reqs, h, j)
  }

  /** A reading pruned once never shares a window span with a later check. */
  ghost predicate PrunedFromSight(cfg: SL.Config, reqs: seq<Request>) {
    forall h, i, j :: 0 <= h < i < j < |reqs| && Prunes(cfg, reqs, h, i)
      ==> Prunes(cfg, reqs, h, j) || reqs[j].now <= reqs[h].now - cfg.windowMs
  }

  /** Pruned to a cutoff that covers everything pruned before, the log and the history are the same. */
  lemma {:induction false} PrunedLikeHistory(cfg: SL.Config, decide: Decider<SL.State>, reqs: seq<Request>, cutoff: int)
    requires SL.Implements(cfg, decide)
    requires NonePruned(cfg, reqs, Newer(cutoff))
    ensures SL.Pruned(LogAfter(decide, reqs), cutoff) == SL.Pruned(History(decide, reqs), cutoff)
  {
    LogAnswersLikeHistory(cfg, decide, reqs, Newer(cutoff));
    PruningIsFiltering(LogAfter(decide, reqs), cutoff);
    PruningIsFiltering(History(decide, reqs), cutoff);
  }

  /**
   What the full history answers: admit what fits beside the units of the last window, and to a
   denied request name the time until the oldest of them leaves it (a whole window if there is none).
   */
  function FromHistory(cfg: SL.Config, history: seq<int>, now: nat, cost: U32): Decision {
    var recent := Filter(history, Newer(now - cfg.windowMs));
    var left := cfg.maxRequests - |recent|;
    if cost <= left then Decision(true, cfg.maxRequests, left - cost, 0)
    else Decision(false, cfg.maxRequests, if left > 0 then left else 0,
                  if recent == [] then cfg.windowMs else recent[0] + cfg.windowMs - now)
  }

  lemma {:induction false} DecidedFromHistory(cfg: SL.Config, history: seq<int>, now: nat, cost: U32)
    ensures SL.Decided(cfg, SL.Pruned(history, now - cfg.windowMs), now, cost).decision
         == FromHistory(cfg, history, now, cost)
  {
    PruningIsFiltering(history, now - cfg.windowMs);
    PrunedIsSubset(history, now - cfg.windowMs);
    var kept := SL.Pruned(history, now - cfg.windowMs);
    if kept != [] { assert kept[0] in kept; }
  }

  lemma {:induction false} AttemptFromHistory(cfg: SL.Config, decide: Decider<SL.State>, stored: Option<SL.State>,
                                              history: seq<int>, now: nat, cost: U32)
    requires SL.Implements(cfg, decide)
    requires SL.Pruned(LogOf(stored), now - cfg.windowMs) == SL.Pruned(history, now - cfg.windowMs)
    ensures decide(stored, now, cost).decision == FromHistory(cfg, history, now, cost)
  {
    DecidedFromHistory(cfg, history, now, cost);
    var _ := SL.Attempt(cfg, stored, now, cost);
  }

  /** The decision at the end of a run is the one the never-pruned history gives. */
  lemma {:induction false} DecisionFromHistory(cfg: SL.Config, decide: Decider<SL.State>, reqs: seq<Request>,
                                               now: nat, cost: U32)
    requires SL.Implements(cfg, decide)
    requires NonePruned(cfg, reqs, Newer(now - cfg.windowMs))
    ensures decide(Replay(decide, reqs), now, cost).decision == FromHistory(cfg, History(decide, reqs), now, cost)
  {
    PrunedLikeHistory(cfg, decide, reqs, now - cfg.windowMs);
    AttemptFromHistory(cfg, decide, Replay(decide, reqs), History(decide, reqs), now, cost);
  }

  /** Every decision of a run is the one the never-pruned history gives. */
  ghost predicate AgreesWithHistory(cfg: SL.Config, decide: Decider<SL.State>, reqs: seq<Request>) {
    forall j :: 0 <= j < |reqs| ==>
      Decisions(decide, reqs)[j] == FromHistory(cfg, History(decide, reqs[..j]), reqs[j].now, reqs[j].cost)
  }

  /** In no span of one window, wherever it ends, were more than `maxRequests` units admitted. */
  ghost predicate WindowBound(cfg: SL.Config, decide: Decider<SL.State>, reqs: seq<Request>) {
    forall t: int :: CountWithin(History(decide, reqs), cfg.windowMs, t) <= cfg.maxRequests
  }

  lemma SafeClockAgrees(cfg: SL.Config, decide: Decider<SL.State>, reqs: seq<Request>)
    requires SL.Implements(cfg, decide) && PrunedForGood(cfg, reqs)
    ensures AgreesWithHistory(cfg, decide, reqs)
  {
    forall j | 0 <= j < |reqs|
      ensures Decisions(decide, reqs)[j] == FromHistory(cfg, History(decide, reqs[..j]), reqs[j].now, reqs[j].cost)
    {
      DecisionAt(decide, reqs, j);
      forall h, i | 0 <= h < i < j && Prunes(cfg, reqs[..j], h, i)
        ensures !Newer(reqs[j].now - cfg.windowMs)(reqs[..j][h].now)
      {
        assert Prunes(cfg, reqs, h, i);
        assert Prunes(cfg, reqs, h, j);
      }
      assert NonePruned(cfg, reqs[..j], Newer(reqs[j].now - cfg.windowMs));
      DecisionFromHistory(cfg, decide, reqs[..j], reqs[j].now, reqs[j].cost);
    }
  }

  /** A check counts everything earlier in any span it falls in, if nothing pruned lies there. */
  lemma {:induction false} SpanWasCounted(cfg: SL.Config, decide: Decider<SL.State>, reqs: seq<Request>, now: nat,
                                          t: int)
    requires SL.Implements(cfg, decide) && Within(cfg.windowMs, t)(now)
    requires NonePruned(cfg, reqs, Within(cfg.windowMs, t))
    ensures CountWithin(History(decide, reqs), cfg.windowMs, t)
         <= |SL.Pruned(LogAfter(decide, reqs), now - cfg.windowMs)|
  {
    var width := cfg.windowMs;
    LogAnswersLikeHistory(cfg, decide, reqs, Within(width, t));
    FilterMonotone(LogAfter(decide, reqs), Within(width, t), Newer(now - width));
    PruningIsFiltering(LogAfter(decide, reqs), now - width);
  }

  lemma PrunedFromSightBefore(cfg: SL.Config, reqs: seq<Request>, n: nat)
    requires n <= |reqs| && PrunedFromSight(cfg, reqs)
    ensures PrunedFromSight(cfg, reqs[..n])
  {
    var front := reqs[..n];
    forall h, i, j | 0 <= h < i < j < n && Prunes(cfg, front, h, i)
      ensures Prunes(cfg, front, h, j) || front[j].now <= front[h].now - cfg.windowMs
    {
      assert Prunes(cfg, reqs, h, i);
      assert Prunes(cfg, reqs, h, j) || reqs[j].now <= reqs[h].now - cfg.windowMs;
    }
  }

  lemma NonePrunedInSight(cfg: SL.Config, reqs: seq<Request>, n: nat, t: int)
    requires n < |reqs| && PrunedFromSight(cfg, reqs) && Within(cfg.windowMs, t)(reqs[n].now)
    ensures NonePruned(cfg, reqs[..n], Within(cfg.windowMs, t))
  {
    forall h, i | 0 <= h < i < n && Prunes(cfg, reqs[..n], h, i)
      ensures !Within(cfg.windowMs, t)(reqs[..n][h].now)
    {
      assert Prunes(cfg, reqs, h, i);
      assert Prunes(cfg, reqs, h, n) || reqs[n].now <= reqs[h].now - cfg.windowMs;
    }
  }

  lemma {:induction false} CountExtended(cfg: SL.Config, decide: Decider<SL.State>, reqs: seq<Request>, r: Request,
                                         t: int)
    requires SL.Implements(cfg, decide)
    ensures CountWithin(History(decide, reqs + [r]), cfg.windowMs, t)
         == CountWithin(History(decide, reqs), cfg.windowMs, t)
            + if Within(cfg.windowMs, t)(r.now) then NextCharge(decide, reqs, r) else 0
  {
    var charge := NextCharge(decide, reqs, r);
    LogExtended(cfg, decide, reqs, r);
    FilterAppend(History(decide, reqs), SL.Stamps(r.now, charge), Within(cfg.windowMs, t));
    FilterStamps(r.now, charge, Within(cfg.windowMs, t));
    StampsAreNow(r.now, charge);
    StampsAreNow(r.now, 0);
  }

  lemma {:induction false} SafeClockBound(cfg: SL.Config, decide: Decider<SL.State>, reqs: seq<Request>, t: int)
    requires SL.Implements(cfg, decide) && PrunedFromSight(cfg, reqs)
    ensures CountWithin(History(decide, reqs), cfg.windowMs, t) <= cfg.maxRequests
  {
    if reqs != [] {
      var n := |reqs| - 1;
      var front, r := reqs[..n], reqs[n];
      assert reqs == front + [r];
      PrunedFromSightBefore(cfg, reqs, n);
      SafeClockBound(cfg, decide, front, t);
      CountExtended(cfg, decide, front, r, t);
      if Within(cfg.windowMs, t)(r.now) && NextCharge(decide, front, r) > 0 {
        NonePrunedInSight(cfg, reqs, n, t);
        SpanWasCounted(cfg, decide, front, r.now, t);
        LogExtended(cfg, decide, front, r);
      }
    }
  }

  // ---- The two conditions are exact: a clock that breaks them betrays some run ----

  /** What the probe has stored and admitted after `n` commits, if commit `i` prunes its first unit. */
  ghost predicate ProbeState(log: seq<int>, history: seq<int>, first: int, second: int, h: nat, i: nat, j: nat,
                             n: nat) {
    if n <= h then log == [] && history == []
    else if n <= j then history == [first] && (log == [first] || log == []) && (n > i ==> log == [])
    else history == [first, second]
  }

  lemma {:induction false} PrunedSingleton(x: int, cutoff: int)
    ensures SL.Pruned([], cutoff) == []
    ensures x <= cutoff ==> SL.Pruned([x], cutoff) == []
    ensures x > cutoff ==> SL.Pruned([x], cutoff) == [x]
  {
    assert [x][..0] == [];
    assert [] + [x] == [x];
  }

  lemma {:induction false} StampsFew(now: int)
    ensures SL.Stamps(now, 0) == [] && SL.Stamps(now, 1) == [now]
  {
    assert [] + [now] == [now];
  }

  lemma {:induction false} ProbeStep(log: seq<int>, history: seq<int>, first: int, second: int, h: nat, i: nat,
                                     j: nat, n: nat, now: int, cutoff: int, charge: nat)
    requires h < i < j && ProbeState(log, history, first, second, h, i, j, n)
    requires (n == h ==> now == first) && (n == j ==> now == second) && (n == i ==> first <= cutoff)
    requires charge == if n == h || n == j then 1 else 0
    ensures ProbeState(SL.Pruned(log, cutoff) + SL.Stamps(now, charge), history + SL.Stamps(now, charge),
                       first, second, h, i, j, n + 1)
  {
    PrunedSingleton(first, cutoff);
    StampsFew(now);
  }

  lemma {:induction false} ProbeCharge(log: seq<int>, history: seq<int>, first: int, second: int, h: nat, i: nat,
                                       j: nat, n: nat, cutoff: int)
    requires h < i < j && ProbeState(log, history, first, second, h, i, j, n)
    ensures n <= h ==> |SL.Pruned(log, cutoff)| == 0
    ensures n <= j ==> |SL.Pruned(log, cutoff)| <= 1
    ensures n == j ==> SL.Pruned(log, cutoff) == []
  {
    PrunedSingleton(first, cutoff);
  }

  lemma ProbeBegins(decide: Decider<SL.State>, first: int, second: int, h: nat, i: nat, j: nat)
    ensures ProbeState(LogAfter(decide, []), History(decide, []), first, second, h, i, j, 0)
  {
  }

  lemma {:induction false} ProbeCommit(cfg: SL.Config, decide: Decider<SL.State>, reqs: seq<Request>, r: Request,
                                       first: int, second: int, h: nat, i: nat, j: nat, n: nat)
    requires SL.Implements(cfg, decide) && cfg.maxRequests == 1 && h < i < j
    requires (n == h ==> r.now == first) && (n == j ==> r.now == second) && (n == i ==> first <= r.now - cfg.windowMs)
    requires r.cost == 1 <==> n == h || n == j
    requires ProbeState(LogAfter(decide, reqs), History(decide, reqs), first, second, h, i, j, n)
    ensures ProbeState(LogAfter(decide, reqs + [r]), History(decide, reqs + [r]), first, second, h, i, j, n + 1)
  {
    hide ProbeState, LogAfter, History, NextCharge, SL.Implements;
    var log, history := LogAfter(decide, reqs), History(decide, reqs);
    LogExtended(cfg, decide, reqs, r);
    ProbeCharge(log, history, first, second, h, i, j, n, r.now - cfg.windowMs);
    ProbeStep(log, history, first, second, h, i, j, n, r.now, r.now - cfg.windowMs, NextCharge(decide, reqs, r));
  }

  lemma {:induction false} ProbeRun(cfg: SL.Config, decide: Decider<SL.State>, reqs: seq<Request>, h: nat, i: nat,
                                    j: nat, n: nat)
    requires SL.Implements(cfg, decide) && cfg.maxRequests == 1 && OneUnitAt(reqs, h, j)
    requires h < i < j < |reqs| && Prunes(cfg, reqs, h, i) && n <= |reqs|
    ensures ProbeState(LogAfter(decide, reqs[..n]), History(decide, reqs[..n]), reqs[h].now, reqs[j].now, h, i, j, n)
  {
    hide ProbeState, SL.Implements, LogAfter, History;
    if n == 0 {
      ProbeBegins(decide, reqs[h].now, reqs[j].now, h, i, j);
    } else {
      ProbeRun(cfg, decide, reqs, h, i, j, n - 1);
      ProbeCommit(cfg, decide, reqs[..n - 1], reqs[n - 1], reqs[h].now, reqs[j].now, h, i, j, n - 1);
      assert reqs[..n] == reqs[..n - 1] + [reqs[n - 1]];
    }
  }

  /** A reading pruned too early is forgotten by a decision that the full history would have denied. */
  lemma UnsafeClockDisagrees(cfg: SL.Config, decide: Decider<SL.State>, clock: seq<Request>, h: nat, i: nat, j: nat)
    requires SL.Implements(cfg, decide) && cfg.maxRequests == 1
    requires h < i < j < |clock| && Prunes(cfg, clock, h, i) && !Prunes(cfg, clock, h, j)
    ensures !AgreesWithHistory(cfg, decide, Probe(clock, h, j))
  {
    var reqs := Probe(clock, h, j);
    ProbeRun(cfg, decide, reqs, h, i, j, j);
    DecisionAt(decide, reqs, j);
    PrunedSingleton(clock[h].now, clock[j].now - cfg.windowMs);
    AttemptFromHistory(cfg, decide, Replay(decide, reqs[..j]), [], clock[j].now, 1);
    assert Decisions(decide, reqs)[j].allowed;
    assert !FromHistory(cfg, History(decide, reqs[..j]), clock[j].now, 1).allowed;
  }

  /** A reading pruned while still in sight lets two units into one span that should hold one. */
  lemma UnsafeClockOveradmits(cfg: SL.Config, decide: Decider<SL.State>, clock: seq<Request>, h: nat, i: nat, j: nat)
    requires SL.Implements(cfg, decide) && cfg.maxRequests == 1
    requires h < i < j < |clock| && Prunes(cfg, clock, h, i)
    requires !Prunes(cfg, clock, h, j) && clock[h].now - cfg.windowMs < clock[j].now
    ensures !WindowBound(cfg, decide, Probe(clock, h, j))
  {
    var reqs, first, second := Probe(clock, h, j), clock[h].now, clock[j].now;
    ProbeRun(cfg, decide, reqs, h, i, j, |clock|);
    assert reqs[..|clock|] == reqs;
    var t := if first < second then second else first;
    FilterAll([first, second], Within(cfg.windowMs, t));
    assert CountWithin(History(decide, reqs), cfg.windowMs, t) == 2;
  }

  /** Whatever the limit and the costs, a run on this clock is decided like its full history. */
  ghost predicate AlwaysAgrees(width: int, clock: seq<Request>) {
    forall cfg: SL.Config, reqs: seq<Request> :: cfg.windowMs == width && SameClock(reqs, clock)
      ==> AgreesWithHistory(cfg, SL.Decide(cfg), reqs)
  }

  ghost predicate AlwaysBounded(width: int, clock: seq<Request>) {
    forall cfg: SL.Config, reqs: seq<Request> :: cfg.windowMs == width && SameClock(reqs, clock)
      ==> WindowBound(cfg, SL.Decide(cfg), reqs)
  }

  /**
   The log is as good as the never-pruned history on exactly the clocks where what one check
   prunes, no later check would have counted.
   */
  lemma AgreesExactly(cfg: SL.Config, clock: seq<Request>)
    ensures AlwaysAgrees(cfg.windowMs, clock) <==> PrunedForGood(cfg, clock)
  {
    if PrunedForGood(cfg, clock) {
      forall c: SL.Config, reqs: seq<Request> | c.windowMs == cfg.windowMs && SameClock(reqs, clock)
        ensures AgreesWithHistory(c, SL.Decide(c), reqs)
      {
        forall h, i, j | 0 <= h < i < j < |reqs| && Prunes(c, reqs, h, i)
          ensures Prunes(c, reqs, h, j)
        {
          assert Prunes(cfg, clock, h, i) && Prunes(cfg, clock, h, j);
        }
        SafeClockAgrees(c, SL.Decide(c), reqs);
      }
    } else {
      var h, i, j :| 0 <= h < i < j < |clock| && Prunes(cfg, clock, h, i) && !Prunes(cfg, clock, h, j);
      var one: SL.Config := SL.Parameters(1, cfg.windowMs);
      assert Prunes(one, clock, h, i) && !Prunes(one, clock, h, j);
      UnsafeClockDisagrees(one, SL.Decide(one), clock, h, i, j);
      assert SameClock(Probe(clock, h, j), clock);
    }
  }

  /**
   No span of one window, ending at any instant, admits more than `maxRequests` units, on exactly
   the clocks where what one check prunes shares no span with any later check.
   */
  lemma BoundedExactly(cfg: SL.Config, clock: seq<Request>)
    ensures AlwaysBounded(cfg.windowMs, clock) <==> PrunedFromSight(cfg, clock)
  {
    if PrunedFromSight(cfg, clock) {
      forall c: SL.Config, reqs: seq<Request> | c.windowMs == cfg.windowMs && SameClock(reqs, clock)
        ensures WindowBound(c, SL.Decide(c), reqs)
      {
        forall h, i, j | 0 <= h < i < j < |reqs| && Prunes(c, reqs, h, i)
          ensures Prunes(c, reqs, h, j) || reqs[j].now <= reqs[h].now - c.windowMs
        {
          assert Prunes(cfg, clock, h, i);
          assert Prunes(cfg, clock, h, j) || clock[j].now <= clock[h].now - cfg.windowMs;
        }
        forall t: int
          ensures CountWithin(History(SL.Decide(c), reqs), c.windowMs, t) <= c.maxRequests
        {
          SafeClockBound(c, SL.Decide(c), reqs, t);
        }
      }
    } else {
      var h, i, j :| 0 <= h < i < j < |clock| && Prunes(cfg, clock, h, i)
                     && !Prunes(cfg, clock, h, j) && !(clock[j].now <= clock[h].now - cfg.windowMs);
      var one: SL.Config := SL.Parameters(1, cfg.windowMs);
      assert Prunes(one, clock, h, i) && !Prunes(one, clock, h, j);
      UnsafeClockOveradmits(one, SL.Decide(one), clock, h, i, j);
      assert SameClock(Probe(clock, h, j), clock);
    }
  }

  /** Clock readings that never go backwards are among the clocks both results hold on. */
  lemma ForwardClockIsSafe(cfg: SL.Config, reqs: seq<Request>)
    requires Nondecreasing(reqs)
    ensures PrunedForGood(cfg, reqs) && PrunedFromSight(cfg, reqs)
  {
  }

  // ---- The stored log itself, and its retry hint ----

  predicate Sorted(log: seq<int>) {
    forall k, l :: 0 <= k < l < |log| ==> log[k] <= log[l]
  }

  predicate AllAtMost(log: seq<int>, now: int) {
    forall k :: 0 <= k < |log| ==> log[k] <= now
  }

  predicate AllNewer(log: seq<int>, cutoff: int) {
    forall k :: 0 <= k < |log| ==> log[k] > cutoff
  }

  /** Oldest first, nothing later than `now`, nothing that a check at `now` would prune. */
  predicate InOrder(log: seq<int>, now: int, width: int) {
    Sorted(log) && AllAtMost(log, now) && AllNewer(log, now - width)
  }

  lemma {:induction false} PrunedKeepsOrder(log: seq<int>, cutoff: int, now: int)
    requires Sorted(log) && AllAtMost(log, now)
    ensures Sorted(SL.Pruned(log, cutoff)) && AllAtMost(SL.Pruned(log, cutoff), now)
  {
    if log != [] {
      var n := |log| - 1;
      PrunedKeepsOrder(log[..n], cutoff, log[n]);
    }
  }

  lemma {:induction false} PrunedIsNewer(log: seq<int>, cutoff: int)
    ensures AllNewer(SL.Pruned(log, cutoff), cutoff)
    ensures |SL.Pruned(log, cutoff)| <= |log|
    ensures AllNewer(log, cutoff) ==> SL.Pruned(log, cutoff) == log
    ensures log != [] && log[0] <= cutoff ==> |SL.Pruned(log, cutoff)| < |log|
  {
    if log != [] {
      var n := |log| - 1;
      PrunedIsNewer(log[..n], cutoff);
      assert log == log[..n] + [log[n]];
    }
  }

  lemma ExtendedInOrder(log: seq<int>, now: int, width: int, charge: nat)
    requires Sorted(log) && AllAtMost(log, now) && 0 < width
    ensures InOrder(SL.Pruned(log, now - width) + SL.Stamps(now, charge), now, width)
  {
    hide SL.Pruned, SL.Stamps, InOrder;
    PrunedKeepsOrder(log, now - width, now);
    PrunedIsNewer(log, now - width);
    StampsAreNow(now, charge);
    StampedInOrder(SL.Pruned(log, now - width), SL.Stamps(now, charge), now, width);
  }

  lemma StampedInOrder(kept: seq<int>, stamps: seq<int>, now: int, width: int)
    requires Sorted(kept) && AllAtMost(kept, now) && AllNewer(kept, now - width) && 0 < width
    requires forall k :: 0 <= k < |stamps| ==> stamps[k] == now
    ensures InOrder(kept + stamps, now, width)
  {
  }

  /** The log never outgrows the limit, whatever the clock does. */
  lemma {:induction false} LogFits(cfg: SL.Config, decide: Decider<SL.State>, reqs: seq<Request>)
    requires SL.Implements(cfg, decide)
    ensures |LogAfter(decide, reqs)| <= cfg.maxRequests
  {
    if reqs != [] {
      var n := |reqs| - 1;
      assert reqs == reqs[..n] + [reqs[n]];
      LogFits(cfg, decide, reqs[..n]);
      LogExtended(cfg, decide, reqs[..n], reqs[n]);
      PrunedIsNewer(LogAfter(decide, reqs[..n]), reqs[n].now - cfg.windowMs);
      StampsAreNow(reqs[n].now, NextCharge(decide, reqs[..n], reqs[n]));
    }
  }

  lemma OrderExtended(cfg: SL.Config, decide: Decider<SL.State>, reqs: seq<Request>, r: Request)
    requires SL.Implements(cfg, decide) && Sorted(LogAfter(decide, reqs)) && AllAtMost(LogAfter(decide, reqs), r.now)
    ensures InOrder(LogAfter(decide, reqs + [r]), r.now, cfg.windowMs)
  {
    ExtendedInOrder(LogAfter(decide, reqs), r.now, cfg.windowMs, NextCharge(decide, reqs, r));
    LogExtended(cfg, decide, reqs, r);
  }

  lemma StillInOrder(log: seq<int>, now: int, width: int, later: int)
    requires InOrder(log, now, width) && now <= later
    ensures Sorted(log) && AllAtMost(log, later)
  {
  }

  lemma NothingInOrder(decide: Decider<SL.State>, now: int, width: int)
    ensures InOrder(LogAfter(decide, []), now, width)
  {
  }

  /** On a clock that never goes back the log is kept oldest first, and holds nothing from the future. */
  lemma {:induction false} LogInOrder(cfg: SL.Config, decide: Decider<SL.State>, reqs: seq<Request>)
    requires SL.Implements(cfg, decide) && Nondecreasing(reqs) && reqs != []
    ensures InOrder(LogAfter(decide, reqs), reqs[|reqs| - 1].now, cfg.windowMs)
  {
    hide InOrder, LogAfter, SL.Implements;
    var n := |reqs| - 1;
    assert reqs == reqs[..n] + [reqs[n]];
    if n > 0 {
      LogInOrder(cfg, decide, reqs[..n]);
      StillInOrder(LogAfter(decide, reqs[..n]), reqs[n - 1].now, cfg.windowMs, reqs[n].now);
    } else {
      NothingInOrder(decide, reqs[n].now, cfg.windowMs);
      StillInOrder(LogAfter(decide, reqs[..n]), reqs[n].now, cfg.windowMs, reqs[n].now);
    }
    OrderExtended(cfg, decide, reqs[..n], reqs[n]);
  }

  lemma NothingRecentPruned(cfg: SL.Config, reqs: seq<Request>)
    requires Nondecreasing(reqs) && reqs != []
    ensures NonePruned(cfg, reqs, Newer(reqs[|reqs| - 1].now - cfg.windowMs))
  {
    forall h, i | 0 <= h < i < |reqs| && Prunes(cfg, reqs, h, i)
      ensures !Newer(reqs[|reqs| - 1].now - cfg.windowMs)(reqs[h].now)
    {
      assert reqs[i].now <= reqs[|reqs| - 1].now;
    }
  }

  lemma {:induction false} NothingToPrune(cfg: SL.Config, log: seq<int>, now: int)
    requires InOrder(log, now, cfg.windowMs)
    ensures SL.Pruned(log, now - cfg.windowMs) == log
  {
    PrunedIsNewer(log, now - cfg.windowMs);
  }

  lemma {:induction false} OrderedLogIsHistory(cfg: SL.Config, decide: Decider<SL.State>, reqs: seq<Request>, now: int)
    requires SL.Implements(cfg, decide) && NonePruned(cfg, reqs, Newer(now - cfg.windowMs))
    requires InOrder(LogAfter(decide, reqs), now, cfg.windowMs)
    ensures LogAfter(decide, reqs) == SL.Pruned(History(decide, reqs), now - cfg.windowMs)
  {
    PrunedLikeHistory(cfg, decide, reqs, now - cfg.windowMs);
    NothingToPrune(cfg, LogAfter(decide, reqs), now);
  }

  /** And, after a last commit at `now`, it is exactly the admitted units newer than the last cutoff. */
  lemma StoredLogIsRecentHistory(cfg: SL.Config, decide: Decider<SL.State>, reqs: seq<Request>, now: nat)
    requires SL.Implements(cfg, decide) && Nondecreasing(reqs)
    requires reqs != [] && reqs[|reqs| - 1].now == now
    ensures LogAfter(decide, reqs) == SL.Pruned(History(decide, reqs), now - cfg.windowMs)
  {
    NothingRecentPruned(cfg, reqs);
    LogInOrder(cfg, decide, reqs);
    OrderedLogIsHistory(cfg, decide, reqs, now);
  }

  lemma {:induction false} DeniedKeepsPruned(cfg: SL.Config, decide: Decider<SL.State>, stored: Option<SL.State>,
                                             now: nat, cost: U32)
    requires SL.Implements(cfg, decide)
    requires !decide(stored, now, cost).decision.allowed
    ensures var v, kept := decide(stored, now, cost), SL.Pruned(LogOf(stored), now - cfg.windowMs);
            && v.state == SL.State(kept)
            && v.decision == SL.Decided(cfg, kept, now, cost).decision
  {
    var _ := SL.Attempt(cfg, stored, now, cost);
  }

  lemma HintOnKept(cfg: SL.Config, kept: seq<int>, now: nat, cost: U32, k: nat)
    requires Sorted(kept) && AllNewer(kept, now - cfg.windowMs) && |kept| <= cfg.maxRequests
    requires !SL.Decided(cfg, kept, now, cost).decision.allowed
    ensures var hint := SL.Decided(cfg, kept, now, cost).decision.retryAfterMs;
            var again := FromHistory(cfg, kept, now + k, cost);
            && (k < hint ==> !again.allowed)
            && (hint <= k && cost == 1 && cfg.maxRequests >= 1 ==> again.allowed)
  {
    var later := SL.Pruned(kept, now + k - cfg.windowMs);
    PrunedIsNewer(kept, now + k - cfg.windowMs);
    var hint := SL.Decided(cfg, kept, now, cost).decision.retryAfterMs;
    DecidedFromHistory(cfg, kept, now + k, cost);
    assert FromHistory(cfg, kept, now + k, cost).allowed <==> |later| + cost <= cfg.maxRequests;
    if kept != [] {
      assert hint == kept[0] + cfg.windowMs - now;
      if k < hint {
        assert AllNewer(kept, now + k - cfg.windowMs);
      }
    }
  }

  lemma {:induction false} KeptInOrder(log: seq<int>, cutoff: int, now: int)
    requires Sorted(log) && AllAtMost(log, now)
    ensures var kept := SL.Pruned(log, cutoff); Sorted(kept) && AllNewer(kept, cutoff) && |kept| <= |log|
  {
    PrunedKeepsOrder(log, cutoff, now);
    PrunedIsNewer(log, cutoff);
  }

  lemma AgainFromKept(cfg: SL.Config, decide: Decider<SL.State>, kept: seq<int>, now: nat, cost: U32)
    requires SL.Implements(cfg, decide)
    ensures decide(Some(SL.State(kept)), now, cost).decision == FromHistory(cfg, kept, now, cost)
  {
    AttemptFromHistory(cfg, decide, Some(SL.State(kept)), kept, now, cost);
  }

  lemma HintOnLog(cfg: SL.Config, decide: Decider<SL.State>, stored: Option<SL.State>, now: nat, cost: U32, k: nat)
    requires SL.Implements(cfg, decide)
    requires Sorted(LogOf(stored)) && AllAtMost(LogOf(stored), now) && |LogOf(stored)| <= cfg.maxRequests
    requires !decide(stored, now, cost).decision.allowed
    ensures var v := decide(stored, now, cost);
            var again := decide(Some(v.state), now + k, cost).decision;
            && (k < v.decision.retryAfterMs ==> !again.allowed)
            && (v.decision.retryAfterMs <= k && cost == 1 && cfg.maxRequests >= 1 ==> again.allowed)
  {
    var kept := SL.Pruned(LogOf(stored), now - cfg.windowMs);
    DeniedKeepsPruned(cfg, decide, stored, now, cost);
    KeptInOrder(LogOf(stored), now - cfg.windowMs, now);
    HintOnKept(cfg, kept, now, cost, k);
    AgainFromKept(cfg, decide, kept, now + k, cost);
  }

  /**
   The retry hint of a denied request: repeated earlier, with nothing admitted in between, it is
   denied again; a request for one unit is admitted from that instant on (if any ever is).
   */
  lemma {:induction false} RetryHintEarliest(cfg: SL.Config, decide: Decider<SL.State>, reqs: seq<Request>, now: nat,
                                             cost: U32, k: nat)
    requires SL.Implements(cfg, decide) && Nondecreasing(reqs)
    requires reqs != [] ==> reqs[|reqs| - 1].now <= now
    requires !decide(Replay(decide, reqs), now, cost).decision.allowed
    ensures var v := decide(Replay(decide, reqs), now, cost);
            var again := decide(Some(v.state), now + k, cost).decision;
            && (k < v.decision.retryAfterMs ==> !again.allowed)
            && (v.decision.retryAfterMs <= k && cost == 1 && cfg.maxRequests >= 1 ==> again.allowed)
  {
    if reqs != [] {
      LogInOrder(cfg, decide, reqs);
    }
    LogFits(cfg, decide, reqs);
    HintOnLog(cfg, decide, Replay(decide, reqs), now, cost, k);
  }

  /**
   On any clock, and for any cost: a denied request is told the time until the first unit of the log
   leaves the window, which is never now, and a whole window if the log holds none.
   */
  lemma {:induction false} HintNamesTheFirst(cfg: SL.Config, decide: Decider<SL.State>, stored: Option<SL.State>,
                                             now: nat, cost: U32)
    requires SL.Implements(cfg, decide)
    requires !decide(stored, now, cost).decision.allowed
    ensures var v := decide(stored, now, cost);
            var kept := v.state.timestampsMs;
            && v.decision.retryAfterMs == (if kept == [] then cfg.windowMs else kept[0] + cfg.windowMs - now)
            && v.decision.retryAfterMs > 0
  {
    DeniedKeepsPruned(cfg, decide, stored, now, cost);
    PrunedIsNewer(LogOf(stored), now - cfg.windowMs);
  }

  /** In a log kept oldest first, the first `m` timestamps are pruned exactly when the last of them is. */
  lemma {:induction false} OldestGoFirst(log: seq<int>, cutoff: int, m: nat)
    requires Sorted(log) && 1 <= m <= |log|
    ensures |SL.Pruned(log, cutoff)| <= |log| - m <==> log[m - 1] <= cutoff
  {
    var n := |log| - 1;
    if n > 0 {
      assert Sorted(log[..n]);
      OldestGoFirst(log[..n], cutoff, if m <= n then m else n);
    }
  }

  lemma AgainOnKept(cfg: SL.Config, decide: Decider<SL.State>, kept: seq<int>, later: nat, cost: U32)
    requires SL.Implements(cfg, decide) && Sorted(kept) && |kept| + cost > cfg.maxRequests
    ensures decide(Some(SL.State(kept)), later, cost).decision.allowed
       <==> cost <= cfg.maxRequests && kept[|kept| + cost - cfg.maxRequests - 1] + cfg.windowMs <= later
  {
    AgainFromKept(cfg, decide, kept, later, cost);
    DecidedFromHistory(cfg, kept, later, cost);
    if cost <= cfg.maxRequests {
      OldestGoFirst(kept, later - cfg.windowMs, |kept| + cost - cfg.maxRequests);
    }
  }

  /**
   When a denied request of any cost gets through, with nothing admitted in between: exactly when
   as many of the oldest units as it lacks have left the window. The hint names the first of them.
   */
  lemma {:induction false} AdmittedAgainExactly(cfg: SL.Config, decide: Decider<SL.State>, reqs: seq<Request>,
                                                now: nat, cost: U32, later: nat)
    requires SL.Implements(cfg, decide) && Nondecreasing(reqs) && now <= later
    requires reqs != [] ==> reqs[|reqs| - 1].now <= now
    requires !decide(Replay(decide, reqs), now, cost).decision.allowed
    ensures var v := decide(Replay(decide, reqs), now, cost);
            var kept := v.state.timestampsMs;
            var lacking := |kept| + cost - cfg.maxRequests;
            && 0 < lacking
            && (decide(Some(v.state), later, cost).decision.allowed
                <==> cost <= cfg.maxRequests && kept[lacking - 1] + cfg.windowMs <= later)
            && v.decision.retryAfterMs == (if kept == [] then cfg.windowMs else kept[0] + cfg.windowMs - now)
  {
    if reqs != [] {
      LogInOrder(cfg, decide, reqs);
    }
    DeniedLacks(cfg, decide, Replay(decide, reqs), now, cost);
    HintNamesTheFirst(cfg, decide, Replay(decide, reqs), now, cost);
    AgainOnKept(cfg, decide, decide(Replay(decide, reqs), now, cost).state.timestampsMs, later, cost);
  }

  lemma DeniedLacks(cfg: SL.Config, decide: Decider<SL.State>, stored: Option<SL.State>, now: nat, cost: U32)
    requires SL.Implements(cfg, decide) && Sorted(LogOf(stored)) && AllAtMost(LogOf(stored), now)
    requires !decide(stored, now, cost).decision.allowed
    ensures var v := decide(stored, now, cost);
            var kept := v.state.timestampsMs;
            && Sorted(kept) && |kept| + cost > cfg.maxRequests
  {
    DeniedKeepsPruned(cfg, decide, stored, now, cost);
    KeptInOrder(LogOf(stored), now - cfg.windowMs, now);
  }

  // ---- Exactly when the log is kept oldest first ----

  /** No commit from `h + 1` to `n - 1` prunes what commit `h` stored. */
  ghost predicate Alive(cfg: SL.Config, reqs: seq<Request>, h: nat, n: nat)
    requires h < n <= |reqs|
  {
    forall i :: h < i < n ==> !Prunes(cfg, reqs, h, i)
  }

  /** The units charged by the first `m` commits of a run that none of its later commits has pruned. */
  ghost function Survivors(cfg: SL.Config, decide: Decider<SL.State>, reqs: seq<Request>, m: nat): seq<int>
    requires m <= |reqs|
  {
    if m == 0 then [] else
    var charge := NextCharge(decide, reqs[..m - 1], reqs[m - 1]);
    Survivors(cfg, decide, reqs, m - 1)
    + SL.Stamps(reqs[m - 1].now, if Alive(cfg, reqs, m - 1, |reqs|) then charge else 0)
  }

  lemma AliveExtended(cfg: SL.Config, reqs: seq<Request>, r: Request, h: nat)
    requires h < |reqs|
    ensures Alive(cfg, reqs + [r], h, |reqs| + 1)
       <==> Alive(cfg, reqs, h, |reqs|) && reqs[h].now > r.now - cfg.windowMs
  {
    var run := reqs + [r];
    assert forall i :: h < i < |reqs| ==> (Prunes(cfg, run, h, i) <==> Prunes(cfg, reqs, h, i));
    assert Prunes(cfg, run, h, |reqs|) <==> reqs[h].now <= r.now - cfg.windowMs;
  }

  lemma {:induction false} SurvivorsPruned(cfg: SL.Config, decide: Decider<SL.State>, reqs: seq<Request>, r: Request,
                                           m: nat)
    requires m <= |reqs|
    ensures Survivors(cfg, decide, reqs + [r], m) == SL.Pruned(Survivors(cfg, decide, reqs, m), r.now - cfg.windowMs)
  {
    hide Alive, NextCharge;
    if m > 0 {
      var cutoff, t, charge := r.now - cfg.windowMs, reqs[m - 1].now, NextCharge(decide, reqs[..m - 1], reqs[m - 1]);
      assert (reqs + [r])[..m - 1] == reqs[..m - 1];
      SurvivorsPruned(cfg, decide, reqs, r, m - 1);
      AliveExtended(cfg, reqs, r, m - 1);
      PruningIsFiltering(Survivors(cfg, decide, reqs, m), cutoff);
      PruningIsFiltering(Survivors(cfg, decide, reqs, m - 1), cutoff);
      var stamps := SL.Stamps(t, if Alive(cfg, reqs, m - 1, |reqs|) then charge else 0);
      FilterAppend(Survivors(cfg, decide, reqs, m - 1), stamps, Newer(cutoff));
      FilterStamps(t, if Alive(cfg, reqs, m - 1, |reqs|) then charge else 0, Newer(cutoff));
    }
  }

  /** On any clock, the stored log is exactly what no commit has pruned, in the order of the commits. */
  lemma {:induction false} LogIsSurvivors(cfg: SL.Config, decide: Decider<SL.State>, reqs: seq<Request>)
    requires SL.Implements(cfg, decide)
    ensures LogAfter(decide, reqs) == Survivors(cfg, decide, reqs, |reqs|)
  {
    hide SL.Implements, SL.Stamps, SL.Pruned, NextCharge;
    if reqs != [] {
      var n := |reqs| - 1;
      assert reqs == reqs[..n] + [reqs[n]];
      LogIsSurvivors(cfg, decide, reqs[..n]);
      SurvivorsPruned(cfg, decide, reqs[..n], reqs[n], n);
      LogExtended(cfg, decide, reqs[..n], reqs[n]);
    }
  }

  /** A clock goes back behind a reading only after some check has pruned that reading. */
  ghost predicate BackOnlyPast(cfg: SL.Config, reqs: seq<Request>) {
    forall h, j :: 0 <= h < j < |reqs| && Alive(cfg, reqs, h, j) ==> reqs[h].now <= reqs[j].now
  }

  /** A reading of some commit before `n` that nobody has pruned since. */
  ghost predicate AliveReading(cfg: SL.Config, reqs: seq<Request>, n: nat, x: int)
    requires n <= |reqs|
  {
    exists h :: 0 <= h < n && reqs[h].now == x && Alive(cfg, reqs, h, n)
  }

  ghost predicate AllAlive(cfg: SL.Config, reqs: seq<Request>, n: nat, log: seq<int>)
    requires n <= |reqs|
  {
    forall k :: 0 <= k < |log| ==> AliveReading(cfg, reqs, n, log[k])
  }

  lemma StillAlive(cfg: SL.Config, reqs: seq<Request>, n: nat, x: int)
    requires n < |reqs| && AliveReading(cfg, reqs, n, x) && x > reqs[n].now - cfg.windowMs
    ensures AliveReading(cfg, reqs, n + 1, x)
  {
    var h :| 0 <= h < n && reqs[h].now == x && Alive(cfg, reqs, h, n);
    assert Alive(cfg, reqs, h, n + 1);
  }

  lemma NewlyAlive(cfg: SL.Config, reqs: seq<Request>, n: nat)
    requires n < |reqs|
    ensures AliveReading(cfg, reqs, n + 1, reqs[n].now)
  {
    assert Alive(cfg, reqs, n, n + 1);
  }

  lemma {:induction false} PrunedAlive(cfg: SL.Config, reqs: seq<Request>, n: nat, log: seq<int>)
    requires n < |reqs| && AllAlive(cfg, reqs, n, log)
    ensures AllAlive(cfg, reqs, n + 1, SL.Pruned(log, reqs[n].now - cfg.windowMs))
  {
    hide AliveReading;
    if log != [] {
      var m := |log| - 1;
      PrunedAlive(cfg, reqs, n, log[..m]);
      if log[m] > reqs[n].now - cfg.windowMs { StillAlive(cfg, reqs, n, log[m]); }
    }
  }

  lemma {:induction false} AliveOn(cfg: SL.Config, reqs: seq<Request>, n: nat, log: seq<int>, charge: nat)
    requires n < |reqs| && AllAlive(cfg, reqs, n, log)
    ensures AllAlive(cfg, reqs, n + 1, SL.Pruned(log, reqs[n].now - cfg.windowMs) + SL.Stamps(reqs[n].now, charge))
  {
    hide AliveReading, SL.Pruned, SL.Stamps;
    PrunedAlive(cfg, reqs, n, log);
    StampsAreNow(reqs[n].now, charge);
    NewlyAlive(cfg, reqs, n);
  }

  lemma {:induction false} LogIsAlive(cfg: SL.Config, decide: Decider<SL.State>, reqs: seq<Request>, n: nat)
    requires SL.Implements(cfg, decide) && n <= |reqs|
    ensures AllAlive(cfg, reqs, n, LogAfter(decide, reqs[..n]))
  {
    if n > 0 {
      LogIsAlive(cfg, decide, reqs, n - 1);
      assert reqs[..n] == reqs[..n - 1] + [reqs[n - 1]];
      LogExtended(cfg, decide, reqs[..n - 1], reqs[n - 1]);
      AliveOn(cfg, reqs, n - 1, LogAfter(decide, reqs[..n - 1]), NextCharge(decide, reqs[..n - 1], reqs[n - 1]));
    }
  }

  lemma KeptIsEarlier(cfg: SL.Config, reqs: seq<Request>, n: nat, log: seq<int>)
    requires n < |reqs| && AllAlive(cfg, reqs, n, log) && BackOnlyPast(cfg, reqs)
    ensures AllAtMost(log, reqs[n].now)
  {
    forall k | 0 <= k < |log| ensures log[k] <= reqs[n].now {
      assert AliveReading(cfg, reqs, n, log[k]);
      var h :| 0 <= h < n && reqs[h].now == log[k] && Alive(cfg, reqs, h, n);
    }
  }

  lemma {:induction false} SortedOn(cfg: SL.Config, decide: Decider<SL.State>, reqs: seq<Request>, n: nat)
    requires SL.Implements(cfg, decide) && BackOnlyPast(cfg, reqs) && n <= |reqs|
    ensures Sorted(LogAfter(decide, reqs[..n]))
  {
    if n > 0 {
      SortedOn(cfg, decide, reqs, n - 1);
      LogIsAlive(cfg, decide, reqs, n - 1);
      KeptIsEarlier(cfg, reqs, n - 1, LogAfter(decide, reqs[..n - 1]));
      assert reqs[..n] == reqs[..n - 1] + [reqs[n - 1]];
      OrderExtended(cfg, decide, reqs[..n - 1], reqs[n - 1]);
    }
  }

  /** What the probe has stored before its second unit, if nobody prunes the first. */
  lemma {:induction false} AliveProbe(cfg: SL.Config, decide: Decider<SL.State>, clock: seq<Request>, h: nat, j: nat,
                                      n: nat)
    requires SL.Implements(cfg, decide) && cfg.maxRequests == 2
    requires h < j < |clock| && Alive(cfg, clock, h, j) && n <= j
    ensures LogAfter(decide, Probe(clock, h, j)[..n]) == SL.Stamps(clock[h].now, if n <= h then 0 else 1)
  {
    hide SL.Stamps, SL.Pruned, SL.Implements, History, NextCharge, Asking;
    StampsFew(clock[h].now);
    if n > 0 {
      var reqs := Probe(clock, h, j);
      assert reqs[n - 1].cost == if n - 1 == h then 1 else 0;
      AliveProbe(cfg, decide, clock, h, j, n - 1);
      assert reqs[..n] == reqs[..n - 1] + [reqs[n - 1]];
      LogExtended(cfg, decide, reqs[..n - 1], reqs[n - 1]);
      StampsFew(reqs[n - 1].now);
      PrunedSingleton(clock[h].now, reqs[n - 1].now - cfg.windowMs);
      if n - 1 > h { assert !Prunes(cfg, clock, h, n - 1); }
    }
  }

  lemma BackTooEarly(cfg: SL.Config, decide: Decider<SL.State>, clock: seq<Request>, h: nat, j: nat)
    requires SL.Implements(cfg, decide) && cfg.maxRequests == 2
    requires h < j < |clock| && Alive(cfg, clock, h, j) && clock[j].now < clock[h].now
    ensures !Sorted(LogAfter(decide, Probe(clock, h, j)[..j + 1]))
  {
    var reqs := Probe(clock, h, j);
    AliveProbe(cfg, decide, clock, h, j, j);
    assert reqs[..j + 1] == reqs[..j] + [reqs[j]];
    LogExtended(cfg, decide, reqs[..j], reqs[j]);
    StampsFew(clock[h].now);
    StampsFew(clock[j].now);
    PrunedSingleton(clock[h].now, clock[j].now - cfg.windowMs);
    var log := LogAfter(decide, reqs[..j + 1]);
    assert log[0] == clock[h].now && log[1] == clock[j].now;
  }

  /** After every commit of every run on this clock, the log is oldest first. */
  ghost predicate AlwaysSorted(width: int, clock: seq<Request>) {
    forall cfg: SL.Config, reqs: seq<Request>, n: nat {:trigger SL.Decide(cfg), reqs[..n]} ::
      cfg.windowMs == width && SameClock(reqs, clock) && n <= |reqs| ==> Sorted(LogAfter(SL.Decide(cfg), reqs[..n]))
  }

  lemma SameBackOnlyPast(cfg: SL.Config, clock: seq<Request>, other: SL.Config, reqs: seq<Request>)
    requires other.windowMs == cfg.windowMs && SameClock(reqs, clock) && BackOnlyPast(cfg, clock)
    ensures BackOnlyPast(other, reqs)
  {
    forall h, j | 0 <= h < j < |reqs| && Alive(other, reqs, h, j) ensures reqs[h].now <= reqs[j].now {
      forall i | h < i < j ensures !Prunes(cfg, clock, h, i) { assert !Prunes(other, reqs, h, i); }
      assert Alive(cfg, clock, h, j);
    }
  }

  /** The log is kept oldest first on exactly the clocks that go back behind a reading only once it was pruned. */
  lemma SortedExactly(cfg: SL.Config, clock: seq<Request>)
    ensures AlwaysSorted(cfg.windowMs, clock) <==> BackOnlyPast(cfg, clock)
  {
    if BackOnlyPast(cfg, clock) {
      forall c: SL.Config, reqs: seq<Request>, n: nat
        | c.windowMs == cfg.windowMs && SameClock(reqs, clock) && n <= |reqs|
        ensures Sorted(LogAfter(SL.Decide(c), reqs[..n]))
      {
        SameBackOnlyPast(cfg, clock, c, reqs);
        SortedOn(c, SL.Decide(c), reqs, n);
      }
    } else {
      var h, j :| 0 <= h < j < |clock| && Alive(cfg, clock, h, j) && clock[j].now < clock[h].now;
      var two: SL.Config := SL.Parameters(2, cfg.windowMs);
      forall i | h < i < j ensures !Prunes(two, clock, h, i) { assert !Prunes(cfg, clock, h, i); }
      assert Alive(two, clock, h, j);
      BackTooEarly(two, SL.Decide(two), clock, h, j);
      assert SameClock(Probe(clock, h, j), clock);
    }
  }
}
