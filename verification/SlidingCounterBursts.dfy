/**
 The burst that the sliding window counter lets across a window boundary: how large it can get, and
 for which configurations there is none.
 */
module SlidingCounterBursts {
  import opened Arithmetic
  import opened Limiter
  import opened Runs
  import opened SlidingCounterClocks
  import opened SlidingCounterRuns
  import opened Wrappers

  import SC = SlidingWindowCounter

  // ---- How much a span can admit ----

  /** An aligned window never admits more than the limit. */
  lemma {:induction false} AlignedBound(cfg: SC.Config, decide: Decider<SC.State>, reqs: seq<Request>, w: int)
    requires SC.Implements(cfg, decide) && WindowsInOrder(cfg, reqs)
    ensures AdmittedWhere(decide, reqs, InWindow(cfg, w)) <= cfg.maxRequests
  {
    if reqs != [] {
      var n := |reqs| - 1;
      var front, r := reqs[..n], reqs[n];
      assert reqs == front + [r];
      AlignedBound(cfg, decide, front, w);
      AdmittedExtended(decide, front, r, InWindow(cfg, w));
      if SC.WindowOf(cfg, r.now) == w {
        CommitAligned(cfg, decide, front, r);
      }
    }
  }

  lemma {:induction false} CommitAligned(cfg: SC.Config, decide: Decider<SC.State>, reqs: seq<Request>, r: Request)
    requires SC.Implements(cfg, decide) && WindowsInOrder(cfg, reqs) && EndsByWindow(cfg, reqs, r.now)
    ensures AdmittedWhere(decide, reqs, InWindow(cfg, SC.WindowOf(cfg, r.now))) + NextCharge(decide, reqs, r)
         <= cfg.maxRequests
  {
    CountsAreAdmitted(cfg, decide, reqs, r.now);
    CountsFit(cfg, decide, reqs);
    CommitFits(cfg, decide, Replay(decide, reqs), r);
    AttemptCounts(cfg, decide, Replay(decide, reqs), r.now, r.cost);
  }

  /** What a span that ends at `offset` can admit beyond the limit. */
  function Burst(cfg: SC.Config, offset: nat): nat {
    cfg.maxRequests * offset / cfg.windowSecs
  }

  lemma BurstFits(cfg: SC.Config, offset: nat, extra: nat)
    ensures extra * cfg.windowSecs <= cfg.maxRequests * offset <==> extra <= Burst(cfg, offset)
  {
    QuotientAtLeast(cfg.maxRequests * offset, cfg.windowSecs, extra);
  }

  lemma OverLimit(cfg: SC.Config, offset: nat, admitted: nat)
    requires admitted * cfg.windowSecs <= cfg.maxRequests * (cfg.windowSecs + offset)
    ensures admitted <= cfg.maxRequests + Burst(cfg, offset)
  {
    var m, d := cfg.maxRequests, cfg.windowSecs;
    if admitted > m {
      assert m * (d + offset) == m * d + m * offset;
      assert (admitted - m) * d == admitted * d - m * d;
      BurstFits(cfg, offset, admitted - m);
    }
  }

  /** A window's length admits at most the limit and the burst of the offset it ends at. */
  lemma {:induction false} LimitAndBurst(cfg: SC.Config, decide: Decider<SC.State>, reqs: seq<Request>, last: nat)
    requires SC.Implements(cfg, decide) && SpansKept(cfg, reqs)
    ensures AdmittedWhere(decide, reqs, LastWindow(cfg, last)) <= cfg.maxRequests + Burst(cfg, SC.OffsetOf(cfg, last))
  {
    SpanBound(cfg, decide, reqs, last);
    OverLimit(cfg, SC.OffsetOf(cfg, last), AdmittedWhere(decide, reqs, LastWindow(cfg, last)));
  }

  /** A window's length that is made of whole seconds: its last millisecond ends a second. */
  predicate WholeSeconds(last: nat) {
    last % 1000 == 999
  }

  lemma LastSecondsAligned(cfg: SC.Config, last: nat)
    requires WholeSeconds(last) && SC.OffsetOf(cfg, last) == cfg.windowSecs - 1
    ensures Below(LastWindow(cfg, last), InWindow(cfg, SC.WindowOf(cfg, last)))
  {
    var d, sec := cfg.windowSecs, last / 1000;
    assert sec == d * (sec / d) + (d - 1);
    forall t: nat | LastWindow(cfg, last)(t)
      ensures InWindow(cfg, SC.WindowOf(cfg, last))(t)
    {
      assert sec - d < t / 1000 <= sec;
      assert t / 1000 / d == sec / d by {
        DivMonotone(t / 1000, sec, d);
        QuotientAtLeast(t / 1000, d, sec / d);
      }
    }
  }

  /** A window's length of whole seconds that ends with a window is that window: it has no burst. */
  lemma {:induction false} NoBurstAtTheEnd(cfg: SC.Config, decide: Decider<SC.State>, reqs: seq<Request>, last: nat)
    requires SC.Implements(cfg, decide) && WindowsInOrder(cfg, reqs)
    requires WholeSeconds(last) && SC.OffsetOf(cfg, last) == cfg.windowSecs - 1
    ensures AdmittedWhere(decide, reqs, LastWindow(cfg, last)) <= cfg.maxRequests
  {
    LastSecondsAligned(cfg, last);
    AdmittedMonotone(decide, reqs, LastWindow(cfg, last), InWindow(cfg, SC.WindowOf(cfg, last)));
    AlignedBound(cfg, decide, reqs, SC.WindowOf(cfg, last));
  }

  // ---- And that much is admitted ----

  /** The limit in the last millisecond of a window, then `extra` at `offset` seconds into the next, unit by unit. */
  function BoundaryRun(cfg: SC.Config, offset: nat, extra: nat): seq<Request> {
    Units(cfg.windowSecs * 1000 - 1, cfg.maxRequests) + Units((cfg.windowSecs + offset) * 1000, extra)
  }

  lemma BoundaryWindows(cfg: SC.Config, offset: nat)
    requires offset < cfg.windowSecs
    ensures SC.WindowOf(cfg, cfg.windowSecs * 1000 - 1) == 0
    ensures SC.WindowOf(cfg, (cfg.windowSecs + offset) * 1000) == 1
    ensures SC.OffsetOf(cfg, (cfg.windowSecs + offset) * 1000) == offset
  {
    var d := cfg.windowSecs;
    assert (d * 1000 - 1) / 1000 == d - 1 && (d + offset) * 1000 / 1000 == d + offset;
    assert (d - 1) / d == 0;
    MulCancels(d, 0, (d + offset) / d);
    MulCancels(d, (d + offset) / d, 2);
    assert (d + offset) / d == 1;
  }

  lemma {:induction false} UnitFits(cfg: SC.Config, decide: Decider<SC.State>, reqs: seq<Request>, now: nat)
    requires SC.Implements(cfg, decide)
    requires Estimate(cfg, Charged(View(cfg, decide, reqs, now), 1), now) <= cfg.maxRequests * cfg.windowSecs
    ensures NextCharge(decide, reqs, Request(now, 1)) == 1
    ensures Replay(decide, reqs + [Request(now, 1)]) == Some(Charged(View(cfg, decide, reqs, now), 1))
    ensures View(cfg, decide, reqs + [Request(now, 1)], now) == Charged(View(cfg, decide, reqs, now), 1)
  {
    RunExtended(decide, reqs, Request(now, 1));
    AttemptCounts(cfg, decide, Replay(decide, reqs), now, 1);
  }

  lemma FewerFit(cfg: SC.Config, s: SC.State, now: nat, n: nat)
    ensures Estimate(cfg, Charged(s, n), now) <= Estimate(cfg, Charged(s, n + 1), now)
  {
    MulSuccessor(cfg.windowSecs, s.currCount + n);
  }

  /** As many units as fit together are admitted one by one. */
  lemma {:induction false} UnitsAdmitted(cfg: SC.Config, decide: Decider<SC.State>, reqs: seq<Request>, now: nat,
                                         n: nat, view: SC.State, p: nat -> bool)
    requires SC.Implements(cfg, decide) && view == View(cfg, decide, reqs, now)
    requires Estimate(cfg, Charged(view, n), now) <= cfg.maxRequests * cfg.windowSecs
    ensures View(cfg, decide, reqs + Units(now, n), now) == Charged(view, n)
    ensures n > 0 ==> Replay(decide, reqs + Units(now, n)) == Some(Charged(view, n))
    ensures AdmittedWhere(decide, reqs + Units(now, n), p)
         == AdmittedWhere(decide, reqs, p) + if p(now) then n else 0
  {
    hide SC.Implements, View, Estimate, NextCharge, SC.WindowOf;
    if n == 0 {
      assert reqs + Units(now, n) == reqs;
    } else {
      var front := reqs + Units(now, n - 1);
      assert reqs + Units(now, n) == front + [Request(now, 1)];
      FewerFit(cfg, view, now, n - 1);
      UnitsAdmitted(cfg, decide, reqs, now, n - 1, view, p);
      assert Charged(Charged(view, n - 1), 1) == Charged(view, n);
      UnitFits(cfg, decide, front, now);
      AdmittedExtended(decide, front, Request(now, 1), p);
    }
  }

  /** The counts a full window leaves for the next. */
  lemma FullWindow(cfg: SC.Config, decide: Decider<SC.State>, offset: nat, p: nat -> bool)
    requires SC.Implements(cfg, decide) && offset < cfg.windowSecs && p(cfg.windowSecs * 1000 - 1)
    ensures var first := Units(cfg.windowSecs * 1000 - 1, cfg.maxRequests);
            && AdmittedWhere(decide, first, p) == cfg.maxRequests
            && View(cfg, decide, first, (cfg.windowSecs + offset) * 1000) == SC.State(cfg.maxRequests, 0, 1)
  {
    hide SC.Implements, SC.WindowOf;
    var now := cfg.windowSecs * 1000 - 1;
    BoundaryWindows(cfg, offset);
    UnitsAdmitted(cfg, decide, [], now, cfg.maxRequests, SC.State(0, 0, 0), p);
    assert [] + Units(now, cfg.maxRequests) == Units(now, cfg.maxRequests);
  }

  /** A burst within the bound gets through in full, into any interval that holds both its instants. */
  lemma BurstAdmitted(cfg: SC.Config, decide: Decider<SC.State>, offset: nat, extra: nat, p: nat -> bool)
    requires SC.Implements(cfg, decide) && offset < cfg.windowSecs
    requires extra * cfg.windowSecs <= cfg.maxRequests * offset
    requires p(cfg.windowSecs * 1000 - 1) && p((cfg.windowSecs + offset) * 1000)
    ensures Nondecreasing(BoundaryRun(cfg, offset, extra))
    ensures AdmittedWhere(decide, BoundaryRun(cfg, offset, extra), p) == cfg.maxRequests + extra
  {
    hide SC.WindowOf, SC.OffsetOf, SC.Implements, View, Nondecreasing, Units, AdmittedWhere;
    var m, d := cfg.maxRequests, cfg.windowSecs;
    UnitsInOrder(d * 1000 - 1, m, (d + offset) * 1000, extra);
    FullWindow(cfg, decide, offset, p);
    BoundaryWindows(cfg, offset);
    assert m * (d - offset) == m * d - m * offset;
    UnitsAdmitted(cfg, decide, Units(d * 1000 - 1, m), (d + offset) * 1000, extra, SC.State(m, 0, 1), p);
  }

  /** The bound is attained by a run on a forward clock, at every offset. */
  lemma SpanBoundAttained(cfg: SC.Config, decide: Decider<SC.State>, offset: nat, extra: nat)
    requires SC.Implements(cfg, decide)
    requires offset < cfg.windowSecs && extra * cfg.windowSecs <= cfg.maxRequests * offset
    ensures var run, last := BoundaryRun(cfg, offset, extra), (cfg.windowSecs + offset) * 1000 + 998;
            && Nondecreasing(run) && SC.OffsetOf(cfg, last) == offset
            && AdmittedWhere(decide, run, LastWindow(cfg, last)) == cfg.maxRequests + extra
  {
    var last := (cfg.windowSecs + offset) * 1000 + 998;
    BoundaryWindows(cfg, offset);
    assert last / 1000 == cfg.windowSecs + offset;
    BurstAdmitted(cfg, decide, offset, extra, LastWindow(cfg, last));
  }

  /** In whole seconds too, unless the span ends with a window. */
  lemma WholeSecondsAttained(cfg: SC.Config, decide: Decider<SC.State>, offset: nat, extra: nat)
    requires SC.Implements(cfg, decide)
    requires offset + 1 < cfg.windowSecs && extra * cfg.windowSecs <= cfg.maxRequests * offset
    ensures var run, last := BoundaryRun(cfg, offset, extra), (cfg.windowSecs + offset) * 1000 + 999;
            && Nondecreasing(run) && WholeSeconds(last) && SC.OffsetOf(cfg, last) == offset
            && AdmittedWhere(decide, run, LastWindow(cfg, last)) == cfg.maxRequests + extra
  {
    var last := (cfg.windowSecs + offset) * 1000 + 999;
    BoundaryWindows(cfg, offset);
    assert last / 1000 == cfg.windowSecs + offset;
    BurstAdmitted(cfg, decide, offset, extra, LastWindow(cfg, last));
  }

  // ---- Exactly when there is no burst ----

  /** On a clock that does not go back, no interval of one window's length admits more than the limit. */
  ghost predicate NoBurst(cfg: SC.Config) {
    forall reqs: seq<Request>, last: nat ::
      Nondecreasing(reqs) ==> AdmittedWhere(SC.Decide(cfg), reqs, LastWindow(cfg, last)) <= cfg.maxRequests
  }

  /** The same of intervals made of whole seconds only. */
  ghost predicate NoBurstInSeconds(cfg: SC.Config) {
    forall reqs: seq<Request>, last: nat ::
      Nondecreasing(reqs) && WholeSeconds(last)
      ==> AdmittedWhere(SC.Decide(cfg), reqs, LastWindow(cfg, last)) <= cfg.maxRequests
  }

  lemma SmallBurst(cfg: SC.Config, offset: nat, most: nat)
    requires offset <= most && cfg.maxRequests * most < cfg.windowSecs
    ensures Burst(cfg, offset) == 0
  {
    MulMonotone(cfg.maxRequests, offset, most);
    BurstFits(cfg, offset, 1);
  }

  lemma ForwardKept(cfg: SC.Config, reqs: seq<Request>)
    requires Nondecreasing(reqs)
    ensures WindowsInOrder(cfg, reqs) && SpansKept(cfg, reqs)
  {
    ForwardClockInOrder(cfg, reqs);
    WindowsInOrderAreSafe(cfg, reqs);
  }

  lemma SmallProduct(m: nat, d: nat, less: nat)
    requires d > less > 0
    ensures less == 1 ==> (m * (d - less) < d <==> m <= 1 || d == 1)
    ensures less == 2 ==> (m * (d - less) < d <==> m <= 1 || d == 2 || (m == 2 && d == 3))
  {
    if m >= 2 {
      MulMonotone(d - less, 2, m);
      if m >= 3 { MulMonotone(d - less, 3, m); }
    } else {
      assert m == 0 || m * (d - less) == d - less;
    }
  }

  /**
   The counter has no boundary burst exactly when its weighting cannot let one unit by: when the
   limit is at most one, or the window one second.
   */
  lemma NoBurstExactly(cfg: SC.Config)
    ensures NoBurst(cfg) <==> cfg.maxRequests * (cfg.windowSecs - 1) < cfg.windowSecs
    ensures NoBurst(cfg) <==> cfg.maxRequests <= 1 || cfg.windowSecs == 1
  {
    if cfg.windowSecs > 1 { SmallProduct(cfg.maxRequests, cfg.windowSecs, 1); }
    NoBurstByProduct(cfg);
  }

  lemma NoBurstByProduct(cfg: SC.Config)
    ensures NoBurst(cfg) <==> cfg.maxRequests * (cfg.windowSecs - 1) < cfg.windowSecs
  {
    hide AdmittedWhere, SC.OffsetOf, BoundaryRun, Burst, SpansKept;
    var most := cfg.windowSecs - 1;
    if cfg.maxRequests * most < cfg.windowSecs {
      forall reqs: seq<Request>, last: nat | Nondecreasing(reqs)
        ensures AdmittedWhere(SC.Decide(cfg), reqs, LastWindow(cfg, last)) <= cfg.maxRequests
      {
        ForwardKept(cfg, reqs);
        LimitAndBurst(cfg, SC.Decide(cfg), reqs, last);
        SmallBurst(cfg, SC.OffsetOf(cfg, last), most);
      }
    } else {
      SpanBoundAttained(cfg, SC.Decide(cfg), most, 1);
    }
  }

  lemma {:induction false} WholeSecondsBound(cfg: SC.Config, decide: Decider<SC.State>, reqs: seq<Request>, last: nat)
    requires SC.Implements(cfg, decide) && Nondecreasing(reqs) && WholeSeconds(last)
    requires cfg.maxRequests * (cfg.windowSecs - 2) < cfg.windowSecs
    ensures AdmittedWhere(decide, reqs, LastWindow(cfg, last)) <= cfg.maxRequests
  {
    ForwardKept(cfg, reqs);
    if SC.OffsetOf(cfg, last) == cfg.windowSecs - 1 {
      NoBurstAtTheEnd(cfg, decide, reqs, last);
    } else {
      LimitAndBurst(cfg, decide, reqs, last);
      SmallBurst(cfg, SC.OffsetOf(cfg, last), cfg.windowSecs - 2);
    }
  }

  lemma NegativeMultiple(m: nat, k: int)
    ensures k < 0 ==> m * k <= 0
  {
  }

  /** In whole seconds the same with one second less. */
  lemma NoBurstInSecondsExactly(cfg: SC.Config)
    ensures NoBurstInSeconds(cfg) <==> cfg.maxRequests * (cfg.windowSecs - 2) < cfg.windowSecs
    ensures NoBurstInSeconds(cfg)
       <==> cfg.maxRequests <= 1 || cfg.windowSecs <= 2 || (cfg.maxRequests == 2 && cfg.windowSecs == 3)
  {
    if cfg.windowSecs > 2 { SmallProduct(cfg.maxRequests, cfg.windowSecs, 2); }
    NegativeMultiple(cfg.maxRequests, cfg.windowSecs - 2);
    NoBurstInSecondsByProduct(cfg);
  }

  lemma NoBurstInSecondsByProduct(cfg: SC.Config)
    ensures NoBurstInSeconds(cfg) <==> cfg.maxRequests * (cfg.windowSecs - 2) < cfg.windowSecs
  {
    if cfg.maxRequests * (cfg.windowSecs - 2) < cfg.windowSecs {
      forall reqs: seq<Request>, last: nat | Nondecreasing(reqs) && WholeSeconds(last)
        ensures AdmittedWhere(SC.Decide(cfg), reqs, LastWindow(cfg, last)) <= cfg.maxRequests
      {
        WholeSecondsBound(cfg, SC.Decide(cfg), reqs, last);
      }
    } else {
      assert cfg.windowSecs >= 2 by { NegativeMultiple(cfg.maxRequests, cfg.windowSecs - 2); }
      WholeSecondsAttained(cfg, SC.Decide(cfg), cfg.windowSecs - 2, 1);
    }
  }
}
