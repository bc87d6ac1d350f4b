/** What the fixed window counter promises over whole runs of commits. */
module FixedWindowRuns {
  import opened Arithmetic
  import opened Wrappers
  import opened Limiter
  import opened Runs
  import FW = FixedWindow

  function InWindow(cfg: FW.Config, w: nat): nat -> bool {
    (now: nat) => FW.WindowOf(cfg, now) == w
  }

  function InWindows(cfg: FW.Config, first: nat, last: int): nat -> bool {
    (now: nat) => first <= FW.WindowOf(cfg, now) <= last
  }

  /** The count the next commit at `now` would start from. */
  function CountAfter(cfg: FW.Config, decide: Decider<FW.State>, reqs: seq<Request>, now: nat): nat {
    FW.CountAt(cfg, FW.Found(cfg, Replay(decide, reqs), now), now)
  }

  lemma AttemptCounts(cfg: FW.Config, decide: Decider<FW.State>, stored: Option<FW.State>, now: nat, cost: U32)
    requires FW.Implements(cfg, decide)
    ensures var v, count := decide(stored, now, cost), FW.CountAt(cfg, FW.Found(cfg, stored, now), now);
            && (v.decision.allowed <==> count + cost <= cfg.maxRequests)
            && v.state == FW.State(count + Charge(v.decision, cost), FW.WindowOf(cfg, now))
  {
    var _ := FW.Attempt(cfg, stored, now, cost);
  }

  lemma {:induction false} CountExtended(cfg: FW.Config, decide: Decider<FW.State>, reqs: seq<Request>, r: Request)
    requires FW.Implements(cfg, decide)
    ensures var count, charge := CountAfter(cfg, decide, reqs, r.now), NextCharge(decide, reqs, r);
            && charge == (if count + r.cost <= cfg.maxRequests then r.cost else 0)
            && Replay(decide, reqs + [r]) == Some(FW.State(count + charge, FW.WindowOf(cfg, r.now)))
  {
    RunExtended(decide, reqs, r);
    AttemptCounts(cfg, decide, Replay(decide, reqs), r.now, r.cost);
  }

  /** Commit `i` left the window that commits `h` and `j` share. */
  predicate Revisits(cfg: FW.Config, reqs: seq<Request>, h: nat, i: nat, j: nat)
    requires h < i < j < |reqs|
  {
    FW.WindowOf(cfg, reqs[h].now) == FW.WindowOf(cfg, reqs[j].now) != FW.WindowOf(cfg, reqs[i].now)
  }

  /** No window is entered again after it was left. */
  ghost predicate NeverRevisits(cfg: FW.Config, reqs: seq<Request>) {
    forall h, i, j :: 0 <= h < i < j < |reqs| ==> !Revisits(cfg, reqs, h, i, j)
  }

  lemma NeverRevisitsBefore(cfg: FW.Config, reqs: seq<Request>, n: nat)
    requires n <= |reqs| && NeverRevisits(cfg, reqs)
    ensures NeverRevisits(cfg, reqs[..n])
  {
    forall h, i, j | 0 <= h < i < j < n
      ensures !Revisits(cfg, reqs[..n], h, i, j)
    {
      assert !Revisits(cfg, reqs, h, i, j);
    }
  }

  /** A commit that opens a window finds nothing admitted in it before. */
  lemma NewWindowIsEmpty(cfg: FW.Config, reqs: seq<Request>, n: nat)
    requires 0 < n < |reqs| && NeverRevisits(cfg, reqs)
    requires FW.WindowOf(cfg, reqs[n - 1].now) != FW.WindowOf(cfg, reqs[n].now)
    ensures NoneIn(reqs[..n], InWindow(cfg, FW.WindowOf(cfg, reqs[n].now)))
  {
    forall k | 0 <= k < n
      ensures !InWindow(cfg, FW.WindowOf(cfg, reqs[n].now))(reqs[..n][k].now)
    {
      if k < n - 1 { assert !Revisits(cfg, reqs, k, n - 1, n); }
    }
  }

  /** The count a commit starts from is what its window has admitted so far. */
  lemma {:induction false} CountIsAdmitted(cfg: FW.Config, decide: Decider<FW.State>, reqs: seq<Request>, n: nat)
    requires FW.Implements(cfg, decide) && NeverRevisits(cfg, reqs) && n < |reqs|
    ensures CountAfter(cfg, decide, reqs[..n], reqs[n].now)
         == AdmittedWhere(decide, reqs[..n], InWindow(cfg, FW.WindowOf(cfg, reqs[n].now)))
  {
    if n > 0 {
      var front, r := reqs[..n - 1], reqs[n - 1];
      assert reqs[..n] == front + [r];
      CountIsAdmitted(cfg, decide, reqs, n - 1);
      CountExtended(cfg, decide, front, r);
      var p := InWindow(cfg, FW.WindowOf(cfg, reqs[n].now));
      AdmittedExtended(decide, front, r, p);
      if !p(r.now) {
        NewWindowIsEmpty(cfg, reqs, n);
        AdmittedNone(decide, reqs[..n], p);
      }
    }
  }

  /** Every window stays within the limit. */
  ghost predicate WindowsBounded(cfg: FW.Config, decide: Decider<FW.State>, reqs: seq<Request>) {
    forall w: nat :: AdmittedWhere(decide, reqs, InWindow(cfg, w)) <= cfg.maxRequests
  }

  lemma {:induction false} SafeClockBound(cfg: FW.Config, decide: Decider<FW.State>, reqs: seq<Request>, w: nat)
    requires FW.Implements(cfg, decide) && NeverRevisits(cfg, reqs)
    ensures AdmittedWhere(decide, reqs, InWindow(cfg, w)) <= cfg.maxRequests
  {
    if reqs != [] {
      var n := |reqs| - 1;
      var front, r := reqs[..n], reqs[n];
      assert reqs == front + [r];
      NeverRevisitsBefore(cfg, reqs, n);
      SafeClockBound(cfg, decide, front, w);
      AdmittedExtended(decide, front, r, InWindow(cfg, w));
      CountExtended(cfg, decide, front, r);
      CountIsAdmitted(cfg, decide, reqs, n);
    }
  }

  /** What was charged since the clock last read a window other than `w`. */
  function SinceEntered(cfg: FW.Config, decide: Decider<FW.State>, reqs: seq<Request>, w: nat): nat {
    if reqs == [] || FW.WindowOf(cfg, reqs[|reqs| - 1].now) != w then 0 else
    var n := |reqs| - 1;
    SinceEntered(cfg, decide, reqs[..n], w) + NextCharge(decide, reqs[..n], reqs[n])
  }

  /** On any clock, a commit counts what was charged since its window was last entered. */
  lemma {:induction false} CountSinceEntered(cfg: FW.Config, decide: Decider<FW.State>, reqs: seq<Request>, now: nat)
    requires FW.Implements(cfg, decide)
    ensures CountAfter(cfg, decide, reqs, now) == SinceEntered(cfg, decide, reqs, FW.WindowOf(cfg, now))
  {
    if reqs != [] {
      var n := |reqs| - 1;
      assert reqs == reqs[..n] + [reqs[n]];
      CountSinceEntered(cfg, decide, reqs[..n], reqs[n].now);
      CountExtended(cfg, decide, reqs[..n], reqs[n]);
    }
  }

  /** A decision counts exactly the cost its own window has admitted so far. */
  lemma {:induction false} AdmitsExactlyTheWindow(cfg: FW.Config, decide: Decider<FW.State>, reqs: seq<Request>, n: nat)
    requires FW.Implements(cfg, decide) && NeverRevisits(cfg, reqs) && n < |reqs|
    ensures Decisions(decide, reqs)[n].allowed
       <==> AdmittedWhere(decide, reqs[..n], InWindow(cfg, FW.WindowOf(cfg, reqs[n].now))) + reqs[n].cost
            <= cfg.maxRequests
  {
    DecisionAt(decide, reqs, n);
    CountIsAdmitted(cfg, decide, reqs, n);
    AttemptCounts(cfg, decide, Replay(decide, reqs[..n]), reqs[n].now, reqs[n].cost);
  }

  // ---- The condition is exact: a clock that revisits a window betrays some run ----

  /** What the probe has stored and admitted in window `w` after `n` commits, if commit `i` is outside `w`. */
  ghost predicate ProbeState(stored: Option<FW.State>, w: nat, admitted: nat, h: nat, i: nat, j: nat, n: nat) {
    && (n <= h ==> stored.Some? ==> stored.value.count == 0)
    && (h < n <= j ==> stored.Some? && stored.value.count <= if stored.value.windowId == w then 1 else 0)
    && (i < n <= j ==> stored.Some? && stored.value.count == 0)
    && admitted == (if n <= h then 0 else if n <= j then 1 else 2)
  }

  lemma {:induction false} ProbeRun(cfg: FW.Config, decide: Decider<FW.State>, reqs: seq<Request>, h: nat, i: nat,
                                    j: nat, n: nat)
    requires FW.Implements(cfg, decide) && cfg.maxRequests == 1 && OneUnitAt(reqs, h, j)
    requires h < i < j < |reqs| && Revisits(cfg, reqs, h, i, j) && n <= |reqs|
    ensures var run, w := reqs[..n], FW.WindowOf(cfg, reqs[h].now);
            ProbeState(Replay(decide, run), w, AdmittedWhere(decide, run, InWindow(cfg, w)), h, i, j, n)
  {
    if n > 0 {
      ProbeRun(cfg, decide, reqs, h, i, j, n - 1);
      var front, r := reqs[..n - 1], reqs[n - 1];
      assert reqs[..n] == front + [r];
      CountExtended(cfg, decide, front, r);
      AdmittedExtended(decide, front, r, InWindow(cfg, FW.WindowOf(cfg, reqs[h].now)));
    }
  }

  ghost predicate AlwaysBounded(windowSecs: nat, clock: seq<Request>) {
    forall cfg: FW.Config, reqs: seq<Request> :: cfg.windowSecs == windowSecs && SameClock(reqs, clock)
      ==> WindowsBounded(cfg, FW.Decide(cfg), reqs)
  }

  /** Every window stays within its limit on exactly the clocks that never re-enter a window they left. */
  lemma BoundedExactly(cfg: FW.Config, clock: seq<Request>)
    ensures AlwaysBounded(cfg.windowSecs, clock) <==> NeverRevisits(cfg, clock)
  {
    if NeverRevisits(cfg, clock) {
      forall c: FW.Config, reqs: seq<Request> | c.windowSecs == cfg.windowSecs && SameClock(reqs, clock)
        ensures WindowsBounded(c, FW.Decide(c), reqs)
      {
        forall h, i, j | 0 <= h < i < j < |reqs|
          ensures !Revisits(c, reqs, h, i, j)
        {
          assert !Revisits(cfg, clock, h, i, j);
        }
        forall w: nat
          ensures AdmittedWhere(FW.Decide(c), reqs, InWindow(c, w)) <= c.maxRequests
        {
          SafeClockBound(c, FW.Decide(c), reqs, w);
        }
      }
    } else {
      var h, i, j :| 0 <= h < i < j < |clock| && Revisits(cfg, clock, h, i, j);
      var one: FW.Config := FW.Parameters(1, cfg.windowSecs);
      assert Revisits(one, clock, h, i, j);
      var reqs, w := Probe(clock, h, j), FW.WindowOf(one, clock[h].now);
      assert Revisits(one, reqs, h, i, j);
      ProbeRun(one, FW.Decide(one), reqs, h, i, j, |clock|);
      assert reqs[..|clock|] == reqs;
      assert AdmittedWhere(FW.Decide(one), reqs, InWindow(one, w)) == 2;
      assert SameClock(reqs, clock);
    }
  }

  /** Clock readings that never go backwards never revisit a window. */
  lemma ForwardClockIsSafe(cfg: FW.Config, reqs: seq<Request>)
    requires Nondecreasing(reqs)
    ensures NeverRevisits(cfg, reqs)
  {
    forall h, i, j | 0 <= h < i < j < |reqs|
      ensures !Revisits(cfg, reqs, h, i, j)
    {
      LaterWindow(cfg, reqs[h].now, reqs[i].now);
      LaterWindow(cfg, reqs[i].now, reqs[j].now);
    }
  }

  // ---- Spans of time ----

  lemma {:induction false} WindowsAddUp(cfg: FW.Config, decide: Decider<FW.State>, reqs: seq<Request>, first: nat,
                                        last: int)
    requires FW.Implements(cfg, decide) && NeverRevisits(cfg, reqs)
    requires first - 1 <= last
    ensures AdmittedWhere(decide, reqs, InWindows(cfg, first, last)) <= cfg.maxRequests * (last - first + 1)
    decreases last - first
  {
    if last < first {
      assert NoneIn(reqs, InWindows(cfg, first, last));
      AdmittedNone(decide, reqs, InWindows(cfg, first, last));
    } else {
      WindowsAddUp(cfg, decide, reqs, first, last - 1);
      SafeClockBound(cfg, decide, reqs, last);
      assert Covers(InWindows(cfg, first, last), InWindows(cfg, first, last - 1), InWindow(cfg, last));
      AdmittedSplits(decide, reqs, InWindows(cfg, first, last), InWindows(cfg, first, last - 1), InWindow(cfg, last));
      MulSuccessor(cfg.maxRequests, last - first);
    }
  }

  /** Any interval of time admits at most the limit times the number of aligned windows it touches. */
  lemma {:induction false} SpanBound(cfg: FW.Config, decide: Decider<FW.State>, reqs: seq<Request>, lo: nat, hi: nat)
    requires FW.Implements(cfg, decide) && NeverRevisits(cfg, reqs) && lo <= hi
    ensures AdmittedWhere(decide, reqs, InMs(lo, hi))
         <= cfg.maxRequests * (FW.WindowOf(cfg, hi) - FW.WindowOf(cfg, lo) + 1)
  {
    var first, last := FW.WindowOf(cfg, lo), FW.WindowOf(cfg, hi);
    LaterWindow(cfg, lo, hi);
    WindowsAddUp(cfg, decide, reqs, first, last);
    forall t: nat | InMs(lo, hi)(t)
      ensures InWindows(cfg, first, last)(t)
    {
      LaterWindow(cfg, lo, t);
      LaterWindow(cfg, t, hi);
    }
    AdmittedMonotone(decide, reqs, InMs(lo, hi), InWindows(cfg, first, last));
  }

  lemma LaterWindow(cfg: FW.Config, now: nat, later: nat)
    requires now <= later
    ensures FW.WindowOf(cfg, now) <= FW.WindowOf(cfg, later)
  {
    DivMonotone(now / 1000, later / 1000, cfg.windowSecs);
  }

  /** So a window's length, wherever it starts, admits at most twice the limit. */
  lemma {:induction false} TwiceTheLimit(cfg: FW.Config, decide: Decider<FW.State>, reqs: seq<Request>, last: nat)
    requires FW.Implements(cfg, decide) && NeverRevisits(cfg, reqs)
    ensures AdmittedWhere(decide, reqs, InMs(last - cfg.windowSecs * 1000 + 1, last)) <= 2 * cfg.maxRequests
  {
    var lo := SaturatingSub(last + 1, cfg.windowSecs * 1000);
    SpanBound(cfg, decide, reqs, lo, last);
    assert Below(InMs(last - cfg.windowSecs * 1000 + 1, last), InMs(lo, last));
    AdmittedMonotone(decide, reqs, InMs(last - cfg.windowSecs * 1000 + 1, last), InMs(lo, last));
    AdjacentQuotients(cfg.windowSecs, lo / 1000, last / 1000);
    MulMonotone(cfg.maxRequests, FW.WindowOf(cfg, last) - FW.WindowOf(cfg, lo) + 1, 2);
  }

  /** The burst at a boundary: the limit in the last millisecond of a window, and again in the next, unit by unit. */
  function BoundaryRun(cfg: FW.Config): seq<Request> {
    Units(cfg.windowSecs * 1000 - 1, cfg.maxRequests) + Units(cfg.windowSecs * 1000, cfg.maxRequests)
  }

  lemma BoundaryWindows(cfg: FW.Config)
    ensures FW.WindowOf(cfg, cfg.windowSecs * 1000 - 1) == 0 && FW.WindowOf(cfg, cfg.windowSecs * 1000) == 1
  {
    var d := cfg.windowSecs;
    assert (d * 1000 - 1) / 1000 == d - 1 && (d - 1) / d == 0 && d / d == 1;
  }

  /** As many units as fit together are admitted one by one. */
  lemma {:induction false} UnitsAdmitted(cfg: FW.Config, decide: Decider<FW.State>, reqs: seq<Request>, now: nat,
                                         n: nat, p: nat -> bool)
    requires FW.Implements(cfg, decide) && CountAfter(cfg, decide, reqs, now) + n <= cfg.maxRequests
    ensures CountAfter(cfg, decide, reqs + Units(now, n), now) == CountAfter(cfg, decide, reqs, now) + n
    ensures n > 0 ==> Replay(decide, reqs + Units(now, n)).Some?
                      && Replay(decide, reqs + Units(now, n)).value.windowId == FW.WindowOf(cfg, now)
    ensures AdmittedWhere(decide, reqs + Units(now, n), p)
         == AdmittedWhere(decide, reqs, p) + if p(now) then n else 0
  {
    if n == 0 {
      assert reqs + Units(now, n) == reqs;
    } else {
      var front := reqs + Units(now, n - 1);
      assert reqs + Units(now, n) == front + [Request(now, 1)];
      UnitsAdmitted(cfg, decide, reqs, now, n - 1, p);
      CountExtended(cfg, decide, front, Request(now, 1));
      AdmittedExtended(decide, front, Request(now, 1), p);
    }
  }

  /** A full window leaves nothing to the next. */
  lemma {:induction false} FullWindow(cfg: FW.Config, decide: Decider<FW.State>, now: nat, later: nat, p: nat -> bool)
    requires FW.Implements(cfg, decide) && p(now) && FW.WindowOf(cfg, now) != FW.WindowOf(cfg, later)
    ensures AdmittedWhere(decide, Units(now, cfg.maxRequests), p) == cfg.maxRequests
    ensures CountAfter(cfg, decide, Units(now, cfg.maxRequests), later) == 0
  {
    hide FW.WindowOf, FW.Implements;
    UnitsAdmitted(cfg, decide, [], now, cfg.maxRequests, p);
    assert [] + Units(now, cfg.maxRequests) == Units(now, cfg.maxRequests);
  }

  /** And twice the limit is attained, within two milliseconds, at the boundary between two windows. */
  lemma TwiceTheLimitAttained(cfg: FW.Config, decide: Decider<FW.State>)
    requires FW.Implements(cfg, decide)
    ensures Nondecreasing(BoundaryRun(cfg))
    ensures AdmittedWhere(decide, BoundaryRun(cfg), InMs(cfg.windowSecs * 1000 - 1, cfg.windowSecs * 1000))
         == 2 * cfg.maxRequests
  {
    hide FW.WindowOf, FW.Implements, Nondecreasing, Units, AdmittedWhere, CountAfter;
    var now, p := cfg.windowSecs * 1000, InMs(cfg.windowSecs * 1000 - 1, cfg.windowSecs * 1000);
    BoundaryWindows(cfg);
    UnitsInOrder(now - 1, cfg.maxRequests, now, cfg.maxRequests);
    FullWindow(cfg, decide, now - 1, now, p);
    UnitsAdmitted(cfg, decide, Units(now - 1, cfg.maxRequests), now, cfg.maxRequests, p);
  }

  // ---- The retry hint ----

  lemma WindowStarts(cfg: FW.Config, now: nat, w: nat)
    ensures FW.WindowOf(cfg, now) >= w <==> now / 1000 >= w * cfg.windowSecs
  {
    QuotientAtLeast(now / 1000, cfg.windowSecs, w);
  }

  lemma HintIsWindowEnd(cfg: FW.Config, s: FW.State, now: nat, cost: U32)
    requires !FW.Step(cfg, s, now, cost).decision.allowed
    ensures FW.Step(cfg, s, now, cost).decision.retryAfterMs
         == ((FW.WindowOf(cfg, now) + 1) * cfg.windowSecs - now / 1000) * 1000
  {
    WindowStarts(cfg, now, FW.WindowOf(cfg, now) + 1);
  }

  /**
   The retry hint is exact at the resolution of the clock: repeated at any later time, with
   nothing admitted in between, the request is admitted if and only if the hinted number of whole
   seconds has passed and the window can hold its cost at all. For any cost it leads from the
   start of the second to the first millisecond of the next window.
   */
  lemma RetryHintExact(cfg: FW.Config, s: FW.State, now: nat, cost: U32, later: nat)
    requires !FW.Step(cfg, s, now, cost).decision.allowed && now <= later
    ensures var v := FW.Step(cfg, s, now, cost);
            FW.Step(cfg, v.state, later, cost).decision.allowed
            <==> cost <= cfg.maxRequests && later / 1000 - now / 1000 >= v.decision.retryAfterMs / 1000
    ensures var hinted := now / 1000 * 1000 + FW.Step(cfg, s, now, cost).decision.retryAfterMs;
            && hinted > now
            && FW.WindowOf(cfg, hinted) == FW.WindowOf(cfg, now) + 1
            && FW.WindowOf(cfg, hinted - 1) == FW.WindowOf(cfg, now)
  {
    HintIsWindowEnd(cfg, s, now, cost);
    WindowStarts(cfg, later, FW.WindowOf(cfg, now) + 1);
    DivMonotone(now / 1000, later / 1000, cfg.windowSecs);
    NextWindowStarts(cfg, now);
  }

  lemma NextWindowStarts(cfg: FW.Config, now: nat)
    ensures var next := (FW.WindowOf(cfg, now) + 1) * cfg.windowSecs * 1000;
            && next > now
            && FW.WindowOf(cfg, next) == FW.WindowOf(cfg, now) + 1
            && FW.WindowOf(cfg, next - 1) == FW.WindowOf(cfg, now)
  {
    var w := FW.WindowOf(cfg, now);
    var start := (w + 1) * cfg.windowSecs;
    assert start * 1000 / 1000 == start && (start * 1000 - 1) / 1000 == start - 1;
    WindowStarts(cfg, now, w);
    WindowStarts(cfg, now, w + 1);
    WindowStarts(cfg, start * 1000, w + 1);
    WindowStarts(cfg, start * 1000, w + 2);
    WindowStarts(cfg, start * 1000 - 1, w);
    WindowStarts(cfg, start * 1000 - 1, w + 1);
  }
}
