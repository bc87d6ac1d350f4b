/** What the sliding window counter promises over whole runs of commits. */
module SlidingCounterRuns {
  import opened Arithmetic
  import opened Wrappers
  import opened Limiter
  import opened Runs
  import SC = SlidingWindowCounter

  function InWindow(cfg: SC.Config, w: int): nat -> bool {
    (now: nat) => SC.WindowOf(cfg, now) == w
  }

  /** The weighted estimate, `offset` seconds into the window, times the window length. */
  function Scaled(cfg: SC.Config, prev: nat, curr: nat, offset: nat): int {
    prev * (cfg.windowSecs - offset) + curr * cfg.windowSecs
  }

  /** The estimate a check at `now` would find, times the window length. */
  function Estimate(cfg: SC.Config, s: SC.State, now: nat): int {
    Scaled(cfg, s.prevCount, s.currCount, SC.OffsetOf(cfg, now))
  }

  // ---- From the real estimate of the code to integers ----

  lemma WeightTimesWindow(prev: real, curr: real, offset: real, width: real)
    requires width > 0.0
    ensures (prev * (1.0 - offset / width) + curr) * width == prev * (width - offset) + curr * width
  {
    var f := offset / width;
    assert f * width == offset;
    assert (prev * (1.0 - f)) * width == prev * (width - f * width);
  }

  lemma OrderTimesWindow(x: real, y: real, width: real)
    requires width > 0.0
    ensures x <= y <==> x * width <= y * width
  {
  }

  lemma ProductAsReal(a: int, b: int)
    ensures (a * b) as real == a as real * b as real
  {
  }

  lemma ScaledAsReal(cfg: SC.Config, prev: nat, curr: nat, offset: nat)
    requires offset < cfg.windowSecs
    ensures Scaled(cfg, prev, curr, offset) as real
         == prev as real * (cfg.windowSecs as real - offset as real) + curr as real * cfg.windowSecs as real
  {
    ProductAsReal(prev, cfg.windowSecs - offset);
    ProductAsReal(curr, cfg.windowSecs);
  }

  /** The comparison the code makes on its fractional estimate, on integers. */
  lemma FitsExactly(cfg: SC.Config, s: SC.State, offset: nat, cost: nat)
    requires offset < cfg.windowSecs
    ensures SC.Weighted(cfg, s, offset) + cost as real <= cfg.maxRequests as real
       <==> Scaled(cfg, s.prevCount, s.currCount + cost, offset) <= cfg.maxRequests * cfg.windowSecs
  {
    var width, weighted := cfg.windowSecs as real, SC.Weighted(cfg, s, offset) + cost as real;
    OrderTimesWindow(weighted, cfg.maxRequests as real, width);
    WeightTimesWindow(s.prevCount as real, (s.currCount + cost) as real, offset as real, width);
    ScaledAsReal(cfg, s.prevCount, s.currCount + cost, offset);
    ProductAsReal(cfg.maxRequests, cfg.windowSecs);
  }

  // ---- One commit ----

  /** What a check at `now` starts from: the stored counts, rolled on to its window. */
  function View(cfg: SC.Config, decide: Decider<SC.State>, reqs: seq<Request>, now: nat): SC.State {
    SC.Rolled(cfg, SC.Found(cfg, Replay(decide, reqs), now), now)
  }

  function Charged(s: SC.State, charge: nat): SC.State {
    s.(currCount := s.currCount + charge)
  }

  lemma AttemptCounts(cfg: SC.Config, decide: Decider<SC.State>, stored: Option<SC.State>, now: nat, cost: U32)
    requires SC.Implements(cfg, decide)
    ensures var v, view := decide(stored, now, cost), SC.Rolled(cfg, SC.Found(cfg, stored, now), now);
            && (v.decision.allowed
                <==> Estimate(cfg, Charged(view, cost), now) <= cfg.maxRequests * cfg.windowSecs)
            && v.state == Charged(view, Charge(v.decision, cost))
            && view.currWindowId == SC.WindowOf(cfg, now)
  {
    var _ := SC.Attempt(cfg, stored, now, cost);
    FitsExactly(cfg, SC.Rolled(cfg, SC.Found(cfg, stored, now), now), SC.OffsetOf(cfg, now), cost);
  }

  lemma ViewExtended(cfg: SC.Config, decide: Decider<SC.State>, reqs: seq<Request>, r: Request, now: nat)
    requires SC.Implements(cfg, decide)
    ensures View(cfg, decide, reqs + [r], now)
         == SC.Rolled(cfg, Charged(View(cfg, decide, reqs, r.now), NextCharge(decide, reqs, r)), now)
  {
    RunExtended(decide, reqs, r);
    AttemptCounts(cfg, decide, Replay(decide, reqs), r.now, r.cost);
  }

  // ---- The estimate never rises by waiting ----

  lemma LaterWindow(cfg: SC.Config, now: nat, later: nat)
    requires now <= later
    ensures SC.WindowOf(cfg, now) <= SC.WindowOf(cfg, later)
    ensures SC.WindowOf(cfg, now) == SC.WindowOf(cfg, later) ==> SC.OffsetOf(cfg, now) <= SC.OffsetOf(cfg, later)
  {
    DivMonotone(now / 1000, later / 1000, cfg.windowSecs);
  }

  lemma ScaledBounds(cfg: SC.Config, prev: nat, curr: nat, offset: nat, later: nat)
    requires offset < cfg.windowSecs && later < cfg.windowSecs
    ensures 0 <= curr * cfg.windowSecs <= Scaled(cfg, prev, curr, offset)
    ensures Scaled(cfg, curr, 0, later) <= curr * cfg.windowSecs
    ensures offset <= later ==> Scaled(cfg, prev, curr, later) <= Scaled(cfg, prev, curr, offset)
    ensures Scaled(cfg, 0, 0, later) == 0
  {
    MulMonotone(prev, 0, cfg.windowSecs - offset);
    MulMonotone(curr, cfg.windowSecs - later, cfg.windowSecs);
    if offset <= later {
      MulMonotone(prev, cfg.windowSecs - later, cfg.windowSecs - offset);
    }
  }

  /** Waiting, within the window or across any number of windows, never raises the estimate. */
  lemma EstimateNeverRises(cfg: SC.Config, s: SC.State, now: nat, later: nat)
    requires s.currWindowId == SC.WindowOf(cfg, now) && now <= later
    ensures Estimate(cfg, SC.Rolled(cfg, s, later), later) <= Estimate(cfg, s, now)
  {
    LaterWindow(cfg, now, later);
    ScaledBounds(cfg, s.prevCount, s.currCount, SC.OffsetOf(cfg, now), SC.OffsetOf(cfg, later));
  }

  // ---- Whole runs ----

  /** Nothing in a run comes from after `now`. */
  predicate EndsBy(reqs: seq<Request>, now: nat) {
    reqs != [] ==> reqs[|reqs| - 1].now <= now
  }

  /** What a check at `now` starts from is within the limit: the estimate, and each count. */
  ghost predicate Bounded(cfg: SC.Config, view: SC.State, now: nat) {
    && Estimate(cfg, view, now) <= cfg.maxRequests * cfg.windowSecs
    && view.prevCount <= cfg.maxRequests && view.currCount <= cfg.maxRequests
    && view.currWindowId == SC.WindowOf(cfg, now)
  }

  lemma BoundedFresh(cfg: SC.Config, now: nat)
    ensures Bounded(cfg, SC.Rolled(cfg, SC.Fresh(cfg, now), now), now)
  {
    MulMonotone(cfg.windowSecs, 0, cfg.maxRequests);
  }

  lemma CommitKeepsBounded(cfg: SC.Config, decide: Decider<SC.State>, stored: Option<SC.State>, r: Request)
    requires SC.Implements(cfg, decide)
    requires Bounded(cfg, SC.Rolled(cfg, SC.Found(cfg, stored, r.now), r.now), r.now)
    ensures Bounded(cfg, decide(stored, r.now, r.cost).state, r.now)
  {
    AttemptCounts(cfg, decide, stored, r.now, r.cost);
    CountWithinLimit(cfg, decide(stored, r.now, r.cost).state, r.now);
  }

  lemma WaitingKeepsBounded(cfg: SC.Config, s: SC.State, now: nat, later: nat)
    requires Bounded(cfg, s, now) && now <= later
    ensures Bounded(cfg, SC.Rolled(cfg, s, later), later)
  {
    EstimateNeverRises(cfg, s, now, later);
  }

  /** The estimate stays within the limit at every instant from the last commit on, and so does each count. */
  lemma {:induction false} EstimateBounded(cfg: SC.Config, decide: Decider<SC.State>, reqs: seq<Request>, now: nat)
    requires SC.Implements(cfg, decide) && Nondecreasing(reqs) && EndsBy(reqs, now)
    ensures Bounded(cfg, View(cfg, decide, reqs, now), now)
  {
    if reqs == [] {
      BoundedFresh(cfg, now);
    } else {
      var n := |reqs| - 1;
      EstimateBounded(cfg, decide, reqs[..n], reqs[n].now);
      CommitKeepsBounded(cfg, decide, Replay(decide, reqs[..n]), reqs[n]);
      WaitingKeepsBounded(cfg, Replay(decide, reqs).value, reqs[n].now, now);
    }
  }

  lemma CountWithinLimit(cfg: SC.Config, s: SC.State, now: nat)
    requires Estimate(cfg, s, now) <= cfg.maxRequests * cfg.windowSecs
    ensures s.currCount <= cfg.maxRequests
  {
    ScaledBounds(cfg, s.prevCount, s.currCount, SC.OffsetOf(cfg, now), 0);
    if s.currCount > cfg.maxRequests {
      MulMonotone(cfg.windowSecs, cfg.maxRequests + 1, s.currCount);
    }
  }

  /** No reading goes back into an earlier window. */
  predicate WindowsInOrder(cfg: SC.Config, reqs: seq<Request>) {
    forall i, j :: 0 <= i < j < |reqs| ==> SC.WindowOf(cfg, reqs[i].now) <= SC.WindowOf(cfg, reqs[j].now)
  }

  lemma ForwardClockInOrder(cfg: SC.Config, reqs: seq<Request>)
    requires Nondecreasing(reqs)
    ensures WindowsInOrder(cfg, reqs)
  {
    forall i, j | 0 <= i < j < |reqs| ensures SC.WindowOf(cfg, reqs[i].now) <= SC.WindowOf(cfg, reqs[j].now) {
      LaterWindow(cfg, reqs[i].now, reqs[j].now);
    }
  }

  /** Nothing in a run comes from a window after that of `now`. */
  predicate EndsByWindow(cfg: SC.Config, reqs: seq<Request>, now: nat) {
    reqs != [] ==> SC.WindowOf(cfg, reqs[|reqs| - 1].now) <= SC.WindowOf(cfg, now)
  }

  lemma NoneLater(cfg: SC.Config, reqs: seq<Request>, w: int)
    requires WindowsInOrder(cfg, reqs)
    requires reqs != [] ==> SC.WindowOf(cfg, reqs[|reqs| - 1].now) < w
    ensures NoneIn(reqs, InWindow(cfg, w))
  {
    forall k | 0 <= k < |reqs|
      ensures !InWindow(cfg, w)(reqs[k].now)
    {
      if k < |reqs| - 1 { assert SC.WindowOf(cfg, reqs[k].now) <= SC.WindowOf(cfg, reqs[|reqs| - 1].now); }
    }
  }

  /** What the run has admitted in window `w`. */
  function Admitted(cfg: SC.Config, decide: Decider<SC.State>, reqs: seq<Request>, w: int): nat {
    AdmittedWhere(decide, reqs, InWindow(cfg, w))
  }

  /** The two counts a check starts from are what its window and the one before have admitted. */
  lemma {:induction false} CountsAreAdmitted(cfg: SC.Config, decide: Decider<SC.State>, reqs: seq<Request>, now: nat)
    requires SC.Implements(cfg, decide) && WindowsInOrder(cfg, reqs) && EndsByWindow(cfg, reqs, now)
    ensures var view := View(cfg, decide, reqs, now);
            CountsAdmitted(cfg, decide, reqs, view) && view.currWindowId == SC.WindowOf(cfg, now)
  {
    if reqs != [] {
      var n := |reqs| - 1;
      var front, r := reqs[..n], reqs[n];
      assert reqs == front + [r];
      var s := Charged(View(cfg, decide, front, r.now), NextCharge(decide, front, r));
      assert CountsAdmitted(cfg, decide, reqs, s) && s.currWindowId == SC.WindowOf(cfg, r.now) by {
        CountsAreAdmitted(cfg, decide, front, r.now);
        ChargedAdmitted(cfg, decide, front, r, View(cfg, decide, front, r.now));
      }
      assert View(cfg, decide, reqs, now) == SC.Rolled(cfg, s, now) by {
        ViewExtended(cfg, decide, front, r, now);
      }
      RolledAdmitted(cfg, decide, reqs, s, now);
    } else {
      AdmittedNone(decide, [], InWindow(cfg, SC.WindowOf(cfg, now)));
    }
  }

  /** The state's counts are what its window, and the one before, have admitted. */
  ghost predicate CountsAdmitted(cfg: SC.Config, decide: Decider<SC.State>, reqs: seq<Request>, s: SC.State) {
    && s.currCount == Admitted(cfg, decide, reqs, s.currWindowId)
    && s.prevCount == Admitted(cfg, decide, reqs, s.currWindowId - 1)
  }

  lemma ChargedAdmitted(cfg: SC.Config, decide: Decider<SC.State>, reqs: seq<Request>, r: Request, s: SC.State)
    requires CountsAdmitted(cfg, decide, reqs, s) && s.currWindowId == SC.WindowOf(cfg, r.now)
    ensures CountsAdmitted(cfg, decide, reqs + [r], Charged(s, NextCharge(decide, reqs, r)))
  {
    AdmittedExtended(decide, reqs, r, InWindow(cfg, s.currWindowId));
    AdmittedExtended(decide, reqs, r, InWindow(cfg, s.currWindowId - 1));
  }

  lemma RolledAdmitted(cfg: SC.Config, decide: Decider<SC.State>, reqs: seq<Request>, s: SC.State, now: nat)
    requires WindowsInOrder(cfg, reqs) && reqs != [] && EndsByWindow(cfg, reqs, now)
    requires s.currWindowId == SC.WindowOf(cfg, reqs[|reqs| - 1].now)
    requires CountsAdmitted(cfg, decide, reqs, s)
    ensures CountsAdmitted(cfg, decide, reqs, SC.Rolled(cfg, s, now))
    ensures SC.Rolled(cfg, s, now).currWindowId == SC.WindowOf(cfg, now)
  {
    var w := SC.WindowOf(cfg, now);
    if s.currWindowId < w {
      NoneLater(cfg, reqs, w);
      AdmittedNone(decide, reqs, InWindow(cfg, w));
    }
    if s.currWindowId + 1 < w {
      NoneLater(cfg, reqs, w - 1);
      AdmittedNone(decide, reqs, InWindow(cfg, w - 1));
    }
  }

  // ---- Waiting after a denial ----

  lemma NextWindowStarts(cfg: SC.Config, now: nat)
    ensures var next := (now / 1000 + (cfg.windowSecs - SC.OffsetOf(cfg, now))) * 1000;
            && now < next
            && SC.WindowOf(cfg, next) == SC.WindowOf(cfg, now) + 1
            && SC.OffsetOf(cfg, next) == 0
  {
    var d, sec := cfg.windowSecs, now / 1000;
    var q := sec / d + 1;
    assert sec + (d - sec % d) == d * q + 0;
    assert (d * q) % d == 0 && (d * q) / d == q by { MultipleOf(d, q); }
  }

  lemma MultipleOf(d: nat, q: nat)
    requires d > 0
    ensures d * q / d == q && d * q % d == 0
  {
    MulCancels(d, q, d * q / d + 1);
  }

  lemma FractionOfWindow(cfg: SC.Config, now: nat)
    ensures (1.0 - SC.OffsetOf(cfg, now) as real / cfg.windowSecs as real) * cfg.windowSecs as real * 1000.0
         == ((cfg.windowSecs - SC.OffsetOf(cfg, now)) * 1000) as real
  {
    var width, offset := cfg.windowSecs as real, SC.OffsetOf(cfg, now) as real;
    var f := offset / width;
    assert f * width == offset;
    assert (1.0 - f) * width == width - offset;
  }

  /** For any cost, the hint of a denial is the rest of the window in whole seconds, as far as an `i64` can hold it. */
  lemma HintIsRestOfWindow(cfg: SC.Config, s: SC.State, now: nat, cost: U32)
    requires !SC.Step(cfg, s, now, cost).decision.allowed
    ensures var wait := (cfg.windowSecs - SC.OffsetOf(cfg, now)) * 1000;
            SC.Step(cfg, s, now, cost).decision.retryAfterMs == if wait < I64_MAX then wait else I64_MAX
  {
    FractionOfWindow(cfg, now);
    var wait := (cfg.windowSecs - SC.OffsetOf(cfg, now)) * 1000;
    AsI64Truncates(wait as real);
  }

  lemma RolledTwice(cfg: SC.Config, s: SC.State, now: nat, later: nat)
    requires s.currWindowId <= SC.WindowOf(cfg, now) && now <= later
    ensures SC.Rolled(cfg, SC.Rolled(cfg, s, now), later) == SC.Rolled(cfg, s, later)
  {
    LaterWindow(cfg, now, later);
  }

  /** What a repeated request finds, with nothing admitted since the denial. */
  predicate AdmittedAt(cfg: SC.Config, s: SC.State, at: nat, cost: U32) {
    SC.Step(cfg, s, at, cost).decision.allowed
  }

  lemma AdmittedByEstimate(cfg: SC.Config, s: SC.State, at: nat, cost: U32)
    ensures AdmittedAt(cfg, s, at, cost)
       <==> Estimate(cfg, SC.Rolled(cfg, s, at), at) + cost * cfg.windowSecs <= cfg.maxRequests * cfg.windowSecs
  {
    AttemptCounts(cfg, SC.Decide(cfg), Some(s), at, cost);
    var _ := SC.Attempt(cfg, Some(s), at, cost);
  }

  /** A request that would be admitted at some instant would be admitted at every later one. */
  lemma AdmissionPersists(cfg: SC.Config, s: SC.State, at: nat, later: nat, cost: U32)
    requires s.currWindowId <= SC.WindowOf(cfg, at) && at <= later
    requires AdmittedAt(cfg, s, at, cost)
    ensures AdmittedAt(cfg, s, later, cost)
  {
    AdmittedByEstimate(cfg, s, at, cost);
    AdmittedByEstimate(cfg, s, later, cost);
    RolledTwice(cfg, s, at, later);
    EstimateNeverRises(cfg, SC.Rolled(cfg, s, at), at, later);
  }

  lemma AtTheHint(cfg: SC.Config, s: SC.State, now: nat, hinted: nat, cost: U32)
    requires s.currWindowId == SC.WindowOf(cfg, now)
    requires SC.WindowOf(cfg, hinted) == SC.WindowOf(cfg, now) + 1 && SC.OffsetOf(cfg, hinted) == 0
    ensures AdmittedAt(cfg, s, hinted, cost) <==> s.currCount + cost <= cfg.maxRequests
  {
    AdmittedByEstimate(cfg, s, hinted, cost);
    TimesWindow(cfg, s.currCount + cost);
    assert Estimate(cfg, SC.Rolled(cfg, s, hinted), hinted) == s.currCount * cfg.windowSecs;
  }

  lemma TwoWindowsOn(cfg: SC.Config, s: SC.State, later: nat, cost: U32)
    requires SC.WindowOf(cfg, later) >= s.currWindowId + 2
    ensures AdmittedAt(cfg, s, later, cost) <==> cost <= cfg.maxRequests
  {
    AdmittedByEstimate(cfg, s, later, cost);
    ScaledBounds(cfg, 0, 0, 0, SC.OffsetOf(cfg, later));
    TimesWindow(cfg, cost);
  }

  /**
   Waiting from a denial on, with nothing admitted in between. At the hinted time, the start of
   the next window, the request is admitted exactly when the window it was denied in has room
   for it; from the window after that on, exactly when the limit has room for it at all.
   */
  lemma WaitingAfterDenial(cfg: SC.Config, s: SC.State, now: nat, cost: U32, later: nat)
    requires cfg.windowSecs * 1000 <= I64_MAX
    requires !SC.Step(cfg, s, now, cost).decision.allowed
    ensures var v := SC.Step(cfg, s, now, cost);
            var hinted := now / 1000 * 1000 + v.decision.retryAfterMs;
            && now < hinted
            && SC.WindowOf(cfg, hinted) == SC.WindowOf(cfg, now) + 1 && SC.OffsetOf(cfg, hinted) == 0
            && (AdmittedAt(cfg, v.state, hinted, cost) <==> v.state.currCount + cost <= cfg.maxRequests)
            && (SC.WindowOf(cfg, later) >= SC.WindowOf(cfg, now) + 2
                ==> (AdmittedAt(cfg, v.state, later, cost) <==> cost <= cfg.maxRequests))
  {
    var v := SC.Step(cfg, s, now, cost);
    HintIsRestOfWindow(cfg, s, now, cost);
    NextWindowStarts(cfg, now);
    AtTheHint(cfg, v.state, now, now / 1000 * 1000 + v.decision.retryAfterMs, cost);
    if SC.WindowOf(cfg, later) >= SC.WindowOf(cfg, now) + 2 {
      TwoWindowsOn(cfg, v.state, later, cost);
    }
  }

  lemma RoomAtOffset(cfg: SC.Config, prev: nat, rest: int, offset: nat)
    requires offset < cfg.windowSecs
    ensures prev * (cfg.windowSecs - offset) + rest * cfg.windowSecs <= cfg.maxRequests * cfg.windowSecs
       <==> (prev + rest - cfg.maxRequests) * cfg.windowSecs <= prev * offset
  {
    assert prev * (cfg.windowSecs - offset) == prev * cfg.windowSecs - prev * offset;
    assert (prev + rest - cfg.maxRequests) * cfg.windowSecs
        == prev * cfg.windowSecs + rest * cfg.windowSecs - cfg.maxRequests * cfg.windowSecs;
  }

  /** In a later second of the window it was denied in, and in the window after. */
  lemma AgainInWindow(cfg: SC.Config, s: SC.State, later: nat, cost: U32)
    requires s.currWindowId <= SC.WindowOf(cfg, later) <= s.currWindowId + 1
    ensures var e := SC.OffsetOf(cfg, later);
            var weighed, whole := if SC.WindowOf(cfg, later) == s.currWindowId then s.prevCount else s.currCount,
                                  if SC.WindowOf(cfg, later) == s.currWindowId then s.currCount else 0;
            AdmittedAt(cfg, s, later, cost)
            <==> (weighed + whole + cost - cfg.maxRequests) * cfg.windowSecs <= weighed * e
  {
    AdmittedByEstimate(cfg, s, later, cost);
    var view := SC.Rolled(cfg, s, later);
    RoomAtOffset(cfg, view.prevCount, view.currCount + cost, SC.OffsetOf(cfg, later));
    assert (view.currCount + cost) * cfg.windowSecs == view.currCount * cfg.windowSecs + cost * cfg.windowSecs;
  }

  /**
   When a denied request gets through, with nothing admitted in between: in its own window and in
   the next one as soon as enough of the earlier count has faded (the offset only grows), which can
   be before the hint; after that, if the limit has room for it at all.
   */
  lemma AdmittedAgainExactly(cfg: SC.Config, s: SC.State, now: nat, cost: U32, later: nat)
    requires !SC.Step(cfg, s, now, cost).decision.allowed && now <= later
    ensures var v, e := SC.Step(cfg, s, now, cost), SC.OffsetOf(cfg, later);
            var windows := SC.WindowOf(cfg, later) - SC.WindowOf(cfg, now);
            var prev, curr := v.state.prevCount, v.state.currCount;
            AdmittedAt(cfg, v.state, later, cost)
            <==> if windows == 0 then (prev + curr + cost - cfg.maxRequests) * cfg.windowSecs <= prev * e
                 else if windows == 1 then (curr + cost - cfg.maxRequests) * cfg.windowSecs <= curr * e
                 else cost <= cfg.maxRequests
  {
    var v := SC.Step(cfg, s, now, cost);
    LaterWindow(cfg, now, later);
    if SC.WindowOf(cfg, later) <= SC.WindowOf(cfg, now) + 1 {
      AgainInWindow(cfg, v.state, later, cost);
    } else {
      TwoWindowsOn(cfg, v.state, later, cost);
    }
  }

  lemma TimesWindow(cfg: SC.Config, count: nat)
    ensures count * cfg.windowSecs <= cfg.maxRequests * cfg.windowSecs <==> count <= cfg.maxRequests
  {
    if count <= cfg.maxRequests {
      MulMonotone(cfg.windowSecs, count, cfg.maxRequests);
    } else {
      MulMonotone(cfg.windowSecs, cfg.maxRequests + 1, count);
    }
  }
}
