/**
 How much the sliding window counter admits in the length of one window, and on which clocks: on
 exactly those where, between two commits that share such a span, the clock does not move on over
 window boundaries more often than the span allows.
 */
module SlidingCounterClocks {
  import opened Arithmetic
  import opened Limiter
  import opened Runs
  import opened SlidingCounterRuns
  import opened Wrappers

  import SC = SlidingWindowCounter


  // ---- How far the stored counts have been rolled on ----

  /** How many windows a check at commit `j` rolls the counts on: none when its reading goes back. */
  function Roll(cfg: SC.Config, reqs: seq<Request>, j: nat): nat
    requires 0 < j < |reqs|
  {
    SaturatingSub(SC.WindowOf(cfg, reqs[j].now), SC.WindowOf(cfg, reqs[j - 1].now))
  }

  /** How many windows the counts are rolled on from commit `h` to commit `j`. */
  function Moves(cfg: SC.Config, reqs: seq<Request>, h: nat, j: nat): nat
    requires h <= j < |reqs|
  {
    if h == j then 0 else Moves(cfg, reqs, h, j - 1) + Roll(cfg, reqs, j)
  }

  /** The cost charged by the commits before `j` from which the counts were rolled on at most `k` windows. */
  function UpTo(cfg: SC.Config, decide: Decider<SC.State>, reqs: seq<Request>, j: nat, k: int): nat
    requires j < |reqs|
  {
    if j == 0 then 0 else
    var charge := NextCharge(decide, reqs[..j - 1], reqs[j - 1]);
    UpTo(cfg, decide, reqs, j - 1, k - Roll(cfg, reqs, j)) + if Roll(cfg, reqs, j) <= k then charge else 0
  }

  lemma {:induction false} NothingBelow(cfg: SC.Config, decide: Decider<SC.State>, reqs: seq<Request>, j: nat, k: int)
    requires j < |reqs| && k < 0
    ensures UpTo(cfg, decide, reqs, j, k) == 0
  {
    if j > 0 { NothingBelow(cfg, decide, reqs, j - 1, k - Roll(cfg, reqs, j)); }
  }

  /** What commit `j` starts from. */
  function ViewAt(cfg: SC.Config, decide: Decider<SC.State>, reqs: seq<Request>, j: nat): SC.State
    requires j < |reqs|
  {
    View(cfg, decide, reqs[..j], reqs[j].now)
  }

  lemma ViewAfter(cfg: SC.Config, decide: Decider<SC.State>, reqs: seq<Request>, j: nat)
    requires SC.Implements(cfg, decide) && 0 < j < |reqs|
    ensures ViewAt(cfg, decide, reqs, j)
         == SC.Rolled(cfg, Charged(ViewAt(cfg, decide, reqs, j - 1), NextCharge(decide, reqs[..j - 1], reqs[j - 1])),
                      reqs[j].now)
  {
    assert reqs[..j] == reqs[..j - 1] + [reqs[j - 1]];
    ViewExtended(cfg, decide, reqs[..j - 1], reqs[j - 1], reqs[j].now);
  }

  /** On any clock, the two counts that a commit starts from are what was charged no roll ago, and one roll ago. */
  lemma {:induction false} CountsAreMoves(cfg: SC.Config, decide: Decider<SC.State>, reqs: seq<Request>, j: nat)
    requires SC.Implements(cfg, decide) && j < |reqs|
    ensures var view := ViewAt(cfg, decide, reqs, j);
            && view.currCount == UpTo(cfg, decide, reqs, j, 0)
            && view.prevCount + view.currCount == UpTo(cfg, decide, reqs, j, 1)
            && view.currWindowId == SC.WindowOf(cfg, reqs[j].now)
  {
    if j > 0 {
      CountsAreMoves(cfg, decide, reqs, j - 1);
      RolledMoves(cfg, decide, reqs, j);
    }
  }

  lemma RolledMoves(cfg: SC.Config, decide: Decider<SC.State>, reqs: seq<Request>, j: nat)
    requires SC.Implements(cfg, decide) && 0 < j < |reqs|
    requires var before := ViewAt(cfg, decide, reqs, j - 1);
             && before.currCount == UpTo(cfg, decide, reqs, j - 1, 0)
             && before.prevCount + before.currCount == UpTo(cfg, decide, reqs, j - 1, 1)
             && before.currWindowId == SC.WindowOf(cfg, reqs[j - 1].now)
    ensures var view := ViewAt(cfg, decide, reqs, j);
            && view.currCount == UpTo(cfg, decide, reqs, j, 0)
            && view.prevCount + view.currCount == UpTo(cfg, decide, reqs, j, 1)
            && view.currWindowId == SC.WindowOf(cfg, reqs[j].now)
  {
    hide ViewAt, SC.WindowOf, SC.Implements, NextCharge;
    ViewAfter(cfg, decide, reqs, j);
    var roll: int := Roll(cfg, reqs, j);
    if roll > 0 { NothingBelow(cfg, decide, reqs, j - 1, -roll); }
    if roll > 1 { NothingBelow(cfg, decide, reqs, j - 1, 1 - roll); }
  }

  predicate Fits(cfg: SC.Config, s: SC.State) {
    s.prevCount <= cfg.maxRequests && s.currCount <= cfg.maxRequests
  }

  lemma CommitFits(cfg: SC.Config, decide: Decider<SC.State>, stored: Option<SC.State>, r: Request)
    requires SC.Implements(cfg, decide) && (stored.Some? ==> Fits(cfg, stored.value))
    ensures Fits(cfg, decide(stored, r.now, r.cost).state)
  {
    AttemptCounts(cfg, decide, stored, r.now, r.cost);
    if decide(stored, r.now, r.cost).decision.allowed {
      CountWithinLimit(cfg, decide(stored, r.now, r.cost).state, r.now);
    }
  }

  /** On any clock, each count stays within the limit. */
  lemma {:induction false} CountsFit(cfg: SC.Config, decide: Decider<SC.State>, reqs: seq<Request>)
    requires SC.Implements(cfg, decide)
    ensures Replay(decide, reqs).Some? ==> Fits(cfg, Replay(decide, reqs).value)
  {
    if reqs != [] {
      var n := |reqs| - 1;
      CountsFit(cfg, decide, reqs[..n]);
      CommitFits(cfg, decide, Replay(decide, reqs[..n]), reqs[n]);
    }
  }

  // ---- Spans of one window's length ----

  /** The milliseconds of one window length that end with millisecond `last`. */
  function LastWindow(cfg: SC.Config, last: nat): nat -> bool {
    InMs(last - cfg.windowSecs * 1000 + 1, last)
  }

  /** If commits `h` and `j` share the span, the counts are rolled on at most once, and that late enough in it. */
  predicate Kept(cfg: SC.Config, reqs: seq<Request>, h: nat, j: nat, last: nat)
    requires h < j < |reqs|
  {
    LastWindow(cfg, last)(reqs[h].now) && LastWindow(cfg, last)(reqs[j].now) ==>
      || Moves(cfg, reqs, h, j) == 0
      || (Moves(cfg, reqs, h, j) == 1 && SC.OffsetOf(cfg, reqs[j].now) <= SC.OffsetOf(cfg, last))
  }

  ghost predicate SpansKept(cfg: SC.Config, reqs: seq<Request>) {
    forall h, j, last: nat :: 0 <= h < j < |reqs| ==> Kept(cfg, reqs, h, j, last)
  }

  /** From every commit before `j` with a reading in `p`, the counts were rolled on at most `k` windows. */
  ghost predicate MovesWithin(cfg: SC.Config, reqs: seq<Request>, j: nat, p: nat -> bool, k: int)
    requires j < |reqs|
  {
    forall h :: 0 <= h < j && p(reqs[h].now) ==> Moves(cfg, reqs, h, j) <= k
  }

  lemma {:induction false} AdmittedUpTo(cfg: SC.Config, decide: Decider<SC.State>, reqs: seq<Request>, j: nat,
                                        p: nat -> bool, k: int)
    requires j < |reqs| && MovesWithin(cfg, reqs, j, p, k)
    ensures AdmittedWhere(decide, reqs[..j], p) <= UpTo(cfg, decide, reqs, j, k)
  {
    if j > 0 {
      var front, r, roll := reqs[..j - 1], reqs[j - 1], Roll(cfg, reqs, j);
      assert reqs[..j] == front + [r];
      forall h | 0 <= h < j - 1 && p(reqs[h].now)
        ensures Moves(cfg, reqs, h, j - 1) <= k - roll
      {
        assert Moves(cfg, reqs, h, j) == Moves(cfg, reqs, h, j - 1) + roll;
      }
      AdmittedUpTo(cfg, decide, reqs, j - 1, p, k - roll);
      AdmittedExtended(decide, front, r, p);
      if p(r.now) {
        assert Moves(cfg, reqs, j - 1, j) == Moves(cfg, reqs, j - 1, j - 1) + roll;
      }
    }
  }

  ghost predicate SpanWithin(cfg: SC.Config, decide: Decider<SC.State>, reqs: seq<Request>, last: nat) {
    AdmittedWhere(decide, reqs, LastWindow(cfg, last)) * cfg.windowSecs
    <= cfg.maxRequests * (cfg.windowSecs + SC.OffsetOf(cfg, last))
  }

  /** Two adjacent windows whose estimate fits at some offset hold at most `max * (1 + offset / window)`. */
  lemma TwoWindows(cfg: SC.Config, prev: nat, curr: nat, offset: nat, span: nat)
    requires span <= prev + curr && offset < cfg.windowSecs && prev <= cfg.maxRequests
    requires Scaled(cfg, prev, curr, offset) <= cfg.maxRequests * cfg.windowSecs
    ensures span * cfg.windowSecs <= cfg.maxRequests * (cfg.windowSecs + offset)
  {
    var d, m := cfg.windowSecs, cfg.maxRequests;
    assert prev * (d - offset) == prev * d - prev * offset;
    assert (prev + curr) * d == prev * d + curr * d;
    assert m * (d + offset) == m * d + m * offset;
    assert prev * offset <= m * offset by { MulMonotone(offset, prev, m); }
    MulMonotone(d, span, prev + curr);
  }

  lemma OneWindow(cfg: SC.Config, curr: nat, offset: nat, span: nat)
    requires span <= curr <= cfg.maxRequests
    ensures span * cfg.windowSecs <= cfg.maxRequests * (cfg.windowSecs + offset)
  {
    MulMonotone(cfg.windowSecs, span, cfg.maxRequests);
    MulMonotone(cfg.maxRequests, cfg.windowSecs, cfg.windowSecs + offset);
  }

  /** What the counts allow a commit at `offset`, with what the span had admitted before. */
  lemma ChargeWithin(cfg: SC.Config, view: SC.State, charge: nat, now: nat, span: nat, last: nat, rolled: bool)
    requires Fits(cfg, view) && Estimate(cfg, Charged(view, charge), now) <= cfg.maxRequests * cfg.windowSecs
    requires span <= (if rolled then view.prevCount else 0) + view.currCount + charge
    requires rolled ==> SC.OffsetOf(cfg, now) <= SC.OffsetOf(cfg, last)
    ensures span * cfg.windowSecs <= cfg.maxRequests * (cfg.windowSecs + SC.OffsetOf(cfg, last))
  {
    if rolled {
      TwoWindows(cfg, view.prevCount, view.currCount + charge, SC.OffsetOf(cfg, now), span);
      MulMonotone(cfg.maxRequests, cfg.windowSecs + SC.OffsetOf(cfg, now), cfg.windowSecs + SC.OffsetOf(cfg, last));
    } else {
      CountWithinLimit(cfg, Charged(view, charge), now);
      OneWindow(cfg, view.currCount + charge, SC.OffsetOf(cfg, last), span);
    }
  }

  lemma ViewFits(cfg: SC.Config, decide: Decider<SC.State>, reqs: seq<Request>, j: nat)
    requires SC.Implements(cfg, decide) && j < |reqs|
    ensures Fits(cfg, ViewAt(cfg, decide, reqs, j))
  {
    CountsFit(cfg, decide, reqs[..j]);
  }

  lemma ChargedFits(cfg: SC.Config, decide: Decider<SC.State>, reqs: seq<Request>, j: nat)
    requires SC.Implements(cfg, decide) && j < |reqs| && NextCharge(decide, reqs[..j], reqs[j]) > 0
    ensures var charge := NextCharge(decide, reqs[..j], reqs[j]);
            Estimate(cfg, Charged(ViewAt(cfg, decide, reqs, j), charge), reqs[j].now)
            <= cfg.maxRequests * cfg.windowSecs
  {
    AttemptCounts(cfg, decide, Replay(decide, reqs[..j]), reqs[j].now, reqs[j].cost);
  }

  /** What a span had admitted before commit `j`, against the counts that the commit starts from. */
  lemma BeforeInSpan(cfg: SC.Config, decide: Decider<SC.State>, reqs: seq<Request>, j: nat,
                     last: nat) returns (rolled: bool)
    requires SC.Implements(cfg, decide) && SpansKept(cfg, reqs)
    requires j < |reqs| && LastWindow(cfg, last)(reqs[j].now)
    ensures var view := ViewAt(cfg, decide, reqs, j);
            AdmittedWhere(decide, reqs[..j], LastWindow(cfg, last))
            <= (if rolled then view.prevCount else 0) + view.currCount
    ensures rolled ==> SC.OffsetOf(cfg, reqs[j].now) <= SC.OffsetOf(cfg, last)
  {
    var p := LastWindow(cfg, last);
    CountsAreMoves(cfg, decide, reqs, j);
    forall h | 0 <= h < j
      ensures p(reqs[h].now) ==> Moves(cfg, reqs, h, j) <= 1
    {
      assert Kept(cfg, reqs, h, j, last);
    }
    if h :| 0 <= h < j && p(reqs[h].now) && Moves(cfg, reqs, h, j) == 1 {
      rolled := true;
      assert Kept(cfg, reqs, h, j, last);
      AdmittedUpTo(cfg, decide, reqs, j, p, 1);
    } else {
      rolled := false;
      AdmittedUpTo(cfg, decide, reqs, j, p, 0);
    }
  }

  lemma {:induction false} SpanBoundUpTo(cfg: SC.Config, decide: Decider<SC.State>, reqs: seq<Request>, last: nat,
                                         n: nat)
    requires SC.Implements(cfg, decide) && SpansKept(cfg, reqs) && n <= |reqs|
    ensures SpanWithin(cfg, decide, reqs[..n], last)
  {
    if n == 0 {
      MulMonotone(cfg.maxRequests, 0, cfg.windowSecs + SC.OffsetOf(cfg, last));
    } else {
      var j := n - 1;
      var p, charge := LastWindow(cfg, last), NextCharge(decide, reqs[..j], reqs[j]);
      assert reqs[..n] == reqs[..j] + [reqs[j]];
      SpanBoundUpTo(cfg, decide, reqs, last, j);
      AdmittedExtended(decide, reqs[..j], reqs[j], p);
      if p(reqs[j].now) && charge > 0 {
        var rolled := BeforeInSpan(cfg, decide, reqs, j, last);
        ViewFits(cfg, decide, reqs, j);
        ChargedFits(cfg, decide, reqs, j);
        ChargeWithin(cfg, ViewAt(cfg, decide, reqs, j), charge, reqs[j].now, AdmittedWhere(decide, reqs[..n], p), last,
                     rolled);
      }
    }
  }

  /** A window's length, wherever it starts, ending `offset` seconds into a window: `max * (1 + offset / window)`. */
  lemma {:induction false} SpanBound(cfg: SC.Config, decide: Decider<SC.State>, reqs: seq<Request>, last: nat)
    requires SC.Implements(cfg, decide) && SpansKept(cfg, reqs)
    ensures AdmittedWhere(decide, reqs, LastWindow(cfg, last)) * cfg.windowSecs
         <= cfg.maxRequests * (cfg.windowSecs + SC.OffsetOf(cfg, last))
  {
    SpanBoundUpTo(cfg, decide, reqs, last, |reqs|);
    assert reqs[..|reqs|] == reqs;
  }

  lemma BelowDouble(d: nat, m: nat, e: nat, a: nat)
    requires e < d && m > 0 && a * d <= m * (d + e)
    ensures a < 2 * m
  {
    MulMonotone(m, d + e, 2 * d - 1);
    assert m * (2 * d - 1) == d * (2 * m) - m;
    MulCancels(d, a, 2 * m);
  }

  /** So no span of one window length ever admits twice the limit. */
  lemma {:induction false} BelowTwiceTheLimit(cfg: SC.Config, decide: Decider<SC.State>, reqs: seq<Request>, last: nat)
    requires SC.Implements(cfg, decide) && SpansKept(cfg, reqs) && cfg.maxRequests > 0
    ensures AdmittedWhere(decide, reqs, LastWindow(cfg, last)) < 2 * cfg.maxRequests
  {
    SpanBound(cfg, decide, reqs, last);
    BelowDouble(cfg.windowSecs, cfg.maxRequests, SC.OffsetOf(cfg, last),
                AdmittedWhere(decide, reqs, LastWindow(cfg, last)));
  }

  // ---- The condition is exact: a clock that breaks it betrays some run ----

  /** Between the two requests, the first is all that the counts hold. */
  ghost predicate OneCharge(cfg: SC.Config, decide: Decider<SC.State>, reqs: seq<Request>, h: nat, a: nat, i: nat)
    requires h < |reqs| && i < |reqs|
  {
    forall k: int :: UpTo(cfg, decide, reqs, i, k) == if h < i && Moves(cfg, reqs, h, i) <= k then a else 0
  }

  lemma OneChargeOn(cfg: SC.Config, decide: Decider<SC.State>, reqs: seq<Request>, h: nat, a: nat, i: nat)
    requires h < |reqs| && 0 < i < |reqs| && OneCharge(cfg, decide, reqs, h, a, i - 1)
    requires NextCharge(decide, reqs[..i - 1], reqs[i - 1]) == if i - 1 == h then a else 0
    ensures OneCharge(cfg, decide, reqs, h, a, i)
  {
    forall k: int
      ensures UpTo(cfg, decide, reqs, i, k) == if h < i && Moves(cfg, reqs, h, i) <= k then a else 0
    {
      var before := UpTo(cfg, decide, reqs, i - 1, k - Roll(cfg, reqs, i));
      assert before == if h < i - 1 && Moves(cfg, reqs, h, i - 1) <= k - Roll(cfg, reqs, i) then a else 0;
      if i - 1 == h { assert Moves(cfg, reqs, h, i) == Moves(cfg, reqs, h, h) + Roll(cfg, reqs, i); }
    }
  }

  lemma AdmittedIfRoom(cfg: SC.Config, decide: Decider<SC.State>, reqs: seq<Request>, j: nat)
    requires SC.Implements(cfg, decide) && j < |reqs|
    requires Estimate(cfg, Charged(ViewAt(cfg, decide, reqs, j), reqs[j].cost), reqs[j].now)
          <= cfg.maxRequests * cfg.windowSecs
    ensures NextCharge(decide, reqs[..j], reqs[j]) == reqs[j].cost
  {
    AttemptCounts(cfg, decide, Replay(decide, reqs[..j]), reqs[j].now, reqs[j].cost);
  }

  /** A first request for no more than the limit is admitted in full. */
  lemma FirstAdmitted(cfg: SC.Config, decide: Decider<SC.State>, reqs: seq<Request>, h: nat, a: nat)
    requires SC.Implements(cfg, decide) && h < |reqs| && OneCharge(cfg, decide, reqs, h, a, h)
    requires reqs[h].cost <= cfg.maxRequests
    ensures NextCharge(decide, reqs[..h], reqs[h]) == reqs[h].cost
  {
    CountsAreMoves(cfg, decide, reqs, h);
    assert UpTo(cfg, decide, reqs, h, 0) == 0 && UpTo(cfg, decide, reqs, h, 1) == 0;
    MulMonotone(cfg.windowSecs, reqs[h].cost, cfg.maxRequests);
    AdmittedIfRoom(cfg, decide, reqs, h);
  }

  /** More than the limit is never admitted. */
  lemma TooMuchIsDenied(cfg: SC.Config, decide: Decider<SC.State>, stored: Option<SC.State>, r: Request)
    requires SC.Implements(cfg, decide) && r.cost > cfg.maxRequests
    ensures !decide(stored, r.now, r.cost).decision.allowed
  {
    AttemptCounts(cfg, decide, stored, r.now, r.cost);
    if decide(stored, r.now, r.cost).decision.allowed {
      CountWithinLimit(cfg, decide(stored, r.now, r.cost).state, r.now);
    }
  }

  lemma {:induction false} OneChargeRun(cfg: SC.Config, decide: Decider<SC.State>, reqs: seq<Request>, h: nat, j: nat,
                                        i: nat)
    requires SC.Implements(cfg, decide) && h < j < |reqs| && i <= j && reqs[h].cost <= cfg.maxRequests
    requires forall k :: 0 <= k < j && k != h ==> reqs[k].cost == 0 || reqs[k].cost > cfg.maxRequests
    ensures OneCharge(cfg, decide, reqs, h, reqs[h].cost, i)
  {
    if i > 0 {
      OneChargeRun(cfg, decide, reqs, h, j, i - 1);
      if i - 1 == h { FirstAdmitted(cfg, decide, reqs, h, reqs[h].cost); }
      if reqs[i - 1].cost > cfg.maxRequests {
        TooMuchIsDenied(cfg, decide, Replay(decide, reqs[..i - 1]), reqs[i - 1]);
      }
      OneChargeOn(cfg, decide, reqs, h, reqs[h].cost, i);
    }
  }

  lemma {:induction false} AdmittedBoth(decide: Decider<SC.State>, reqs: seq<Request>, p: nat -> bool, h: nat, j: nat)
    requires h < j < |reqs| && p(reqs[h].now) && p(reqs[j].now)
    ensures AdmittedWhere(decide, reqs, p)
         >= NextCharge(decide, reqs[..h], reqs[h]) + NextCharge(decide, reqs[..j], reqs[j])
  {
    var n := |reqs| - 1;
    assert reqs == reqs[..n] + [reqs[n]];
    AdmittedExtended(decide, reqs[..n], reqs[n], p);
    if j < n {
      AdmittedBoth(decide, reqs[..n], p, h, j);
      assert reqs[..n][..h] == reqs[..h] && reqs[..n][..j] == reqs[..j];
    } else {
      AdmittedOne(decide, reqs[..n], p, h);
      assert reqs[..n][..h] == reqs[..h];
    }
  }

  lemma {:induction false} AdmittedOne(decide: Decider<SC.State>, reqs: seq<Request>, p: nat -> bool, h: nat)
    requires h < |reqs| && p(reqs[h].now)
    ensures AdmittedWhere(decide, reqs, p) >= NextCharge(decide, reqs[..h], reqs[h])
  {
    var n := |reqs| - 1;
    assert reqs == reqs[..n] + [reqs[n]];
    AdmittedExtended(decide, reqs[..n], reqs[n], p);
    if h < n {
      AdmittedOne(decide, reqs[..n], p, h);
      assert reqs[..n][..h] == reqs[..h];
    }
  }

  lemma RoomForSecond(cfg: SC.Config, view: SC.State, now: nat, rolledOnce: bool)
    requires cfg.maxRequests == cfg.windowSecs && view.currCount == 0
    requires view.prevCount == if rolledOnce then cfg.windowSecs else 0
    ensures var cost := if rolledOnce then SC.OffsetOf(cfg, now) else cfg.windowSecs;
            Estimate(cfg, Charged(view, cost), now) <= cfg.maxRequests * cfg.windowSecs
  {
    var w, e := cfg.windowSecs, SC.OffsetOf(cfg, now);
    assert w * (w - e) + e * w == w * w;
  }

  /** With limit and first request as large as the window is long, the counts leave room for a second one. */
  lemma {:induction false} SecondAdmitted(cfg: SC.Config, decide: Decider<SC.State>, reqs: seq<Request>, h: nat, j: nat)
    requires SC.Implements(cfg, decide) && h < j < |reqs|
    requires cfg.maxRequests == cfg.windowSecs == reqs[h].cost && OneCharge(cfg, decide, reqs, h, reqs[h].cost, j)
    requires Moves(cfg, reqs, h, j) >= 1
    requires reqs[j].cost == if Moves(cfg, reqs, h, j) == 1 then SC.OffsetOf(cfg, reqs[j].now) else cfg.windowSecs
    ensures NextCharge(decide, reqs[..j], reqs[j]) == reqs[j].cost
  {
    hide Replay, NextCharge, UpTo, Moves, SC.Implements, ViewAt, SC.OffsetOf, Estimate, SC.WindowOf;
    CountsAreMoves(cfg, decide, reqs, j);
    assert UpTo(cfg, decide, reqs, j, 0) == 0;
    assert UpTo(cfg, decide, reqs, j, 1) == if Moves(cfg, reqs, h, j) == 1 then cfg.windowSecs else 0;
    RoomForSecond(cfg, ViewAt(cfg, decide, reqs, j), reqs[j].now, Moves(cfg, reqs, h, j) == 1);
    AdmittedIfRoom(cfg, decide, reqs, j);
  }

  lemma Excess(w: nat, extra: nat, offset: nat, admitted: nat)
    requires offset < extra && w > 0 && admitted >= w + extra
    ensures admitted * w > w * (w + offset)
  {
    MulMonotone(w, w + offset + 1, admitted);
    MulSuccessor(w, w + offset);
  }

  /** What the second request of the probe asks for. */
  function Extra(cfg: SC.Config, clock: seq<Request>, h: nat, j: nat): nat
    requires h < j < |clock|
  {
    if Moves(cfg, clock, h, j) == 1 then SC.OffsetOf(cfg, clock[j].now) else cfg.windowSecs
  }

  lemma {:induction false} BothAdmitted(cfg: SC.Config, decide: Decider<SC.State>, reqs: seq<Request>, h: nat, j: nat,
                                        p: nat -> bool)
    requires SC.Implements(cfg, decide) && cfg.maxRequests == cfg.windowSecs
    requires h < j < |reqs| && p(reqs[h].now) && p(reqs[j].now) && Moves(cfg, reqs, h, j) >= 1
    requires reqs[h].cost == cfg.windowSecs && reqs[j].cost == Extra(cfg, reqs, h, j)
    requires forall k :: 0 <= k < j && k != h ==> reqs[k].cost == 0
    ensures AdmittedWhere(decide, reqs, p) >= cfg.windowSecs + Extra(cfg, reqs, h, j)
  {
    hide OneCharge, Moves, NextCharge, AdmittedWhere, SC.OffsetOf, SC.WindowOf;
    OneChargeRun(cfg, decide, reqs, h, j, h);
    FirstAdmitted(cfg, decide, reqs, h, cfg.windowSecs);
    OneChargeRun(cfg, decide, reqs, h, j, j);
    SecondAdmitted(cfg, decide, reqs, h, j);
    AdmittedBoth(decide, reqs, p, h, j);
  }

  lemma BrokenSpanOveradmits(cfg: SC.Config, clock: seq<Request>, h: nat, j: nat, last: nat)
    requires cfg.windowSecs < U32_LIMIT && h < j < |clock| && !Kept(cfg, clock, h, j, last)
    ensures !AlwaysBounded(cfg.windowSecs, clock)
  {
    hide SC.OffsetOf, SC.WindowOf, AdmittedWhere, Moves;
    var w := cfg.windowSecs;
    var big: SC.Config := SC.Parameters(w, w);
    var reqs := Asking(clock, h, w, j, Extra(cfg, clock, h, j), 0);
    SameMoves(cfg, clock, big, reqs, h, j);
    SameOffsets(cfg, big, clock[j].now);
    BothAdmitted(big, SC.Decide(big), reqs, h, j, LastWindow(big, last));
    SameOffsets(cfg, big, last);
    Excess(w, Extra(cfg, clock, h, j), SC.OffsetOf(big, last),
           AdmittedWhere(SC.Decide(big), reqs, LastWindow(big, last)));
    assert !SpanWithin(big, SC.Decide(big), reqs, last);
    assert SameClock(reqs, clock);
  }

  lemma SameOffsets(cfg: SC.Config, other: SC.Config, now: nat)
    requires cfg.windowSecs == other.windowSecs
    ensures SC.OffsetOf(cfg, now) == SC.OffsetOf(other, now)
  {
  }

  lemma {:induction false} SameMoves(cfg: SC.Config, reqs: seq<Request>, other: SC.Config, reqs': seq<Request>,
                                     h: nat, j: nat)
    requires cfg.windowSecs == other.windowSecs && SameClock(reqs, reqs') && h <= j < |reqs|
    ensures Moves(cfg, reqs, h, j) == Moves(other, reqs', h, j)
  {
    if h < j { SameMoves(cfg, reqs, other, reqs', h, j - 1); }
  }

  lemma SameSpansKept(cfg: SC.Config, reqs: seq<Request>, other: SC.Config, reqs': seq<Request>)
    requires cfg.windowSecs == other.windowSecs && SameClock(reqs, reqs') && SpansKept(cfg, reqs)
    ensures SpansKept(other, reqs')
  {
    forall h, j, last: nat | 0 <= h < j < |reqs'| ensures Kept(other, reqs', h, j, last) {
      assert Kept(cfg, reqs, h, j, last);
      SameMoves(cfg, reqs, other, reqs', h, j);
    }
  }

  /** Whatever the limit and the costs, every span on this clock keeps the bound. */
  ghost predicate AlwaysBounded(windowSecs: nat, clock: seq<Request>) {
    forall cfg: SC.Config, reqs: seq<Request>, last: nat ::
      cfg.windowSecs == windowSecs && SameClock(reqs, clock) ==> SpanWithin(cfg, SC.Decide(cfg), reqs, last)
  }

  /** The bound holds, whatever the limit and the costs, on exactly the clocks that keep every span. */
  lemma BoundedExactly(cfg: SC.Config, clock: seq<Request>)
    requires cfg.windowSecs < U32_LIMIT
    ensures AlwaysBounded(cfg.windowSecs, clock) <==> SpansKept(cfg, clock)
  {
    if SpansKept(cfg, clock) {
      forall c: SC.Config, reqs: seq<Request>, last: nat | c.windowSecs == cfg.windowSecs && SameClock(reqs, clock)
        ensures SpanWithin(c, SC.Decide(c), reqs, last)
      {
        SameSpansKept(cfg, clock, c, reqs);
        SpanBound(c, SC.Decide(c), reqs, last);
      }
    } else {
      var h, j, last: nat :| 0 <= h < j < |clock| && !Kept(cfg, clock, h, j, last);
      BrokenSpanOveradmits(cfg, clock, h, j, last);
    }
  }

  // ---- Clocks that keep every span ----

  lemma {:induction false} MovesInOrder(cfg: SC.Config, reqs: seq<Request>, h: nat, j: nat)
    requires WindowsInOrder(cfg, reqs) && h <= j < |reqs|
    ensures Moves(cfg, reqs, h, j) == SC.WindowOf(cfg, reqs[j].now) - SC.WindowOf(cfg, reqs[h].now)
  {
    if h < j { MovesInOrder(cfg, reqs, h, j - 1); }
  }

  /** Readings may go back inside a window, as long as none goes back into an earlier one. */
  lemma WindowsInOrderAreSafe(cfg: SC.Config, reqs: seq<Request>)
    requires WindowsInOrder(cfg, reqs)
    ensures SpansKept(cfg, reqs)
  {
    forall h, j, last: nat | 0 <= h < j < |reqs| ensures Kept(cfg, reqs, h, j, last) {
      if LastWindow(cfg, last)(reqs[h].now) && LastWindow(cfg, last)(reqs[j].now) {
        MovesInOrder(cfg, reqs, h, j);
        AdjacentQuotients(cfg.windowSecs, reqs[h].now / 1000, last / 1000);
        AdjacentQuotients(cfg.windowSecs, reqs[j].now / 1000, last / 1000);
        LaterWindow(cfg, reqs[j].now, last);
      }
    }
  }

  // ---- A clock that breaks the bound ----

  /** A full window, a check with a clock reading from the window before, and another check in the full window. */
  function BouncingRun(): seq<Request> {
    [Request(3000, 2), Request(1000, 0), Request(3000, 1)]
  }

  lemma BouncingReadings(cfg: SC.Config)
    requires cfg.windowSecs == 2
    ensures SC.WindowOf(cfg, 3000) == 1 && SC.WindowOf(cfg, 1000) == 0
    ensures SC.OffsetOf(cfg, 3000) == 1 && SC.OffsetOf(cfg, 1000) == 1 && SC.OffsetOf(cfg, 4999) == 0
  {
  }

  lemma {:induction false} BouncingCommit(cfg: SC.Config, decide: Decider<SC.State>, reqs: seq<Request>, r: Request,
                                          stored: Option<SC.State>, s: SC.State)
    requires SC.Implements(cfg, decide) && Replay(decide, reqs) == stored
    requires s == SC.Rolled(cfg, SC.Found(cfg, stored, r.now), r.now)
    requires Estimate(cfg, Charged(s, r.cost), r.now) <= cfg.maxRequests * cfg.windowSecs
    ensures Replay(decide, reqs + [r]) == Some(Charged(s, r.cost)) && NextCharge(decide, reqs, r) == r.cost
  {
    RunExtended(decide, reqs, r);
    AttemptCounts(cfg, decide, stored, r.now, r.cost);
  }

  lemma BouncingStates(cfg: SC.Config, decide: Decider<SC.State>, r0: Request, r1: Request, r2: Request)
    requires SC.Implements(cfg, decide) && cfg == SC.Parameters(2, 2)
    requires r0 == Request(3000, 2) && r1 == Request(1000, 0) && r2 == Request(3000, 1)
    ensures NextCharge(decide, [], r0) == 2 && NextCharge(decide, [] + [r0], r1) == 0
    ensures NextCharge(decide, [] + [r0] + [r1], r2) == 1
  {
    hide NextCharge, SC.Implements, SC.WindowOf, SC.OffsetOf;
    BouncingReadings(cfg);
    BouncingCommit(cfg, decide, [], r0, None, SC.State(0, 0, 1));
    BouncingCommit(cfg, decide, [] + [r0], r1, Some(SC.State(0, 2, 1)), SC.State(0, 2, 0));
    BouncingCommit(cfg, decide, [] + [r0] + [r1], r2, Some(SC.State(0, 2, 0)), SC.State(2, 0, 1));
  }

  /**
   The shortest failure: a reading from the window before relabels the counts, the next one rolls
   them on again, and a window that was full admits more.
   */
  lemma SpanBoundBroken(cfg: SC.Config, decide: Decider<SC.State>)
    requires SC.Implements(cfg, decide) && cfg == SC.Parameters(2, 2)
    ensures !SpanWithin(cfg, decide, BouncingRun(), 4999)
  {
    hide NextCharge, SC.Implements;
    BouncingReadings(cfg);
    assert AdmittedWhere(decide, BouncingRun(), LastWindow(cfg, 4999)) == 3 by {
      var r0, r1, r2, p := BouncingRun()[0], BouncingRun()[1], BouncingRun()[2], LastWindow(cfg, 4999);
      BouncingStates(cfg, decide, r0, r1, r2);
      AdmittedExtended(decide, [], r0, p);
      AdmittedExtended(decide, [] + [r0], r1, p);
      AdmittedExtended(decide, [] + [r0] + [r1], r2, p);
      assert BouncingRun() == [] + [r0] + [r1] + [r2];
    }
  }
}
