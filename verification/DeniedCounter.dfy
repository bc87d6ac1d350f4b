/**
 The clocks on which denied checks leave no trace in a sliding window counter: those where every
 charge weighs, at every later commit, what its own clock reading says.
 */
module DeniedCounter {
  import opened Arithmetic
  import opened DeniedChecks
  import opened Limiter
  import opened Runs
  import opened Wrappers

  import SC = SlidingWindowCounter
  import SCC = SlidingCounterClocks
  import SCR = SlidingCounterRuns

  /** How many windows the readings of two commits are apart: none if the second is not in a later one. */
  function Apart(cfg: SC.Config, reqs: seq<Request>, h: nat, j: nat): nat
    requires h < |reqs| && j < |reqs|
  {
    SaturatingSub(SC.WindowOf(cfg, reqs[j].now), SC.WindowOf(cfg, reqs[h].now))
  }

  /** What a unit weighs that was rolled on `moves` windows, `offset` seconds into the last, in parts of a window. */
  function Weight(cfg: SC.Config, moves: nat, offset: nat): nat
    requires offset < cfg.windowSecs
  {
    if moves == 0 then cfg.windowSecs else if moves == 1 then cfg.windowSecs - offset else 0
  }

  /** At commit `j`, a unit charged at `h` weighs as if the counts had been rolled straight from one to the other. */
  predicate Weighed(cfg: SC.Config, reqs: seq<Request>, h: nat, j: nat)
    requires h < j < |reqs|
  {
    var offset := SC.OffsetOf(cfg, reqs[j].now);
    Weight(cfg, SCC.Moves(cfg, reqs, h, j), offset) == Weight(cfg, Apart(cfg, reqs, h, j), offset)
  }

  ghost predicate WeightsKept(cfg: SC.Config, reqs: seq<Request>) {
    forall h, j :: 0 <= h < j < |reqs| ==> Weighed(cfg, reqs, h, j)
  }

  // ---- Enough ----

  lemma {:induction false} MovesVia(cfg: SC.Config, reqs: seq<Request>, h: nat, i: nat, j: nat)
    requires h <= i <= j < |reqs|
    ensures SCC.Moves(cfg, reqs, h, j) == SCC.Moves(cfg, reqs, h, i) + SCC.Moves(cfg, reqs, i, j)
  {
    if i < j { MovesVia(cfg, reqs, h, i, j - 1); }
  }

  lemma {:induction false} MovesReach(cfg: SC.Config, reqs: seq<Request>, h: nat, j: nat)
    requires h <= j < |reqs|
    ensures Apart(cfg, reqs, h, j) <= SCC.Moves(cfg, reqs, h, j)
  {
    if h < j { MovesReach(cfg, reqs, h, j - 1); }
  }

  lemma {:induction false} MovesKept(cfg: SC.Config, reqs: seq<Request>, keep: seq<bool>, k: nat, l: nat)
    requires |reqs| == |keep| && k <= l < |Select(reqs, keep)|
    ensures Origin(reqs, keep, k) <= Origin(reqs, keep, l)
    ensures SCC.Moves(cfg, Select(reqs, keep), k, l)
         <= SCC.Moves(cfg, reqs, Origin(reqs, keep, k), Origin(reqs, keep, l))
  {
    if k < l {
      var a, b, c := Origin(reqs, keep, k), Origin(reqs, keep, l - 1), Origin(reqs, keep, l);
      MovesKept(cfg, reqs, keep, k, l - 1);
      OriginsInOrder(reqs, keep, l - 1, l);
      MovesReach(cfg, reqs, b, c);
      MovesVia(cfg, reqs, a, b, c);
    }
  }

  lemma {:induction false} WeightsKeptToo(cfg: SC.Config, reqs: seq<Request>, keep: seq<bool>)
    requires |reqs| == |keep| && WeightsKept(cfg, reqs)
    ensures WeightsKept(cfg, Select(reqs, keep))
  {
    var kept := Select(reqs, keep);
    forall k, l | 0 <= k < l < |kept| ensures Weighed(cfg, kept, k, l) {
      OriginsInOrder(reqs, keep, k, l);
      assert Weighed(cfg, reqs, Origin(reqs, keep, k), Origin(reqs, keep, l));
      MovesKept(cfg, reqs, keep, k, l);
      MovesReach(cfg, kept, k, l);
    }
  }

  /** The readings in window `w` or a later one. */
  function FromWindow(cfg: SC.Config, w: int): nat -> bool {
    (now: nat) => SC.WindowOf(cfg, now) >= w
  }

  /** The counts that the charges' own readings give. */
  function OwnCounts(cfg: SC.Config, charged: seq<Request>, now: nat): SC.State {
    var w: int := SC.WindowOf(cfg, now);
    SC.State(CostWhere(charged, SCR.InWindow(cfg, w - 1)), CostWhere(charged, FromWindow(cfg, w)), w)
  }

  /** The decision of a sliding window counter on those counts. */
  function CounterTeller(cfg: SC.Config): Teller {
    (charged: seq<Request>, now: nat, cost: U32) => SC.Step(cfg, OwnCounts(cfg, charged, now), now, cost).decision
  }

  lemma ScaledGrows(cfg: SC.Config, prev: nat, curr: nat, offset: nat, p: nat, c: nat)
    requires offset < cfg.windowSecs
    ensures SCR.Scaled(cfg, prev + p, curr + c, offset) == SCR.Scaled(cfg, prev, curr, offset)
                                                         + SCR.Scaled(cfg, p, c, offset)
  {
    assert (prev + p) * (cfg.windowSecs - offset) == prev * (cfg.windowSecs - offset) + p * (cfg.windowSecs - offset);
    assert (curr + c) * cfg.windowSecs == curr * cfg.windowSecs + c * cfg.windowSecs;
  }

  /** What one more charge weighs. */
  lemma {:induction false} OwnCountsGrow(cfg: SC.Config, charged: seq<Request>, r: Request, now: nat)
    ensures SCR.Estimate(cfg, OwnCounts(cfg, charged + [r], now), now)
         == SCR.Estimate(cfg, OwnCounts(cfg, charged, now), now)
            + r.cost * Weight(cfg, SaturatingSub(SC.WindowOf(cfg, now), SC.WindowOf(cfg, r.now)), SC.OffsetOf(cfg, now))
  {
    hide SC.WindowOf, SC.OffsetOf;
    var w: int, v: int := SC.WindowOf(cfg, now), SC.WindowOf(cfg, r.now);
    assert (charged + [r])[..|charged|] == charged;
    var own := OwnCounts(cfg, charged, now);
    ScaledGrows(cfg, own.prevCount, own.currCount, SC.OffsetOf(cfg, now), if v == w - 1 then r.cost else 0,
                if v >= w then r.cost else 0);
  }

  /** The counts rolled on to commit `j`, as far as they stem from the commits before `i`. */
  function Rolled(cfg: SC.Config, decide: Decider<SC.State>, reqs: seq<Request>, i: nat, j: nat): int
    requires i <= j < |reqs|
  {
    var moves: int, offset := SCC.Moves(cfg, reqs, i, j), SC.OffsetOf(cfg, reqs[j].now);
    var upToNone, upToOne := SCC.UpTo(cfg, decide, reqs, i, 0 - moves), SCC.UpTo(cfg, decide, reqs, i, 1 - moves);
    upToOne * (cfg.windowSecs - offset) + upToNone * offset
  }

  lemma OneMoreCharge(d: nat, e: nat, none: nat, one: nat, charge: nat)
    requires e < d
    ensures (one + charge) * (d - e) + (none + charge) * e == one * (d - e) + none * e + charge * d
    ensures (one + charge) * (d - e) + none * e == one * (d - e) + none * e + charge * (d - e)
  {
    assert (one + charge) * (d - e) == one * (d - e) + charge * (d - e);
    assert (none + charge) * e == none * e + charge * e;
    assert charge * (d - e) + charge * e == charge * d;
  }

  lemma RolledGrows(cfg: SC.Config, decide: Decider<SC.State>, reqs: seq<Request>, i: nat, j: nat)
    requires i < j < |reqs|
    ensures Rolled(cfg, decide, reqs, i + 1, j)
         == Rolled(cfg, decide, reqs, i, j)
            + NextCharge(decide, reqs[..i], reqs[i])
              * Weight(cfg, SCC.Moves(cfg, reqs, i, j), SC.OffsetOf(cfg, reqs[j].now))
  {
    hide SC.OffsetOf, NextCharge, SC.WindowOf;
    var charge, offset := NextCharge(decide, reqs[..i], reqs[i]), SC.OffsetOf(cfg, reqs[j].now);
    var moves: int, before: int := SCC.Moves(cfg, reqs, i + 1, j), SCC.Moves(cfg, reqs, i, j);
    MovesVia(cfg, reqs, i, i + 1, j);
    assert SCC.Moves(cfg, reqs, i, i + 1) == SCC.Moves(cfg, reqs, i, i) + SCC.Roll(cfg, reqs, i + 1);
    var none, one := SCC.UpTo(cfg, decide, reqs, i, 0 - before), SCC.UpTo(cfg, decide, reqs, i, 1 - before);
    assert SCC.UpTo(cfg, decide, reqs, i + 1, 0 - moves) == none + if before <= 0 then charge else 0;
    assert SCC.UpTo(cfg, decide, reqs, i + 1, 1 - moves) == one + if before <= 1 then charge else 0;
    OneMoreCharge(cfg.windowSecs, offset, none, one, charge);
  }

  lemma {:induction false} WeightsAddUp(cfg: SC.Config, decide: Decider<SC.State>, reqs: seq<Request>, i: nat, j: nat)
    requires WeightsKept(cfg, reqs) && i <= j < |reqs|
    ensures Rolled(cfg, decide, reqs, i, j)
         == SCR.Estimate(cfg, OwnCounts(cfg, ChargedRun(decide, reqs[..i]), reqs[j].now), reqs[j].now)
  {
    if i > 0 {
      var front, r := reqs[..i - 1], reqs[i - 1];
      assert reqs[..i] == front + [r];
      WeightsAddUp(cfg, decide, reqs, i - 1, j);
      RolledGrows(cfg, decide, reqs, i - 1, j);
      assert Weighed(cfg, reqs, i - 1, j);
      ChargedExtended(decide, front, r);
      var charge := NextCharge(decide, front, r);
      if charge > 0 {
        OwnCountsGrow(cfg, ChargedRun(decide, front), Request(r.now, charge), reqs[j].now);
      }
    }
  }

  lemma ScaledByParts(cfg: SC.Config, prev: nat, curr: nat, offset: nat)
    requires offset < cfg.windowSecs
    ensures (prev + curr) * (cfg.windowSecs - offset) + curr * offset == SCR.Scaled(cfg, prev, curr, offset)
  {
    var d := cfg.windowSecs;
    assert (prev + curr) * (d - offset) == prev * (d - offset) + curr * (d - offset);
    assert curr * (d - offset) + curr * offset == curr * d;
  }

  /** The estimate of every commit is the one the charges' own readings give. */
  lemma {:induction false} EstimateTold(cfg: SC.Config, decide: Decider<SC.State>, reqs: seq<Request>, j: nat)
    requires SC.Implements(cfg, decide) && WeightsKept(cfg, reqs) && j < |reqs|
    ensures SCR.Estimate(cfg, SCC.ViewAt(cfg, decide, reqs, j), reqs[j].now)
         == SCR.Estimate(cfg, OwnCounts(cfg, ChargedRun(decide, reqs[..j]), reqs[j].now), reqs[j].now)
  {
    hide SC.WindowOf, SC.OffsetOf, WeightsKept, OwnCounts, SC.Implements, SCR.Scaled, SCC.ViewAt, SCC.UpTo;
    WeightsAddUp(cfg, decide, reqs, j, j);
    assert SCC.Moves(cfg, reqs, j, j) == 0;
    SCC.CountsAreMoves(cfg, decide, reqs, j);
    var view := SCC.ViewAt(cfg, decide, reqs, j);
    ScaledByParts(cfg, view.prevCount, view.currCount, SC.OffsetOf(cfg, reqs[j].now));
  }

  lemma WeightedIsScaled(cfg: SC.Config, s: SC.State, offset: nat)
    requires offset < cfg.windowSecs
    ensures SC.Weighted(cfg, s, offset) * cfg.windowSecs as real
         == SCR.Scaled(cfg, s.prevCount, s.currCount, offset) as real
  {
    SCR.WeightTimesWindow(s.prevCount as real, s.currCount as real, offset as real, cfg.windowSecs as real);
    SCR.ScaledAsReal(cfg, s.prevCount, s.currCount, offset);
  }

  lemma SameWeighted(cfg: SC.Config, s: SC.State, t: SC.State, offset: nat)
    requires offset < cfg.windowSecs
    requires SCR.Scaled(cfg, s.prevCount, s.currCount, offset) == SCR.Scaled(cfg, t.prevCount, t.currCount, offset)
    ensures SC.Weighted(cfg, s, offset) == SC.Weighted(cfg, t, offset)
  {
    var x, y, width := SC.Weighted(cfg, s, offset), SC.Weighted(cfg, t, offset), cfg.windowSecs as real;
    WeightedIsScaled(cfg, s, offset);
    WeightedIsScaled(cfg, t, offset);
    hide SC.Weighted;
    SCR.OrderTimesWindow(x, y, width);
    SCR.OrderTimesWindow(y, x, width);
  }

  /** A decision depends on the estimate alone. */
  lemma CounterByEstimate(cfg: SC.Config, decide: Decider<SC.State>, stored: Option<SC.State>, s: SC.State, now: nat,
                          cost: U32)
    requires SC.Implements(cfg, decide) && s.currWindowId == SC.WindowOf(cfg, now)
    requires var view := SC.Rolled(cfg, SC.Found(cfg, stored, now), now);
             SCR.Estimate(cfg, view, now) == SCR.Estimate(cfg, s, now)
    ensures decide(stored, now, cost).decision == SC.Step(cfg, s, now, cost).decision
  {
    var view := SC.Rolled(cfg, SC.Found(cfg, stored, now), now);
    var _ := SC.Attempt(cfg, stored, now, cost);
    SameWeighted(cfg, view, s, SC.OffsetOf(cfg, now));
    assert SC.Rolled(cfg, s, now) == s;
  }

  lemma {:induction false} CounterTold(cfg: SC.Config, decide: Decider<SC.State>, reqs: seq<Request>)
    requires SC.Implements(cfg, decide) && WeightsKept(cfg, reqs)
    ensures Told(decide, CounterTeller(cfg), reqs)
  {
    forall n | 0 <= n < |reqs| ensures ToldAt(decide, CounterTeller(cfg), reqs, n) {
      EstimateTold(cfg, decide, reqs, n);
      CounterByEstimate(cfg, decide, Replay(decide, reqs[..n]),
                        OwnCounts(cfg, ChargedRun(decide, reqs[..n]), reqs[n].now), reqs[n].now, reqs[n].cost);
    }
  }

  lemma SlidingCounterHides(cfg: SC.Config, reqs: seq<Request>, keep: seq<bool>)
    requires |reqs| == |keep| && WeightsKept(cfg, reqs)
    ensures Hidden(SC.Decide(cfg), reqs, keep)
  {
    WeightsKeptToo(cfg, reqs, keep);
    CounterTold(cfg, SC.Decide(cfg), reqs);
    CounterTold(cfg, SC.Decide(cfg), Select(reqs, keep));
    HiddenIfTold(SC.Decide(cfg), CounterTeller(cfg), reqs, keep);
  }

  // ---- And needed ----

  lemma OverTheLimit(cfg: SC.Config, prev: nat, curr: nat, cost: nat, offset: nat)
    requires offset < cfg.windowSecs && cost > 0
    requires (prev == 0 && curr == cfg.windowSecs) || (prev == cost == cfg.windowSecs && curr == 0)
    ensures SCR.Scaled(cfg, prev, curr + cost, offset) > cfg.windowSecs * cfg.windowSecs
  {
    var d := cfg.windowSecs;
    if prev == 0 {
      MulMonotone(d, d + 1, curr + cost);
      MulSuccessor(d, d);
    } else {
      MulMonotone(d, 1, d - offset);
    }
  }

  lemma NoRoomForSecond(cfg: SC.Config, view: SC.State, now: nat, apart: nat, moves: nat)
    requires cfg.maxRequests == cfg.windowSecs && apart < moves
    requires Weight(cfg, moves, SC.OffsetOf(cfg, now)) < Weight(cfg, apart, SC.OffsetOf(cfg, now))
    requires view.prevCount == (if apart == 1 then cfg.windowSecs else 0)
    requires view.currCount == (if apart == 0 then cfg.windowSecs else 0)
    ensures var cost := if moves == 1 then SC.OffsetOf(cfg, now) else cfg.windowSecs;
            cost > 0 && SCR.Estimate(cfg, SCR.Charged(view, cost), now) > cfg.maxRequests * cfg.windowSecs
  {
    hide SC.OffsetOf, SCR.Scaled;
    if apart == 0 {
      OverTheLimit(cfg, 0, cfg.windowSecs, if moves == 1 then SC.OffsetOf(cfg, now) else cfg.windowSecs,
                   SC.OffsetOf(cfg, now));
    } else {
      OverTheLimit(cfg, cfg.windowSecs, 0, cfg.windowSecs, SC.OffsetOf(cfg, now));
    }
  }

  /** Right after one request for as much as the limit. */
  lemma {:induction false} AfterOne(cfg: SC.Config, decide: Decider<SC.State>, r: Request)
    requires SC.Implements(cfg, decide) && cfg.maxRequests == cfg.windowSecs == r.cost
    ensures Replay(decide, [r]) == Some(SC.State(0, r.cost, SC.WindowOf(cfg, r.now)))
  {
    RunExtended(decide, [], r);
    assert [] + [r] == [r];
    SCR.AttemptCounts(cfg, decide, None, r.now, r.cost);
  }

  lemma {:induction false} DeniedRightAfter(cfg: SC.Config, decide: Decider<SC.State>, r: Request, q: Request,
                                            moves: nat)
    requires SC.Implements(cfg, decide) && cfg.maxRequests == cfg.windowSecs == r.cost
    requires var apart := SaturatingSub(SC.WindowOf(cfg, q.now), SC.WindowOf(cfg, r.now));
             && apart < moves
             && Weight(cfg, moves, SC.OffsetOf(cfg, q.now)) < Weight(cfg, apart, SC.OffsetOf(cfg, q.now))
    requires q.cost == if moves == 1 then SC.OffsetOf(cfg, q.now) else cfg.windowSecs
    ensures q.cost > 0 && !Next(decide, [r], q).decision.allowed
  {
    hide SC.WindowOf, SC.OffsetOf;
    var apart := SaturatingSub(SC.WindowOf(cfg, q.now), SC.WindowOf(cfg, r.now));
    var stored := Some(SC.State(0, r.cost, SC.WindowOf(cfg, r.now)));
    AfterOne(cfg, decide, r);
    NoRoomForSecond(cfg, SC.Rolled(cfg, stored.value, q.now), q.now, apart, moves);
    SCR.AttemptCounts(cfg, decide, stored, q.now, q.cost);
  }

  lemma {:induction false} WeightFalls(cfg: SC.Config, reqs: seq<Request>, h: nat, j: nat)
    requires h < j < |reqs| && !Weighed(cfg, reqs, h, j)
    ensures var moves, apart := SCC.Moves(cfg, reqs, h, j), Apart(cfg, reqs, h, j);
            && apart < moves
            && Weight(cfg, moves, SC.OffsetOf(cfg, reqs[j].now)) < Weight(cfg, apart, SC.OffsetOf(cfg, reqs[j].now))
  {
    MovesReach(cfg, reqs, h, j);
  }

  /** With limit and first request as large as the window is long, the readings in between wear the charge down. */
  lemma {:induction false} WearShowsDenials(cfg: SC.Config, clock: seq<Request>, h: nat, j: nat)
    requires cfg.maxRequests == cfg.windowSecs < U32_LIMIT - 1
    requires h < j < |clock| && !Weighed(cfg, clock, h, j)
    ensures !AlwaysHides(SC.Decide(cfg), clock)
  {
    var decide, w := SC.Decide(cfg), cfg.windowSecs;
    var reqs := Asking(clock, h, w, j, SCC.Extra(cfg, clock, h, j), w + 1);
    SCC.SameMoves(cfg, clock, cfg, reqs, h, j);
    WeightFalls(cfg, reqs, h, j);
    DeniedRightAfter(cfg, decide, reqs[h], reqs[j], SCC.Moves(cfg, reqs, h, j));
    SCC.OneChargeRun(cfg, decide, reqs, h, j, j);
    SCC.SecondAdmitted(cfg, decide, reqs, h, j);
    forall k | 0 <= k < |reqs| && k != h && k != j ensures !Next(decide, reqs[..k], reqs[k]).decision.allowed {
      SCC.TooMuchIsDenied(cfg, decide, Replay(decide, reqs[..k]), reqs[k]);
    }
    if AlwaysHides(decide, clock) { OnlyTwo(decide, clock, reqs, h, j); }
  }

  lemma {:induction false} SameWeighed(cfg: SC.Config, reqs: seq<Request>, other: SC.Config, reqs': seq<Request>,
                                       h: nat, j: nat)
    requires cfg.windowSecs == other.windowSecs && SameClock(reqs, reqs') && h < j < |reqs|
    ensures Weighed(cfg, reqs, h, j) <==> Weighed(other, reqs', h, j)
  {
    SCC.SameMoves(cfg, reqs, other, reqs', h, j);
  }

  /** Denied checks leave no trace in a sliding window counter on exactly the clocks that keep every weight. */
  lemma SlidingCounterHidesExactly(cfg: SC.Config, clock: seq<Request>)
    requires cfg.windowSecs < U32_LIMIT - 1
    ensures (forall c: SC.Config :: c.windowSecs == cfg.windowSecs ==> AlwaysHides(SC.Decide(c), clock))
       <==> WeightsKept(cfg, clock)
  {
    if WeightsKept(cfg, clock) {
      forall c: SC.Config, reqs: seq<Request>, keep: seq<bool>
        | c.windowSecs == cfg.windowSecs && SameClock(reqs, clock) && |reqs| == |keep|
        ensures Hidden(SC.Decide(c), reqs, keep)
      {
        forall h, j | 0 <= h < j < |reqs| ensures Weighed(c, reqs, h, j) {
          assert Weighed(cfg, clock, h, j);
          SameWeighed(cfg, clock, c, reqs, h, j);
        }
        SlidingCounterHides(c, reqs, keep);
      }
    } else {
      var h, j :| 0 <= h < j < |clock| && !Weighed(cfg, clock, h, j);
      var big: SC.Config := SC.Parameters(cfg.windowSecs, cfg.windowSecs);
      SameWeighed(cfg, clock, big, clock, h, j);
      WearShowsDenials(big, clock, h, j);
    }
  }

  /** Readings may go back inside a window, as long as none goes back into an earlier one. */
  lemma WindowsInOrderKeepWeights(cfg: SC.Config, reqs: seq<Request>)
    requires SCR.WindowsInOrder(cfg, reqs)
    ensures WeightsKept(cfg, reqs)
  {
    forall h, j | 0 <= h < j < |reqs| ensures Weighed(cfg, reqs, h, j) {
      SCC.MovesInOrder(cfg, reqs, h, j);
    }
  }
}
