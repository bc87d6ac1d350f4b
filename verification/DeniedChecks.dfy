/**
 A denied check writes state. No later check can tell if every decision is told by the commits that
 charged something: then deleting any set of denied commits leaves every other decision as it was.
 */
module DeniedChecks {
  import opened Limiter
  import opened Runs

  /** The elements of `xs` that are marked to be kept. */
  function Select<T>(xs: seq<T>, keep: seq<bool>): seq<T>
    requires |xs| == |keep|
  {
    if xs == [] then [] else
    var n := |xs| - 1;
    var kept := Select(xs[..n], keep[..n]);
    if keep[n] then kept + [xs[n]] else kept
  }

  lemma {:induction false} SelectExtended<T>(xs: seq<T>, keep: seq<bool>, x: T, b: bool)
    requires |xs| == |keep|
    ensures b ==> Select(xs + [x], keep + [b]) == Select(xs, keep) + [x]
    ensures !b ==> Select(xs + [x], keep + [b]) == Select(xs, keep)
  {
    assert (xs + [x])[..|xs|] == xs && (keep + [b])[..|keep|] == keep;
  }

  /** Where the `k`-th kept element came from. */
  function Origin<T>(xs: seq<T>, keep: seq<bool>, k: nat): (i: nat)
    requires |xs| == |keep| && k < |Select(xs, keep)|
    ensures i < |xs| && keep[i] && Select(xs, keep)[k] == xs[i]
  {
    var n := |xs| - 1;
    if keep[n] && k == |Select(xs[..n], keep[..n])| then n else Origin(xs[..n], keep[..n], k)
  }

  lemma {:induction false} OriginsInOrder<T>(xs: seq<T>, keep: seq<bool>, k: nat, l: nat)
    requires |xs| == |keep| && k < l < |Select(xs, keep)|
    ensures Origin(xs, keep, k) < Origin(xs, keep, l)
  {
    var n := |xs| - 1;
    if !(keep[n] && l == |Select(xs[..n], keep[..n])|) {
      OriginsInOrder(xs[..n], keep[..n], k, l);
    }
  }

  /** Everything dropped from the run was denied in it. */
  ghost predicate DropsOnlyDenied<V>(decide: Decider<V>, reqs: seq<Request>, keep: seq<bool>)
    requires |reqs| == |keep|
  {
    forall k :: 0 <= k < |reqs| ==> keep[k] || !Decisions(decide, reqs)[k].allowed
  }

  /** Deleting these denied commits leaves every other decision unchanged. */
  ghost predicate Hidden<V>(decide: Decider<V>, reqs: seq<Request>, keep: seq<bool>)
    requires |reqs| == |keep|
  {
    DropsOnlyDenied(decide, reqs, keep)
    ==> Decisions(decide, Select(reqs, keep)) == Select(Decisions(decide, reqs), keep)
  }

  lemma {:induction false} DropsOnlyDeniedBefore<V>(decide: Decider<V>, reqs: seq<Request>, keep: seq<bool>)
    requires |reqs| == |keep| > 0 && DropsOnlyDenied(decide, reqs, keep)
    ensures var n := |reqs| - 1;
            && DropsOnlyDenied(decide, reqs[..n], keep[..n])
            && Decisions(decide, reqs) == Decisions(decide, reqs[..n]) + [Next(decide, reqs[..n], reqs[n]).decision]
            && (keep[n] || !Next(decide, reqs[..n], reqs[n]).decision.allowed)
  {
    var n := |reqs| - 1;
    assert reqs == reqs[..n] + [reqs[n]];
    RunExtended(decide, reqs[..n], reqs[n]);
    forall k | 0 <= k < n ensures keep[..n][k] || !Decisions(decide, reqs[..n])[k].allowed {
      assert keep[k] || !Decisions(decide, reqs)[k].allowed;
    }
    assert keep[n] || !Decisions(decide, reqs)[n].allowed;
  }

  // ---- What a run was charged ----

  /** The commits that charged something, each with what it charged. */
  function ChargedRun<V>(decide: Decider<V>, reqs: seq<Request>): seq<Request> {
    if reqs == [] then [] else
    var n := |reqs| - 1;
    var before := ChargedRun(decide, reqs[..n]);
    var charge := NextCharge(decide, reqs[..n], reqs[n]);
    if charge > 0 then before + [Request(reqs[n].now, charge)] else before
  }

  lemma {:induction false} ChargedExtended<V>(decide: Decider<V>, reqs: seq<Request>, r: Request)
    ensures var charge := NextCharge(decide, reqs, r);
            && (charge > 0 ==> ChargedRun(decide, reqs + [r]) == ChargedRun(decide, reqs) + [Request(r.now, charge)])
            && (charge == 0 ==> ChargedRun(decide, reqs + [r]) == ChargedRun(decide, reqs))
  {
    assert (reqs + [r])[..|reqs|] == reqs;
  }

  /** The cost charged at the readings that satisfy `p`. */
  function CostWhere(charged: seq<Request>, p: nat -> bool): nat {
    if charged == [] then 0 else
    var n := |charged| - 1;
    CostWhere(charged[..n], p) + if p(charged[n].now) then charged[n].cost else 0
  }

  lemma {:induction false} AdmittedFromCharged<V>(decide: Decider<V>, reqs: seq<Request>, p: nat -> bool)
    ensures AdmittedWhere(decide, reqs, p) == CostWhere(ChargedRun(decide, reqs), p)
  {
    if reqs != [] {
      var n := |reqs| - 1;
      assert reqs == reqs[..n] + [reqs[n]];
      AdmittedFromCharged(decide, reqs[..n], p);
      AdmittedExtended(decide, reqs[..n], reqs[n], p);
    }
  }

  /** A decision, from what was charged before it. */
  type Teller = (seq<Request>, nat, U32) -> Decision

  /** Every decision of the run is told by what was charged before it. */
  ghost predicate Told<V>(decide: Decider<V>, tell: Teller, reqs: seq<Request>) {
    forall n :: 0 <= n < |reqs| ==> ToldAt(decide, tell, reqs, n)
  }

  ghost predicate ToldAt<V>(decide: Decider<V>, tell: Teller, reqs: seq<Request>, n: nat)
    requires n < |reqs|
  {
    Next(decide, reqs[..n], reqs[n]).decision == tell(ChargedRun(decide, reqs[..n]), reqs[n].now, reqs[n].cost)
  }

  lemma {:induction false} ToldBefore<V>(decide: Decider<V>, tell: Teller, reqs: seq<Request>, r: Request)
    requires Told(decide, tell, reqs + [r])
    ensures Told(decide, tell, reqs)
    ensures Next(decide, reqs, r).decision == tell(ChargedRun(decide, reqs), r.now, r.cost)
  {
    forall n | 0 <= n < |reqs| ensures ToldAt(decide, tell, reqs, n) {
      assert ToldAt(decide, tell, reqs + [r], n);
      assert (reqs + [r])[..n] == reqs[..n];
    }
    assert ToldAt(decide, tell, reqs + [r], |reqs|);
    assert (reqs + [r])[..|reqs|] == reqs;
  }

  /** A commit more, on both sides, decided alike and charged alike. */
  lemma {:induction false} KeptToo<V>(decide: Decider<V>, reqs: seq<Request>, kept: seq<Request>, r: Request)
    requires ChargedRun(decide, kept) == ChargedRun(decide, reqs)
    requires Next(decide, kept, r).decision == Next(decide, reqs, r).decision
    ensures ChargedRun(decide, kept + [r]) == ChargedRun(decide, reqs + [r])
    ensures Decisions(decide, kept + [r]) == Decisions(decide, kept) + [Next(decide, reqs, r).decision]
  {
    ChargedExtended(decide, kept, r);
    ChargedExtended(decide, reqs, r);
    RunExtended(decide, kept, r);
  }

  /** If both the run and what is left of it are told by what was charged, the denied commits leave no trace. */
  lemma {:induction false} DeniedLeaveNoTrace<V>(decide: Decider<V>, tell: Teller, reqs: seq<Request>, keep: seq<bool>)
    requires |reqs| == |keep| && DropsOnlyDenied(decide, reqs, keep)
    requires Told(decide, tell, reqs) && Told(decide, tell, Select(reqs, keep))
    ensures Decisions(decide, Select(reqs, keep)) == Select(Decisions(decide, reqs), keep)
    ensures ChargedRun(decide, Select(reqs, keep)) == ChargedRun(decide, reqs)
  {
    hide DropsOnlyDenied, Told, ChargedRun, Next;
    if reqs != [] {
      var n := |reqs| - 1;
      var front, r := reqs[..n], reqs[n];
      var kept := Select(front, keep[..n]);
      assert reqs == front + [r] && keep == keep[..n] + [keep[n]];
      DropsOnlyDeniedBefore(decide, reqs, keep);
      SelectExtended(front, keep[..n], r, keep[n]);
      SelectExtended(Decisions(decide, front), keep[..n], Next(decide, front, r).decision, keep[n]);
      ToldBefore(decide, tell, front, r);
      if keep[n] { ToldBefore(decide, tell, kept, r); }
      DeniedLeaveNoTrace(decide, tell, front, keep[..n]);
      if keep[n] {
        KeptToo(decide, front, kept, r);
      } else {
        ChargedExtended(decide, front, r);
        NothingCharged(decide, front, r);
      }
    }
  }

  lemma {:induction false} HiddenIfTold<V>(decide: Decider<V>, tell: Teller, reqs: seq<Request>, keep: seq<bool>)
    requires |reqs| == |keep| && Told(decide, tell, reqs) && Told(decide, tell, Select(reqs, keep))
    ensures Hidden(decide, reqs, keep)
  {
    if DropsOnlyDenied(decide, reqs, keep) { DeniedLeaveNoTrace(decide, tell, reqs, keep); }
  }

  /** Whatever the costs, and whichever denied commits are deleted from a run on this clock. */
  ghost predicate AlwaysHides<V(!new)>(decide: Decider<V>, clock: seq<Request>) {
    forall reqs: seq<Request>, keep: seq<bool> ::
      SameClock(reqs, clock) && |reqs| == |keep| ==> Hidden(decide, reqs, keep)
  }

  lemma NothingCharged<V>(decide: Decider<V>, reqs: seq<Request>, r: Request)
    requires !Next(decide, reqs, r).decision.allowed
    ensures NextCharge(decide, reqs, r) == 0
  {
  }

  // ---- Runs that keep two commits only ----

  /** Marks elements `h` and `j`, and no other. */
  predicate KeepsTwo(keep: seq<bool>, h: nat, j: nat) {
    forall k :: 0 <= k < |keep| ==> keep[k] == (k == h || k == j)
  }

  lemma {:induction false} SelectTwo<T>(xs: seq<T>, keep: seq<bool>, h: nat, j: nat)
    requires h < j && |xs| == |keep| && KeepsTwo(keep, h, j)
    ensures |xs| <= h ==> Select(xs, keep) == []
    ensures h < |xs| <= j ==> Select(xs, keep) == [xs[h]]
    ensures j < |xs| ==> Select(xs, keep) == [xs[h], xs[j]]
  {
    if xs != [] { SelectTwo(xs[..|xs| - 1], keep[..|xs| - 1], h, j); }
  }

  lemma SecondOfTwo<V>(decide: Decider<V>, r: Request, q: Request)
    ensures Decisions(decide, [r, q]) == [Next(decide, [], r).decision, Next(decide, [r], q).decision]
  {
    RunExtended(decide, [], r);
    RunExtended(decide, [r], q);
    assert [] + [r] == [r] && [r] + [q] == [r, q];
  }

  /** Every commit but `h` and `j` is denied. */
  ghost predicate DeniedElsewhere<V>(decide: Decider<V>, reqs: seq<Request>, h: nat, j: nat) {
    forall k :: 0 <= k < |reqs| && k != h && k != j ==> !Next(decide, reqs[..k], reqs[k]).decision.allowed
  }

  /** There is a marking that keeps just two. */
  function Two(n: nat, h: nat, j: nat): (keep: seq<bool>)
    ensures |keep| == n && KeepsTwo(keep, h, j)
  {
    if n == 0 then [] else Two(n - 1, h, j) + [n - 1 == h || n - 1 == j]
  }

  /** If the clock hides every denial, commit `j` is decided as if it came right after `h`. */
  lemma {:induction false} OnlyTwo<V(!new)>(decide: Decider<V>, clock: seq<Request>, reqs: seq<Request>, h: nat, j: nat)
    requires AlwaysHides(decide, clock) && SameClock(reqs, clock)
    requires h < j < |reqs| && DeniedElsewhere(decide, reqs, h, j)
    ensures Next(decide, [reqs[h]], reqs[j]).decision == Next(decide, reqs[..j], reqs[j]).decision
  {
    hide SameClock;
    var keep := Two(|reqs|, h, j);
    assert Hidden(decide, reqs, keep);
    SelectTwo(reqs, keep, h, j);
    SelectTwo(Decisions(decide, reqs), keep, h, j);
    SecondOfTwo(decide, reqs[h], reqs[j]);
    forall k | 0 <= k < |reqs| ensures keep[k] || !Decisions(decide, reqs)[k].allowed {
      DecisionAt(decide, reqs, k);
    }
    DecisionAt(decide, reqs, j);
  }
}
