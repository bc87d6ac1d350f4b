/**
 Runs of one decision function under one key: the commits in order, each with the clock reading
 it was decided with. Everything here holds for any decision function; the five algorithms
 supply theirs.
 */
module Runs {
  import opened Wrappers
  import opened Limiter

  /** One attempt: from what `get` returned, a clock reading and a cost, to what is written and answered. */
  type Decider<!V> = (Option<V>, nat, U32) -> Verdict<V>

  /** The state left by a run; nothing is stored before the first commit. */
  function Replay<V>(decide: Decider<V>, reqs: seq<Request>): Option<V> {
    if reqs == [] then None else
    var n := |reqs| - 1;
    Some(decide(Replay(decide, reqs[..n]), reqs[n].now, reqs[n].cost).state)
  }

  /** The decisions of a run, one per commit. */
  function Decisions<V>(decide: Decider<V>, reqs: seq<Request>): (ds: seq<Decision>)
    ensures |ds| == |reqs|
  {
    if reqs == [] then [] else
    var n := |reqs| - 1;
    Decisions(decide, reqs[..n]) + [decide(Replay(decide, reqs[..n]), reqs[n].now, reqs[n].cost).decision]
  }

  /** What a decision charges: the cost when it admits, nothing when it denies. */
  function Charge(d: Decision, cost: nat): nat {
    if d.allowed then cost else 0
  }

  /** The cost each commit of a run was charged. */
  function Charges<V>(decide: Decider<V>, reqs: seq<Request>): (cs: seq<nat>)
    ensures |cs| == |reqs|
  {
    if reqs == [] then [] else
    var n := |reqs| - 1;
    Charges(decide, reqs[..n])
    + [Charge(decide(Replay(decide, reqs[..n]), reqs[n].now, reqs[n].cost).decision, reqs[n].cost)]
  }

  /** The commit that request `r` would add to a run. */
  function Next<V>(decide: Decider<V>, reqs: seq<Request>, r: Request): Verdict<V> {
    decide(Replay(decide, reqs), r.now, r.cost)
  }

  function NextCharge<V>(decide: Decider<V>, reqs: seq<Request>, r: Request): nat {
    Charge(Next(decide, reqs, r).decision, r.cost)
  }

  /** A run extended by one commit. */
  lemma {:induction false} RunExtended<V>(decide: Decider<V>, reqs: seq<Request>, r: Request)
    ensures Replay(decide, reqs + [r]) == Some(Next(decide, reqs, r).state)
    ensures Decisions(decide, reqs + [r]) == Decisions(decide, reqs) + [Next(decide, reqs, r).decision]
    ensures Charges(decide, reqs + [r]) == Charges(decide, reqs) + [NextCharge(decide, reqs, r)]
  {
    assert (reqs + [r])[..|reqs|] == reqs;
  }

  /** The charges from commit `i` on, with one more commit. */
  lemma {:induction false} TailExtended<V>(decide: Decider<V>, reqs: seq<Request>, r: Request, i: nat)
    requires i <= |reqs|
    ensures Sum(Charges(decide, reqs + [r])[i..]) == Sum(Charges(decide, reqs)[i..]) + NextCharge(decide, reqs, r)
  {
    RunExtended(decide, reqs, r);
    SumOfTail(Charges(decide, reqs), NextCharge(decide, reqs, r), i);
  }

  /** A decision depends on the commits before it and on nothing later. */
  lemma {:induction false} DecisionsOfPrefix<V>(decide: Decider<V>, reqs: seq<Request>, n: nat)
    requires n <= |reqs|
    ensures Decisions(decide, reqs[..n]) == Decisions(decide, reqs)[..n]
    ensures Charges(decide, reqs[..n]) == Charges(decide, reqs)[..n]
  {
    if n == |reqs| {
      assert reqs[..n] == reqs;
    } else {
      var last := |reqs| - 1;
      DecisionsOfPrefix(decide, reqs[..last], n);
      assert reqs[..last][..n] == reqs[..n];
    }
  }

  lemma {:induction false} DecisionAt<V>(decide: Decider<V>, reqs: seq<Request>, j: nat)
    requires j < |reqs|
    ensures Decisions(decide, reqs)[j] == decide(Replay(decide, reqs[..j]), reqs[j].now, reqs[j].cost).decision
    ensures Charges(decide, reqs)[j] == Charge(Decisions(decide, reqs)[j], reqs[j].cost)
  {
    assert reqs[..j + 1] == reqs[..j] + [reqs[j]];
    DecisionsOfPrefix(decide, reqs, j + 1);
    RunExtended(decide, reqs[..j], reqs[j]);
  }

  /** The cost admitted by the commits whose clock reading satisfies `p`. */
  function AdmittedWhere<V>(decide: Decider<V>, reqs: seq<Request>, p: nat -> bool): nat {
    if reqs == [] then 0 else
    var n := |reqs| - 1;
    AdmittedWhere(decide, reqs[..n], p) + if p(reqs[n].now) then Charges(decide, reqs)[n] else 0
  }

  lemma {:induction false} AdmittedExtended<V>(decide: Decider<V>, reqs: seq<Request>, r: Request, p: nat -> bool)
    ensures AdmittedWhere(decide, reqs + [r], p)
         == AdmittedWhere(decide, reqs, p) + if p(r.now) then NextCharge(decide, reqs, r) else 0
  {
    assert (reqs + [r])[..|reqs|] == reqs;
    RunExtended(decide, reqs, r);
  }

  ghost predicate Below(p: nat -> bool, q: nat -> bool) {
    forall t: nat :: p(t) ==> q(t)
  }

  lemma {:induction false} AdmittedMonotone<V>(decide: Decider<V>, reqs: seq<Request>, p: nat -> bool, q: nat -> bool)
    requires Below(p, q)
    ensures AdmittedWhere(decide, reqs, p) <= AdmittedWhere(decide, reqs, q)
  {
    if reqs != [] {
      var n := |reqs| - 1;
      AdmittedMonotone(decide, reqs[..n], p, q);
      assert p(reqs[n].now) ==> q(reqs[n].now);
    }
  }

  ghost predicate Covers(p: nat -> bool, q: nat -> bool, r: nat -> bool) {
    forall t: nat :: p(t) ==> q(t) || r(t)
  }

  lemma {:induction false} AdmittedSplits<V>(decide: Decider<V>, reqs: seq<Request>, p: nat -> bool, q: nat -> bool,
                                             r: nat -> bool)
    requires Covers(p, q, r)
    ensures AdmittedWhere(decide, reqs, p) <= AdmittedWhere(decide, reqs, q) + AdmittedWhere(decide, reqs, r)
  {
    if reqs != [] {
      var n := |reqs| - 1;
      AdmittedSplits(decide, reqs[..n], p, q, r);
      assert p(reqs[n].now) ==> q(reqs[n].now) || r(reqs[n].now);
    }
  }

  ghost predicate NoneIn(reqs: seq<Request>, p: nat -> bool) {
    forall k :: 0 <= k < |reqs| ==> !p(reqs[k].now)
  }

  lemma {:induction false} AdmittedNone<V>(decide: Decider<V>, reqs: seq<Request>, p: nat -> bool)
    requires NoneIn(reqs, p)
    ensures AdmittedWhere(decide, reqs, p) == 0
  {
    if reqs != [] {
      AdmittedNone(decide, reqs[..|reqs| - 1], p);
    }
  }

  /** The same clock readings, whatever the costs. */
  ghost predicate SameClock(reqs: seq<Request>, other: seq<Request>) {
    |reqs| == |other| && forall k :: 0 <= k < |reqs| ==> reqs[k].now == other[k].now
  }

  /** `a` units asked for at commit `h` of a clock, `b` at commit `j`, `rest` everywhere else. */
  function Asking(clock: seq<Request>, h: nat, a: U32, j: nat, b: U32, rest: U32): (reqs: seq<Request>)
    ensures SameClock(reqs, clock)
    ensures forall k :: 0 <= k < |reqs| ==> reqs[k].cost == if k == h then a else if k == j then b else rest
  {
    seq(|clock|, k requires 0 <= k < |clock| =>
                   Request(clock[k].now, if k == h then a else if k == j then b else rest))
  }

  /** One unit asked for at commits `h` and `j` of a clock, nothing elsewhere. */
  function Probe(clock: seq<Request>, h: nat, j: nat): (reqs: seq<Request>)
    ensures SameClock(reqs, clock) && OneUnitAt(reqs, h, j)
  {
    Asking(clock, h, 1, j, 1, 0)
  }

  /** One unit is what commits `h` and `j` ask for, and no other. */
  predicate OneUnitAt(reqs: seq<Request>, h: nat, j: nat) {
    forall k :: 0 <= k < |reqs| ==> (reqs[k].cost == 1 <==> k == h || k == j)
  }

  /** `n` requests for one unit each, at one instant. */
  function Units(now: nat, n: nat): (reqs: seq<Request>)
    ensures |reqs| == n && forall k :: 0 <= k < n ==> reqs[k] == Request(now, 1)
  {
    if n == 0 then [] else Units(now, n - 1) + [Request(now, 1)]
  }

  lemma {:induction false} UnitsInOrder(first: nat, m: nat, second: nat, n: nat)
    requires first <= second
    ensures Nondecreasing(Units(first, m) + Units(second, n))
  {
  }

  /** The clock readings from `lo` to `hi`, in ms. */
  function InMs(lo: int, hi: int): nat -> bool {
    (now: nat) => lo <= now <= hi
  }

  /** Two limiters that charge alike admit alike. */
  lemma {:induction false} SameCharges<V, U>(a: Decider<V>, b: Decider<U>, reqs: seq<Request>, p: nat -> bool)
    requires Charges(a, reqs) == Charges(b, reqs)
    ensures AdmittedWhere(a, reqs, p) == AdmittedWhere(b, reqs, p)
  {
    if reqs != [] {
      var n := |reqs| - 1;
      DecisionsOfPrefix(a, reqs, n);
      DecisionsOfPrefix(b, reqs, n);
      SameCharges(a, b, reqs[..n], p);
    }
  }
}
