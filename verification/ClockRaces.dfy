/**
 What a clock that only goes forward guarantees about the times of the commits: nothing. A check
 reads the clock before the store, so the checks of any run at all can have read it in order.
 */
module ClockRaces {
  import opened Limiter
  import opened Protocol
  import opened ProtocolTheorems
  import opened StateStore

  /** The readings of the clock, in the order in which they were taken, never go back. */
  ghost predicate ClockForward<V>(events: seq<Event<V>>) {
    forall a, b :: 0 <= a < b < |events| && events[a].ReadClock? && events[b].ReadClock?
      ==> events[a].now <= events[b].now
  }

  /** All checks start: check `i` for the cost of commit `i`. */
  function Starts<V>(key: string, reqs: seq<Request>): seq<Event<V>> {
    if reqs == [] then [] else
    var n := |reqs| - 1;
    Starts(key, reqs[..n]) + [Start(n, key, reqs[n].cost)]
  }

  /** The checks below `k` whose commit is to carry the reading `t` take it. */
  function ReadsAt<V>(reqs: seq<Request>, k: nat, t: nat): seq<Event<V>>
    requires k <= |reqs|
  {
    if k == 0 then [] else
    var before := ReadsAt(reqs, k - 1, t);
    if reqs[k - 1].now == t then before + [ReadClock(k - 1, t)] else before
  }

  /** The clock goes from 0 to `t - 1`, and every check takes the reading it is to carry. */
  function ReadsBelow<V>(reqs: seq<Request>, t: nat): seq<Event<V>> {
    if t == 0 then [] else ReadsBelow(reqs, t - 1) + ReadsAt(reqs, |reqs|, t - 1)
  }

  /** The checks read the store and commit, one after the other, in the order of the run. */
  function Commits<V>(k: nat): seq<Event<V>> {
    if k == 0 then [] else Commits(k - 1) + [Event.Get(k - 1, false)] + [Event.Cas(k - 1, Fine)]
  }

  // ---- The states on the way ----

  /** Checks below `n` have started; those marked by `timed` have read the clock, and nobody has written. */
  ghost predicate Reading<V>(s: Sys<V>, key: string, reqs: seq<Request>, n: nat, timed: nat -> bool)
    requires n <= |reqs|
  {
    && s == Sys(Store(map[], 1), s.calls, {}, [])
    && (forall i {:trigger i in s.calls} :: i in s.calls <==> 0 <= i < n)
    && (forall i {:trigger s.calls[i]} :: 0 <= i < n ==>
          s.calls[i] == Call(key, reqs[i].cost, 0, 0, 0, if timed(i) then Timed(reqs[i].now) else Phase.Ready))
  }

  function Below(reqs: seq<Request>, t: nat): nat -> bool {
    (i: nat) => i < |reqs| && reqs[i].now < t
  }

  /** Those below `t`, and of those that carry `t` the ones below `k`. */
  function BelowAnd(reqs: seq<Request>, t: nat, k: nat): nat -> bool {
    (i: nat) => i < |reqs| && (reqs[i].now < t || (reqs[i].now == t && i < k))
  }

  /** The checks below `k` have committed the run so far; the others hold their clock readings. */
  ghost predicate Committing<V>(s: Sys<V>, key: string, reqs: seq<Request>, k: nat)
    requires k <= |reqs|
  {
    && (forall i {:trigger i in s.calls} :: i in s.calls <==> 0 <= i < |reqs|)
    && (forall i {:trigger s.calls[i]} :: k <= i < |reqs| ==>
          s.calls[i] == Call(key, reqs[i].cost, 0, 0, 0, Timed(reqs[i].now)))
    && CommitsOn(s.log, key) == reqs[..k] && OnlyCommits(s.log, key)
  }

  lemma OneStarts<V>(cfg: Config<V>, events: seq<Event<V>>, key: string, reqs: seq<Request>)
    requires Legal(cfg, events) && reqs != []
    requires Reading(After(cfg, events), key, reqs[..|reqs| - 1], |reqs| - 1, Below(reqs[..|reqs| - 1], 0))
    ensures var run := events + [Start(|reqs| - 1, key, reqs[|reqs| - 1].cost)];
            Legal(cfg, run) && Reading(After(cfg, run), key, reqs, |reqs|, Below(reqs, 0))
  {
    OneMore(cfg, events, Start(|reqs| - 1, key, reqs[|reqs| - 1].cost));
  }

  lemma {:induction false} AllStart<V>(cfg: Config<V>, key: string, reqs: seq<Request>)
    ensures Legal(cfg, Starts<V>(key, reqs))
    ensures Reading(After(cfg, Starts<V>(key, reqs)), key, reqs, |reqs|, Below(reqs, 0))
  {
    if reqs != [] {
      AllStart(cfg, key, reqs[..|reqs| - 1]);
      OneStarts(cfg, Starts<V>(key, reqs[..|reqs| - 1]), key, reqs);
    }
  }

  lemma OneReads<V>(cfg: Config<V>, events: seq<Event<V>>, key: string, reqs: seq<Request>, k: nat, t: nat)
    requires Legal(cfg, events) && k < |reqs|
    requires Reading(After(cfg, events), key, reqs, |reqs|, BelowAnd(reqs, t, k))
    ensures var run := if reqs[k].now == t then events + [ReadClock(k, t)] else events;
            Legal(cfg, run) && Reading(After(cfg, run), key, reqs, |reqs|, BelowAnd(reqs, t, k + 1))
  {
    if reqs[k].now == t {
      assert After(cfg, events).calls[k].phase == Phase.Ready;
      OneMore(cfg, events, ReadClock(k, t));
    }
  }

  lemma NoneAtOnce<V>(s: Sys<V>, key: string, reqs: seq<Request>, t: nat)
    requires Reading(s, key, reqs, |reqs|, Below(reqs, t))
    ensures Reading(s, key, reqs, |reqs|, BelowAnd(reqs, t, 0))
  {
  }

  lemma AllAtOnce<V>(s: Sys<V>, key: string, reqs: seq<Request>, t: nat)
    requires Reading(s, key, reqs, |reqs|, BelowAnd(reqs, t, |reqs|))
    ensures Reading(s, key, reqs, |reqs|, Below(reqs, t + 1))
  {
  }

  lemma OneReadMore<V>(events: seq<Event<V>>, reqs: seq<Request>, k: nat, t: nat)
    requires 0 < k <= |reqs|
    ensures events + ReadsAt<V>(reqs, k, t)
         == if reqs[k - 1].now == t then events + ReadsAt<V>(reqs, k - 1, t) + [ReadClock(k - 1, t)]
            else events + ReadsAt<V>(reqs, k - 1, t)
  {
  }

  lemma {:induction false} NoneReadYet<V>(events: seq<Event<V>>, reqs: seq<Request>, t: nat)
    ensures events + ReadsAt<V>(reqs, 0, t) == events
  {
  }

  lemma {:induction false} SomeRead<V>(cfg: Config<V>, events: seq<Event<V>>, key: string, reqs: seq<Request>, k: nat,
                                       t: nat)
    requires Legal(cfg, events) && k <= |reqs|
    requires Reading(After(cfg, events), key, reqs, |reqs|, Below(reqs, t))
    ensures Legal(cfg, events + ReadsAt<V>(reqs, k, t))
    ensures Reading(After(cfg, events + ReadsAt<V>(reqs, k, t)), key, reqs, |reqs|, BelowAnd(reqs, t, k))
  {
    hide Reading, Below, BelowAnd, Legal, After, ReadsAt;
    if k == 0 {
      NoneReadYet(events, reqs, t);
      NoneAtOnce(After(cfg, events), key, reqs, t);
    } else {
      SomeRead(cfg, events, key, reqs, k - 1, t);
      OneReads(cfg, events + ReadsAt<V>(reqs, k - 1, t), key, reqs, k - 1, t);
      OneReadMore(events, reqs, k, t);
    }
  }

  /** One tick of the clock. */
  lemma OneTick<V>(cfg: Config<V>, events: seq<Event<V>>, key: string, reqs: seq<Request>, t: nat)
    requires Legal(cfg, events) && Reading(After(cfg, events), key, reqs, |reqs|, Below(reqs, t))
    ensures Legal(cfg, events + ReadsAt<V>(reqs, |reqs|, t))
    ensures Reading(After(cfg, events + ReadsAt<V>(reqs, |reqs|, t)), key, reqs, |reqs|, Below(reqs, t + 1))
  {
    SomeRead(cfg, events, key, reqs, |reqs|, t);
    AllAtOnce(After(cfg, events + ReadsAt<V>(reqs, |reqs|, t)), key, reqs, t);
  }

  lemma {:induction false} AllRead<V>(cfg: Config<V>, events: seq<Event<V>>, key: string, reqs: seq<Request>, t: nat)
    requires Legal(cfg, events) && Reading(After(cfg, events), key, reqs, |reqs|, Below(reqs, 0))
    ensures Legal(cfg, events + ReadsBelow<V>(reqs, t))
    ensures Reading(After(cfg, events + ReadsBelow<V>(reqs, t)), key, reqs, |reqs|, Below(reqs, t))
  {
    hide Reading, Below, ReadsAt, Legal, After;
    if t == 0 {
      assert events + ReadsBelow<V>(reqs, t) == events;
    } else {
      AllRead(cfg, events, key, reqs, t - 1);
      OneTick(cfg, events + ReadsBelow<V>(reqs, t - 1), key, reqs, t - 1);
      assert events + ReadsBelow<V>(reqs, t - 1) + ReadsAt<V>(reqs, |reqs|, t - 1) == events + ReadsBelow<V>(reqs, t);
    }
  }

  lemma AllTimed<V>(s: Sys<V>, key: string, reqs: seq<Request>, t: nat)
    requires Reading(s, key, reqs, |reqs|, Below(reqs, t))
    requires forall i :: 0 <= i < |reqs| ==> reqs[i].now < t
    ensures Committing(s, key, reqs, 0)
  {
  }

  lemma {:induction false} CommitLogged<V>(log: seq<Write<V>>, w: Write<V>, key: string)
    requires w.Commit? && w.key == key && OnlyCommits(log, key)
    ensures CommitsOn(log + [w], key) == CommitsOn(log, key) + [Request(w.now, w.cost)]
    ensures OnlyCommits(log + [w], key)
  {
    assert (log + [w])[..|log|] == log;
  }

  /** A check that goes on at once from its reading of the store commits. */
  lemma GetAndCas<V>(cfg: Config<V>, s: Sys<V>, key: string, reqs: seq<Request>, k: nat)
    requires k < |reqs| && Committing(s, key, reqs, k)
    ensures Enabled(s, Event.Get(k, false))
    ensures Enabled(Stepped(cfg, s, Event.Get(k, false)), Event.Cas(k, Fine))
    ensures Committing(Stepped(cfg, Stepped(cfg, s, Event.Get(k, false)), Event.Cas(k, Fine)), key, reqs, k + 1)
  {
    assert s.calls[k] == Call(key, reqs[k].cost, 0, 0, 0, Timed(reqs[k].now));
    var got := GetStep(s, k, false);
    var w := CasStep(cfg, got, k, Fine).log[|s.log|];
    CommitLogged(s.log, w, key);
    assert Request(w.now, w.cost) == reqs[k] && reqs[..k] + [reqs[k]] == reqs[..k + 1];
  }

  lemma {:induction false} AllCommit<V>(cfg: Config<V>, events: seq<Event<V>>, key: string, reqs: seq<Request>, k: nat)
    requires Legal(cfg, events) && k <= |reqs| && Committing(After(cfg, events), key, reqs, 0)
    ensures Legal(cfg, events + Commits<V>(k))
    ensures Committing(After(cfg, events + Commits<V>(k)), key, reqs, k)
  {
    hide Committing, Stepped, Enabled, Legal, After;
    if k == 0 {
      assert events + Commits<V>(k) == events;
    } else {
      AllCommit(cfg, events, key, reqs, k - 1);
      var before := events + Commits<V>(k - 1);
      GetAndCas(cfg, After(cfg, before), key, reqs, k - 1);
      OneMore(cfg, before, Event.Get(k - 1, false));
      OneMore(cfg, before + [Event.Get(k - 1, false)], Event.Cas(k - 1, Fine));
      assert before + [Event.Get(k - 1, false)] + [Event.Cas(k - 1, Fine)] == events + Commits<V>(k);
    }
  }

  // ---- The clock, and faults ----

  /** No request fails, and every reading of the clock is below `t`. */
  ghost predicate CalmBelow<V>(events: seq<Event<V>>, t: nat) {
    forall a :: 0 <= a < |events| ==> Faultless(events[a]) && (events[a].ReadClock? ==> events[a].now < t)
  }

  lemma {:induction false} StartsCalm<V>(key: string, reqs: seq<Request>)
    ensures CalmBelow(Starts<V>(key, reqs), 0)
  {
    if reqs != [] { StartsCalm<V>(key, reqs[..|reqs| - 1]); }
  }

  lemma {:induction false} CommitsCalm<V>(k: nat)
    ensures CalmBelow(Commits<V>(k), 0)
  {
    if k > 0 { CommitsCalm<V>(k - 1); }
  }

  lemma {:induction false} ReadsAtOnce<V>(reqs: seq<Request>, k: nat, t: nat)
    requires k <= |reqs|
    ensures forall a :: 0 <= a < |ReadsAt<V>(reqs, k, t)| ==>
              ReadsAt<V>(reqs, k, t)[a].ReadClock? && ReadsAt<V>(reqs, k, t)[a].now == t
  {
    if k > 0 { ReadsAtOnce<V>(reqs, k - 1, t); }
  }

  lemma {:induction false} ReadsForward<V>(reqs: seq<Request>, t: nat)
    ensures CalmBelow(ReadsBelow<V>(reqs, t), t) && ClockForward(ReadsBelow<V>(reqs, t))
  {
    if t > 0 {
      ReadsForward<V>(reqs, t - 1);
      ReadsAtOnce<V>(reqs, |reqs|, t - 1);
    }
  }

  lemma JoinedForward<V>(before: seq<Event<V>>, readings: seq<Event<V>>, after: seq<Event<V>>, t: nat)
    requires CalmBelow(before, 0) && CalmBelow(after, 0) && CalmBelow(readings, t) && ClockForward(readings)
    ensures ClockForward(before + readings + after) && AllFaultless(before + readings + after)
  {
  }

  function PastAll(reqs: seq<Request>): (t: nat)
    ensures forall i :: 0 <= i < |reqs| ==> reqs[i].now < t
  {
    if reqs == [] then 0 else
    var n := |reqs| - 1;
    var t := PastAll(reqs[..n]);
    if reqs[n].now < t then t else reqs[n].now + 1
  }

  /** Checks that read the clock in order, and commit the given run. */
  function Race<V>(key: string, reqs: seq<Request>): seq<Event<V>> {
    Starts(key, reqs) + ReadsBelow(reqs, PastAll(reqs)) + Commits(|reqs|)
  }

  /**
   Every run of commits, whatever its clock readings, is what some interleaving commits to a key
   without any fault and on a clock that only goes forward. So the runs on which a bound fails do
   happen, on exactly the clock readings that the theorems about clocks name.
   */
  lemma {:induction false} EveryRunHappens<V>(cfg: Config<V>, key: string, reqs: seq<Request>)
    ensures var events := Race<V>(key, reqs);
            && Legal(cfg, events) && AllFaultless(events) && ClockForward(events)
            && CommitsOn(After(cfg, events).log, key) == reqs
            && OnlyCommits(After(cfg, events).log, key)
  {
    var t := PastAll(reqs);
    AllStart(cfg, key, reqs);
    AllRead(cfg, Starts<V>(key, reqs), key, reqs, t);
    var read := Starts<V>(key, reqs) + ReadsBelow<V>(reqs, t);
    AllTimed(After(cfg, read), key, reqs, t);
    AllCommit(cfg, read, key, reqs, |reqs|);
    assert reqs[..|reqs|] == reqs;
    StartsCalm<V>(key, reqs);
    ReadsForward<V>(reqs, t);
    CommitsCalm<V>(|reqs|);
    JoinedForward(Starts<V>(key, reqs), ReadsBelow<V>(reqs, t), Commits<V>(|reqs|), t);
  }
}
