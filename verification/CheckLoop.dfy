/**
 The loop around every decision, as a run of the protocol: what one check does, step by step, and
 what others do around its two requests. Others take steps of the protocol: they start checks,
 read, commit, and put.
 */
module CheckLoop {
  import opened Limiter
  import opened Protocol
  import opened ProtocolInvariant
  import opened ProtocolTheorems
  import opened Runs
  import opened StateStore
  import opened Wrappers

  /** What one attempt meets: the clock reading, what others do before each of its two requests, and their faults. */
  datatype Moment<+V> = Moment(now: nat, beforeGet: seq<Event<V>>, getFails: bool,
                               beforeCas: seq<Event<V>>, fault: Fault, rereadFails: bool)

  /** A step that cannot be taken is not taken. */
  function Take<V>(cfg: Config<V>, s: Sys<V>, e: Event<V>): Sys<V> {
    if Enabled(s, e) then Stepped(cfg, s, e) else s
  }

  predicate StepOf<V>(e: Event<V>, p: Pid) {
    !e.Draw? && !e.Insert? && e.pid == p
  }

  /**
   What others can do while check `p` waits. In the same process no request fails; over etcd a
   `put` is one step, so what it inserts is the newest version.
   */
  predicate Possible<V>(remote: bool, p: Pid, s: Sys<V>, e: Event<V>) {
    && Enabled(s, e) && !StepOf(e, p)
    && if remote then e.Insert? ==> e.version == s.store.next - 1 else Faultless(e)
  }

  /** The steps of `events` that others can take. */
  function Around<V>(cfg: Config<V>, remote: bool, p: Pid, s: Sys<V>, events: seq<Event<V>>): Sys<V> {
    if events == [] then s else
    var n := |events| - 1;
    var before := Around(cfg, remote, p, s, events[..n]);
    if Possible(remote, p, before, events[n]) then Stepped(cfg, before, events[n]) else before
  }

  /** The fault that a `cas` meets: a store in the same process has none. */
  function Met(remote: bool, fault: Fault): Fault {
    if remote then fault else Fine
  }

  /** An attempt up to its `get`. */
  function Asked<V>(cfg: Config<V>, remote: bool, p: Pid, m: Moment<V>, s: Sys<V>): Sys<V> {
    Around(cfg, remote, p, Take(cfg, s, ReadClock(p, m.now)), m.beforeGet)
  }

  /** An attempt up to its `cas`. */
  function Opened<V>(cfg: Config<V>, remote: bool, p: Pid, m: Moment<V>, s: Sys<V>): Sys<V> {
    Around(cfg, remote, p, Take(cfg, Asked(cfg, remote, p, m, s), Event.Get(p, remote && m.getFails)), m.beforeCas)
  }

  function OneAttempt<V>(cfg: Config<V>, remote: bool, p: Pid, m: Moment<V>, s: Sys<V>): Sys<V> {
    Take(cfg, Opened(cfg, remote, p, m, s), Event.Cas(p, Met(remote, m.fault)))
  }

  /** The check is about to start another attempt. */
  predicate Ready<V>(s: Sys<V>, p: Pid) {
    p in s.calls && s.calls[p].phase.Ready?
  }

  /** The rest of a check: attempts until it returns. */
  function CheckRun<V>(cfg: Config<V>, remote: bool, p: Pid, sched: seq<Moment<V>>, s: Sys<V>): Sys<V> {
    if sched == [] || !Ready(s, p) then s
    else CheckRun(cfg, remote, p, sched[1..], OneAttempt(cfg, remote, p, sched[0], s))
  }

  // ---- Nothing here leaves the protocol ----

  /** The state is one of the protocol's, of a store in the same process if `local`. */
  ghost predicate Reached<V(!new)>(cfg: Config<V>, local: bool, s: Sys<V>) {
    exists events :: Legal(cfg, events) && (local ==> AllFaultless(events)) && After(cfg, events) == s
  }

  lemma TakeReached<V(!new)>(cfg: Config<V>, local: bool, s: Sys<V>, e: Event<V>)
    requires Reached(cfg, local, s) && (local ==> Faultless(e))
    ensures Reached(cfg, local, Take(cfg, s, e))
  {
    var events :| Legal(cfg, events) && (local ==> AllFaultless(events)) && After(cfg, events) == s;
    if Enabled(s, e) {
      OneMore(cfg, events, e);
      assert local ==> AllFaultless(events + [e]);
    }
  }

  lemma {:induction false} AroundReached<V(!new)>(cfg: Config<V>, remote: bool, p: Pid, s: Sys<V>,
                                                  events: seq<Event<V>>)
    requires Reached(cfg, !remote, s)
    ensures Reached(cfg, !remote, Around(cfg, remote, p, s, events))
  {
    if events != [] {
      var n := |events| - 1;
      AroundReached(cfg, remote, p, s, events[..n]);
      var before := Around(cfg, remote, p, s, events[..n]);
      if Possible(remote, p, before, events[n]) {
        TakeReached(cfg, !remote, before, events[n]);
      }
    }
  }

  lemma AttemptReached<V(!new)>(cfg: Config<V>, remote: bool, p: Pid, m: Moment<V>, s: Sys<V>)
    requires Reached(cfg, !remote, s)
    ensures Reached(cfg, !remote, OneAttempt(cfg, remote, p, m, s))
  {
    var timed := Take(cfg, s, ReadClock(p, m.now));
    TakeReached(cfg, !remote, s, ReadClock(p, m.now));
    AroundReached(cfg, remote, p, timed, m.beforeGet);
    var asked := Asked(cfg, remote, p, m, s);
    TakeReached(cfg, !remote, asked, Event.Get(p, remote && m.getFails));
    AroundReached(cfg, remote, p, Take(cfg, asked, Event.Get(p, remote && m.getFails)), m.beforeCas);
    TakeReached(cfg, !remote, Opened(cfg, remote, p, m, s), Event.Cas(p, Met(remote, m.fault)));
  }

  /**
   Whatever others do around a check, and whatever fails, what it leaves behind is a state of the
   protocol: the theorems about every interleaving hold of it.
   */
  lemma {:induction false} CheckIsInterleaving<V(!new)>(cfg: Config<V>, remote: bool, p: Pid, sched: seq<Moment<V>>,
                                                        s: Sys<V>)
    requires Reached(cfg, !remote, s)
    ensures Reached(cfg, !remote, CheckRun(cfg, remote, p, sched, s))
    decreases |sched|
  {
    if sched != [] && Ready(s, p) {
      AttemptReached(cfg, remote, p, sched[0], s);
      CheckIsInterleaving(cfg, remote, p, sched[1..], OneAttempt(cfg, remote, p, sched[0], s));
    }
  }

  // ---- Keys that only checks write ----

  ghost predicate NoInserts<V>(events: seq<Event<V>>) {
    forall k :: 0 <= k < |events| ==> !events[k].Insert?
  }

  /** What others do around a check are checks of their own. */
  ghost predicate NobodyPuts<V>(sched: seq<Moment<V>>) {
    forall k :: 0 <= k < |sched| ==> NoInserts(sched[k].beforeGet) && NoInserts(sched[k].beforeCas)
  }

  lemma TakeKeepsCommits<V>(cfg: Config<V>, s: Sys<V>, e: Event<V>, key: string)
    requires OnlyCommits(s.log, key) && !e.Insert?
    ensures OnlyCommits(Take(cfg, s, e).log, key)
  {
  }

  lemma {:induction false} AroundKeepsCommits<V>(cfg: Config<V>, remote: bool, p: Pid, s: Sys<V>,
                                                 events: seq<Event<V>>, key: string)
    requires OnlyCommits(s.log, key) && NoInserts(events)
    ensures OnlyCommits(Around(cfg, remote, p, s, events).log, key)
  {
    if events != [] {
      var n := |events| - 1;
      AroundKeepsCommits(cfg, remote, p, s, events[..n], key);
      TakeKeepsCommits(cfg, Around(cfg, remote, p, s, events[..n]), events[n], key);
    }
  }

  lemma AttemptKeepsCommits<V>(cfg: Config<V>, remote: bool, p: Pid, m: Moment<V>, s: Sys<V>, key: string)
    requires OnlyCommits(s.log, key) && NoInserts(m.beforeGet) && NoInserts(m.beforeCas)
    ensures OnlyCommits(OneAttempt(cfg, remote, p, m, s).log, key)
  {
    hide Take, Around, OnlyCommits;
    TakeKeepsCommits(cfg, s, ReadClock(p, m.now), key);
    AroundKeepsCommits(cfg, remote, p, Take(cfg, s, ReadClock(p, m.now)), m.beforeGet, key);
    var asked := Asked(cfg, remote, p, m, s);
    TakeKeepsCommits(cfg, asked, Event.Get(p, remote && m.getFails), key);
    AroundKeepsCommits(cfg, remote, p, Take(cfg, asked, Event.Get(p, remote && m.getFails)), m.beforeCas, key);
    TakeKeepsCommits(cfg, Opened(cfg, remote, p, m, s), Event.Cas(p, Met(remote, m.fault)), key);
  }

  lemma {:induction false} CheckKeepsCommits<V>(cfg: Config<V>, remote: bool, p: Pid, sched: seq<Moment<V>>,
                                                s: Sys<V>, key: string)
    requires OnlyCommits(s.log, key) && NobodyPuts(sched)
    ensures OnlyCommits(CheckRun(cfg, remote, p, sched, s).log, key)
    decreases |sched|
  {
    if sched != [] && Ready(s, p) {
      AttemptKeepsCommits(cfg, remote, p, sched[0], s, key);
      CheckKeepsCommits(cfg, remote, p, sched[1..], OneAttempt(cfg, remote, p, sched[0], s), key);
    }
  }

  /** A fresh store of either kind is one of the protocol's; etcd's first write carries revision 2. */
  lemma FreshStoresReached<V(!new)>(cfg: Config<V>)
    ensures Reached(cfg, true, Sys(Store(map[], 1), map[], {}, []))
    ensures Reached(cfg, false, Sys(Store(map[], 2), map[], {1}, []))
  {
    var none: seq<Event<V>> := [];
    assert Legal(cfg, none) && AllFaultless(none) && After(cfg, none) == Sys(Store(map[], 1), map[], {}, []);
    OneMore(cfg, none, Draw);
    assert After(cfg, none + [Draw]) == Sys(Store(map[], 2), map[], {1}, []);
  }

  // ---- One check ----

  /** Check `p` is about to start an attempt with `left` attempts to go. */
  predicate Waits<V>(s: Sys<V>, p: Pid, key: string, cost: U32, left: nat) {
    && Ready(s, p)
    && s.calls[p].key == key && s.calls[p].cost == cost
    && s.calls[p].attempt + left == MAX_ATTEMPTS
  }

  /** Check `p` has read the clock and the store, in an attempt with `left` attempts to go. */
  ghost predicate Underway<V>(s: Sys<V>, p: Pid, key: string, cost: U32, left: nat, now: nat,
                              seen: Option<Versioned<V>>) {
    && p in s.calls
    && s.calls[p].key == key && s.calls[p].cost == cost
    && s.calls[p].attempt + left == MAX_ATTEMPTS
    && s.calls[p].phase.Holding? && s.calls[p].phase.now == now && s.calls[p].phase.seen == seen
  }

  predicate Returned<V>(s: Sys<V>, p: Pid, key: string, cost: U32, decision: Decision, committed: bool) {
    && p in s.calls
    && s.calls[p].key == key && s.calls[p].cost == cost
    && s.calls[p].phase.Done?
    && s.calls[p].phase.decision == decision && s.calls[p].phase.committed == committed
  }

  /** An attempt has ended: the check returns its answer, tries again, or gives up. */
  predicate Settled<V>(s: Sys<V>, p: Pid, key: string, cost: U32, left: nat, success: bool, answer: Decision,
                       limit: int) {
    && (success ==> Returned(s, p, key, cost, answer, true))
    && (!success && left > 1 ==> Waits(s, p, key, cost, left - 1))
    && (!success && left == 1 ==> Returned(s, p, key, cost, GiveUp(limit), false))
  }

  lemma {:induction false} AroundKeepsCall<V>(cfg: Config<V>, remote: bool, p: Pid, s: Sys<V>, events: seq<Event<V>>)
    ensures var s' := Around(cfg, remote, p, s, events);
            p in s'.calls <==> p in s.calls
    ensures var s' := Around(cfg, remote, p, s, events);
            p in s.calls ==> s'.calls[p] == s.calls[p]
  {
    if events != [] { AroundKeepsCall(cfg, remote, p, s, events[..|events| - 1]); }
  }

  /** What an attempt's `get` returns. */
  function Saw<V>(cfg: Config<V>, remote: bool, p: Pid, m: Moment<V>, s: Sys<V>, key: string): Option<Versioned<V>> {
    if remote && m.getFails then None else Lookup(Asked(cfg, remote, p, m, s).store, key)
  }

  lemma OpenedUnderway<V>(cfg: Config<V>, remote: bool, p: Pid, m: Moment<V>, s: Sys<V>, key: string, cost: U32,
                          left: nat)
    requires Waits(s, p, key, cost, left)
    ensures Underway(Opened(cfg, remote, p, m, s), p, key, cost, left, m.now, Saw(cfg, remote, p, m, s, key))
  {
    AroundKeepsCall(cfg, remote, p, Take(cfg, s, ReadClock(p, m.now)), m.beforeGet);
    var asked := Asked(cfg, remote, p, m, s);
    AroundKeepsCall(cfg, remote, p, Take(cfg, asked, Event.Get(p, remote && m.getFails)), m.beforeCas);
  }

  /** What the `cas` of an attempt does. */
  lemma CasSettles<V>(cfg: Config<V>, s: Sys<V>, p: Pid, fault: Fault, key: string, cost: U32, left: nat,
                      now: nat, seen: Option<Versioned<V>>)
    requires Underway(s, p, key, cost, left, now, seen) && left > 0
    ensures var s' := Take(cfg, s, Event.Cas(p, fault));
            var v := cfg.decide(ValueOf(seen), now, cost);
            var success := Matches(s.store, key, Expectation(seen)) && fault.Fine?;
            && s'.store == CasLeaves(s.store, key, Expectation(seen), v.state, fault)
            && Settled(s', p, key, cost, left, success, v.decision, cfg.limit)
  {
  }

  /** What a check passes back to `cas` is a version that was issued, so never 0. */
  lemma SeenVersionsAreIssued<V(!new)>(cfg: Config<V>, local: bool, s: Sys<V>, p: Pid)
    requires Reached(cfg, local, s) && p in s.calls && s.calls[p].phase.Holding?
    ensures Expectation(s.calls[p].phase.seen) != Some(0)
  {
    var events :| Legal(cfg, events) && (local ==> AllFaultless(events)) && After(cfg, events) == s;
    ReachableInv(cfg, events);
    assert CallOk(cfg.limit, s.store, s.drawn, s.log, p, s.calls[p]);
  }

  /** What an attempt comes to, from what its `get` returned and what it then decided. */
  lemma AttemptSettles<V(!new)>(cfg: Config<V>, remote: bool, p: Pid, m: Moment<V>, s: Sys<V>, key: string, cost: U32,
                                left: nat, found: Option<Versioned<V>>, v: Verdict<V>)
    requires Reached(cfg, !remote, s) && Waits(s, p, key, cost, left) && left > 0
    requires found == Saw(cfg, remote, p, m, s, key) && v == cfg.decide(ValueOf(found), m.now, cost)
    requires Reached(cfg, !remote, Opened(cfg, remote, p, m, s))
    ensures var found', s' := Opened(cfg, remote, p, m, s).store, OneAttempt(cfg, remote, p, m, s);
            var fault := Met(remote, m.fault);
            && Reached(cfg, !remote, s') && Expectation(found) != Some(0)
            && s'.store == CasLeaves(found', key, Expectation(found), v.state, fault)
            && Settled(s', p, key, cost, left, Matches(found', key, Expectation(found)) && fault.Fine?,
                       v.decision, cfg.limit)
  {
    hide Reached, Around, Take, Settled, Waits, Matches, Opened, Asked;
    AttemptReached(cfg, remote, p, m, s);
    OpenedUnderway(cfg, remote, p, m, s, key, cost, left);
    SeenVersionsAreIssued(cfg, !remote, Opened(cfg, remote, p, m, s), p);
    CasSettles(cfg, Opened(cfg, remote, p, m, s), p, Met(remote, m.fault), key, cost, left, m.now, found);
  }

  /** A check from its attempt number `i` on. */
  lemma {:induction false} Retried<V>(cfg: Config<V>, remote: bool, p: Pid, sched: seq<Moment<V>>, i: nat, s: Sys<V>)
    requires i < |sched| && Ready(s, p)
    ensures CheckRun(cfg, remote, p, sched[i..], s)
         == CheckRun(cfg, remote, p, sched[i + 1..], OneAttempt(cfg, remote, p, sched[i], s))
  {
    assert sched[i..][1..] == sched[i + 1..];
  }

  lemma {:induction false} NothingLeft<V>(cfg: Config<V>, remote: bool, p: Pid, sched: seq<Moment<V>>, s: Sys<V>)
    ensures CheckRun(cfg, remote, p, sched[|sched|..], s) == s
  {
  }

  lemma WaitsReady<V>(s: Sys<V>, p: Pid, key: string, cost: U32, left: nat)
    requires Waits(s, p, key, cost, left)
    ensures Ready(s, p)
  {
  }

  lemma ReturnedAsSaid<V>(s: Sys<V>, p: Pid, key: string, cost: U32, decision: Decision, committed: bool)
    requires Returned(s, p, key, cost, decision, committed)
    ensures p in s.calls && s.calls[p].key == key && s.calls[p].cost == cost && !Ready(s, p)
    ensures s.calls[p].phase.Done? && s.calls[p].phase.decision == decision
    ensures s.calls[p].phase.committed == committed
  {
  }

  /** The denial after five failed attempts: nothing remains, try again in 100 ms. */
  lemma GiveUpSpelled(limit: int)
    ensures GiveUp(limit) == Decision(false, limit, 0, 100)
  {
  }

  // ---- A check that nobody disturbs ----

  /** Its requests do not fail, and nobody changes the key between them. */
  ghost predicate Undisturbed<V>(cfg: Config<V>, remote: bool, p: Pid, m: Moment<V>, s: Sys<V>, key: string) {
    && (remote ==> !m.getFails && m.fault.Fine?)
    && Lookup(Opened(cfg, remote, p, m, s).store, key) == Lookup(Asked(cfg, remote, p, m, s).store, key)
  }

  /** It commits at once, and answers with the decision on what was stored. */
  lemma {:induction false} UndisturbedCommits<V>(cfg: Config<V>, remote: bool, p: Pid, sched: seq<Moment<V>>,
                                                 s: Sys<V>, key: string, cost: U32, left: nat)
    requires Waits(s, p, key, cost, left) && left > 0
    requires sched != [] && Undisturbed(cfg, remote, p, sched[0], s, key)
    ensures var v := cfg.decide(ValueOf(Lookup(Asked(cfg, remote, p, sched[0], s).store, key)), sched[0].now, cost);
            var s' := CheckRun(cfg, remote, p, sched, s);
            && Returned(s', p, key, cost, v.decision, true)
            && ValueOf(Lookup(s'.store, key)) == Some(v.state)
  {
    var m, seen := sched[0], Saw(cfg, remote, p, sched[0], s, key);
    OpenedUnderway(cfg, remote, p, m, s, key, cost, left);
    CasSettles(cfg, Opened(cfg, remote, p, m, s), p, Met(remote, m.fault), key, cost, left, m.now, seen);
    NothingMore(cfg, remote, p, sched[1..], OneAttempt(cfg, remote, p, m, s));
  }

  lemma {:induction false} NothingMore<V>(cfg: Config<V>, remote: bool, p: Pid, sched: seq<Moment<V>>, s: Sys<V>)
    requires !Ready(s, p)
    ensures CheckRun(cfg, remote, p, sched, s) == s
  {
  }

  // ---- Checks on one key, one after the other ----

  /** Nobody else does anything during the first attempt, and nothing fails. */
  ghost predicate Alone<V>(sched: seq<Moment<V>>, remote: bool) {
    && sched != [] && sched[0].beforeGet == [] && sched[0].beforeCas == []
    && (remote ==> !sched[0].getFails && sched[0].fault.Fine?)
  }

  ghost predicate AllAlone<V>(scheds: seq<seq<Moment<V>>>, remote: bool) {
    forall k :: 0 <= k < |scheds| ==> Alone(scheds[k], remote)
  }

  /** Check `first + k` asks for `costs[k]` on a schedule of its own, once the one before has returned. */
  function ChecksRun<V>(cfg: Config<V>, remote: bool, first: Pid, key: string, costs: seq<U32>,
                        scheds: seq<seq<Moment<V>>>, s: Sys<V>): Sys<V>
    requires |costs| == |scheds|
  {
    if costs == [] then s else
    var n := |costs| - 1;
    var before := ChecksRun(cfg, remote, first, key, costs[..n], scheds[..n], s);
    CheckRun(cfg, remote, first + n, scheds[n], Take(cfg, before, Start(first + n, key, costs[n])))
  }

  ghost predicate NoneFrom<V>(s: Sys<V>, first: Pid) {
    forall p {:trigger p in s.calls} :: first <= p ==> p !in s.calls
  }

  /** The commits that checks left alone make: each at its first clock reading. */
  function FirstReadings<V>(costs: seq<U32>, scheds: seq<seq<Moment<V>>>, remote: bool): seq<Request>
    requires |costs| == |scheds| && AllAlone(scheds, remote)
  {
    if costs == [] then [] else
    var n := |costs| - 1;
    FirstReadings(costs[..n], scheds[..n], remote) + [Request(scheds[n][0].now, costs[n])]
  }

  lemma StartWaits<V>(cfg: Config<V>, s: Sys<V>, p: Pid, key: string, cost: U32)
    requires p !in s.calls
    ensures var s' := Take(cfg, s, Start(p, key, cost));
            && Waits(s', p, key, cost, MAX_ATTEMPTS) && s'.store == s.store
            && s'.calls.Keys == s.calls.Keys + {p} && (forall q :: q in s.calls ==> s'.calls[q] == s.calls[q])
  {
  }

  /** An attempt that nobody else acts during: the store is as before when it asks, and when it tries. */
  lemma AloneAttempt<V>(cfg: Config<V>, remote: bool, p: Pid, m: Moment<V>, s: Sys<V>)
    requires Ready(s, p) && m.beforeGet == [] && m.beforeCas == []
    ensures Asked(cfg, remote, p, m, s).store == s.store && Opened(cfg, remote, p, m, s).store == s.store
    ensures var s' := OneAttempt(cfg, remote, p, m, s);
            s'.calls.Keys == s.calls.Keys && (forall q :: q in s.calls && q != p ==> s'.calls[q] == s.calls[q])
  {
  }

  /** A check that commits at its first attempt makes no other. */
  lemma {:induction false} SettledAtOnce<V>(cfg: Config<V>, remote: bool, p: Pid, sched: seq<Moment<V>>, s: Sys<V>,
                                            key: string, cost: U32)
    requires Waits(s, p, key, cost, MAX_ATTEMPTS) && sched != [] && Undisturbed(cfg, remote, p, sched[0], s, key)
    ensures CheckRun(cfg, remote, p, sched, s) == OneAttempt(cfg, remote, p, sched[0], s)
  {
    UndisturbedCommits(cfg, remote, p, [sched[0]], s, key, cost, MAX_ATTEMPTS);
    NothingMore(cfg, remote, p, sched[1..], OneAttempt(cfg, remote, p, sched[0], s));
  }

  lemma {:induction false} AloneCommits<V>(cfg: Config<V>, remote: bool, p: Pid, sched: seq<Moment<V>>, s: Sys<V>,
                                           key: string, cost: U32)
    requires Alone(sched, remote) && NoneFrom(s, p)
    ensures var v := cfg.decide(ValueOf(Lookup(s.store, key)), sched[0].now, cost);
            var s' := CheckRun(cfg, remote, p, sched, Take(cfg, s, Start(p, key, cost)));
            && Returned(s', p, key, cost, v.decision, true)
            && ValueOf(Lookup(s'.store, key)) == Some(v.state)
            && s'.calls.Keys == s.calls.Keys + {p} && (forall q :: q in s.calls ==> s'.calls[q] == s.calls[q])
  {
    hide Opened, Asked, OneAttempt, Stepped;
    var started := Take(cfg, s, Start(p, key, cost));
    StartWaits(cfg, s, p, key, cost);
    AloneAttempt(cfg, remote, p, sched[0], started);
    UndisturbedCommits(cfg, remote, p, sched, started, key, cost, MAX_ATTEMPTS);
    SettledAtOnce(cfg, remote, p, sched, started, key, cost);
  }

  /** The decisions of a sequential run, as those that the checks returned. */
  ghost predicate ReturnedAll<V>(s: Sys<V>, first: Pid, key: string, costs: seq<U32>, decisions: seq<Decision>) {
    && |costs| == |decisions|
    && forall k :: 0 <= k < |costs| ==> Returned(s, first + k, key, costs[k], decisions[k], true)
  }

  lemma ReturnedOneMore<V>(s: Sys<V>, s': Sys<V>, first: Pid, key: string, costs: seq<U32>, decisions: seq<Decision>,
                           cost: U32, decision: Decision)
    requires ReturnedAll(s, first, key, costs, decisions)
    requires forall q :: q in s.calls ==> q in s'.calls && s'.calls[q] == s.calls[q]
    requires Returned(s', first + |costs|, key, cost, decision, true)
    ensures ReturnedAll(s', first, key, costs + [cost], decisions + [decision])
  {
    forall k | 0 <= k < |costs| + 1
      ensures Returned(s', first + k, key, (costs + [cost])[k], (decisions + [decision])[k], true)
    {
      if k < |costs| { assert Returned(s, first + k, key, costs[k], decisions[k], true); }
    }
  }

  /** The checks from `first` on have returned the decisions of the sequential run `reqs`, which the key holds. */
  ghost predicate Replayed<V>(cfg: Config<V>, s: Sys<V>, first: Pid, key: string, costs: seq<U32>, reqs: seq<Request>) {
    && ReturnedAll(s, first, key, costs, Decisions(cfg.decide, reqs))
    && ValueOf(Lookup(s.store, key)) == Replay(cfg.decide, reqs)
    && NoneFrom(s, first + |costs|)
  }

  lemma ReplayedNone<V>(cfg: Config<V>, s: Sys<V>, first: Pid, key: string)
    requires key !in s.store.entries && NoneFrom(s, first)
    ensures Replayed(cfg, s, first, key, [], [])
  {
  }

  lemma {:induction false} ReplayedOneMore<V>(cfg: Config<V>, remote: bool, s: Sys<V>, first: Pid, key: string,
                                              costs: seq<U32>, reqs: seq<Request>, cost: U32, sched: seq<Moment<V>>)
    requires Replayed(cfg, s, first, key, costs, reqs) && Alone(sched, remote)
    ensures Replayed(cfg,
                     CheckRun(cfg, remote, first + |costs|, sched, Take(cfg, s, Start(first + |costs|, key, cost))),
                     first, key, costs + [cost], reqs + [Request(sched[0].now, cost)])
  {
    hide CheckRun, Take, Returned, Decisions, Replay;
    var p, r := first + |costs|, Request(sched[0].now, cost);
    AloneCommits(cfg, remote, p, sched, s, key, cost);
    RunExtended(cfg.decide, reqs, r);
    ReturnedOneMore(s, CheckRun(cfg, remote, p, sched, Take(cfg, s, Start(p, key, cost))), first, key, costs,
                    Decisions(cfg.decide, reqs), cost, Next(cfg.decide, reqs, r).decision);
  }

  /** Checks left alone on a fresh key return exactly the decisions of the sequential run. */
  lemma {:induction false} ChecksAloneAreTheRun<V>(cfg: Config<V>, remote: bool, first: Pid, key: string,
                                                   costs: seq<U32>, scheds: seq<seq<Moment<V>>>, s: Sys<V>)
    requires |costs| == |scheds| && AllAlone(scheds, remote)
    requires key !in s.store.entries && NoneFrom(s, first)
    ensures Replayed(cfg, ChecksRun(cfg, remote, first, key, costs, scheds, s), first, key, costs,
                     FirstReadings(costs, scheds, remote))
  {
    hide Replayed, CheckRun, Take, Alone;
    if costs == [] {
      ReplayedNone(cfg, s, first, key);
    } else {
      var n := |costs| - 1;
      ChecksAloneAreTheRun(cfg, remote, first, key, costs[..n], scheds[..n], s);
      ReplayedOneMore(cfg, remote, ChecksRun(cfg, remote, first, key, costs[..n], scheds[..n], s), first, key,
                      costs[..n], FirstReadings(costs[..n], scheds[..n], remote), costs[n], scheds[n]);
      assert costs == costs[..n] + [costs[n]];
    }
  }
}
