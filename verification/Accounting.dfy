/** What callers were admitted, against what the store was charged: with or without store faults. */
module Accounting {
  import opened Wrappers
  import opened Limiter
  import opened Runs
  import opened Protocol
  import opened ProtocolInvariant
  import opened ProtocolTheorems

  /** The cost that a logged write charged to the key, if its clock reading satisfies `p`. */
  function ChargeOf<V>(w: Write<V>, key: string, p: nat -> bool): nat {
    if w.Commit? && w.key == key && p(w.now) then Charge(w.decision, w.cost) else 0
  }

  /** The cost charged to the key by the commits whose clock reading satisfies `p`. */
  function Charged<V>(log: seq<Write<V>>, key: string, p: nat -> bool): nat {
    if log == [] then 0 else
    var n := |log| - 1;
    Charged(log[..n], key, p) + ChargeOf(log[n], key, p)
  }

  /** The part of it charged on behalf of one check. */
  function ChargedFor<V>(log: seq<Write<V>>, key: string, p: nat -> bool, id: Pid): nat {
    if log == [] then 0 else
    var n := |log| - 1;
    ChargedFor(log[..n], key, p, id) + if log[n].Commit? && log[n].pid == id then ChargeOf(log[n], key, p) else 0
  }

  /** What check `id` was admitted on the key: its cost if it returned allowed, decided at a time in `p`. */
  function AdmittedToOne<V>(s: Sys<V>, id: Pid, key: string, p: nat -> bool): nat {
    if id in s.calls && s.calls[id].key == key && s.calls[id].phase.Done? && s.calls[id].phase.decision.allowed
    then
      var i := s.calls[id].phase.endedAt - 1;
      if 0 <= i < |s.log| && s.log[i].Commit? && !p(s.log[i].now) then 0 else s.calls[id].cost
    else 0
  }

  function AdmittedTo<V>(s: Sys<V>, ids: seq<Pid>, key: string, p: nat -> bool): nat {
    if ids == [] then 0 else
    var n := |ids| - 1;
    AdmittedTo(s, ids[..n], key, p) + AdmittedToOne(s, ids[n], key, p)
  }

  function ChargedForAll<V>(log: seq<Write<V>>, key: string, p: nat -> bool, ids: seq<Pid>): nat {
    if ids == [] then 0 else
    var n := |ids| - 1;
    ChargedForAll(log, key, p, ids[..n]) + ChargedFor(log, key, p, ids[n])
  }

  ghost predicate Distinct(ids: seq<Pid>) {
    forall i, j :: 0 <= i < j < |ids| ==> ids[i] != ids[j]
  }

  lemma {:induction false} ChargedForAllAppend<V>(log: seq<Write<V>>, w: Write<V>, key: string, p: nat -> bool,
                                                  ids: seq<Pid>)
    requires Distinct(ids)
    ensures ChargedForAll(log + [w], key, p, ids)
         == ChargedForAll(log, key, p, ids) + (if w.Commit? && w.pid in ids then ChargeOf(w, key, p) else 0)
  {
    if ids != [] {
      var n := |ids| - 1;
      ChargedForAllAppend(log, w, key, p, ids[..n]);
      assert (log + [w])[..|log|] == log;
      assert ids == ids[..n] + [ids[n]];
      assert ids[n] !in ids[..n];
    }
  }

  lemma {:induction false} ChargedForNothing<V>(key: string, p: nat -> bool, ids: seq<Pid>)
    ensures ChargedForAll<V>([], key, p, ids) == 0
  {
    if ids != [] { ChargedForNothing<V>(key, p, ids[..|ids| - 1]); }
  }

  /** Different checks are charged by different commits. */
  lemma {:induction false} ChargedForDistinct<V>(log: seq<Write<V>>, key: string, p: nat -> bool, ids: seq<Pid>)
    requires Distinct(ids)
    ensures ChargedForAll(log, key, p, ids) <= Charged(log, key, p)
  {
    if log == [] {
      ChargedForNothing<V>(key, p, ids);
    } else {
      var n := |log| - 1;
      assert log == log[..n] + [log[n]];
      ChargedForDistinct(log[..n], key, p, ids);
      ChargedForAllAppend(log[..n], log[n], key, p, ids);
    }
  }

  lemma {:induction false} ChargedForAtLeast<V>(log: seq<Write<V>>, key: string, p: nat -> bool, id: Pid, i: nat)
    requires i < |log| && log[i].Commit? && log[i].pid == id
    ensures ChargedFor(log, key, p, id) >= ChargeOf(log[i], key, p)
  {
    if i < |log| - 1 { ChargedForAtLeast(log[..|log| - 1], key, p, id, i); }
  }

  lemma {:induction false} OneWasCharged<V>(cfg: Config<V>, s: Sys<V>, id: Pid, key: string, p: nat -> bool)
    requires Inv(cfg, s)
    ensures AdmittedToOne(s, id, key, p) <= ChargedFor(s.log, key, p, id)
  {
    hide VersionsOk, StoreIsLog, CommitsDecided, LogOwned, ChargedFor;
    if AdmittedToOne(s, id, key, p) > 0 {
      assert CallOk(cfg.limit, s.store, s.drawn, s.log, id, s.calls[id]);
      ChargedForAtLeast(s.log, key, p, id, s.calls[id].phase.endedAt - 1);
    }
  }

  lemma {:induction false} AdmittedWasCharged<V>(cfg: Config<V>, s: Sys<V>, ids: seq<Pid>, key: string, p: nat -> bool)
    requires Inv(cfg, s)
    ensures AdmittedTo(s, ids, key, p) <= ChargedForAll(s.log, key, p, ids)
  {
    hide Inv, AdmittedToOne, ChargedFor;
    if ids != [] {
      var n := |ids| - 1;
      AdmittedWasCharged(cfg, s, ids[..n], key, p);
      OneWasCharged(cfg, s, ids[n], key, p);
    }
  }

  /**
   Whatever fails, and in every interleaving: the cost admitted to any set of callers, decided in
   any set of instants, is at most the cost the store was charged in them.
   */
  lemma {:induction false} AdmittedAtMostCharged<V>(cfg: Config<V>, events: seq<Event<V>>, ids: seq<Pid>, key: string,
                                                    p: nat -> bool)
    requires Legal(cfg, events) && Distinct(ids)
    ensures AdmittedTo(After(cfg, events), ids, key, p) <= Charged(After(cfg, events).log, key, p)
  {
    ReachableInv(cfg, events);
    AdmittedWasCharged(cfg, After(cfg, events), ids, key, p);
    ChargedForDistinct(After(cfg, events).log, key, p, ids);
  }

  // ---- Without faults nothing is charged that was not admitted ----

  ghost predicate Covering<V>(calls: map<Pid, Call<V>>, ids: seq<Pid>) {
    forall id {:trigger id in calls} {:trigger id in ids} :: id in calls ==> id in ids
  }

  /** A check whose one commit is at position `i` was charged by that commit. */
  lemma {:induction false} ChargedOnce<V>(log: seq<Write<V>>, key: string, p: nat -> bool, id: Pid, i: nat)
    requires forall k :: 0 <= k < |log| && log[k].Commit? && log[k].pid == id ==> k == i
    ensures ChargedFor(log, key, p, id)
         == if i < |log| && log[i].Commit? && log[i].pid == id then ChargeOf(log[i], key, p) else 0
  {
    if log != [] { ChargedOnce(log[..|log| - 1], key, p, id, i); }
  }

  lemma {:induction false} OneWasAdmitted<V>(cfg: Config<V>, s: Sys<V>, id: Pid, key: string, p: nat -> bool)
    requires Inv(cfg, s) && NoFaults(s)
    ensures ChargedFor(s.log, key, p, id) <= AdmittedToOne(s, id, key, p)
  {
    hide VersionsOk, StoreIsLog, CommitsDecided;
    if i :| 0 <= i < |s.log| && s.log[i].Commit? && s.log[i].pid == id {
      assert Owned(s.calls, s.log[i], i);
      forall k | 0 <= k < |s.log| && s.log[k].Commit? && s.log[k].pid == id ensures k == i {
        assert Owned(s.calls, s.log[k], k);
      }
      ChargedOnce(s.log, key, p, id, i);
    } else {
      ChargedOnce(s.log, key, p, id, 0);
    }
  }

  lemma {:induction false} AllWereAdmitted<V>(cfg: Config<V>, s: Sys<V>, ids: seq<Pid>, key: string, p: nat -> bool)
    requires Inv(cfg, s) && NoFaults(s)
    ensures ChargedForAll(s.log, key, p, ids) <= AdmittedTo(s, ids, key, p)
  {
    hide Inv, NoFaults, AdmittedToOne, ChargedFor;
    if ids != [] {
      AllWereAdmitted(cfg, s, ids[..|ids| - 1], key, p);
      OneWasAdmitted(cfg, s, ids[|ids| - 1], key, p);
    }
  }

  ghost predicate CommitsAmong<V>(log: seq<Write<V>>, ids: seq<Pid>) {
    forall i :: 0 <= i < |log| && log[i].Commit? ==> log[i].pid in ids
  }

  lemma {:induction false} ChargedForCovering<V>(log: seq<Write<V>>, key: string, p: nat -> bool, ids: seq<Pid>)
    requires Distinct(ids) && CommitsAmong(log, ids)
    ensures ChargedForAll(log, key, p, ids) == Charged(log, key, p)
  {
    if log == [] {
      ChargedForNothing<V>(key, p, ids);
    } else {
      var n := |log| - 1;
      assert log == log[..n] + [log[n]];
      ChargedForCovering(log[..n], key, p, ids);
      ChargedForAllAppend(log[..n], log[n], key, p, ids);
    }
  }

  /** On the local store, all callers together are admitted exactly the cost the store is charged. */
  lemma {:induction false} AdmittedIsCharged<V>(cfg: Config<V>, events: seq<Event<V>>, ids: seq<Pid>, key: string,
                                                p: nat -> bool)
    requires Legal(cfg, events) && AllFaultless(events)
    requires Distinct(ids) && Covering(After(cfg, events).calls, ids)
    ensures AdmittedTo(After(cfg, events), ids, key, p) == Charged(After(cfg, events).log, key, p)
  {
    var s := After(cfg, events);
    AdmittedAtMostCharged(cfg, events, ids, key, p);
    ReachableInv(cfg, events);
    FaultlessRun(cfg, events);
    AllWereAdmitted(cfg, s, ids, key, p);
    forall i | 0 <= i < |s.log| && s.log[i].Commit? ensures s.log[i].pid in ids {
      assert Owned(s.calls, s.log[i], i);
    }
    ChargedForCovering(s.log, key, p, ids);
  }

  /** One check commits at most five times, and at most once if nothing fails. */
  lemma {:induction false} ChargedAtMostFiveTimes<V>(cfg: Config<V>, events: seq<Event<V>>, id: Pid)
    requires Legal(cfg, events) && id in After(cfg, events).calls
    ensures CommitsBy(After(cfg, events).log, id) <= MAX_ATTEMPTS
    ensures AllFaultless(events) ==> CommitsBy(After(cfg, events).log, id) <= 1
  {
    var s := After(cfg, events);
    ReachableInv(cfg, events);
    assert CallOk(cfg.limit, s.store, s.drawn, s.log, id, s.calls[id]);
    if AllFaultless(events) { FaultlessRun(cfg, events); }
  }

  lemma {:induction false} HeldNoneIffUntouched<V>(decide: Decider<V>, log: seq<Write<V>>, key: string)
    ensures Held(decide, log, key) == None <==> Untouched(log, 0, key)
  {
    if log != [] {
      var n := |log| - 1;
      assert log == log[..n] + [log[n]];
      HeldNoneIffUntouched(decide, log[..n], key);
      UntouchedAppend(log[..n], log[n], 0, key);
    }
  }

  /**
   An existing state is never reset. An attempt that saw nothing, because the key was absent or
   because its `get` failed, can only write a key that nobody has ever written.
   */
  lemma {:induction false} FreshStateOnlyOnFreshKey<V>(cfg: Config<V>, events: seq<Event<V>>, id: Pid)
    requires Legal(cfg, events) && id in After(cfg, events).calls
    requires var c := After(cfg, events).calls[id];
             c.phase.Holding? && c.phase.seen == None && Current(After(cfg, events).store, c)
    ensures Untouched(After(cfg, events).log, 0, After(cfg, events).calls[id].key)
  {
    var s := After(cfg, events);
    ReachableInv(cfg, events);
    CurrentSawHeld(cfg, s, id);
    HeldNoneIffUntouched(cfg.decide, s.log, s.calls[id].key);
  }

  /** What the log charges is what the sequential run of the key's commits charges. */
  lemma {:induction false} ChargedIsRun<V>(decide: Decider<V>, log: seq<Write<V>>, key: string, p: nat -> bool)
    requires CommitsDecided(decide, log) && OnlyCommits(log, key)
    ensures Charged(log, key, p) == AdmittedWhere(decide, CommitsOn(log, key), p)
  {
    if log != [] {
      var n := |log| - 1;
      var front, w := log[..n], log[n];
      assert log == front + [w];
      forall i | 0 <= i < n ensures CommitDecided(decide, front, i) {
        assert CommitDecided(decide, log, i);
        assert log[..i] == front[..i];
      }
      ChargedIsRun(decide, front, key, p);
      if w.key == key {
        assert CommitDecided(decide, log, n);
        HeldIsRun(decide, front, key);
        AdmittedExtended(decide, CommitsOn(front, key), Request(w.now, w.cost), p);
      }
    }
  }

  /** So callers never get more than the sequential run admits. */
  lemma {:induction false} AdmittedAtMostRun<V>(cfg: Config<V>, events: seq<Event<V>>, ids: seq<Pid>, key: string,
                                                p: nat -> bool)
    requires Legal(cfg, events) && Distinct(ids) && OnlyCommits(After(cfg, events).log, key)
    ensures AdmittedTo(After(cfg, events), ids, key, p)
         <= AdmittedWhere(cfg.decide, CommitsOn(After(cfg, events).log, key), p)
  {
    ReachableInv(cfg, events);
    AdmittedAtMostCharged(cfg, events, ids, key, p);
    ChargedIsRun(cfg.decide, After(cfg, events).log, key, p);
  }
}
