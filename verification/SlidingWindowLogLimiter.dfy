/** The sliding window log limiter: its `check`, step by step, against the specification of the loop. */
module SlidingWindowLogLimiters {
  import opened CheckLoop
  import opened Limiter
  import opened Protocol
  import opened SharedStores
  import opened Surroundings
  import opened Wrappers

  import Keys
  import SL = SlidingWindowLog

  /** The vector of timestamps that a check prunes and extends in place. */
  class Timestamps {
    var items: seq<int>

    constructor (items: seq<int>)
      ensures this.items == items
    {
      this.items := items;
    }

    /** Keeps the timestamps newer than `cutoff`, in their order. */
    method Retain(cutoff: int)
      modifies this
      ensures items == SL.Pruned(old(items), cutoff)
    {
      var kept: seq<int> := [];
      for i := 0 to |items|
        invariant items == old(items)
        invariant kept == SL.Pruned(items[..i], cutoff)
      {
        assert items[..i + 1][..i] == items[..i];
        if items[i] > cutoff {
          kept := kept + [items[i]];
        }
      }
      assert items[..|items|] == items;
      items := kept;
    }

    method Push(t: int)
      modifies this
      ensures items == old(items) + [t]
    {
      items := items + [t];
    }
  }

  class SlidingWindowLogLimiter {
    const maxRequests: nat
    const windowMs: int
    const store: SharedStore<SL.State>

    /** The window is given in seconds and kept in milliseconds. */
    constructor (maxRequests: nat, windowSecs: nat, store: SharedStore<SL.State>)
      ensures this.maxRequests == maxRequests && this.windowMs == windowSecs * 1000 && this.store == store
    {
      this.maxRequests, this.windowMs, this.store := maxRequests, windowSecs * 1000, store;
    }

    ghost predicate Valid() {
      windowMs > 0
    }

    function Spec(): Config<SL.State>
      requires Valid()
    {
      Config(SL.Decide(SL.Parameters(maxRequests, windowMs)), maxRequests)
    }

    /** The work of one attempt: prune the log in place, then push one timestamp per unit if they fit. */
    method Decide(state: SL.State, now: nat, cost: U32) returns (newState: SL.State, answer: Decision)
      requires Valid()
      ensures Verdict(newState, answer) == SL.Step(SL.Parameters(maxRequests, windowMs), state, now, cost)
      ensures answer.limit == maxRequests && (answer.allowed ==> answer.retryAfterMs == 0)
    {
      var cutoff := now - windowMs;
      var log := new Timestamps(state.timestampsMs);
      log.Retain(cutoff);
      var current := |log.items|;
      ghost var kept := log.items;
      var allowed, retryAfterMs := current + cost <= maxRequests, 0;
      if allowed {
        for i := 0 to cost
          invariant log.items == kept + SL.Stamps(now, i)
        {
          log.Push(now);
        }
      } else {
        var oldest := if current == 0 then now else log.items[0];
        var wait := oldest + windowMs - now;
        retryAfterMs := if wait < 0 then 0 else wait;
        assert log.items == kept + SL.Stamps(now, 0);
      }
      newState := SL.State(log.items);
      answer := Decision(allowed, maxRequests,
                         SaturatingSub(maxRequests, current + if allowed then cost else 0), retryAfterMs);
    }

    /**
     One turn of the loop, by check `p`; `s` is the state of the protocol around the store. Every
     attempt reads the clock before it reads the store.
     */
    method Try(key: string, cost: U32, left: nat, m: Moment<SL.State>, p: Pid, s: Sys<SL.State>)
      returns (success: bool, answer: Decision, s': Sys<SL.State>)
      requires Valid() && store.Valid() && store.Model() == s.store && Reached(Spec(), store.Local?, s)
      requires Waits(s, p, store.KeyOf(key), cost, left) && left > 0
      modifies store.Objects()
      ensures store.Valid() && store.Model() == s'.store && Reached(Spec(), store.Local?, s')
      ensures s' == OneAttempt(Spec(), store.Etcd?, p, m, s)
      ensures Settled(s', p, store.KeyOf(key), cost, left, success, answer, maxRequests)
    {
      hide Reached, Around, Take, Settled, Waits, Returned, SL.Step;
      var now := m.now;
      s' := ReadThenOthers(Spec(), store, p, s, ReadClock(p, now), m.beforeGet);
      var found := store.Get(key, m.getFails);
      var state, version := SL.State([]), None;
      if found.Some? {
        state, version := found.value.value, Some(found.value.version);
      }
      var newState;
      newState, answer := Decide(state, now, cost);
      s' := ReadThenOthers(Spec(), store, p, s', Event.Get(p, store.Fails(m.getFails)), m.beforeCas);
      AttemptSettles(Spec(), store.Etcd?, p, m, s, store.KeyOf(key), cost, left, found, Verdict(newState, answer));
      var r := store.Cas(key, version, newState, m.fault, m.rereadFails);
      s' := Take(Spec(), s', Event.Cas(p, store.FaultOf(m.fault)));
      success := r.success;
    }

    method Check(client: string, resource: string, cost: U32, sched: seq<Moment<SL.State>>, p: Pid, s: Sys<SL.State>)
      returns (d: Decision, s': Sys<SL.State>)
      requires Valid() && store.Valid() && |sched| == MAX_ATTEMPTS
      requires store.Model() == s.store && Reached(Spec(), store.Local?, s) && p !in s.calls
      modifies store.Objects()
      ensures store.Valid() && store.Model() == s'.store && Reached(Spec(), store.Local?, s')
      ensures Spec() == Config(SL.Decide(SL.Parameters(maxRequests, windowMs)), maxRequests)
      ensures var fk := store.KeyOf(Keys.Key(Keys.SlidingWindowLog, client, resource));
              && s' == CheckRun(Spec(), store.Etcd?, p, sched, Stepped(Spec(), s, Start(p, fk, cost)))
              && p in s'.calls && s'.calls[p].key == fk && s'.calls[p].cost == cost
      ensures s'.calls[p].phase.Done? && s'.calls[p].phase.decision == d
      ensures s'.calls[p].phase.committed || d == Decision(false, maxRequests, 0, 100)
    {
      hide Reached, OneAttempt, CheckRun, Keys.Key, GiveUp, Returned, Waits;
      var key := Keys.Key(Keys.SlidingWindowLog, client, resource);
      s' := Stepped(Spec(), s, Start(p, store.KeyOf(key), cost));
      TakeReached(Spec(), store.Local?, s, Start(p, store.KeyOf(key), cost));
      StartWaits(Spec(), s, p, store.KeyOf(key), cost);
      ghost var started := s';
      var attempt := 0;
      while attempt < MAX_ATTEMPTS
        invariant 0 <= attempt <= MAX_ATTEMPTS
        invariant store.Valid() && store.Model() == s'.store && Reached(Spec(), store.Local?, s')
        invariant CheckRun(Spec(), store.Etcd?, p, sched, started)
               == CheckRun(Spec(), store.Etcd?, p, sched[attempt..], s')
        invariant attempt < MAX_ATTEMPTS ==> Waits(s', p, store.KeyOf(key), cost, MAX_ATTEMPTS - attempt)
        invariant attempt == MAX_ATTEMPTS ==> Returned(s', p, store.KeyOf(key), cost, GiveUp(maxRequests), false)
      {
        WaitsReady(s', p, store.KeyOf(key), cost, MAX_ATTEMPTS - attempt);
        Retried(Spec(), store.Etcd?, p, sched, attempt, s');
        var success, answer;
        success, answer, s' := Try(key, cost, MAX_ATTEMPTS - attempt, sched[attempt], p, s');
        if success {
          ReturnedAsSaid(s', p, store.KeyOf(key), cost, answer, true);
          NothingMore(Spec(), store.Etcd?, p, sched[attempt + 1..], s');
          return answer, s';
        }
        attempt := attempt + 1;
      }
      d := GiveUp(maxRequests);
      NothingLeft(Spec(), store.Etcd?, p, sched, s');
      ReturnedAsSaid(s', p, store.KeyOf(key), cost, d, false);
      GiveUpSpelled(maxRequests);
    }
  }
}
