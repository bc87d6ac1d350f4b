/** The fixed window limiter: its `check`, step by step, against the specification of the loop. */
module FixedWindowLimiters {
  import opened CheckLoop
  import opened Limiter
  import opened Protocol
  import opened SharedStores
  import opened Surroundings
  import opened Wrappers

  import FW = FixedWindow
  import Keys

  class FixedWindowLimiter {
    const maxRequests: nat
    const windowSecs: nat
    const store: SharedStore<FW.State>

    constructor (maxRequests: nat, windowSecs: nat, store: SharedStore<FW.State>)
      ensures this.maxRequests == maxRequests && this.windowSecs == windowSecs && this.store == store
    {
      this.maxRequests, this.windowSecs, this.store := maxRequests, windowSecs, store;
    }

    ghost predicate Valid() {
      windowSecs > 0
    }

    function Spec(): Config<FW.State>
      requires Valid()
    {
      Config(FW.Decide(FW.Parameters(maxRequests, windowSecs)), maxRequests)
    }

    /** The arithmetic of one attempt: count in the current window, whatever window the state is of. */
    method Decide(state: FW.State, now: nat, cost: U32) returns (newState: FW.State, answer: Decision)
      requires Valid()
      ensures Verdict(newState, answer) == FW.Step(FW.Parameters(maxRequests, windowSecs), state, now, cost)
      ensures answer.limit == maxRequests && (answer.allowed ==> answer.retryAfterMs == 0)
    {
      var nowSecs := now / 1000;
      var windowId := nowSecs / windowSecs;
      var count := if state.windowId == windowId then state.count else 0;
      var newCount, allowed, retryAfterMs := count + cost, true, 0;
      if count + cost > maxRequests {
        var windowEnd := (windowId + 1) * windowSecs;
        newCount, allowed, retryAfterMs := count, false, SaturatingSub(windowEnd, nowSecs) * 1000;
      }
      newState := FW.State(newCount, windowId);
      answer := Decision(allowed, maxRequests, SaturatingSub(maxRequests, newCount), retryAfterMs);
    }

    /**
     One turn of the loop, by check `p`; `s` is the state of the protocol around the store. Every
     attempt reads the clock before it reads the store.
     */
    method Try(key: string, cost: U32, left: nat, m: Moment<FW.State>, p: Pid, s: Sys<FW.State>)
      returns (success: bool, answer: Decision, s': Sys<FW.State>)
      requires Valid() && store.Valid() && store.Model() == s.store && Reached(Spec(), store.Local?, s)
      requires Waits(s, p, store.KeyOf(key), cost, left) && left > 0
      modifies store.Objects()
      ensures store.Valid() && store.Model() == s'.store && Reached(Spec(), store.Local?, s')
      ensures s' == OneAttempt(Spec(), store.Etcd?, p, m, s)
      ensures Settled(s', p, store.KeyOf(key), cost, left, success, answer, maxRequests)
    {
      hide Reached, Around, Take, Settled, Waits, Returned, FW.Step;
      var now := m.now;
      s' := ReadThenOthers(Spec(), store, p, s, ReadClock(p, now), m.beforeGet);
      var found := store.Get(key, m.getFails);
      var state, version := FW.State(0, now / 1000 / windowSecs), None;
      if found.Some? {
        state, version := found.value.value, Some(found.value.version);
      }
      var newState;
      newState, answer := Decide(state, now, cost);
      s' := ReadThenOthers(Spec(), store, p, s', Event.Get(p, store.Fails(m.getFails)), m.beforeCas);
      AttemptSettles(Spec(), store.Etcd?, p, m, s, store.KeyOf(key), cost, left, found, Verdict(newState, answer));
      var r := store.Cas(key, version, newState, m.fault, m.rereadFails);
      s' := Take(Spec(), s', Event.Cas(p, store.FaultOf(m.fault)));
      success := r.success;
    }

    method Check(client: string, resource: string, cost: U32, sched: seq<Moment<FW.State>>, p: Pid, s: Sys<FW.State>)
      returns (d: Decision, s': Sys<FW.State>)
      requires Valid() && store.Valid() && |sched| == MAX_ATTEMPTS
      requires store.Model() == s.store && Reached(Spec(), store.Local?, s) && p !in s.calls
      modifies store.Objects()
      ensures store.Valid() && store.Model() == s'.store && Reached(Spec(), store.Local?, s')
      ensures Spec() == Config(FW.Decide(FW.Parameters(maxRequests, windowSecs)), maxRequests)
      ensures var fk := store.KeyOf(Keys.Key(Keys.FixedWindow, client, resource));
              && s' == CheckRun(Spec(), store.Etcd?, p, sched, Stepped(Spec(), s, Start(p, fk, cost)))
              && p in s'.calls && s'.calls[p].key == fk && s'.calls[p].cost == cost
      ensures s'.calls[p].phase.Done? && s'.calls[p].phase.decision == d
      ensures s'.calls[p].phase.committed || d == Decision(false, maxRequests, 0, 100)
    {
      hide Reached, OneAttempt, CheckRun, Keys.Key, GiveUp, Returned, Waits;
      var key := Keys.Key(Keys.FixedWindow, client, resource);
      s' := Stepped(Spec(), s, Start(p, store.KeyOf(key), cost));
      TakeReached(Spec(), store.Local?, s, Start(p, store.KeyOf(key), cost));
      StartWaits(Spec(), s, p, store.KeyOf(key), cost);
      ghost var started := s';
      var attempt := 0;
      while attempt < MAX_ATTEMPTS
        invariant 0 <= attempt <= MAX_ATTEMPTS
        invariant store.Valid() && store.Model() == s'.store && Reached(Spec(), store.Local?, s')
        invariant CheckRun(Spec(), store.Etcd?, p, sched, started)
               == CheckRun(Spec(), store.Etcd?, p, sched[attempt..], s')
        invariant attempt < MAX_ATTEMPTS ==> Waits(s', p, store.KeyOf(key), cost, MAX_ATTEMPTS - attempt)
        invariant attempt == MAX_ATTEMPTS ==> Returned(s', p, store.KeyOf(key), cost, GiveUp(maxRequests), false)
      {
        WaitsReady(s', p, store.KeyOf(key), cost, MAX_ATTEMPTS - attempt);
        Retried(Spec(), store.Etcd?, p, sched, attempt, s');
        var success, answer;
        success, answer, s' := Try(key, cost, MAX_ATTEMPTS - attempt, sched[attempt], p, s');
        if success {
          ReturnedAsSaid(s', p, store.KeyOf(key), cost, answer, true);
          NothingMore(Spec(), store.Etcd?, p, sched[attempt + 1..], s');
          return answer, s';
        }
        attempt := attempt + 1;
      }
      d := GiveUp(maxRequests);
      NothingLeft(Spec(), store.Etcd?, p, sched, s');
      ReturnedAsSaid(s', p, store.KeyOf(key), cost, d, false);
      GiveUpSpelled(maxRequests);
    }
  }
}
