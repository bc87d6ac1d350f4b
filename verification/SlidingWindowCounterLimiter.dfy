/** The sliding window counter limiter: its `check`, step by step, against the specification of the loop. */
module SlidingWindowCounterLimiters {
  import opened CheckLoop
  import opened Limiter
  import opened Protocol
  import opened SharedStores
  import opened Surroundings
  import opened Wrappers

  import Keys
  import SC = SlidingWindowCounter

  class SlidingWindowCounterLimiter {
    const maxRequests: nat
    const windowSecs: nat
    const store: SharedStore<SC.State>

    constructor (maxRequests: nat, windowSecs: nat, store: SharedStore<SC.State>)
      ensures this.maxRequests == maxRequests && this.windowSecs == windowSecs && this.store == store
    {
      this.maxRequests, this.windowSecs, this.store := maxRequests, windowSecs, store;
    }

    ghost predicate Valid() {
      windowSecs > 0
    }

    function Spec(): Config<SC.State>
      requires Valid()
    {
      Config(SC.Decide(SC.Parameters(maxRequests, windowSecs)), maxRequests)
    }

    /** The arithmetic of one attempt: roll to the current window, weigh the previous one. */
    method Decide(state: SC.State, now: nat, cost: U32) returns (newState: SC.State, answer: Decision)
      requires Valid()
      ensures Verdict(newState, answer) == SC.Step(SC.Parameters(maxRequests, windowSecs), state, now, cost)
      ensures answer.limit == maxRequests && (answer.allowed ==> answer.retryAfterMs == 0)
    {
      var nowSecs := now / 1000;
      var windowId := nowSecs / windowSecs;
      var elapsedFraction := (nowSecs % windowSecs) as real / windowSecs as real;

      var diff := SaturatingSub(windowId, state.currWindowId);
      var prevCount, currCount := 0, 0;
      if diff == 0 {
        prevCount, currCount := state.prevCount, state.currCount;
      } else if diff == 1 {
        prevCount := state.currCount;
      }

      ghost var cfg: SC.Config := SC.Parameters(maxRequests, windowSecs);
      assert SC.State(prevCount, currCount, windowId) == SC.Rolled(cfg, state, now);

      var weighted := prevCount as real * (1.0 - elapsedFraction) + currCount as real;
      assert weighted == SC.Weighted(cfg, SC.Rolled(cfg, state, now), SC.OffsetOf(cfg, now));
      var newCurr, allowed, retryAfterMs := currCount + cost, true, 0;
      if weighted + cost as real > maxRequests as real {
        newCurr, allowed := currCount, false;
        retryAfterMs := AsI64((1.0 - elapsedFraction) * windowSecs as real * 1000.0);
      }
      var remaining := AsI64(MaxReal(maxRequests as real - weighted - cost as real, 0.0));
      newState := SC.State(prevCount, newCurr, windowId);
      answer := Decision(allowed, maxRequests, if allowed then remaining else 0, retryAfterMs);
    }

    /**
     One turn of the loop, by check `p`; `s` is the state of the protocol around the store. Every
     attempt reads the clock before it reads the store.
     */
    method Try(key: string, cost: U32, left: nat, m: Moment<SC.State>, p: Pid, s: Sys<SC.State>)
      returns (success: bool, answer: Decision, s': Sys<SC.State>)
      requires Valid() && store.Valid() && store.Model() == s.store && Reached(Spec(), store.Local?, s)
      requires Waits(s, p, store.KeyOf(key), cost, left) && left > 0
      modifies store.Objects()
      ensures store.Valid() && store.Model() == s'.store && Reached(Spec(), store.Local?, s')
      ensures s' == OneAttempt(Spec(), store.Etcd?, p, m, s)
      ensures Settled(s', p, store.KeyOf(key), cost, left, success, answer, maxRequests)
    {
      hide Reached, Around, Take, Settled, Waits, Returned, SC.Step;
      var now := m.now;
      s' := ReadThenOthers(Spec(), store, p, s, ReadClock(p, now), m.beforeGet);
      var found := store.Get(key, m.getFails);
      var state, version := SC.State(0, 0, now / 1000 / windowSecs), None;
      if found.Some? {
        state, version := found.value.value, Some(found.value.version);
      }
      var newState;
      newState, answer := Decide(state, now, cost);
      s' := ReadThenOthers(Spec(), store, p, s', Event.Get(p, store.Fails(m.getFails)), m.beforeCas);
      AttemptSettles(Spec(), store.Etcd?, p, m, s, store.KeyOf(key), cost, left, found, Verdict(newState, answer));
      var r := store.Cas(key, version, newState, m.fault, m.rereadFails);
      s' := Take(Spec(), s', Event.Cas(p, store.FaultOf(m.fault)));
      success := r.success;
    }

    method Check(client: string, resource: string, cost: U32, sched: seq<Moment<SC.State>>, p: Pid, s: Sys<SC.State>)
      returns (d: Decision, s': Sys<SC.State>)
      requires Valid() && store.Valid() && |sched| == MAX_ATTEMPTS
      requires store.Model() == s.store && Reached(Spec(), store.Local?, s) && p !in s.calls
      modifies store.Objects()
      ensures store.Valid() && store.Model() == s'.store && Reached(Spec(), store.Local?, s')
      ensures Spec() == Config(SC.Decide(SC.Parameters(maxRequests, windowSecs)), maxRequests)
      ensures var fk := store.KeyOf(Keys.Key(Keys.SlidingWindowCounter, client, resource));
              && s' == CheckRun(Spec(), store.Etcd?, p, sched, Stepped(Spec(), s, Start(p, fk, cost)))
              && p in s'.calls && s'.calls[p].key == fk && s'.calls[p].cost == cost
      ensures s'.calls[p].phase.Done? && s'.calls[p].phase.decision == d
      ensures s'.calls[p].phase.committed || d == Decision(false, maxRequests, 0, 100)
    {
      hide Reached, OneAttempt, CheckRun, Keys.Key, GiveUp, Returned, Waits;
      var key := Keys.Key(Keys.SlidingWindowCounter, client, resource);
      s' := Stepped(Spec(), s, Start(p, store.KeyOf(key), cost));
      TakeReached(Spec(), store.Local?, s, Start(p, store.KeyOf(key), cost));
      StartWaits(Spec(), s, p, store.KeyOf(key), cost);
      ghost var started := s';
      var attempt := 0;
      while attempt < MAX_ATTEMPTS
        invariant 0 <= attempt <= MAX_ATTEMPTS
        invariant store.Valid() && store.Model() == s'.store && Reached(Spec(), store.Local?, s')
        invariant CheckRun(Spec(), store.Etcd?, p, sched, started)
               == CheckRun(Spec(), store.Etcd?, p, sched[attempt..], s')
        invariant attempt < MAX_ATTEMPTS ==> Waits(s', p, store.KeyOf(key), cost, MAX_ATTEMPTS - attempt)
        invariant attempt == MAX_ATTEMPTS ==> Returned(s', p, store.KeyOf(key), cost, GiveUp(maxRequests), false)
      {
        WaitsReady(s', p, store.KeyOf(key), cost, MAX_ATTEMPTS - attempt);
        Retried(Spec(), store.Etcd?, p, sched, attempt, s');
        var success, answer;
        success, answer, s' := Try(key, cost, MAX_ATTEMPTS - attempt, sched[attempt], p, s');
        if success {
          ReturnedAsSaid(s', p, store.KeyOf(key), cost, answer, true);
          NothingMore(Spec(), store.Etcd?, p, sched[attempt + 1..], s');
          return answer, s';
        }
        attempt := attempt + 1;
      }
      d := GiveUp(maxRequests);
      NothingLeft(Spec(), store.Etcd?, p, sched, s');
      ReturnedAsSaid(s', p, store.KeyOf(key), cost, d, false);
      GiveUpSpelled(maxRequests);
    }
  }
}
