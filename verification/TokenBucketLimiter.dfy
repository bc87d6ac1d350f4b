/** The token bucket limiter: its `check`, step by step, against the specification of the loop. */
module TokenBucketLimiters {
  import opened CheckLoop
  import opened Limiter
  import opened Protocol
  import opened SharedStores
  import opened Surroundings
  import opened Wrappers

  import Keys
  import TB = TokenBucket

  class TokenBucketLimiter {
    const capacity: real
    const refillRate: real
    const store: SharedStore<TB.State>

    constructor (capacity: real, refillRate: real, store: SharedStore<TB.State>)
      ensures this.capacity == capacity && this.refillRate == refillRate && this.store == store
    {
      this.capacity, this.refillRate, this.store := capacity, refillRate, store;
    }

    ghost predicate Valid() {
      capacity >= 0.0 && refillRate >= 0.0
    }

    function Spec(): Config<TB.State>
      requires Valid()
    {
      Config(TB.Decide(TB.Parameters(capacity, refillRate)), AsI64(capacity))
    }

    /** The arithmetic of one attempt: lazy refill, then take the cost if the tokens are there. */
    method Decide(state: TB.State, now: nat, cost: U32) returns (newState: TB.State, answer: Decision)
      requires Valid()
      ensures Verdict(newState, answer) == TB.Step(TB.Parameters(capacity, refillRate), state, now, cost)
      ensures answer.limit == AsI64(capacity) && (answer.allowed ==> answer.retryAfterMs == 0)
    {
      hide WaitMs, AsI64;
      var elapsedSecs := (if now >= state.lastRefillMs then now - state.lastRefillMs else 0) as real / 1000.0;
      var tokens := MinReal(state.tokens + elapsedSecs * refillRate, capacity);
      assert tokens == TB.Refilled(TB.Parameters(capacity, refillRate), state, now) by {
        assert elapsedSecs == ElapsedSecs(state.lastRefillMs, now);
      }
      var newTokens, allowed, retryAfterMs := tokens - cost as real, true, 0;
      if tokens < cost as real {
        var deficit := cost as real - tokens;
        newTokens, allowed, retryAfterMs := tokens, false, WaitMs(deficit, refillRate);
      }
      newState := TB.State(newTokens, now);
      answer := Decision(allowed, AsI64(capacity), AsI64(newTokens), retryAfterMs);
    }

    /**
     One turn of the loop, by check `p`; `s` is the state of the protocol around the store. Every
     attempt reads the clock before it reads the store.
     */
    method Try(key: string, cost: U32, left: nat, m: Moment<TB.State>, p: Pid, s: Sys<TB.State>)
      returns (success: bool, answer: Decision, s': Sys<TB.State>)
      requires Valid() && store.Valid() && store.Model() == s.store && Reached(Spec(), store.Local?, s)
      requires Waits(s, p, store.KeyOf(key), cost, left) && left > 0
      modifies store.Objects()
      ensures store.Valid() && store.Model() == s'.store && Reached(Spec(), store.Local?, s')
      ensures s' == OneAttempt(Spec(), store.Etcd?, p, m, s)
      ensures Settled(s', p, store.KeyOf(key), cost, left, success, answer, AsI64(capacity))
    {
      hide Reached, Around, Take, Settled, Waits, Returned, TB.Step;
      var now := m.now;
      s' := ReadThenOthers(Spec(), store, p, s, ReadClock(p, now), m.beforeGet);
      var found := store.Get(key, m.getFails);
      var state, version := TB.State(capacity, now), None;
      if found.Some? {
        state, version := found.value.value, Some(found.value.version);
      }
      var newState;
      newState, answer := Decide(state, now, cost);
      s' := ReadThenOthers(Spec(), store, p, s', Event.Get(p, store.Fails(m.getFails)), m.beforeCas);
      AttemptSettles(Spec(), store.Etcd?, p, m, s, store.KeyOf(key), cost, left, found, Verdict(newState, answer));
      var r := store.Cas(key, version, newState, m.fault, m.rereadFails);
      s' := Take(Spec(), s', Event.Cas(p, store.FaultOf(m.fault)));
      success := r.success;
    }

    method Check(client: string, resource: string, cost: U32, sched: seq<Moment<TB.State>>, p: Pid, s: Sys<TB.State>)
      returns (d: Decision, s': Sys<TB.State>)
      requires Valid() && store.Valid() && |sched| == MAX_ATTEMPTS
      requires store.Model() == s.store && Reached(Spec(), store.Local?, s) && p !in s.calls
      modifies store.Objects()
      ensures store.Valid() && store.Model() == s'.store && Reached(Spec(), store.Local?, s')
      ensures Spec() == Config(TB.Decide(TB.Parameters(capacity, refillRate)), AsI64(capacity))
      ensures var fk := store.KeyOf(Keys.Key(Keys.TokenBucket, client, resource));
              && s' == CheckRun(Spec(), store.Etcd?, p, sched, Stepped(Spec(), s, Start(p, fk, cost)))
              && p in s'.calls && s'.calls[p].key == fk && s'.calls[p].cost == cost
      ensures s'.calls[p].phase.Done? && s'.calls[p].phase.decision == d
      ensures s'.calls[p].phase.committed || d == Decision(false, AsI64(capacity), 0, 100)
    {
      hide Reached, OneAttempt, CheckRun, Keys.Key, GiveUp, Returned, Waits;
      var key := Keys.Key(Keys.TokenBucket, client, resource);
      s' := Stepped(Spec(), s, Start(p, store.KeyOf(key), cost));
      TakeReached(Spec(), store.Local?, s, Start(p, store.KeyOf(key), cost));
      StartWaits(Spec(), s, p, store.KeyOf(key), cost);
      ghost var started := s';
      var attempt := 0;
      while attempt < MAX_ATTEMPTS
        invariant 0 <= attempt <= MAX_ATTEMPTS
        invariant store.Valid() && store.Model() == s'.store && Reached(Spec(), store.Local?, s')
        invariant CheckRun(Spec(), store.Etcd?, p, sched, started)
               == CheckRun(Spec(), store.Etcd?, p, sched[attempt..], s')
        invariant attempt < MAX_ATTEMPTS ==> Waits(s', p, store.KeyOf(key), cost, MAX_ATTEMPTS - attempt)
        invariant attempt == MAX_ATTEMPTS ==> Returned(s', p, store.KeyOf(key), cost, GiveUp(AsI64(capacity)), false)
      {
        WaitsReady(s', p, store.KeyOf(key), cost, MAX_ATTEMPTS - attempt);
        Retried(Spec(), store.Etcd?, p, sched, attempt, s');
        var success, answer;
        success, answer, s' := Try(key, cost, MAX_ATTEMPTS - attempt, sched[attempt], p, s');
        if success {
          ReturnedAsSaid(s', p, store.KeyOf(key), cost, answer, true);
          NothingMore(Spec(), store.Etcd?, p, sched[attempt + 1..], s');
          return answer, s';
        }
        attempt := attempt + 1;
      }
      d := GiveUp(AsI64(capacity));
      NothingLeft(Spec(), store.Etcd?, p, sched, s');
      ReturnedAsSaid(s', p, store.KeyOf(key), cost, d, false);
      GiveUpSpelled(AsI64(capacity));
    }
  }
}
