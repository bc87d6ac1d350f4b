/** The leaky bucket limiter: its `check`, step by step, against the specification of the loop. */
module LeakyBucketLimiters {
  import opened CheckLoop
  import opened Limiter
  import opened Protocol
  import opened SharedStores
  import opened Surroundings
  import opened Wrappers

  import Keys
  import LB = LeakyBucket

  class LeakyBucketLimiter {
    const leakRate: real
    const capacity: nat
    const store: SharedStore<LB.State>

    constructor (leakRate: real, capacity: nat, store: SharedStore<LB.State>)
      ensures this.leakRate == leakRate && this.capacity == capacity && this.store == store
    {
      this.leakRate, this.capacity, this.store := leakRate, capacity, store;
    }

    ghost predicate Valid() {
      leakRate >= 0.0
    }

    function Spec(): Config<LB.State>
      requires Valid()
    {
      Config(LB.Decide(LB.Parameters(leakRate, capacity)), capacity)
    }

    /** The arithmetic of one attempt: lazy leak, then queue the cost if it fits. */
    method Decide(state: LB.State, now: nat, cost: U32) returns (newState: LB.State, answer: Decision)
      requires Valid()
      ensures Verdict(newState, answer) == LB.Step(LB.Parameters(leakRate, capacity), state, now, cost)
      ensures answer.limit == capacity && (answer.allowed ==> answer.retryAfterMs == 0)
    {
      hide WaitMs, AsI64;
      var cap := capacity as real;
      var elapsedSecs := (if now >= state.lastLeakMs then now - state.lastLeakMs else 0) as real / 1000.0;
      var queue := MaxReal(state.queue - elapsedSecs * leakRate, 0.0);
      assert queue == LB.Leaked(LB.Parameters(leakRate, capacity), state, now) by {
        assert elapsedSecs == ElapsedSecs(state.lastLeakMs, now);
      }
      var newQueue := queue + cost as real;
      var finalQueue, allowed, retryAfterMs := newQueue, true, 0;
      if newQueue > cap {
        var overflow := newQueue - cap;
        finalQueue, allowed, retryAfterMs := queue, false, WaitMs(overflow, leakRate);
      }
      newState := LB.State(finalQueue, now);
      answer := Decision(allowed, capacity, AsI64(cap - finalQueue), retryAfterMs);
    }

    /**
     One turn of the loop, by check `p`; `s` is the state of the protocol around the store. Every
     attempt reads the clock before it reads the store.
     */
    method Try(key: string, cost: U32, left: nat, m: Moment<LB.State>, p: Pid, s: Sys<LB.State>)
      returns (success: bool, answer: Decision, s': Sys<LB.State>)
      requires Valid() && store.Valid() && store.Model() == s.store && Reached(Spec(), store.Local?, s)
      requires Waits(s, p, store.KeyOf(key), cost, left) && left > 0
      modifies store.Objects()
      ensures store.Valid() && store.Model() == s'.store && Reached(Spec(), store.Local?, s')
      ensures s' == OneAttempt(Spec(), store.Etcd?, p, m, s)
      ensures Settled(s', p, store.KeyOf(key), cost, left, success, answer, capacity)
    {
      hide Reached, Around, Take, Settled, Waits, Returned, LB.Step;
      var now := m.now;
      s' := ReadThenOthers(Spec(), store, p, s, ReadClock(p, now), m.beforeGet);
      var found := store.Get(key, m.getFails);
      var state, version := LB.State(0.0, now), None;
      if found.Some? {
        state, version := found.value.value, Some(found.value.version);
      }
      var newState;
      newState, answer := Decide(state, now, cost);
      s' := ReadThenOthers(Spec(), store, p, s', Event.Get(p, store.Fails(m.getFails)), m.beforeCas);
      AttemptSettles(Spec(), store.Etcd?, p, m, s, store.KeyOf(key), cost, left, found, Verdict(newState, answer));
      var r := store.Cas(key, version, newState, m.fault, m.rereadFails);
      s' := Take(Spec(), s', Event.Cas(p, store.FaultOf(m.fault)));
      success := r.success;
    }

    method Check(client: string, resource: string, cost: U32, sched: seq<Moment<LB.State>>, p: Pid, s: Sys<LB.State>)
      returns (d: Decision, s': Sys<LB.State>)
      requires Valid() && store.Valid() && |sched| == MAX_ATTEMPTS
      requires store.Model() == s.store && Reached(Spec(), store.Local?, s) && p !in s.calls
      modifies store.Objects()
      ensures store.Valid() && store.Model() == s'.store && Reached(Spec(), store.Local?, s')
      ensures Spec() == Config(LB.Decide(LB.Parameters(leakRate, capacity)), capacity)
      ensures var fk := store.KeyOf(Keys.Key(Keys.LeakyBucket, client, resource));
              && s' == CheckRun(Spec(), store.Etcd?, p, sched, Stepped(Spec(), s, Start(p, fk, cost)))
              && p in s'.calls && s'.calls[p].key == fk && s'.calls[p].cost == cost
      ensures s'.calls[p].phase.Done? && s'.calls[p].phase.decision == d
      ensures s'.calls[p].phase.committed || d == Decision(false, capacity, 0, 100)
    {
      hide Reached, OneAttempt, CheckRun, Keys.Key, GiveUp, Returned, Waits;
      var key := Keys.Key(Keys.LeakyBucket, client, resource);
      s' := Stepped(Spec(), s, Start(p, store.KeyOf(key), cost));
      TakeReached(Spec(), store.Local?, s, Start(p, store.KeyOf(key), cost));
      StartWaits(Spec(), s, p, store.KeyOf(key), cost);
      ghost var started := s';
      var attempt := 0;
      while attempt < MAX_ATTEMPTS
        invariant 0 <= attempt <= MAX_ATTEMPTS
        invariant store.Valid() && store.Model() == s'.store && Reached(Spec(), store.Local?, s')
        invariant CheckRun(Spec(), store.Etcd?, p, sched, started)
               == CheckRun(Spec(), store.Etcd?, p, sched[attempt..], s')
        invariant attempt < MAX_ATTEMPTS ==> Waits(s', p, store.KeyOf(key), cost, MAX_ATTEMPTS - attempt)
        invariant attempt == MAX_ATTEMPTS ==> Returned(s', p, store.KeyOf(key), cost, GiveUp(capacity), false)
      {
        WaitsReady(s', p, store.KeyOf(key), cost, MAX_ATTEMPTS - attempt);
        Retried(Spec(), store.Etcd?, p, sched, attempt, s');
        var success, answer;
        success, answer, s' := Try(key, cost, MAX_ATTEMPTS - attempt, sched[attempt], p, s');
        if success {
          ReturnedAsSaid(s', p, store.KeyOf(key), cost, answer, true);
          NothingMore(Spec(), store.Etcd?, p, sched[attempt + 1..], s');
          return answer, s';
        }
        attempt := attempt + 1;
      }
      d := GiveUp(capacity);
      NothingLeft(Spec(), store.Etcd?, p, sched, s');
      ReturnedAsSaid(s', p, store.KeyOf(key), cost, d, false);
      GiveUpSpelled(capacity);
    }
  }
}
