/** Interleavings that reach the limits of the theorems: five others exhaust a check, and five charges go to one. */
module Witnesses {
  import opened CheckLoop
  import opened Limiter
  import opened Protocol
  import opened ProtocolTheorems
  import opened StateStore
  import opened Wrappers

  /** The versions under a key were issued before. */
  predicate KeyIssued<V>(s: Sys<V>, key: string) {
    key in s.store.entries ==> s.store.entries[key].version < s.store.next
  }

  lemma {:induction false} AroundExtended<V>(cfg: Config<V>, remote: bool, p: Pid, s: Sys<V>, events: seq<Event<V>>,
                                             e: Event<V>)
    ensures var before := Around(cfg, remote, p, s, events);
            Around(cfg, remote, p, s, events + [e])
            == if Possible(remote, p, before, e) then Stepped(cfg, before, e) else before
  {
    assert (events + [e])[..|events|] == events;
  }

  // ---- Five others ----

  /** Check `q` from start to commit, undisturbed. */
  function Rival<V>(q: Pid, key: string, cost: U32, now: nat): seq<Event<V>> {
    [Start(q, key, cost)] + [ReadClock(q, now)] + [Event.Get(q, false)] + [Event.Cas(q, Fine)]
  }

  lemma {:induction false} RivalCommits<V>(cfg: Config<V>, p: Pid, s: Sys<V>, q: Pid, key: string, cost: U32, now: nat)
    requires q !in s.calls && q != p
    ensures var s' := Around(cfg, false, p, s, Rival<V>(q, key, cost, now));
            && key in s'.store.entries && s'.store.entries[key].version == s.store.next
            && s'.store.next == s.store.next + 1
            && s'.calls.Keys == s.calls.Keys + {q}
            && |s'.log| == |s.log| + 1 && s'.log[..|s.log|] == s.log && s'.log[|s.log|].Commit?
  {
    var started: seq<Event<V>> := [] + [Start(q, key, cost)];
    AroundExtended(cfg, false, p, s, [], Start(q, key, cost));
    AroundExtended(cfg, false, p, s, started, ReadClock(q, now));
    AroundExtended(cfg, false, p, s, started + [ReadClock(q, now)], Event.Get(q, false));
    AroundExtended(cfg, false, p, s, started + [ReadClock(q, now)] + [Event.Get(q, false)], Event.Cas(q, Fine));
    assert started == [Start(q, key, cost)];
  }

  /** An attempt between whose requests check `q` commits. */
  function Contended<V>(q: Pid, key: string, cost: U32, now: nat): Moment<V> {
    Moment(now, [], false, Rival(q, key, cost, now), Fine, false)
  }

  /** Every attempt, from number `k` on, meets a check of its own: `k + 1`, `k + 2`, and so on. */
  function ContendedFrom<V>(k: nat, key: string, cost: U32, now: nat): seq<Moment<V>>
    requires k <= MAX_ATTEMPTS
    decreases MAX_ATTEMPTS - k
  {
    if k == MAX_ATTEMPTS then []
    else [Contended(k + 1, key, cost, now)] + ContendedFrom(k + 1, key, cost, now)
  }

  /** The checks so far are `0 .. k`, and nobody else has written. */
  ghost predicate OnlyChecks<V>(s: Sys<V>, k: nat) {
    && (forall q {:trigger q in s.calls} :: q in s.calls <==> 0 <= q <= k)
    && (forall i :: 0 <= i < |s.log| ==> s.log[i].Commit?)
  }

  /** Check `p` reads the clock and the store, and nobody else acts. */
  lemma {:induction false} ReadsAlone<V>(cfg: Config<V>, s: Sys<V>, p: Pid, m: Moment<V>)
    requires CheckLoop.Ready(s, p) && m.beforeGet == []
    ensures var asked := Asked(cfg, false, p, m, s);
            var holding := Take(cfg, asked, Event.Get(p, false));
            && asked.store == s.store && holding.store == s.store
            && holding.calls.Keys == s.calls.Keys && holding.log == s.log
            && Opened(cfg, false, p, m, s) == Around(cfg, false, p, holding, m.beforeCas)
  {
  }

  /** What the rival leaves before the check's `cas`. */
  lemma Overtaken<V>(cfg: Config<V>, s: Sys<V>, k: nat, key: string, cost: U32, now: nat)
    requires CheckLoop.Ready(s, 0) && OnlyChecks(s, k) && KeyIssued(s, key)
    ensures var m: Moment<V> := Contended(k + 1, key, cost, now);
            var ready := Opened(cfg, false, 0, m, s);
            && OnlyChecks(ready, k + 1) && KeyIssued(ready, key)
            && !Matches(ready.store, key, Expectation(Saw(cfg, false, 0, m, s, key)))
  {
    hide Opened, Asked, Take, Stepped;
    var m: Moment<V> := Contended(k + 1, key, cost, now);
    ReadsAlone(cfg, s, 0, m);
    var holding := Take(cfg, Asked(cfg, false, 0, m, s), Event.Get(0, false));
    RivalCommits(cfg, 0, holding, k + 1, key, cost, now);
  }

  lemma FailsAlone<V>(cfg: Config<V>, s: Sys<V>, p: Pid, k: nat, key: string)
    requires Enabled(s, Event.Cas(p, Fine)) && s.calls[p].key == key && !Current(s.store, s.calls[p])
    requires OnlyChecks(s, k) && KeyIssued(s, key)
    ensures var s' := Take(cfg, s, Event.Cas(p, Fine)); OnlyChecks(s', k) && KeyIssued(s', key)
  {
  }

  lemma LosesOne<V>(cfg: Config<V>, s: Sys<V>, k: nat, key: string, cost: U32, now: nat)
    requires k < MAX_ATTEMPTS && Waits(s, 0, key, cost, MAX_ATTEMPTS - k) && OnlyChecks(s, k) && KeyIssued(s, key)
    ensures var s' := OneAttempt(cfg, false, 0, Contended(k + 1, key, cost, now), s);
            && OnlyChecks(s', k + 1) && KeyIssued(s', key)
            && (k + 1 < MAX_ATTEMPTS ==> Waits(s', 0, key, cost, MAX_ATTEMPTS - (k + 1)))
            && (k + 1 == MAX_ATTEMPTS ==> Returned(s', 0, key, cost, GiveUp(cfg.limit), false))
  {
    hide Opened, Asked, Take, OnlyChecks, KeyIssued, Matches, Rival;
    var m: Moment<V> := Contended(k + 1, key, cost, now);
    var ready, seen := Opened(cfg, false, 0, m, s), Saw(cfg, false, 0, m, s, key);
    Overtaken(cfg, s, k, key, cost, now);
    OpenedUnderway(cfg, false, 0, m, s, key, cost, MAX_ATTEMPTS - k);
    CasSettles(cfg, ready, 0, Fine, key, cost, MAX_ATTEMPTS - k, now, seen);
    FailsAlone(cfg, ready, 0, k + 1, key);
  }

  lemma {:induction false} LosesAll<V>(cfg: Config<V>, s: Sys<V>, k: nat, key: string, cost: U32, now: nat)
    requires k < MAX_ATTEMPTS && Waits(s, 0, key, cost, MAX_ATTEMPTS - k) && OnlyChecks(s, k) && KeyIssued(s, key)
    ensures var s' := CheckRun(cfg, false, 0, ContendedFrom<V>(k, key, cost, now), s);
            OnlyChecks(s', MAX_ATTEMPTS) && Returned(s', 0, key, cost, GiveUp(cfg.limit), false)
    decreases MAX_ATTEMPTS - k
  {
    hide OnlyChecks, KeyIssued, OneAttempt;
    LosesOne(cfg, s, k, key, cost, now);
    assert ContendedFrom<V>(k, key, cost, now)[1..] == ContendedFrom<V>(k + 1, key, cost, now);
    if k + 1 < MAX_ATTEMPTS {
      LosesAll(cfg, OneAttempt(cfg, false, 0, Contended(k + 1, key, cost, now), s), k + 1, key, cost, now);
    }
  }

  /** On the local store five other checks, and no more, can exhaust a check: it gives up. */
  lemma {:induction false} FiveOthersExhaust<V>(cfg: Config<V>, key: string, cost: U32, now: nat)
    ensures var s' := CheckRun(cfg, false, 0, ContendedFrom<V>(0, key, cost, now),
                               Stepped(cfg, Initial(), Start(0, key, cost)));
            && Returned(s', 0, key, cost, GiveUp(cfg.limit), false)
            && OnlyChecks(s', 5)
  {
    LosesAll(cfg, Stepped(cfg, Initial(), Start(0, key, cost)), 0, key, cost, now);
  }

  // ---- Five charges ----

  /** Attempts whose `cas` is applied and reported as a conflict. */
  function Unheard<V>(n: nat, now: nat): seq<Moment<V>> {
    if n == 0 then [] else [Moment(now, [], false, [], Unacknowledged, false)] + Unheard(n - 1, now)
  }

  lemma CommitsUnheard<V>(cfg: Config<V>, s: Sys<V>, key: string, cost: U32, left: nat, now: nat)
    requires left > 0 && Waits(s, 0, key, cost, left)
    ensures var s' := OneAttempt(cfg, true, 0, Moment(now, [], false, [], Unacknowledged, false), s);
            && CommitsBy(s'.log, 0) == CommitsBy(s.log, 0) + 1
            && (left > 1 ==> Waits(s', 0, key, cost, left - 1))
            && (left == 1 ==> Returned(s', 0, key, cost, GiveUp(cfg.limit), false))
  {
    var m: Moment<V> := Moment(now, [], false, [], Unacknowledged, false);
    var ready := Opened(cfg, true, 0, m, s);
    OpenedUnderway(cfg, true, 0, m, s, key, cost, left);
    CasSettles(cfg, ready, 0, Unacknowledged, key, cost, left, now, Saw(cfg, true, 0, m, s, key));
    assert ready.store == s.store && ready.log == s.log;
    var s' := Take(cfg, ready, Event.Cas(0, Unacknowledged));
    assert s'.log[..|s.log|] == s.log;
  }

  lemma {:induction false} AllUnheard<V>(cfg: Config<V>, s: Sys<V>, key: string, cost: U32, left: nat, now: nat)
    requires left > 0 && Waits(s, 0, key, cost, left)
    ensures var s' := CheckRun(cfg, true, 0, Unheard<V>(left, now), s);
            CommitsBy(s'.log, 0) == CommitsBy(s.log, 0) + left && Returned(s', 0, key, cost, GiveUp(cfg.limit), false)
    decreases left
  {
    hide OneAttempt, CommitsBy;
    CommitsUnheard(cfg, s, key, cost, left, now);
    assert Unheard<V>(left, now)[1..] == Unheard<V>(left - 1, now);
    if left > 1 {
      AllUnheard(cfg, OneAttempt(cfg, true, 0, Unheard<V>(left, now)[0], s), key, cost, left - 1, now);
    }
  }

  /** Over etcd one check can be charged five times, and be told that it failed. */
  lemma {:induction false} FiveChargesHappen<V>(cfg: Config<V>, key: string, cost: U32, now: nat)
    ensures var s' := CheckRun(cfg, true, 0, Unheard<V>(5, now), Stepped(cfg, Initial(), Start(0, key, cost)));
            CommitsBy(s'.log, 0) == 5 && Returned(s', 0, key, cost, GiveUp(cfg.limit), false)
  {
    AllUnheard(cfg, Stepped(cfg, Initial(), Start(0, key, cost)), key, cost, 5, now);
  }
}
