/** What holds after every interleaving of checks and writers, with and without store faults. */
module ProtocolTheorems {
  import opened Limiter
  import opened Runs
  import opened StateStore
  import opened Protocol
  import opened ProtocolInvariant

  // ---- Linearizability ----

  /** The check returned what its decision function gives on the state just before its own commit. */
  ghost predicate ReturnsItsCommit<V>(decide: Decider<V>, log: seq<Write<V>>, p: Pid, c: Call<V>) {
    c.phase.Done? && c.phase.committed ==>
      && c.startedAt < c.phase.endedAt <= |log|
      && var i := c.phase.endedAt - 1;
         && AcknowledgedTo(log[i], p, c, c.phase.decision)
         && c.phase.decision == decide(Held(decide, log[..i], c.key), log[i].now, c.cost).decision
  }

  /**
   Every interleaving is a sequential run. Under every key the store holds what the writes that
   took effect leave, one after the other; every check that committed did so between its start
   and its end, and returned the decision its function gives on the state just before; a check
   that gave up returned the fixed denial.
   */
  lemma {:induction false} Linearizable<V>(cfg: Config<V>, events: seq<Event<V>>)
    requires Legal(cfg, events)
    ensures var s := After(cfg, events);
            && StoreIsLog(cfg.decide, s)
            && (forall p {:trigger p in s.calls} :: p in s.calls ==>
                  && ReturnsItsCommit(cfg.decide, s.log, p, s.calls[p])
                  && (s.calls[p].phase.Done? && !s.calls[p].phase.committed
                      ==> s.calls[p].phase.decision == Decision(false, cfg.limit, 0, 100)))
  {
    var s := After(cfg, events);
    ReachableInv(cfg, events);
    forall p | p in s.calls
      ensures ReturnsItsCommit(cfg.decide, s.log, p, s.calls[p])
      ensures s.calls[p].phase.Done? && !s.calls[p].phase.committed ==> s.calls[p].phase.decision == GiveUp(cfg.limit)
    {
      var c := s.calls[p];
      assert CallOk(cfg.limit, s.store, s.drawn, s.log, p, c);
      if c.phase.Done? && c.phase.committed {
        assert CommitDecided(cfg.decide, s.log, c.phase.endedAt - 1);
      }
    }
  }

  // ---- The commits on one key, as a run ----

  function CommitsOn<V>(log: seq<Write<V>>, key: string): seq<Request> {
    if log == [] then [] else
    var n := |log| - 1;
    var before := CommitsOn(log[..n], key);
    if log[n].key == key && log[n].Commit? then before + [Request(log[n].now, log[n].cost)] else before
  }

  function DecisionsOn<V>(log: seq<Write<V>>, key: string): seq<Decision> {
    if log == [] then [] else
    var n := |log| - 1;
    var before := DecisionsOn(log[..n], key);
    if log[n].key == key && log[n].Commit? then before + [log[n].decision] else before
  }

  ghost predicate OnlyCommits<V>(log: seq<Write<V>>, key: string) {
    forall i :: 0 <= i < |log| && log[i].key == key ==> log[i].Commit?
  }

  lemma {:induction false} HeldIsRun<V>(decide: Decider<V>, log: seq<Write<V>>, key: string)
    requires CommitsDecided(decide, log) && OnlyCommits(log, key)
    ensures Held(decide, log, key) == Replay(decide, CommitsOn(log, key))
    ensures DecisionsOn(log, key) == Decisions(decide, CommitsOn(log, key))
  {
    if log != [] {
      var n := |log| - 1;
      var front, w := log[..n], log[n];
      assert log == front + [w];
      forall i | 0 <= i < n ensures CommitDecided(decide, front, i) {
        assert CommitDecided(decide, log, i);
        assert log[..i] == front[..i];
      }
      HeldIsRun(decide, front, key);
      if w.key == key {
        assert CommitDecided(decide, log, n);
        RunExtended(decide, CommitsOn(front, key), Request(w.now, w.cost));
      }
    }
  }

  /** Under a key that only checks write, the store holds the sequential run of the commits, with its decisions. */
  lemma {:induction false} SequentialRun<V>(cfg: Config<V>, events: seq<Event<V>>, key: string)
    requires Legal(cfg, events) && OnlyCommits(After(cfg, events).log, key)
    ensures var s := After(cfg, events);
            && ValueOf(Lookup(s.store, key)) == Replay(cfg.decide, CommitsOn(s.log, key))
            && DecisionsOn(s.log, key) == Decisions(cfg.decide, CommitsOn(s.log, key))
  {
    ReachableInv(cfg, events);
    HeldIsRun(cfg.decide, After(cfg, events).log, key);
  }

  // ---- Versions ----

  /**
   No lost update and no ABA. An attempt whose `get` succeeded finds its expected version if and
   only if nobody wrote the key in between; and then the key still holds what it saw.
   */
  lemma {:induction false} CurrentIffUntouched<V>(cfg: Config<V>, events: seq<Event<V>>, p: Pid)
    requires Legal(cfg, events) && p in After(cfg, events).calls
    requires var c := After(cfg, events).calls[p]; c.phase.Holding? && !c.phase.getFailed
    ensures var s := After(cfg, events);
            var c := s.calls[p];
            && (Current(s.store, c) <==> Untouched(s.log, c.phase.readAt, c.key))
            && (Current(s.store, c) ==> Lookup(s.store, c.key) == c.phase.seen)
  {
    ReachableInv(cfg, events);
    var s := After(cfg, events);
    assert CallOk(cfg.limit, s.store, s.drawn, s.log, p, s.calls[p]);
  }

  /** Each version is stored at most once, although a `put` inserts it later than it draws it. */
  lemma {:induction false} VersionsStoredOnce<V>(cfg: Config<V>, events: seq<Event<V>>, i: nat, j: nat)
    requires Legal(cfg, events) && i < j < |After(cfg, events).log|
    ensures After(cfg, events).log[i].version != After(cfg, events).log[j].version
  {
    ReachableInv(cfg, events);
  }

  /** Two writers: each draws a version, and they insert in the opposite order. */
  function CrossedPuts<V>(key: string, value: V): seq<Event<V>> {
    [Draw, Draw, Insert(2, key, value), Insert(1, key, value)]
  }

  /** With `put`, the version of a key can go down. */
  lemma {:induction false} PutsCanLowerAVersion<V>(cfg: Config<V>, key: string, value: V)
    ensures var events := CrossedPuts(key, value);
            && Legal(cfg, events)
            && After(cfg, events).log == [Overwrite(key, 2, value), Overwrite(key, 1, value)]
            && After(cfg, events).store.entries == map[key := Versioned(value, 1)]
  {
    var e0: seq<Event<V>> := [];
    var e1 := e0 + [Draw];
    var e2 := e1 + [Draw];
    var e3 := e2 + [Insert(2, key, value)];
    OneMore(cfg, e0, Draw);
    OneMore(cfg, e1, Draw);
    OneMore(cfg, e2, Insert(2, key, value));
    OneMore(cfg, e3, Insert(1, key, value));
    assert CrossedPuts(key, value) == e3 + [Insert(1, key, value)];
  }

  // ---- Faultless runs: what the local store gives ----

  ghost predicate NoFaults<V>(s: Sys<V>) {
    && (forall p {:trigger p in s.calls} :: p in s.calls ==>
          s.calls[p].faults == 0 && (s.calls[p].phase.Holding? ==> !s.calls[p].phase.getFailed))
    && (forall i :: 0 <= i < |s.log| && s.log[i].Commit? ==> s.log[i].acknowledged)
  }

  ghost predicate AllFaultless<V>(events: seq<Event<V>>) {
    forall k :: 0 <= k < |events| ==> Faultless(events[k])
  }

  lemma {:induction false} FaultlessRun<V>(cfg: Config<V>, events: seq<Event<V>>)
    requires Legal(cfg, events) && AllFaultless(events)
    ensures NoFaults(After(cfg, events))
  {
    if events != [] {
      var n := |events| - 1;
      FaultlessRun(cfg, events[..n]);
      assert Faultless(events[n]);
    }
  }

  lemma {:induction false} NoCommitsMeansNone<V>(log: seq<Write<V>>, p: Pid)
    requires CommitsBy(log, p) == 0
    ensures NoneBy(log, p)
  {
    if log != [] {
      NoCommitsMeansNone(log[..|log| - 1], p);
      forall i | 0 <= i < |log| ensures !(log[i].Commit? && log[i].pid == p) {
        if i < |log| - 1 { assert log[..|log| - 1][i] == log[i]; }
      }
    }
  }

  // ---- Giving up needs contention ----

  /** A request of check `p` that met an error. */
  predicate FaultyFor<V>(e: Event<V>, p: Pid) {
    !Faultless(e) && e.pid == p
  }

  /** The requests of check `p` that met an error. */
  function FaultsOf<V>(events: seq<Event<V>>, p: Pid): nat {
    if events == [] then 0 else
    var n := |events| - 1;
    FaultsOf(events[..n], p) + if FaultyFor(events[n], p) then 1 else 0
  }

  /** The faults a check has counted are requests of its own that met an error. */
  ghost predicate FaultsHappened<V>(s: Sys<V>, p: Pid, faults: nat) {
    p in s.calls ==>
      s.calls[p].faults + (if s.calls[p].phase.Holding? && s.calls[p].phase.getFailed then 1 else 0) <= faults
  }

  lemma FaultHappened<V>(cfg: Config<V>, s: Sys<V>, e: Event<V>, p: Pid, faults: nat)
    requires Enabled(s, e) && FaultsHappened(s, p, faults)
    ensures FaultsHappened(Stepped(cfg, s, e), p, faults + if FaultyFor(e, p) then 1 else 0)
  {
  }

  lemma {:induction false} FaultsAreEvents<V>(cfg: Config<V>, events: seq<Event<V>>, p: Pid)
    requires Legal(cfg, events)
    ensures FaultsHappened(After(cfg, events), p, FaultsOf(events, p))
  {
    hide FaultsHappened, Stepped, Enabled;
    if events == [] {
      NoFaultsAtFirst(cfg, p);
    } else {
      var n := |events| - 1;
      FaultsAreEvents(cfg, events[..n], p);
      FaultHappened(cfg, After(cfg, events[..n]), events[n], p, FaultsOf(events[..n], p));
    }
  }

  lemma {:induction false} NoFaultsAtFirst<V>(cfg: Config<V>, p: Pid)
    ensures FaultsHappened(After(cfg, []), p, 0)
  {
  }

  /** Behind every give-up are at least five errors of the check's own requests, or writes of others to its key. */
  lemma {:induction false} GiveUpIsCovered<V>(cfg: Config<V>, events: seq<Event<V>>, p: Pid)
    requires Legal(cfg, events) && p in After(cfg, events).calls
    requires var ph := After(cfg, events).calls[p].phase; ph.Done? && !ph.committed
    ensures var s := After(cfg, events);
            var c := s.calls[p];
            && c.startedAt <= c.phase.endedAt <= |s.log|
            && FaultsOf(events, p) + OthersOn(s.log[c.startedAt..c.phase.endedAt], c.key, p) >= MAX_ATTEMPTS
  {
    var s := After(cfg, events);
    ReachableInv(cfg, events);
    FaultsAreEvents(cfg, events, p);
    assert CallOk(cfg.limit, s.store, s.drawn, s.log, p, s.calls[p]);
  }

  /** A check that gave up without an error of its own requests wrote nothing; on the local store there are none. */
  lemma {:induction false} GivingUpHasNoEffect<V>(cfg: Config<V>, events: seq<Event<V>>, p: Pid)
    requires Legal(cfg, events) && FaultsOf(events, p) == 0 && p in After(cfg, events).calls
    requires var ph := After(cfg, events).calls[p].phase; ph.Done? && !ph.committed
    ensures NoneBy(After(cfg, events).log, p)
  {
    var s := After(cfg, events);
    ReachableInv(cfg, events);
    FaultsAreEvents(cfg, events, p);
    assert CallOk(cfg.limit, s.store, s.drawn, s.log, p, s.calls[p]);
    NoCommitsMeansNone(s.log, p);
  }

  lemma {:induction false} NoneFaulty<V>(events: seq<Event<V>>, p: Pid)
    requires AllFaultless(events)
    ensures FaultsOf(events, p) == 0
  {
    if events != [] {
      NoneFaulty(events[..|events| - 1], p);
      assert Faultless(events[|events| - 1]);
    }
  }

  /** The checks other than `p` that committed to the key. */
  function Committers<V>(log: seq<Write<V>>, key: string, p: Pid): set<Pid> {
    if log == [] then {} else
    var n := |log| - 1;
    var before := Committers(log[..n], key, p);
    if log[n].Commit? && log[n].key == key && log[n].pid != p then before + {log[n].pid} else before
  }

  ghost predicate OneCommitEach<V>(log: seq<Write<V>>) {
    forall i, j :: 0 <= i < j < |log| && log[i].Commit? && log[j].Commit? ==> log[i].pid != log[j].pid
  }

  lemma {:induction false} NotACommitter<V>(log: seq<Write<V>>, key: string, p: Pid, q: Pid)
    requires NoneBy(log, q)
    ensures q !in Committers(log, key, p)
  {
    if log != [] { NotACommitter(log[..|log| - 1], key, p, q); }
  }

  ghost predicate CommittedWithin<V>(log: seq<Write<V>>, key: string, p: Pid, ids: set<Pid>) {
    forall i :: 0 <= i < |log| && log[i].Commit? && log[i].key == key && log[i].pid != p ==> log[i].pid in ids
  }

  lemma {:induction false} CommittersWithin<V>(log: seq<Write<V>>, key: string, p: Pid, ids: set<Pid>)
    requires CommittedWithin(log, key, p, ids)
    ensures Committers(log, key, p) <= ids
  {
    if log != [] { CommittersWithin(log[..|log| - 1], key, p, ids); }
  }

  lemma {:induction false} CommittersCounted<V>(log: seq<Write<V>>, key: string, p: Pid)
    requires OneCommitEach(log) && OnlyCommits(log, key)
    ensures |Committers(log, key, p)| == OthersOn(log, key, p)
  {
    if log != [] {
      var n := |log| - 1;
      var front, w := log[..n], log[n];
      CommittersCounted(front, key, p);
      if w.key == key && w.pid != p {
        assert NoneBy(front, w.pid);
        NotACommitter(front, key, p, w.pid);
      }
    }
  }

  /** The other checks on the key of call `p` that were running at some time during it. */
  function Overlapping<V>(s: Sys<V>, p: Pid): set<Pid>
    requires p in s.calls && s.calls[p].phase.Done?
  {
    set q | q in s.calls && q != p && s.calls[q].key == s.calls[p].key
            && s.calls[q].startedAt <= s.calls[p].phase.endedAt
            && (s.calls[q].phase.Done? ==> s.calls[q].phase.endedAt >= s.calls[p].startedAt)
  }

  lemma CommitsDuringOwned<V>(cfg: Config<V>, s: Sys<V>, a: nat, b: nat, i: nat)
    requires Inv(cfg, s) && a <= b <= |s.log| && i < b - a && s.log[a..b][i].Commit?
    ensures Owned(s.calls, s.log[a..b][i], a + i)
  {
    assert s.log[a..b][i] == s.log[a + i];
  }

  lemma {:induction false} CommittersOverlap<V>(cfg: Config<V>, s: Sys<V>, p: Pid)
    requires Inv(cfg, s) && NoFaults(s) && p in s.calls && s.calls[p].phase.Done?
    requires s.calls[p].startedAt <= s.calls[p].phase.endedAt <= |s.log|
    ensures Committers(s.log[s.calls[p].startedAt..s.calls[p].phase.endedAt], s.calls[p].key, p) <= Overlapping(s, p)
    ensures OneCommitEach(s.log[s.calls[p].startedAt..s.calls[p].phase.endedAt])
  {
    var a, b := s.calls[p].startedAt, s.calls[p].phase.endedAt;
    var during := s.log[a..b];
    forall i | 0 <= i < |during| && during[i].Commit?
      ensures Owned(s.calls, during[i], a + i) && during[i].acknowledged
    {
      CommitsDuringOwned(cfg, s, a, b, i);
    }
    assert CommittedWithin(during, s.calls[p].key, p, Overlapping(s, p));
    CommittersWithin(during, s.calls[p].key, p, Overlapping(s, p));
  }

  /**
   On the local store, with the key written only by checks, a check gives up only if at least
   five different other checks committed to its key during the call.
   */
  lemma {:induction false} GiveUpNeedsFiveOthers<V>(cfg: Config<V>, events: seq<Event<V>>, p: Pid)
    requires Legal(cfg, events) && AllFaultless(events) && p in After(cfg, events).calls
    requires OnlyCommits(After(cfg, events).log, After(cfg, events).calls[p].key)
    requires var ph := After(cfg, events).calls[p].phase; ph.Done? && !ph.committed
    ensures var s := After(cfg, events);
            var c := s.calls[p];
            && c.startedAt <= c.phase.endedAt <= |s.log|
            && |Committers(s.log[c.startedAt..c.phase.endedAt], c.key, p)| >= MAX_ATTEMPTS
            && |Overlapping(s, p)| >= MAX_ATTEMPTS
  {
    var s := After(cfg, events);
    var c := s.calls[p];
    ReachableInv(cfg, events);
    FaultlessRun(cfg, events);
    GiveUpIsCovered(cfg, events, p);
    NoneFaulty(events, p);
    CommittersOverlap(cfg, s, p);
    var during := s.log[c.startedAt..c.phase.endedAt];
    assert OnlyCommits(during, c.key);
    CommittersCounted(during, c.key, p);
    SubsetSize(Committers(during, c.key, p), Overlapping(s, p));
  }

  lemma SubsetSize(a: set<Pid>, b: set<Pid>)
    requires a <= b
    ensures |a| <= |b|
  {
    assert b == a + (b - a);
  }

  /** So a check that at most four others overlap always commits. */
  lemma {:induction false} FourOthersNeverExhaust<V>(cfg: Config<V>, events: seq<Event<V>>, p: Pid)
    requires Legal(cfg, events) && AllFaultless(events) && p in After(cfg, events).calls
    requires OnlyCommits(After(cfg, events).log, After(cfg, events).calls[p].key)
    requires After(cfg, events).calls[p].phase.Done? && |Overlapping(After(cfg, events), p)| <= 4
    ensures After(cfg, events).calls[p].phase.committed
  {
    if !After(cfg, events).calls[p].phase.committed {
      GiveUpNeedsFiveOthers(cfg, events, p);
    }
  }
}
