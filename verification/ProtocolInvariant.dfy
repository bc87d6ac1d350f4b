/** What every step of the protocol keeps. */
module ProtocolInvariant {
  import opened Wrappers
  import opened Limiter
  import opened Runs
  import opened StateStore
  import opened Protocol

  // ---- Versions ----

  /** A version that has been issued, and is not waiting to be inserted. */
  ghost predicate Spent(next: int, drawn: set<int>, version: int) {
    1 <= version < next && version !in drawn
  }

  ghost predicate DrawnOk(next: int, drawn: set<int>) {
    && 1 <= next
    && (forall v {:trigger v in drawn} :: v in drawn ==> 1 <= v < next)
  }

  ghost predicate EntriesOk<V>(store: Store<V>, drawn: set<int>) {
    forall key {:trigger key in store.entries} ::
      key in store.entries ==> Spent(store.next, drawn, store.entries[key].version)
  }

  /** Every version is stored at most once. */
  ghost predicate LogVersionsOk<V>(next: int, drawn: set<int>, log: seq<Write<V>>) {
    && (forall i :: 0 <= i < |log| ==> Spent(next, drawn, log[i].version))
    && (forall i, j :: 0 <= i < j < |log| ==> log[i].version != log[j].version)
  }

  ghost predicate VersionsOk<V>(s: Sys<V>) {
    && DrawnOk(s.store.next, s.drawn)
    && EntriesOk(s.store, s.drawn)
    && LogVersionsOk(s.store.next, s.drawn, s.log)
  }

  // ---- The store against the log ----

  /** Every key holds what its logged writes leave, and every commit decided on what they had left. */
  ghost predicate StoreIsLog<V>(decide: Decider<V>, s: Sys<V>) {
    forall key :: ValueOf(Lookup(s.store, key)) == Held(decide, s.log, key)
  }

  ghost predicate CommitDecided<V>(decide: Decider<V>, log: seq<Write<V>>, i: nat)
    requires i < |log|
  {
    log[i].Commit? ==>
      log[i].decision == decide(Held(decide, log[..i], log[i].key), log[i].now, log[i].cost).decision
  }

  ghost predicate CommitsDecided<V>(decide: Decider<V>, log: seq<Write<V>>) {
    forall i :: 0 <= i < |log| ==> CommitDecided(decide, log, i)
  }

  // ---- One call ----

  /** What an attempt saw, against what the key holds now: the same if and only if nobody wrote it since. */
  ghost predicate SeenOk<V>(store: Store<V>, drawn: set<int>, log: seq<Write<V>>, c: Call<V>)
    requires c.phase.Holding?
  {
    var seen := c.phase.seen;
    if seen.Some? then
      && !c.phase.getFailed
      && Spent(store.next, drawn, seen.value.version)
      && c.key in store.entries
      && (if Untouched(log, c.phase.readAt, c.key) then store.entries[c.key] == seen.value
          else store.entries[c.key].version != seen.value.version)
    else
      c.phase.getFailed || (c.key in store.entries <==> !Untouched(log, c.phase.readAt, c.key))
  }

  /** The failed attempts that met no fault are covered by other writes to the key. */
  ghost predicate Blamed<V>(log: seq<Write<V>>, p: Pid, c: Call<V>, upTo: nat)
    requires c.startedAt <= upTo <= |log|
  {
    c.attempt <= c.faults + OthersOn(log[c.startedAt..upTo], c.key, p)
  }

  ghost predicate CallOk<V>(limit: int, store: Store<V>, drawn: set<int>, log: seq<Write<V>>, p: Pid, c: Call<V>) {
    && c.startedAt <= |log|
    && c.faults <= c.attempt
    && match c.phase
       case Ready => c.attempt < MAX_ATTEMPTS && CommitsBy(log, p) <= c.faults && Blamed(log, p, c, |log|)
       case Timed(_) => c.attempt < MAX_ATTEMPTS && CommitsBy(log, p) <= c.faults && Blamed(log, p, c, |log|)
       case Holding(_, _, _, readAt) =>
         && c.attempt < MAX_ATTEMPTS && CommitsBy(log, p) <= c.faults
         && c.startedAt <= readAt <= |log|
         && Blamed(log, p, c, readAt)
         && CommitsBy(log[readAt..], p) == 0
         && SeenOk(store, drawn, log, c)
       case Done(decision, committed, endedAt) =>
         && c.startedAt <= endedAt <= |log|
         && CommitsBy(log, p) <= c.faults + (if committed then 1 else 0)
         && (committed ==>
               && c.attempt < MAX_ATTEMPTS && c.startedAt < endedAt
               && AcknowledgedTo(log[endedAt - 1], p, c, decision))
         && (!committed ==> c.attempt == MAX_ATTEMPTS && decision == GiveUp(limit) && Blamed(log, p, c, endedAt))
  }

  /** The write is the commit that check `p` was told of, with the decision it returned. */
  ghost predicate AcknowledgedTo<V>(w: Write<V>, p: Pid, c: Call<V>, decision: Decision) {
    w.Commit? && w.pid == p && w.key == c.key && w.cost == c.cost && w.decision == decision && w.acknowledged
  }

  ghost predicate CallsOk<V>(limit: int, s: Sys<V>) {
    forall p {:trigger p in s.calls} :: p in s.calls ==> CallOk(limit, s.store, s.drawn, s.log, p, s.calls[p])
  }

  /** A logged commit belongs to a check that asked for it, and an acknowledged one ended that check. */
  ghost predicate Owned<V>(calls: map<Pid, Call<V>>, w: Write<V>, i: nat) {
    w.Commit? ==>
      && w.pid in calls
      && calls[w.pid].key == w.key && calls[w.pid].cost == w.cost && calls[w.pid].startedAt <= i
      && (w.acknowledged ==> calls[w.pid].phase == Done(w.decision, true, i + 1))
  }

  ghost predicate LogOwned<V>(s: Sys<V>) {
    forall i :: 0 <= i < |s.log| ==> Owned(s.calls, s.log[i], i)
  }

  ghost predicate Inv<V>(cfg: Config<V>, s: Sys<V>) {
    && VersionsOk(s)
    && StoreIsLog(cfg.decide, s)
    && CommitsDecided(cfg.decide, s.log)
    && CallsOk(cfg.limit, s)
    && LogOwned(s)
  }

  // ---- Counting in the log ----

  lemma {:induction false} OthersOnAppend<V>(a: seq<Write<V>>, b: seq<Write<V>>, key: string, p: Pid)
    ensures OthersOn(a + b, key, p) == OthersOn(a, key, p) + OthersOn(b, key, p)
  {
    if b == [] {
      assert a + b == a;
    } else {
      var n := |b| - 1;
      assert (a + b)[..|a + b| - 1] == a + b[..n];
      OthersOnAppend(a, b[..n], key, p);
    }
  }

  lemma {:induction false} CommitsByAppend<V>(a: seq<Write<V>>, b: seq<Write<V>>, p: Pid)
    ensures CommitsBy(a + b, p) == CommitsBy(a, p) + CommitsBy(b, p)
  {
    if b == [] {
      assert a + b == a;
    } else {
      var n := |b| - 1;
      assert (a + b)[..|a + b| - 1] == a + b[..n];
      CommitsByAppend(a, b[..n], p);
    }
  }

  lemma {:induction false} CommitsByOne<V>(log: seq<Write<V>>, w: Write<V>, p: Pid)
    ensures CommitsBy(log + [w], p) == CommitsBy(log, p) + if w.Commit? && w.pid == p then 1 else 0
  {
    assert (log + [w])[..|log|] == log;
  }

  ghost predicate NoneBy<V>(log: seq<Write<V>>, p: Pid) {
    forall i :: 0 <= i < |log| ==> !(log[i].Commit? && log[i].pid == p)
  }

  lemma {:induction false} NoCommitsBy<V>(log: seq<Write<V>>, p: Pid)
    requires NoneBy(log, p)
    ensures CommitsBy(log, p) == 0
  {
    if log != [] { NoCommitsBy(log[..|log| - 1], p); }
  }

  /** A write to the key by no commit of `p` is a write by someone else. */
  lemma {:induction false} TouchedByOthers<V>(log: seq<Write<V>>, key: string, p: Pid)
    requires CommitsBy(log, p) == 0 && !Untouched(log, 0, key)
    ensures OthersOn(log, key, p) >= 1
  {
    var n := |log| - 1;
    if log[n].key != key {
      assert !Untouched(log[..n], 0, key) by {
        var i :| 0 <= i < |log| && log[i].key == key;
        assert log[..n][i].key == key;
      }
      TouchedByOthers(log[..n], key, p);
    }
  }

  lemma {:induction false} OthersOnSplit<V>(log: seq<Write<V>>, a: nat, b: nat, key: string, p: Pid)
    requires a <= b <= |log|
    ensures OthersOn(log[a..], key, p) == OthersOn(log[a..b], key, p) + OthersOn(log[b..], key, p)
  {
    assert log[a..] == log[a..b] + log[b..];
    OthersOnAppend(log[a..b], log[b..], key, p);
  }

  lemma UntouchedAppend<V>(log: seq<Write<V>>, w: Write<V>, from: nat, key: string)
    requires from <= |log|
    ensures Untouched(log + [w], from, key) <==> Untouched(log, from, key) && w.key != key
  {
    if Untouched(log + [w], from, key) {
      assert (log + [w])[|log|] == w;
      forall i | from <= i < |log| ensures log[i].key != key { assert (log + [w])[i] == log[i]; }
    }
  }

  lemma UntouchedSuffix<V>(log: seq<Write<V>>, from: nat, key: string)
    requires from <= |log|
    ensures Untouched(log, from, key) <==> Untouched(log[from..], 0, key)
  {
    if Untouched(log[from..], 0, key) {
      forall i | from <= i < |log| ensures log[i].key != key { assert log[from..][i - from] == log[i]; }
    }
  }

  // ---- Versions only become spent ----

  ghost predicate SpentGrows(next: int, drawn: set<int>, next': int, drawn': set<int>) {
    forall v {:trigger Spent(next, drawn, v)} {:trigger Spent(next', drawn', v)} ::
      Spent(next, drawn, v) ==> Spent(next', drawn', v)
  }

  // ---- Calls are unaffected by the steps of others ----

  lemma CallSurvivesIssue<V>(limit: int, store: Store<V>, drawn: set<int>, log: seq<Write<V>>, p: Pid, c: Call<V>,
                             next': int, drawn': set<int>)
    requires CallOk(limit, store, drawn, log, p, c)
    requires SpentGrows(store.next, drawn, next', drawn')
    ensures CallOk(limit, store.(next := next'), drawn', log, p, c)
  {
  }

  /** The store after a write, and what the write may not do: reuse a spent version. */
  ghost predicate WriteApplied<V>(store: Store<V>, drawn: set<int>, w: Write<V>, store': Store<V>, drawn': set<int>,
                                  value: V) {
    && store'.entries == store.entries[w.key := Versioned(value, w.version)]
    && !Spent(store.next, drawn, w.version)
    && SpentGrows(store.next, drawn, store'.next, drawn')
  }

  lemma BlamedAppend<V>(log: seq<Write<V>>, w: Write<V>, p: Pid, c: Call<V>, upTo: nat)
    requires c.startedAt <= upTo <= |log| && Blamed(log, p, c, upTo)
    ensures Blamed(log + [w], p, c, upTo)
    ensures Blamed(log + [w], p, c, |log| + 1)
  {
    assert (log + [w])[c.startedAt..upTo] == log[c.startedAt..upTo];
    assert (log + [w])[c.startedAt..|log| + 1] == (log + [w])[c.startedAt..];
    OthersOnSplit(log + [w], c.startedAt, upTo, c.key, p);
  }

  lemma SeenSurvivesWrite<V>(store: Store<V>, drawn: set<int>, log: seq<Write<V>>, c: Call<V>,
                             w: Write<V>, store': Store<V>, drawn': set<int>, value: V)
    requires c.phase.Holding? && c.phase.readAt <= |log|
    requires SeenOk(store, drawn, log, c) && WriteApplied(store, drawn, w, store', drawn', value)
    ensures SeenOk(store', drawn', log + [w], c)
  {
    UntouchedAppend(log, w, c.phase.readAt, c.key);
  }

  lemma CallSurvivesWrite<V>(limit: int, store: Store<V>, drawn: set<int>, log: seq<Write<V>>, p: Pid, c: Call<V>,
                             w: Write<V>, store': Store<V>, drawn': set<int>, value: V)
    requires CallOk(limit, store, drawn, log, p, c)
    requires WriteApplied(store, drawn, w, store', drawn', value) && !(w.Commit? && w.pid == p)
    ensures CallOk(limit, store', drawn', log + [w], p, c)
  {
    CommitsByOne(log, w, p);
    match c.phase
    case Ready => BlamedAppend(log, w, p, c, |log|);
    case Timed(_) => BlamedAppend(log, w, p, c, |log|);
    case Holding(_, _, _, readAt) =>
      BlamedAppend(log, w, p, c, readAt);
      assert (log + [w])[readAt..] == log[readAt..] + [w];
      CommitsByOne(log[readAt..], w, p);
      SeenSurvivesWrite(store, drawn, log, c, w, store', drawn', value);
    case Done(_, committed, endedAt) =>
      if committed { assert (log + [w])[endedAt - 1] == log[endedAt - 1]; }
      else { BlamedAppend(log, w, p, c, endedAt); }
  }

  // ---- The parts kept by a write ----

  lemma {:induction false} HeldAppend<V>(decide: Decider<V>, log: seq<Write<V>>, w: Write<V>, key: string)
    ensures Held(decide, log + [w], key)
         == if w.key == key then Some(Left(decide, Held(decide, log, key), w)) else Held(decide, log, key)
  {
    assert (log + [w])[..|log|] == log;
  }

  lemma StoreIsLogKept<V>(decide: Decider<V>, s: Sys<V>, s': Sys<V>, w: Write<V>, value: V)
    requires StoreIsLog(decide, s) && s'.log == s.log + [w]
    requires s'.store.entries == s.store.entries[w.key := Versioned(value, w.version)]
    requires Held(decide, s'.log, w.key) == Some(value)
    ensures StoreIsLog(decide, s')
  {
    forall key ensures ValueOf(Lookup(s'.store, key)) == Held(decide, s'.log, key) {
      HeldAppend(decide, s.log, w, key);
      assert ValueOf(Lookup(s.store, key)) == Held(decide, s.log, key);
    }
  }

  lemma {:induction false} CommitsDecidedAppend<V>(decide: Decider<V>, log: seq<Write<V>>, w: Write<V>)
    requires CommitsDecided(decide, log)
    requires w.Commit? ==> w.decision == decide(Held(decide, log, w.key), w.now, w.cost).decision
    ensures CommitsDecided(decide, log + [w])
  {
    forall i | 0 <= i < |log + [w]| ensures CommitDecided(decide, log + [w], i) {
      if i < |log| {
        assert CommitDecided(decide, log, i);
        assert (log + [w])[..i] == log[..i];
      } else {
        assert (log + [w])[..i] == log;
      }
    }
  }

  lemma VersionsKeptByWrite<V>(s: Sys<V>, s': Sys<V>, w: Write<V>, value: V)
    requires VersionsOk(s) && s'.log == s.log + [w]
    requires WriteApplied(s.store, s.drawn, w, s'.store, s'.drawn, value)
    requires DrawnOk(s'.store.next, s'.drawn) && Spent(s'.store.next, s'.drawn, w.version)
    ensures VersionsOk(s')
  {
    forall i, j | 0 <= i < j < |s'.log| ensures s'.log[i].version != s'.log[j].version {
      assert Spent(s.store.next, s.drawn, s.log[i].version);
    }
    forall i | 0 <= i < |s'.log| ensures Spent(s'.store.next, s'.drawn, s'.log[i].version) {
      if i < |s.log| { assert Spent(s.store.next, s.drawn, s.log[i].version); }
    }
    forall key | key in s'.store.entries ensures Spent(s'.store.next, s'.drawn, s'.store.entries[key].version) {
      if key != w.key { assert Spent(s.store.next, s.drawn, s.store.entries[key].version); }
    }
  }

  // ---- The steps, one by one ----

  lemma StartKeeps<V>(cfg: Config<V>, s: Sys<V>, p: Pid, key: string, cost: U32)
    requires Inv(cfg, s) && p !in s.calls
    ensures Inv(cfg, Stepped(cfg, s, Start(p, key, cost)))
  {
    var s' := Stepped(cfg, s, Start(p, key, cost));
    assert NoneBy(s.log, p) by {
      forall i | 0 <= i < |s.log| ensures !(s.log[i].Commit? && s.log[i].pid == p) {
        assert Owned(s.calls, s.log[i], i);
      }
    }
    NoCommitsBy(s.log, p);
    assert CallOk(cfg.limit, s'.store, s'.drawn, s'.log, p, s'.calls[p]);
    forall i | 0 <= i < |s.log| ensures Owned(s'.calls, s'.log[i], i) {
      assert Owned(s.calls, s.log[i], i);
    }
  }

  /** A step that only moves one unfinished call on keeps what the log says of every call. */
  lemma LogOwnedByMovedCall<V>(s: Sys<V>, p: Pid, c: Call<V>)
    requires LogOwned(s) && p in s.calls && !s.calls[p].phase.Done?
    requires c.key == s.calls[p].key && c.cost == s.calls[p].cost && c.startedAt == s.calls[p].startedAt
    ensures LogOwned(s.(calls := s.calls[p := c]))
  {
    var s' := s.(calls := s.calls[p := c]);
    forall i | 0 <= i < |s.log| ensures Owned(s'.calls, s'.log[i], i) {
      assert Owned(s.calls, s.log[i], i);
    }
  }

  lemma ReadClockKeeps<V>(cfg: Config<V>, s: Sys<V>, p: Pid, now: nat)
    requires Inv(cfg, s) && p in s.calls && s.calls[p].phase.Ready?
    ensures Inv(cfg, Stepped(cfg, s, ReadClock(p, now)))
  {
    var c := s.calls[p].(phase := Timed(now));
    assert CallOk(cfg.limit, s.store, s.drawn, s.log, p, s.calls[p]);
    LogOwnedByMovedCall(s, p, c);
  }

  lemma GetKeeps<V>(cfg: Config<V>, s: Sys<V>, p: Pid, fails: bool)
    requires Inv(cfg, s) && p in s.calls && s.calls[p].phase.Timed?
    ensures Inv(cfg, Stepped(cfg, s, Get(p, fails)))
  {
    var s' := GetStep(s, p, fails);
    var c := s'.calls[p];
    assert CallOk(cfg.limit, s.store, s.drawn, s.log, p, s.calls[p]);
    assert s.log[|s.log|..] == [];
    assert SeenOk(s.store, s.drawn, s.log, c);
    assert CallOk(cfg.limit, s.store, s.drawn, s.log, p, c);
    LogOwnedByMovedCall(s, p, c);
  }

  lemma DrawKeeps<V>(cfg: Config<V>, s: Sys<V>)
    requires Inv(cfg, s)
    ensures Inv(cfg, Stepped(cfg, s, Draw))
  {
    var s' := Stepped(cfg, s, Draw);
    assert SpentGrows(s.store.next, s.drawn, s'.store.next, s'.drawn);
    forall q | q in s'.calls ensures CallOk(cfg.limit, s'.store, s'.drawn, s'.log, q, s'.calls[q]) {
      CallSurvivesIssue(cfg.limit, s.store, s.drawn, s.log, q, s.calls[q], s'.store.next, s'.drawn);
    }
    forall key ensures ValueOf(Lookup(s'.store, key)) == Held(cfg.decide, s'.log, key) {
      assert ValueOf(Lookup(s.store, key)) == Held(cfg.decide, s.log, key);
    }
  }

  lemma InsertKeeps<V>(cfg: Config<V>, s: Sys<V>, version: int, key: string, value: V)
    requires Inv(cfg, s) && version in s.drawn
    ensures Inv(cfg, Stepped(cfg, s, Insert(version, key, value)))
  {
    var s' := InsertStep(s, version, key, value);
    var w: Write<V> := Overwrite(key, version, value);
    assert WriteApplied(s.store, s.drawn, w, s'.store, s'.drawn, value);
    assert Spent(s'.store.next, s'.drawn, w.version);
    VersionsKeptByWrite(s, s', w, value);
    HeldAppend(cfg.decide, s.log, w, key);
    StoreIsLogKept(cfg.decide, s, s', w, value);
    CommitsDecidedAppend(cfg.decide, s.log, w);
    forall q | q in s'.calls ensures CallOk(cfg.limit, s'.store, s'.drawn, s'.log, q, s'.calls[q]) {
      CallSurvivesWrite(cfg.limit, s.store, s.drawn, s.log, q, s.calls[q], w, s'.store, s'.drawn, value);
    }
    forall i | 0 <= i < |s'.log| ensures Owned(s'.calls, s'.log[i], i) {
      if i < |s.log| { assert Owned(s.calls, s.log[i], i); }
    }
  }

  /** A `cas` that finds the version it expects decided on what the key holds. */
  lemma CurrentSawHeld<V>(cfg: Config<V>, s: Sys<V>, p: Pid)
    requires Inv(cfg, s) && p in s.calls && s.calls[p].phase.Holding? && Current(s.store, s.calls[p])
    ensures ValueOf(s.calls[p].phase.seen) == Held(cfg.decide, s.log, s.calls[p].key)
  {
    var c := s.calls[p];
    assert CallOk(cfg.limit, s.store, s.drawn, s.log, p, c);
    assert ValueOf(Lookup(s.store, c.key)) == Held(cfg.decide, s.log, c.key);
  }

  /** A failed attempt that met no fault is covered by one more write of someone else. */
  lemma {:induction false} FailureIsBlamed<V>(cfg: Config<V>, s: Sys<V>, p: Pid)
    requires Inv(cfg, s) && p in s.calls && s.calls[p].phase.Holding?
    requires !Current(s.store, s.calls[p]) && !s.calls[p].phase.getFailed
    ensures var c := s.calls[p];
            c.attempt + 1 <= c.faults + OthersOn(s.log[c.startedAt..], c.key, p)
  {
    var c, readAt := s.calls[p], s.calls[p].phase.readAt;
    assert CallOk(cfg.limit, s.store, s.drawn, s.log, p, c);
    assert !Untouched(s.log, readAt, c.key);
    UntouchedSuffix(s.log, readAt, c.key);
    TouchedByOthers(s.log[readAt..], c.key, p);
    OthersOnSplit(s.log, c.startedAt, readAt, c.key, p);
  }

  lemma FailedCallOk<V>(cfg: Config<V>, s: Sys<V>, p: Pid, faulty: bool)
    requires Inv(cfg, s) && p in s.calls && s.calls[p].phase.Holding?
    requires !faulty ==> !Current(s.store, s.calls[p]) && !s.calls[p].phase.getFailed
    ensures CallOk(cfg.limit, s.store, s.drawn, s.log, p, Failed(cfg, s.calls[p], faulty, |s.log|))
  {
    var c := s.calls[p];
    assert CallOk(cfg.limit, s.store, s.drawn, s.log, p, c);
    assert s.log[c.startedAt..|s.log|] == s.log[c.startedAt..];
    OthersOnSplit(s.log, c.startedAt, c.phase.readAt, c.key, p);
    assert c.attempt + 1 <= c.faults + (if faulty then 1 else 0) + OthersOn(s.log[c.startedAt..], c.key, p) by {
      if !faulty { FailureIsBlamed(cfg, s, p); }
    }
  }

  lemma CasFailedKeeps<V>(cfg: Config<V>, s: Sys<V>, p: Pid, fault: Fault)
    requires Inv(cfg, s) && p in s.calls && s.calls[p].phase.Holding?
    requires !Current(s.store, s.calls[p]) || fault.Lost?
    ensures Inv(cfg, Stepped(cfg, s, Cas(p, fault)))
  {
    var faulty := s.calls[p].phase.getFailed || !fault.Fine?;
    FailedCallOk(cfg, s, p, faulty);
    LogOwnedByMovedCall(s, p, Failed(cfg, s.calls[p], faulty, |s.log|));
  }

  /** A commit that its check is told of ends the check. */
  lemma AcknowledgedCallOk<V>(limit: int, store: Store<V>, drawn: set<int>, log: seq<Write<V>>, p: Pid, c: Call<V>,
                              w: Write<V>, store': Store<V>, drawn': set<int>)
    requires CallOk(limit, store, drawn, log, p, c) && c.phase.Holding?
    requires w.Commit? && AcknowledgedTo(w, p, c, w.decision)
    ensures CallOk(limit, store', drawn', log + [w], p, c.(phase := Done(w.decision, true, |log| + 1)))
  {
    hide SeenOk, Blamed;
    CommitsByOne(log, w, p);
    assert (log + [w])[|log|] == w;
  }

  /** A commit that its check is not told of is an attempt that failed by a fault. */
  lemma UnacknowledgedCallOk<V>(cfg: Config<V>, store: Store<V>, drawn: set<int>, log: seq<Write<V>>, p: Pid,
                                c: Call<V>, w: Write<V>, store': Store<V>, drawn': set<int>)
    requires CallOk(cfg.limit, store, drawn, log, p, c) && c.phase.Holding? && w.Commit? && w.pid == p
    ensures CallOk(cfg.limit, store', drawn', log + [w], p, Failed(cfg, c, true, |log| + 1))
  {
    hide SeenOk;
    CommitsByOne(log, w, p);
    BlamedAppend(log, w, p, c, c.phase.readAt);
    assert Blamed(log + [w], p, Failed(cfg, c, true, |log| + 1), |log| + 1);
  }

  lemma AppliedCallOk<V>(cfg: Config<V>, s: Sys<V>, p: Pid, fault: Fault)
    requires Inv(cfg, s) && p in s.calls && s.calls[p].phase.Holding?
    requires Current(s.store, s.calls[p]) && !fault.Lost?
    ensures var s' := Stepped(cfg, s, Cas(p, fault));
            CallOk(cfg.limit, s'.store, s'.drawn, s'.log, p, s'.calls[p])
  {
    hide VersionsOk, StoreIsLog, CommitsDecided, LogOwned, CallOk;
    var s', c := CasStep(cfg, s, p, fault), s.calls[p];
    var w := s'.log[|s.log|];
    assert s'.log == s.log + [w];
    assert CallOk(cfg.limit, s.store, s.drawn, s.log, p, c);
    if fault.Fine? {
      AcknowledgedCallOk(cfg.limit, s.store, s.drawn, s.log, p, c, w, s'.store, s'.drawn);
    } else {
      UnacknowledgedCallOk(cfg, s.store, s.drawn, s.log, p, c, w, s'.store, s'.drawn);
    }
  }

  lemma AppliedCallsOk<V>(cfg: Config<V>, s: Sys<V>, p: Pid, fault: Fault)
    requires Inv(cfg, s) && p in s.calls && s.calls[p].phase.Holding?
    requires Current(s.store, s.calls[p]) && !fault.Lost?
    requires var s' := CasStep(cfg, s, p, fault);
             WriteApplied(s.store, s.drawn, s'.log[|s.log|], s'.store, s'.drawn, Deciding(cfg, s.calls[p]).state)
    ensures CallsOk(cfg.limit, CasStep(cfg, s, p, fault))
  {
    hide CallOk, WriteApplied;
    var s', c := CasStep(cfg, s, p, fault), s.calls[p];
    var w, value := s'.log[|s.log|], Deciding(cfg, c).state;
    assert s'.log == s.log + [w];
    AppliedCallOk(cfg, s, p, fault);
    forall q | q in s'.calls ensures CallOk(cfg.limit, s'.store, s'.drawn, s'.log, q, s'.calls[q]) {
      if q != p {
        assert CallOk(cfg.limit, s.store, s.drawn, s.log, q, s.calls[q]);
        CallSurvivesWrite(cfg.limit, s.store, s.drawn, s.log, q, s.calls[q], w, s'.store, s'.drawn, value);
      }
    }
  }

  lemma AppliedLogOwned<V>(cfg: Config<V>, s: Sys<V>, p: Pid, fault: Fault)
    requires LogOwned(s) && CallsOk(cfg.limit, s) && p in s.calls && s.calls[p].phase.Holding?
    requires Current(s.store, s.calls[p]) && !fault.Lost?
    ensures LogOwned(CasStep(cfg, s, p, fault))
  {
    var s' := CasStep(cfg, s, p, fault);
    assert CallOk(cfg.limit, s.store, s.drawn, s.log, p, s.calls[p]);
    assert s'.log == s.log + [s'.log[|s.log|]];
    forall i | 0 <= i < |s'.log| ensures Owned(s'.calls, s'.log[i], i) {
      if i < |s.log| { assert Owned(s.calls, s.log[i], i); }
    }
  }

  /** The write of an applied `cas`, and what it decided on. */
  lemma AppliedWrite<V>(cfg: Config<V>, s: Sys<V>, p: Pid, fault: Fault)
    requires Inv(cfg, s) && p in s.calls && s.calls[p].phase.Holding?
    requires Current(s.store, s.calls[p]) && !fault.Lost?
    ensures var s', c := CasStep(cfg, s, p, fault), s.calls[p];
            var w, v := s'.log[|s.log|], Deciding(cfg, c);
            && s'.log == s.log + [w]
            && WriteApplied(s.store, s.drawn, w, s'.store, s'.drawn, v.state)
            && VersionsOk(s') && StoreIsLog(cfg.decide, s') && CommitsDecided(cfg.decide, s'.log)
  {
    hide CallOk, LogOwned, SpentGrows;
    var s', c := CasStep(cfg, s, p, fault), s.calls[p];
    var w, value := s'.log[|s.log|], Deciding(cfg, c).state;
    assert s'.log == s.log + [w];
    CurrentSawHeld(cfg, s, p);
    assert WriteApplied(s.store, s.drawn, w, s'.store, s'.drawn, value) by { IssueGrows(s.store.next, s.drawn); }
    assert Spent(s'.store.next, s'.drawn, w.version);
    VersionsKeptByWrite(s, s', w, value);
    HeldAppend(cfg.decide, s.log, w, c.key);
    StoreIsLogKept(cfg.decide, s, s', w, value);
    CommitsDecidedAppend(cfg.decide, s.log, w);
  }

  lemma IssueGrows(next: int, drawn: set<int>)
    ensures SpentGrows(next, drawn, next + 1, drawn)
  {
  }

  lemma CasAppliedKeeps<V>(cfg: Config<V>, s: Sys<V>, p: Pid, fault: Fault)
    requires Inv(cfg, s) && p in s.calls && s.calls[p].phase.Holding?
    requires Current(s.store, s.calls[p]) && !fault.Lost?
    ensures Inv(cfg, Stepped(cfg, s, Cas(p, fault)))
  {
    hide VersionsOk, StoreIsLog, CommitsDecided, LogOwned, CallsOk, WriteApplied;
    AppliedWrite(cfg, s, p, fault);
    AppliedCallsOk(cfg, s, p, fault);
    AppliedLogOwned(cfg, s, p, fault);
  }

  /** Every step of every check and every writer keeps the invariant. */
  lemma StepKeeps<V>(cfg: Config<V>, s: Sys<V>, e: Event<V>)
    requires Inv(cfg, s) && Enabled(s, e)
    ensures Inv(cfg, Stepped(cfg, s, e))
  {
    match e
    case Start(p, key, cost) => StartKeeps(cfg, s, p, key, cost);
    case ReadClock(p, now) => ReadClockKeeps(cfg, s, p, now);
    case Get(p, fails) => GetKeeps(cfg, s, p, fails);
    case Cas(p, fault) =>
      if Current(s.store, s.calls[p]) && !fault.Lost? {
        CasAppliedKeeps(cfg, s, p, fault);
      } else {
        CasFailedKeeps(cfg, s, p, fault);
      }
    case Draw => DrawKeeps(cfg, s);
    case Insert(version, key, value) => InsertKeeps(cfg, s, version, key, value);
  }

  /** So it holds after every interleaving. */
  lemma {:induction false} ReachableInv<V>(cfg: Config<V>, events: seq<Event<V>>)
    requires Legal(cfg, events)
    ensures Inv(cfg, After(cfg, events))
  {
    if events != [] {
      var n := |events| - 1;
      ReachableInv(cfg, events[..n]);
      StepKeeps(cfg, After(cfg, events[..n]), events[n]);
    }
  }
}
