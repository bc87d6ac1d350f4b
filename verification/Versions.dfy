/** How the versions under a key are ordered, and exactly when they only grow. */
module Versions {
  import opened Protocol
  import opened ProtocolInvariant
  import opened ProtocolTheorems

  /** The system after the first `m` events. */
  function At<V>(cfg: Config<V>, events: seq<Event<V>>, m: nat): Sys<V>
    requires Legal(cfg, events) && m <= |events|
  {
    if m == |events| then After(cfg, events) else At(cfg, events[..|events| - 1], m)
  }

  /** Event `m` is taken from the state before it. */
  lemma {:induction false} EventTaken<V>(cfg: Config<V>, events: seq<Event<V>>, m: nat)
    requires Legal(cfg, events) && m < |events|
    ensures Enabled(At(cfg, events, m), events[m])
    ensures At(cfg, events, m + 1) == Stepped(cfg, At(cfg, events, m), events[m])
  {
    if m + 1 < |events| { EventTaken(cfg, events[..|events| - 1], m); }
  }

  lemma {:induction false} AtKeepsInv<V>(cfg: Config<V>, events: seq<Event<V>>, m: nat)
    requires Legal(cfg, events) && m <= |events|
    ensures VersionsOk(At(cfg, events, m))
  {
    if m == |events| { ReachableInv(cfg, events); } else { AtKeepsInv(cfg, events[..|events| - 1], m); }
  }

  /** A step logs at most one write, and draws at most one version. */
  lemma StepLogs<V>(cfg: Config<V>, s: Sys<V>, e: Event<V>)
    requires Enabled(s, e)
    ensures var s' := Stepped(cfg, s, e);
            && s.store.next <= s'.store.next
            && s.log <= s'.log && |s'.log| <= |s.log| + 1
            && (|s.log| < |s'.log| ==> e.Cas? || e.Insert?)
            && (|s.log| < |s'.log| && e.Cas? ==> s'.log[|s.log|].version == s.store.next)
            && (e.Insert? ==> |s'.log| == |s.log| + 1
                              && s'.log[|s.log|].version == e.version && s'.log[|s.log|].key == e.key)
            && (forall v :: v in s'.drawn && v !in s.drawn ==> e.Draw? && v == s.store.next)
  {
  }

  lemma {:induction false} Grows<V>(cfg: Config<V>, events: seq<Event<V>>, m: nat, n: nat)
    requires Legal(cfg, events) && m <= n <= |events|
    ensures At(cfg, events, m).log <= At(cfg, events, n).log
    ensures At(cfg, events, m).store.next <= At(cfg, events, n).store.next
    decreases n
  {
    if m < n {
      Grows(cfg, events, m, n - 1);
      EventTaken(cfg, events, n - 1);
      StepLogs(cfg, At(cfg, events, n - 1), events[n - 1]);
    }
  }

  /** Event `m` writes `key`. */
  predicate Writes<V>(cfg: Config<V>, events: seq<Event<V>>, m: nat, key: string)
    requires Legal(cfg, events) && m < |events|
  {
    var i := |At(cfg, events, m).log|;
    i < |At(cfg, events, m + 1).log| && At(cfg, events, m + 1).log[i].key == key
  }

  /** The version that a write carries. */
  function Carried<V>(cfg: Config<V>, events: seq<Event<V>>, m: nat, key: string): int
    requires Legal(cfg, events) && m < |events| && Writes(cfg, events, m, key)
  {
    At(cfg, events, m + 1).log[|At(cfg, events, m).log|].version
  }

  /** Event `d` draws the version that the put of event `k` inserts under the key. */
  predicate PutFrom<V>(cfg: Config<V>, events: seq<Event<V>>, d: nat, k: nat, key: string)
    requires Legal(cfg, events) && d < k < |events|
  {
    && events[d].Draw? && events[k].Insert?
    && events[k].key == key && events[k].version == At(cfg, events, d).store.next
  }

  /** Between drawing its version at `d` and inserting it at `k`, a put is overtaken by a write with a later version. */
  predicate Overtakes<V>(cfg: Config<V>, events: seq<Event<V>>, d: nat, m: nat, k: nat, key: string)
    requires Legal(cfg, events) && d < m < k < |events|
  {
    && PutFrom(cfg, events, d, k, key)
    && Writes(cfg, events, m, key) && Carried(cfg, events, m, key) > events[k].version
  }

  ghost predicate NeverOvertaken<V>(cfg: Config<V>, events: seq<Event<V>>, key: string)
    requires Legal(cfg, events)
  {
    forall d, m, k :: 0 <= d < m < k < |events| ==> !Overtakes(cfg, events, d, m, k, key)
  }

  ghost predicate IncreasingOn<V>(log: seq<Write<V>>, key: string) {
    forall i, j :: 0 <= i < j < |log| && log[i].key == key && log[j].key == key ==> log[i].version < log[j].version
  }

  /** The event that made a logged write. */
  lemma {:induction false} WriterOf<V>(cfg: Config<V>, events: seq<Event<V>>, i: nat) returns (m: nat)
    requires Legal(cfg, events) && i < |After(cfg, events).log|
    ensures m < |events| && |At(cfg, events, m).log| == i < |At(cfg, events, m + 1).log|
    ensures At(cfg, events, m + 1).log[i] == After(cfg, events).log[i]
  {
    var n := |events| - 1;
    EventTaken(cfg, events, n);
    StepLogs(cfg, At(cfg, events, n), events[n]);
    if i < |At(cfg, events, n).log| {
      m := WriterOf(cfg, events[..n], i);
    } else {
      m := n;
    }
  }

  lemma {:induction false} DrawerOf<V>(cfg: Config<V>, events: seq<Event<V>>, n: nat, v: int) returns (d: nat)
    requires Legal(cfg, events) && n <= |events| && v in At(cfg, events, n).drawn
    ensures d < n && events[d].Draw? && At(cfg, events, d).store.next == v
    decreases n
  {
    if n == 0 { AtStart(cfg, events); }
    if v in At(cfg, events, n - 1).drawn {
      d := DrawerOf(cfg, events, n - 1, v);
    } else {
      EventTaken(cfg, events, n - 1);
      StepLogs(cfg, At(cfg, events, n - 1), events[n - 1]);
      d := n - 1;
    }
  }

  lemma {:induction false} AtStart<V>(cfg: Config<V>, events: seq<Event<V>>)
    requires Legal(cfg, events)
    ensures At(cfg, events, 0) == Initial()
  {
    if events != [] { AtStart(cfg, events[..|events| - 1]); }
  }

  /** A commit carries a later version than every write before it, to whatever key. */
  lemma {:induction false} CommitsExceedAll<V>(cfg: Config<V>, events: seq<Event<V>>, i: nat, j: nat)
    requires Legal(cfg, events) && i < j < |After(cfg, events).log| && After(cfg, events).log[j].Commit?
    ensures After(cfg, events).log[i].version < After(cfg, events).log[j].version
  {
    var m := WriterOf(cfg, events, j);
    WrittenByCas(cfg, events, m);
    EarlierWrite(cfg, events, m, i);
  }

  /** What was logged before event `m` carries an issued version. */
  lemma {:induction false} EarlierWrite<V>(cfg: Config<V>, events: seq<Event<V>>, m: nat, i: nat)
    requires Legal(cfg, events) && m <= |events| && i < |At(cfg, events, m).log|
    ensures i < |After(cfg, events).log| && At(cfg, events, m).log[i] == After(cfg, events).log[i]
    ensures After(cfg, events).log[i].version < At(cfg, events, m).store.next
  {
    Grows(cfg, events, m, |events|);
    AtKeepsInv(cfg, events, m);
  }

  /** A commit is logged by a `cas`, under the next version; a put by its insertion. */
  lemma WrittenByCas<V>(cfg: Config<V>, events: seq<Event<V>>, m: nat)
    requires Legal(cfg, events) && m < |events| && |At(cfg, events, m).log| < |At(cfg, events, m + 1).log|
    ensures var w := At(cfg, events, m + 1).log[|At(cfg, events, m).log|];
            && (w.Commit? <==> events[m].Cas?) && (!w.Commit? <==> events[m].Insert?)
            && (w.Commit? ==> w.version == At(cfg, events, m).store.next)
            && (events[m].Insert? ==> w.version == events[m].version && w.key == events[m].key
                                      && events[m].version in At(cfg, events, m).drawn)
  {
    EventTaken(cfg, events, m);
  }

  lemma {:induction false} OvertakingLowers<V>(cfg: Config<V>, events: seq<Event<V>>, d: nat, m: nat, k: nat,
                                               key: string)
    requires Legal(cfg, events) && d < m < k < |events| && Overtakes(cfg, events, d, m, k, key)
    ensures !IncreasingOn(After(cfg, events).log, key)
  {
    var log, i, j := After(cfg, events).log, |At(cfg, events, m).log|, |At(cfg, events, k).log|;
    EventTaken(cfg, events, k);
    StepLogs(cfg, At(cfg, events, k), events[k]);
    Grows(cfg, events, m + 1, k);
    Grows(cfg, events, m + 1, |events|);
    Grows(cfg, events, k + 1, |events|);
    assert i < j && log[i].key == key && log[j].key == key && log[i].version > log[j].version;
  }

  /** The put behind a version that is lower than an earlier one was overtaken. */
  lemma {:induction false} LoweredWasOvertaken<V>(cfg: Config<V>, events: seq<Event<V>>, i: nat, j: nat, key: string)
    requires Legal(cfg, events) && i < j < |After(cfg, events).log|
    requires After(cfg, events).log[i].key == key && After(cfg, events).log[j].key == key
    requires After(cfg, events).log[i].version > After(cfg, events).log[j].version
    ensures !NeverOvertaken(cfg, events, key)
  {
    var v := After(cfg, events).log[j].version;
    var m := WriterOf(cfg, events, i);
    var k := WriterOf(cfg, events, j);
    if k <= m { Grows(cfg, events, k + 1, m + 1); Grows(cfg, events, k, m); }
    assert m < k;
    WrittenByCas(cfg, events, k);
    if events[k].Cas? { CommitsExceedAll(cfg, events, i, j); }
    var d := DrawerOf(cfg, events, k, v);
    EarlierWrite(cfg, events, m + 1, i);
    WrittenByCas(cfg, events, m);
    if m < d { Grows(cfg, events, m + 1, d); }
    assert Overtakes(cfg, events, d, m, k, key);
  }

  /**
   The versions under a key only grow if and only if no put to it is overtaken: nobody writes the
   key, under a later version, between the put's drawing its version and its inserting it.
   */
  lemma {:induction false} IncreasingExactly<V>(cfg: Config<V>, events: seq<Event<V>>, key: string)
    requires Legal(cfg, events)
    ensures IncreasingOn(After(cfg, events).log, key) <==> NeverOvertaken(cfg, events, key)
  {
    if NeverOvertaken(cfg, events, key) {
      forall i, j | 0 <= i < j < |After(cfg, events).log|
                    && After(cfg, events).log[i].key == key && After(cfg, events).log[j].key == key
        ensures After(cfg, events).log[i].version < After(cfg, events).log[j].version
      {
        VersionsStoredOnce(cfg, events, i, j);
        if After(cfg, events).log[i].version > After(cfg, events).log[j].version {
          LoweredWasOvertaken(cfg, events, i, j, key);
        }
      }
    } else {
      var d, m, k :| 0 <= d < m < k < |events| && Overtakes(cfg, events, d, m, k, key);
      OvertakingLowers(cfg, events, d, m, k, key);
    }
  }

  /** A key that nobody puts to keeps its versions growing, whatever is put to other keys. */
  lemma {:induction false} CommitsOnlyIncrease<V>(cfg: Config<V>, events: seq<Event<V>>, key: string)
    requires Legal(cfg, events) && OnlyCommits(After(cfg, events).log, key)
    ensures IncreasingOn(After(cfg, events).log, key)
  {
    var log := After(cfg, events).log;
    forall i, j | 0 <= i < j < |log| && log[i].key == key && log[j].key == key
      ensures log[i].version < log[j].version
    {
      CommitsExceedAll(cfg, events, i, j);
    }
  }
}
