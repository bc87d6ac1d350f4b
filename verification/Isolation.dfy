/** Keys do not disturb each other: every interleaving, seen from one key, is a run of that key alone. */
module Isolation {
  import opened Limiter
  import opened StateStore
  import opened Protocol

  /**
   What an event is to one key. A write to another key still takes a version from the shared
   counter, so a commit elsewhere is to this key a version drawn and never inserted.
   */
  function Kept<V>(s: Sys<V>, e: Event<V>, key: string): (kept: seq<Event<V>>)
    requires Enabled(s, e)
    ensures |kept| <= 1
  {
    match e
    case Start(_, k, _) => if k == key then [e] else []
    case Insert(_, k, _) => if k == key then [e] else []
    case Draw => [e]
    case ReadClock(p, _) => if s.calls[p].key == key then [e] else []
    case Get(p, _) => if s.calls[p].key == key then [e] else []
    case Cas(p, fault) =>
      if s.calls[p].key == key then [e]
      else if Current(s.store, s.calls[p]) && !fault.Lost? then [Draw]
      else []
  }

  /** The interleaving as one key sees it. */
  function Projected<V>(cfg: Config<V>, events: seq<Event<V>>, key: string): seq<Event<V>>
    requires Legal(cfg, events)
  {
    if events == [] then [] else
    var n := |events| - 1;
    Projected(cfg, events[..n], key) + Kept(After(cfg, events[..n]), events[n], key)
  }

  /** The writes to one key. */
  function WritesTo<V>(log: seq<Write<V>>, key: string): seq<Write<V>> {
    if log == [] then [] else
    var n := |log| - 1;
    var before := WritesTo(log[..n], key);
    if log[n].key == key then before + [log[n]] else before
  }

  lemma {:induction false} WritesToExtended<V>(log: seq<Write<V>>, w: Write<V>, key: string)
    ensures w.key == key ==> WritesTo(log + [w], key) == WritesTo(log, key) + [w]
    ensures w.key != key ==> WritesTo(log + [w], key) == WritesTo(log, key)
  {
    assert (log + [w])[..|log|] == log;
  }

  /** The same phase of the same check, up to the positions it has noted in the log. */
  ghost predicate AlikePhase<V>(a: Phase<V>, b: Phase<V>) {
    match a
    case Ready => b.Ready?
    case Timed(now) => b == Timed(now)
    case Holding(now, seen, failed, _) => b.Holding? && b.now == now && b.seen == seen && b.getFailed == failed
    case Done(decision, committed, _) => b.Done? && b.decision == decision && b.committed == committed
  }

  ghost predicate AlikeCall<V>(a: Call<V>, b: Call<V>) {
    && a.key == b.key && a.cost == b.cost && a.attempt == b.attempt && a.faults == b.faults
    && AlikePhase(a.phase, b.phase)
  }

  /** The checks on `key` in `s` are those of `t`, each in the same phase, with the same decisions. */
  ghost predicate AlikeCalls<V>(calls: map<Pid, Call<V>>, calls': map<Pid, Call<V>>, key: string) {
    forall p {:trigger p in calls} {:trigger p in calls'} ::
      && (p in calls' <==> p in calls && calls[p].key == key)
      && (p in calls' ==> AlikeCall(calls[p], calls'[p]))
  }

  /** `t` is what `key` sees of `s`: nothing but this key, with the same value, versions, writes and checks. */
  ghost predicate SeenFrom<V>(s: Sys<V>, t: Sys<V>, key: string) {
    && t.store.next == s.store.next
    && Lookup(t.store, key) == Lookup(s.store, key)
    && t.store.entries.Keys <= {key}
    && AlikeCalls(s.calls, t.calls, key)
    && s.drawn <= t.drawn
    && t.log == WritesTo(s.log, key)
  }

  lemma {:induction false} InitiallySeen<V>(cfg: Config<V>, key: string)
    ensures SeenFrom(After(cfg, []), After(cfg, []), key)
  {
  }

  /** A check on another key starts or moves. */
  lemma CallElsewhere<V>(s: Sys<V>, t: Sys<V>, p: Pid, c: Call<V>, key: string)
    requires SeenFrom(s, t, key) && c.key != key && (p in s.calls ==> s.calls[p].key != key)
    ensures SeenFrom(s.(calls := s.calls[p := c]), t, key)
  {
    hide WritesTo;
  }

  /** A write to another key; the version it takes is to this key only drawn. */
  lemma WriteElsewhere<V>(s: Sys<V>, t: Sys<V>, entry: Versioned<V>, next: int, drawn: set<int>, drawn': set<int>,
                          w: Write<V>, key: string)
    requires SeenFrom(s, t, key) && w.key != key && drawn <= drawn'
    ensures SeenFrom(Sys(Store(s.store.entries[w.key := entry], next), s.calls, drawn, s.log + [w]),
                     Sys(Store(t.store.entries, next), t.calls, drawn', t.log), key)
  {
    hide AlikeCalls;
    WritesToExtended(s.log, w, key);
  }

  lemma StepElsewhere<V>(cfg: Config<V>, s: Sys<V>, t: Sys<V>, e: Event<V>, key: string)
    requires SeenFrom(s, t, key) && Enabled(s, e) && Kept(s, e, key) == []
    ensures SeenFrom(Stepped(cfg, s, e), t, key)
  {
    hide SeenFrom;
    match e
    case Start(p, k, cost) => CallElsewhere(s, t, p, Stepped(cfg, s, e).calls[p], key);
    case ReadClock(p, _) => CallElsewhere(s, t, p, Stepped(cfg, s, e).calls[p], key);
    case Get(p, _) => CallElsewhere(s, t, p, Stepped(cfg, s, e).calls[p], key);
    case Cas(p, _) => CallElsewhere(s, t, p, Stepped(cfg, s, e).calls[p], key);
    case Insert(version, k, value) =>
      InsertElsewhere(cfg, s, t, version, k, value, key);
  }

  lemma InsertElsewhere<V>(cfg: Config<V>, s: Sys<V>, t: Sys<V>, version: int, k: string, value: V, key: string)
    requires SeenFrom(s, t, key) && Enabled(s, Insert(version, k, value)) && k != key
    ensures SeenFrom(Stepped(cfg, s, Insert(version, k, value)), t, key)
  {
    WriteElsewhere(s, t, Versioned(value, version), s.store.next, s.drawn - {version}, t.drawn,
                   Overwrite(k, version, value), key);
  }

  lemma StartHere<V>(cfg: Config<V>, s: Sys<V>, t: Sys<V>, p: Pid, key: string, cost: U32)
    requires SeenFrom(s, t, key) && Enabled(s, Start(p, key, cost))
    ensures Enabled(t, Start(p, key, cost))
    ensures SeenFrom(Stepped(cfg, s, Start(p, key, cost)), Stepped(cfg, t, Start(p, key, cost)), key)
  {
  }

  /** One of the key's own checks moves, in the same way, and nothing else changes. */
  lemma CallMoves<V>(s: Sys<V>, t: Sys<V>, p: Pid, c: Call<V>, c': Call<V>, key: string)
    requires SeenFrom(s, t, key) && p in s.calls && c.key == key && AlikeCall(c, c')
    requires s.calls[p].key == key
    ensures SeenFrom(s.(calls := s.calls[p := c]), t.(calls := t.calls[p := c']), key)
  {
  }

  lemma ReadHere<V>(cfg: Config<V>, s: Sys<V>, t: Sys<V>, e: Event<V>, p: Pid, key: string)
    requires SeenFrom(s, t, key) && Enabled(s, e)
    requires (e.ReadClock? || e.Get?) && e.pid == p && s.calls[p].key == key
    ensures Enabled(t, e) && SeenFrom(Stepped(cfg, s, e), Stepped(cfg, t, e), key)
  {
    assert p in t.calls && AlikeCall(s.calls[p], t.calls[p]);
    CallMoves(s, t, p, Stepped(cfg, s, e).calls[p], Stepped(cfg, t, e).calls[p], key);
  }

  lemma CasFailsHere<V>(cfg: Config<V>, s: Sys<V>, t: Sys<V>, p: Pid, fault: Fault, key: string)
    requires SeenFrom(s, t, key) && Enabled(s, Event.Cas(p, fault)) && s.calls[p].key == key
    requires !Current(s.store, s.calls[p]) || fault.Lost?
    ensures Enabled(t, Event.Cas(p, fault))
    ensures SeenFrom(Stepped(cfg, s, Event.Cas(p, fault)), Stepped(cfg, t, Event.Cas(p, fault)), key)
  {
    assert p in t.calls && AlikeCall(s.calls[p], t.calls[p]);
    SameMatch(s, t, p, key);
    var faulty := s.calls[p].phase.getFailed || !fault.Fine?;
    CallMoves(s, t, p, Failed(cfg, s.calls[p], faulty, |s.log|), Failed(cfg, t.calls[p], faulty, |t.log|), key);
  }

  lemma SameMatch<V>(s: Sys<V>, t: Sys<V>, p: Pid, key: string)
    requires SeenFrom(s, t, key) && p in s.calls && s.calls[p].key == key && s.calls[p].phase.Holding?
    ensures p in t.calls && t.calls[p].phase.Holding? && t.calls[p].phase.seen == s.calls[p].phase.seen
    ensures AlikeCall(s.calls[p], t.calls[p])
    ensures Current(t.store, t.calls[p]) <==> Current(s.store, s.calls[p])
  {
    assert AlikeCall(s.calls[p], t.calls[p]);
    assert key in t.store.entries <==> key in s.store.entries;
  }

  /** The same write to the key, on both sides. */
  lemma WriteHere<V>(s: Sys<V>, t: Sys<V>, entry: Versioned<V>, next: int, drawn: set<int>, drawn': set<int>,
                     w: Write<V>, key: string)
    requires SeenFrom(s, t, key) && w.key == key && drawn <= drawn'
    ensures SeenFrom(Sys(Store(s.store.entries[key := entry], next), s.calls, drawn, s.log + [w]),
                     Sys(Store(t.store.entries[key := entry], next), t.calls, drawn', t.log + [w]), key)
  {
    WritesToExtended(s.log, w, key);
  }

  lemma CasAppliesHere<V>(cfg: Config<V>, s: Sys<V>, t: Sys<V>, p: Pid, fault: Fault, key: string)
    requires SeenFrom(s, t, key) && Enabled(s, Event.Cas(p, fault)) && s.calls[p].key == key
    requires Current(s.store, s.calls[p]) && !fault.Lost?
    ensures Enabled(t, Event.Cas(p, fault))
    ensures SeenFrom(Stepped(cfg, s, Event.Cas(p, fault)), Stepped(cfg, t, Event.Cas(p, fault)), key)
  {
    hide SeenFrom;
    SameMatch(s, t, p, key);
    SameNext(s, t, key);
    var s', t' := CasStep(cfg, s, p, fault), CasStep(cfg, t, p, fault);
    CallMoves(s, t, p, s'.calls[p], t'.calls[p], key);
    var v := Deciding(cfg, s.calls[p]);
    WriteHere(s.(calls := s'.calls), t.(calls := t'.calls), Versioned(v.state, s.store.next), s.store.next + 1,
              s.drawn, t.drawn, s'.log[|s.log|], key);
  }

  lemma InsertHere<V>(cfg: Config<V>, s: Sys<V>, t: Sys<V>, version: int, key: string, value: V)
    requires SeenFrom(s, t, key) && Enabled(s, Insert(version, key, value))
    ensures Enabled(t, Insert(version, key, value))
    ensures SeenFrom(Stepped(cfg, s, Insert(version, key, value)), Stepped(cfg, t, Insert(version, key, value)), key)
  {
    WriteHere(s, t, Versioned(value, version), s.store.next, s.drawn - {version}, t.drawn - {version},
              Overwrite(key, version, value), key);
  }

  lemma CommitElsewhere<V>(cfg: Config<V>, s: Sys<V>, t: Sys<V>, p: Pid, fault: Fault, key: string)
    requires SeenFrom(s, t, key) && Enabled(s, Event.Cas(p, fault)) && s.calls[p].key != key
    requires Current(s.store, s.calls[p]) && !fault.Lost?
    ensures SeenFrom(Stepped(cfg, s, Event.Cas(p, fault)), Stepped(cfg, t, Draw), key)
  {
    hide SeenFrom;
    var s', c, v := CasStep(cfg, s, p, fault), s.calls[p], Deciding(cfg, s.calls[p]);
    var w := s'.log[|s.log|];
    CallElsewhere(s, t, p, s'.calls[p], key);
    SameNext(s, t, key);
    WriteElsewhere(s.(calls := s'.calls), t, Versioned(v.state, s.store.next), s.store.next + 1,
                   s.drawn, t.drawn + {t.store.next}, w, key);
  }

  lemma SameNext<V>(s: Sys<V>, t: Sys<V>, key: string)
    requires SeenFrom(s, t, key)
    ensures t.store.next == s.store.next && s.drawn <= t.drawn
  {
  }

  lemma StepHere<V>(cfg: Config<V>, s: Sys<V>, t: Sys<V>, e: Event<V>, key: string)
    requires SeenFrom(s, t, key) && Enabled(s, e) && Kept(s, e, key) != []
    ensures Enabled(t, Kept(s, e, key)[0])
    ensures SeenFrom(Stepped(cfg, s, e), Stepped(cfg, t, Kept(s, e, key)[0]), key)
  {
    match e
    case Start(p, k, cost) => StartHere(cfg, s, t, p, key, cost);
    case ReadClock(p, _) => ReadHere(cfg, s, t, e, p, key);
    case Get(p, _) => ReadHere(cfg, s, t, e, p, key);
    case Draw =>
    case Insert(version, _, value) => InsertHere(cfg, s, t, version, key, value);
    case Cas(p, fault) =>
      if s.calls[p].key != key {
        CommitElsewhere(cfg, s, t, p, fault, key);
      } else if Current(s.store, s.calls[p]) && !fault.Lost? {
        CasAppliesHere(cfg, s, t, p, fault, key);
      } else {
        CasFailsHere(cfg, s, t, p, fault, key);
      }
  }

  /**
   Projecting any interleaving onto one key gives a legal interleaving of that key alone, in which
   the key holds the same value at the same version, was written the same writes in the same
   order, and every check on it is at the same point with the same decision.
   */
  lemma {:induction false} KeysIsolated<V>(cfg: Config<V>, events: seq<Event<V>>, key: string)
    requires Legal(cfg, events)
    ensures Legal(cfg, Projected(cfg, events, key))
    ensures SeenFrom(After(cfg, events), After(cfg, Projected(cfg, events, key)), key)
  {
    hide SeenFrom, Stepped, Kept;
    if events == [] {
      InitiallySeen(cfg, key);
    } else {
      var n := |events| - 1;
      var s, before := After(cfg, events[..n]), Projected(cfg, events[..n], key);
      KeysIsolated(cfg, events[..n], key);
      var kept := Kept(s, events[n], key);
      if kept == [] {
        StepElsewhere(cfg, s, After(cfg, before), events[n], key);
        assert Projected(cfg, events, key) == before;
      } else {
        StepHere(cfg, s, After(cfg, before), events[n], key);
        OneMore(cfg, before, kept[0]);
        assert Projected(cfg, events, key) == before + [kept[0]];
      }
    }
  }
}
