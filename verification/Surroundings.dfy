/** What others do to a shared store while a check waits, carried out on the store itself. */
module Surroundings {
  import opened CheckLoop
  import opened Protocol
  import opened SharedStores
  import opened StateStore
  import opened Wrappers

  /** What a step leaves in the store. */
  lemma CasOnStore<V(!new)>(cfg: Config<V>, local: bool, s: Sys<V>, p: Pid, fault: Fault)
    requires Reached(cfg, local, s) && Enabled(s, Event.Cas(p, fault))
    ensures var c := s.calls[p];
            && Stepped(cfg, s, Event.Cas(p, fault)).store
               == CasLeaves(s.store, c.key, Expectation(c.phase.seen), Deciding(cfg, c).state, fault)
            && Expectation(c.phase.seen) != Some(0)
  {
    SeenVersionsAreIssued(cfg, local, s, p);
  }

  /** The steps of others that can be taken, taken: on the store, and in the state of the protocol that goes with it. */
  method LetOthers<V(!new)>(cfg: Config<V>, store: SharedStore<V>, p: Pid, s: Sys<V>,
                            events: seq<Event<V>>) returns (s': Sys<V>)
    requires store.Valid() && store.Model() == s.store && Reached(cfg, store.Local?, s)
    modifies store.Objects()
    ensures store.Valid() && store.Model() == s'.store && Reached(cfg, store.Local?, s')
    ensures s' == Around(cfg, store.Etcd?, p, s, events)
  {
    s' := s;
    for i := 0 to |events|
      invariant store.Valid() && store.Model() == s'.store && Reached(cfg, store.Local?, s')
      invariant s' == Around(cfg, store.Etcd?, p, s, events[..i])
    {
      assert events[..i + 1][..i] == events[..i];
      if Possible(store.Etcd?, p, s', events[i]) {
        TakeReached(cfg, store.Local?, s', events[i]);
        LetOne(cfg, store, s', events[i]);
        s' := Stepped(cfg, s', events[i]);
      }
    }
    assert events[..|events|] == events;
  }

  /** A step of check `p` that only reads, and then what others do. */
  method ReadThenOthers<V(!new)>(cfg: Config<V>, store: SharedStore<V>, p: Pid, s: Sys<V>, e: Event<V>,
                                 events: seq<Event<V>>)
    returns (s': Sys<V>)
    requires store.Valid() && store.Model() == s.store && Reached(cfg, store.Local?, s)
    requires (e.ReadClock? || e.Get?) && (store.Local? ==> Faultless(e))
    modifies store.Objects()
    ensures store.Valid() && store.Model() == s'.store && Reached(cfg, store.Local?, s')
    ensures s' == Around(cfg, store.Etcd?, p, Take(cfg, s, e), events)
  {
    TakeReached(cfg, store.Local?, s, e);
    s' := LetOthers(cfg, store, p, Take(cfg, s, e), events);
  }

  /** One step, as the store sees it. */
  method LetOne<V(!new)>(cfg: Config<V>, store: SharedStore<V>, s: Sys<V>, e: Event<V>)
    requires store.Valid() && store.Model() == s.store && Reached(cfg, store.Local?, s)
    requires Enabled(s, e) && (if store.Etcd? then e.Insert? ==> e.version == s.store.next - 1 else Faultless(e))
    modifies store.Objects()
    ensures store.Valid() && store.Model() == Stepped(cfg, s, e).store
  {
    match e
    case Cas(q, fault) =>
      CasOnStore(cfg, store.Local?, s, q, fault);
      var c := s.calls[q];
      store.Transact(c.key, Expectation(c.phase.seen), Deciding(cfg, c).state, fault);
    case Draw => store.Draw();
    case Insert(version, key, value) => store.Insert(key, value, version);
    case Start(_, _, _) =>
    case ReadClock(_, _) =>
    case Get(_, _) =>
  }
}
