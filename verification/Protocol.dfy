/**
 The concurrent check protocol: any number of checks and of plain writers over one store, every
 interleaving of their steps. A check reads the clock, then the store, then tries its `cas`, up
 to five times; a plain `put` draws its version first and inserts later. Store faults are part of
 the steps, so the same model covers both stores: on the local store no step is faulty.
 */
module Protocol {
  import opened Wrappers
  import opened Limiter
  import opened Runs
  import opened StateStore

  const MAX_ATTEMPTS := 5

  /** A limiter as the protocol sees it. */
  datatype Config<!V> = Config(decide: Decider<V>, limit: int)

  /** The denial returned after five failed attempts. */
  function GiveUp(limit: int): Decision {
    Decision(false, limit, 0, 100)
  }

  type Pid = nat

  /**
   Where a check stands. `readAt`, `endedAt` and a call's `startedAt` are positions in the log of
   writes, and `getFailed` tells whether this attempt's `get` met an error: history that no step
   looks at.
   */
  datatype Phase<+V> =
    | Ready
    | Timed(now: nat)
    | Holding(now: nat, seen: Option<Versioned<V>>, getFailed: bool, readAt: nat)
    | Done(decision: Decision, committed: bool, endedAt: nat)

  /** One check: what was asked, the attempts that failed so far, and how many of those met a fault. */
  datatype Call<+V> = Call(key: string, cost: U32, attempt: nat, faults: nat, startedAt: nat, phase: Phase<V>)

  /** The writes that took effect, in order. A commit is acknowledged if its check was told of it. */
  datatype Write<+V> =
    | Commit(pid: Pid, key: string, version: int, now: nat, cost: U32, decision: Decision, acknowledged: bool)
    | Overwrite(key: string, version: int, value: V)

  /** `drawn` holds the versions that a `put` has drawn and not inserted yet. */
  datatype Sys<+V> = Sys(store: Store<V>, calls: map<Pid, Call<V>>, drawn: set<int>, log: seq<Write<V>>)

  datatype Event<+V> =
    | Start(pid: Pid, key: string, cost: U32)
    | ReadClock(pid: Pid, now: nat)
    | Get(pid: Pid, fails: bool)
    | Cas(pid: Pid, fault: Fault)
    | Draw
    | Insert(version: int, key: string, value: V)

  function Initial<V>(): Sys<V> {
    Sys(Store(map[], 1), map[], {}, [])
  }

  predicate Enabled<V>(s: Sys<V>, e: Event<V>) {
    match e
    case Start(p, _, _) => p !in s.calls
    case ReadClock(p, _) => p in s.calls && s.calls[p].phase.Ready?
    case Get(p, _) => p in s.calls && s.calls[p].phase.Timed?
    case Cas(p, _) => p in s.calls && s.calls[p].phase.Holding?
    case Draw => true
    case Insert(v, _, _) => v in s.drawn
  }

  /** The decision an attempt has made, once it holds a clock reading and what it saw. */
  function Deciding<V>(cfg: Config<V>, c: Call<V>): Verdict<V>
    requires c.phase.Holding?
  {
    cfg.decide(ValueOf(c.phase.seen), c.phase.now, c.cost)
  }

  /** Whether an attempt's `cas` finds the version it expects. */
  predicate Current<V>(s: Store<V>, c: Call<V>)
    requires c.phase.Holding?
  {
    Matches(s, c.key, Expectation(c.phase.seen))
  }

  /** The call after an attempt that was not told of success. */
  function Failed<V>(cfg: Config<V>, c: Call<V>, faulty: bool, logLength: nat): Call<V> {
    var next := c.(attempt := c.attempt + 1, faults := c.faults + if faulty then 1 else 0);
    next.(phase := if c.attempt + 1 < MAX_ATTEMPTS then Ready else Done(GiveUp(cfg.limit), false, logLength))
  }

  function CasStep<V>(cfg: Config<V>, s: Sys<V>, p: Pid, fault: Fault): Sys<V>
    requires p in s.calls && s.calls[p].phase.Holding?
  {
    var c := s.calls[p];
    var v := Deciding(cfg, c);
    if Current(s.store, c) && !fault.Lost? then
      var w := Commit(p, c.key, s.store.next, c.phase.now, c.cost, v.decision, fault.Fine?);
      var n := |s.log| + 1;
      var c' := if fault.Fine? then c.(phase := Done(v.decision, true, n)) else Failed(cfg, c, true, n);
      Sys(Written(s.store, c.key, v.state), s.calls[p := c'], s.drawn, s.log + [w])
    else
      s.(calls := s.calls[p := Failed(cfg, c, c.phase.getFailed || !fault.Fine?, |s.log|)])
  }

  function GetStep<V>(s: Sys<V>, p: Pid, fails: bool): Sys<V>
    requires p in s.calls && s.calls[p].phase.Timed?
  {
    var c := s.calls[p];
    var seen := if fails then None else Lookup(s.store, c.key);
    s.(calls := s.calls[p := c.(phase := Holding(c.phase.now, seen, fails, |s.log|))])
  }

  function InsertStep<V>(s: Sys<V>, version: int, key: string, value: V): Sys<V>
    requires version in s.drawn
  {
    Sys(s.store.(entries := s.store.entries[key := Versioned(value, version)]),
        s.calls, s.drawn - {version}, s.log + [Overwrite(key, version, value)])
  }

  function Stepped<V>(cfg: Config<V>, s: Sys<V>, e: Event<V>): Sys<V>
    requires Enabled(s, e)
  {
    match e
    case Start(p, key, cost) => s.(calls := s.calls[p := Call(key, cost, 0, 0, |s.log|, Ready)])
    case ReadClock(p, now) => s.(calls := s.calls[p := s.calls[p].(phase := Timed(now))])
    case Get(p, fails) => GetStep(s, p, fails)
    case Cas(p, fault) => CasStep(cfg, s, p, fault)
    case Draw => s.(store := s.store.(next := s.store.next + 1), drawn := s.drawn + {s.store.next})
    case Insert(version, key, value) => InsertStep(s, version, key, value)
  }

  /** The events can happen in this order. */
  predicate Legal<V>(cfg: Config<V>, events: seq<Event<V>>)
    decreases |events|, 0
  {
    events == [] ||
    var n := |events| - 1;
    Legal(cfg, events[..n]) && Enabled(After(cfg, events[..n]), events[n])
  }

  /** The system after a legal interleaving. */
  function After<V>(cfg: Config<V>, events: seq<Event<V>>): Sys<V>
    requires Legal(cfg, events)
    decreases |events|, 1
  {
    if events == [] then Initial() else
    var n := |events| - 1;
    Stepped(cfg, After(cfg, events[..n]), events[n])
  }

  lemma {:induction false} OneMore<V>(cfg: Config<V>, events: seq<Event<V>>, e: Event<V>)
    requires Legal(cfg, events) && Enabled(After(cfg, events), e)
    ensures Legal(cfg, events + [e]) && After(cfg, events + [e]) == Stepped(cfg, After(cfg, events), e)
  {
    var run := events + [e];
    assert run[..|run| - 1] == events && run[|run| - 1] == e;
    assert Legal(cfg, run);
  }

  /** A step that the local store could have taken: no request fails. */
  predicate Faultless<V>(e: Event<V>) {
    match e
    case Get(_, fails) => !fails
    case Cas(_, fault) => fault.Fine?
    case _ => true
  }

  // ---- Reading the log of writes ----

  /** No write to `key` at position `from` or later. */
  ghost predicate Untouched<V>(log: seq<Write<V>>, from: nat, key: string) {
    forall i :: from <= i < |log| ==> log[i].key != key
  }

  /** What a write leaves under its key: a commit decides on what was there, a `put` does not look. */
  function Left<V>(decide: Decider<V>, before: Option<V>, w: Write<V>): V {
    if w.Commit? then decide(before, w.now, w.cost).state else w.value
  }

  /** The value a key holds after the logged writes: its commits decided one after the other. */
  function Held<V>(decide: Decider<V>, log: seq<Write<V>>, key: string): Option<V> {
    if log == [] then None else
    var n := |log| - 1;
    var before := Held(decide, log[..n], key);
    if log[n].key == key then Some(Left(decide, before, log[n])) else before
  }

  /** The commits of one check. */
  function CommitsBy<V>(log: seq<Write<V>>, p: Pid): nat {
    if log == [] then 0 else
    var n := |log| - 1;
    CommitsBy(log[..n], p) + if log[n].Commit? && log[n].pid == p then 1 else 0
  }

  /** The writes to `key` by anyone but `p`. */
  function OthersOn<V>(log: seq<Write<V>>, key: string, p: Pid): nat {
    if log == [] then 0 else
    var n := |log| - 1;
    OthersOn(log[..n], key, p) + if log[n].key == key && !(log[n].Commit? && log[n].pid == p) then 1 else 0
  }
}
