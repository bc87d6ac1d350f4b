/**
 The contract both stores meet: a map of versioned values, and the version the next write will
 carry. (`get` and `cas` of the store trait, as functions of the store's contents.)
 */
module StateStore {
  import opened Wrappers

  datatype Versioned<+V> = Versioned(value: V, version: int)

  datatype CasResult = CasResult(success: bool, version: int)

  datatype Store<+V> = Store(entries: map<string, Versioned<V>>, next: int)

  function Lookup<V>(s: Store<V>, key: string): Option<Versioned<V>> {
    if key in s.entries then Some(s.entries[key]) else None
  }

  /** `None` expects an absent key, `Some(v)` a key whose current version is `v`. */
  predicate Matches<V>(s: Store<V>, key: string, expected: Option<int>) {
    match expected
    case None => key !in s.entries
    case Some(v) => key in s.entries && s.entries[key].version == v
  }

  /** The counter drawn from, and nothing written. */
  function Drawn<V>(s: Store<V>): Store<V> {
    s.(next := s.next + 1)
  }

  /** A value stored under a version drawn earlier. */
  function Placed<V>(s: Store<V>, key: string, value: V, version: int): Store<V> {
    s.(entries := s.entries[key := Versioned(value, version)])
  }

  function Written<V>(s: Store<V>, key: string, value: V): Store<V> {
    Placed(Drawn(s), key, value, s.next)
  }

  /** How a transaction can go wrong: not applied, or applied without the caller learning of it. */
  datatype Fault = Fine | Lost | Unacknowledged

  /** The store after a guarded write that may not have been applied. */
  function CasLeaves<V>(s: Store<V>, key: string, expected: Option<int>, value: V, fault: Fault): Store<V> {
    if Matches(s, key, expected) && !fault.Lost? then Written(s, key, value) else s
  }

  /** The version a caller passes back to `cas`, from what its `get` returned. */
  function Expectation<V>(seen: Option<Versioned<V>>): Option<int> {
    if seen.Some? then Some(seen.value.version) else None
  }

  function ValueOf<V>(seen: Option<Versioned<V>>): Option<V> {
    if seen.Some? then Some(seen.value.value) else None
  }
}
