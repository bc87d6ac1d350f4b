/** The in-process store: a map guarded by a mutex, and an atomic counter. */
module LocalStores {
  import opened Wrappers
  import opened StateStore

  class LocalStore<V> {
    var state: map<string, Versioned<V>>
    var counter: int

    ghost function Model(): Store<V>
      reads this
    {
      Store(state, counter)
    }

    constructor ()
      ensures Model() == Store(map[], 1)
    {
      state := map[];
      counter := 1;
    }

    method Get(key: string) returns (r: Option<Versioned<V>>)
      ensures r == Lookup(Model(), key)
      ensures r == if key in state then Some(state[key]) else None
    {
      if key in state {
        r := Some(state[key]);
      } else {
        r := None;
      }
    }

    /** The atomic `fetch_add`; `Put` draws its version with it before it takes the lock. */
    method NextVersion() returns (v: int)
      modifies this`counter
      ensures v == old(counter) && counter == old(counter) + 1
      ensures Model() == Drawn(old(Model()))
    {
      v := counter;
      counter := counter + 1;
    }

    /** The other half of `Put`, under the lock. */
    method Insert(key: string, value: V, version: int)
      modifies this`state
      ensures state == old(state)[key := Versioned(value, version)]
      ensures Model() == Placed(old(Model()), key, value, version)
    {
      state := state[key := Versioned(value, version)];
    }

    method Put(key: string, value: V) returns (v: int)
      modifies this
      ensures v == old(counter) && counter == old(counter) + 1
      ensures state == old(state)[key := Versioned(value, v)]
      ensures Model() == Written(old(Model()), key, value)
    {
      v := NextVersion();
      Insert(key, value, v);
    }

    /** A conflict reports the version that is stored, 0 if there is none. */
    method Cas(key: string, expected: Option<int>, value: V) returns (r: CasResult)
      modifies this
      ensures r.success == (if expected.None? then key !in old(state)
                            else key in old(state) && old(state)[key].version == expected.value)
      ensures r.success ==> r.version == old(counter) && counter == old(counter) + 1
                            && state == old(state)[key := Versioned(value, r.version)]
      ensures !r.success ==> r.version == (if key in state then state[key].version else 0)
                             && counter == old(counter) && state == old(state)
      ensures r.success == Matches(old(Model()), key, expected)
      ensures Model() == CasLeaves(old(Model()), key, expected, value, Fine)
    {
      var matches := false;
      if expected.None? {
        matches := key !in state;
      } else if key in state {
        matches := expected.value == state[key].version;
      }
      if matches {
        var v := NextVersion();
        state := state[key := Versioned(value, v)];
        r := CasResult(true, v);
      } else if key in state {
        r := CasResult(false, state[key].version);
      } else {
        r := CasResult(false, 0);
      }
    }
  }
}
