/**
 The store over etcd. The cluster is abstracted to its key space: each key with its creation and
 modification revisions, and one revision counter for all of them. Client errors are parameters.
 */
module EtcdStores {
  import opened Wrappers
  import opened StateStore
  import Keys

  datatype KeyValue<+V> = KeyValue(value: V, createRevision: int, modRevision: int)

  /** A comparison a transaction is guarded by. */
  datatype Compare = CreateRevision(key: string, revision: int) | ModRevision(key: string, revision: int)

  /** etcd reports revision 0 for a key that does not exist. */
  predicate Holds<V>(kvs: map<string, KeyValue<V>>, c: Compare) {
    match c
    case CreateRevision(k, r) => (if k in kvs then kvs[k].createRevision else 0) == r
    case ModRevision(k, r) => (if k in kvs then kvs[k].modRevision else 0) == r
  }

  /** The one call on which the guard is not the contract: a version of 0 expected of an absent key. */
  predicate ZeroOfAbsent<V>(s: Store<V>, key: string, expected: Option<int>) {
    expected == Some(0) && key !in s.entries
  }

  class EtcdStore<V> {
    const prefix: string
    var kvs: map<string, KeyValue<V>>
    var revision: int

    /** Creation and modification revisions were issued by the cluster, which starts at revision 1. */
    ghost predicate Valid()
      reads this
    {
      && 1 <= revision
      && forall k {:trigger k in kvs} :: k in kvs ==>
           1 <= kvs[k].createRevision <= kvs[k].modRevision <= revision
    }

    /** The versioned contents, by full key; the next write will carry the next revision. */
    ghost function Model(): Store<V>
      reads this
    {
      Store(map k | k in kvs :: Versioned(kvs[k].value, kvs[k].modRevision), revision + 1)
    }

    constructor (prefix: string)
      ensures Valid() && Model() == Store(map[], 2) && this.prefix == prefix
    {
      this.prefix := prefix;
      kvs := map[];
      revision := 1;
    }

    /** A failed request reads as an absent key. */
    method Get(key: string, fails: bool) returns (r: Option<Versioned<V>>)
      ensures r == if fails then None else Lookup(Model(), prefix + "/" + key)
      ensures !fails && prefix + "/" + key in kvs
              ==> r == Some(Versioned(kvs[prefix + "/" + key].value, kvs[prefix + "/" + key].modRevision))
    {
      var fk := Keys.FullKey(prefix, key);
      if fails || fk !in kvs {
        r := None;
      } else {
        r := Some(Versioned(kvs[fk].value, kvs[fk].modRevision));
      }
    }

    /** The cluster moves on by one revision: a write to a key that is not looked at here. */
    method Advance()
      requires Valid()
      modifies this`revision
      ensures revision == old(revision) + 1
      ensures Valid() && Model() == Drawn(old(Model()))
    {
      revision := revision + 1;
    }

    /** A key takes the current revision. */
    method Place(fk: string, value: V)
      requires Valid()
      modifies this`kvs
      ensures var created := if fk in old(kvs) then old(kvs)[fk].createRevision else revision;
              kvs == old(kvs)[fk := KeyValue(value, created, revision)]
      ensures Valid() && Model() == Placed(old(Model()), fk, value, revision)
    {
      var created := if fk in kvs then kvs[fk].createRevision else revision;
      kvs := kvs[fk := KeyValue(value, created, revision)];
    }

    /** One write, at the next revision. */
    method Apply(fk: string, value: V)
      requires Valid()
      modifies this`kvs, this`revision
      ensures revision == old(revision) + 1
      ensures var created := if fk in old(kvs) then old(kvs)[fk].createRevision else revision;
              kvs == old(kvs)[fk := KeyValue(value, created, revision)]
      ensures Valid() && Model() == Written(old(Model()), fk, value)
    {
      Advance();
      Place(fk, value);
    }

    method Put(key: string, value: V, fault: Fault) returns (v: int)
      requires Valid()
      modifies this`kvs, this`revision
      ensures Valid()
      ensures fault.Lost? ==> kvs == old(kvs) && revision == old(revision)
      ensures !fault.Lost? ==> revision == old(revision) + 1
      ensures var fk := prefix + "/" + key;
              var created := if fk in old(kvs) then old(kvs)[fk].createRevision else revision;
              !fault.Lost? ==> kvs == old(kvs)[fk := KeyValue(value, created, revision)]
      ensures Model() == if fault.Lost? then old(Model()) else Written(old(Model()), prefix + "/" + key, value)
      ensures v == if fault.Fine? then revision else 0
    {
      v := 0;
      if !fault.Lost? {
        Apply(Keys.FullKey(prefix, key), value);
        if fault.Fine? { v := revision; }
      }
    }

    /** The guarded transaction, on the cluster's side; `told` is whether the client learns that it was applied. */
    method Transact(fk: string, expected: Option<int>, value: V, fault: Fault) returns (told: bool)
      requires Valid()
      modifies this`kvs, this`revision
      ensures Valid()
      ensures var was := old(Model());
              var accepted := Matches(was, fk, expected) || ZeroOfAbsent(was, fk, expected);
              && Model() == (if accepted && !fault.Lost? then Written(was, fk, value) else was)
              && told == (accepted && fault.Fine?)
      ensures told ==> revision == old(revision) + 1
                       && fk in kvs && kvs[fk].value == value && kvs[fk].modRevision == revision
    {
      var condition := if expected.None? then CreateRevision(fk, 0) else ModRevision(fk, expected.value);
      var holds := Holds(kvs, condition);
      if holds && !fault.Lost? {
        Apply(fk, value);
      }
      told := holds && fault.Fine?;
    }

    /**
     Whether or not the transaction was applied, an error is reported as a conflict, with the
     version a second read finds (0 if that fails too).
     */
    method Cas(key: string, expected: Option<int>, value: V, fault: Fault, rereadFails: bool) returns (r: CasResult)
      requires Valid()
      modifies this`kvs, this`revision
      ensures Valid()
      ensures var fk, was := prefix + "/" + key, old(Model());
              var accepted := Matches(was, fk, expected) || ZeroOfAbsent(was, fk, expected);
              && Model() == (if accepted && !fault.Lost? then Written(was, fk, value) else was)
              && r.success == (accepted && fault.Fine?)
      ensures var fk := prefix + "/" + key;
              && (r.success ==> fk in kvs && kvs[fk].value == value && kvs[fk].modRevision == r.version)
              && (r.success ==> r.version == revision == old(revision) + 1)
              && (!r.success ==> r.version == if !rereadFails && fk in kvs then kvs[fk].modRevision else 0)
    {
      var fk := Keys.FullKey(prefix, key);
      var told := Transact(fk, expected, value, fault);
      if told {
        r := CasResult(true, revision);
      } else if rereadFails || fk !in kvs {
        r := CasResult(false, 0);
      } else {
        r := CasResult(false, kvs[fk].modRevision);
      }
    }
  }
}
