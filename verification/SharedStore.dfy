/** The store a limiter holds: either implementation, behind the one interface of the trait. */
module SharedStores {
  import opened Wrappers
  import opened StateStore
  import opened LocalStores
  import opened EtcdStores
  import Keys

  datatype SharedStore<V> = Local(local: LocalStore<V>) | Etcd(etcd: EtcdStore<V>)
  {
    function Objects(): set<object> {
      match this
      case Local(s) => {s}
      case Etcd(s) => {s}
    }

    ghost function Model(): Store<V>
      reads Objects()
    {
      match this
      case Local(s) => s.Model()
      case Etcd(s) => s.Model()
    }

    ghost predicate Valid()
      reads Objects()
    {
      Etcd? ==> etcd.Valid()
    }

    /** The key as the store itself holds it. */
    function KeyOf(key: string): string
    {
      match this
      case Local(_) => key
      case Etcd(s) => Keys.FullKey(s.prefix, key)
    }

    /** No two keys share an entry of either store. */
    lemma KeysApart(k: string, l: string)
      ensures KeyOf(k) == KeyOf(l) ==> k == l
    {
      if Etcd? { Keys.FullKeysInjective(etcd.prefix, k, l); }
    }

    /** So, among clients without a slash, checks share state only for one algorithm, one client and one resource. */
    lemma ChecksApart(a: Keys.Algorithm, c: string, r: string, b: Keys.Algorithm, d: string, q: string)
      requires !Keys.HasSlash(c) && !Keys.HasSlash(d)
      requires KeyOf(Keys.Key(a, c, r)) == KeyOf(Keys.Key(b, d, q))
      ensures a == b && c == d && r == q
    {
      KeysApart(Keys.Key(a, c, r), Keys.Key(b, d, q));
      Keys.KeysInjective(a, c, r, b, d, q);
    }

    /** Whether a request fails: an in-process store has no network that could fail it. */
    function Fails(fails: bool): bool {
      Etcd? && fails
    }

    function FaultOf(fault: Fault): Fault {
      if Etcd? then fault else Fine
    }

    /** When a `cas` is applied, unless it is lost: over etcd also for a version of 0 expected of an absent key. */
    predicate Accepts(s: Store<V>, fk: string, expected: Option<int>) {
      Matches(s, fk, expected) || (Etcd? && ZeroOfAbsent(s, fk, expected))
    }

    method Get(key: string, fails: bool) returns (r: Option<Versioned<V>>)
      requires Valid()
      ensures Local? ==> r == Lookup(Model(), key)
      ensures Etcd? ==> r == if fails then None else Lookup(Model(), etcd.prefix + "/" + key)
    {
      match this
      case Local(s) => r := s.Get(key);
      case Etcd(s) => r := s.Get(key, fails);
    }

    method Cas(key: string, expected: Option<int>, value: V, fault: Fault, rereadFails: bool) returns (r: CasResult)
      requires Valid()
      modifies Objects()
      ensures Valid()
      ensures var was, fk := old(Model()), if Local? then key else etcd.prefix + "/" + key;
              var met := if Local? then Fine else fault;
              && Model() == (if Accepts(was, fk, expected) && !met.Lost? then Written(was, fk, value) else was)
              && r.success == (Accepts(was, fk, expected) && met.Fine?)
              && (r.success ==> r.version == was.next)
              && (!r.success ==> r.version == if fk in Model().entries && !(Etcd? && rereadFails)
                                              then Model().entries[fk].version else 0)
    {
      match this
      case Local(s) => r := s.Cas(key, expected, value);
      case Etcd(s) => r := s.Cas(key, expected, value, fault, rereadFails);
    }

    // ---- The store as other callers use it: keys are named as the store holds them ----

    method Transact(fk: string, expected: Option<int>, value: V, fault: Fault)
      requires Valid()
      modifies Objects()
      ensures Valid()
      ensures var was := old(Model());
              Model() == if Accepts(was, fk, expected) && !FaultOf(fault).Lost? then Written(was, fk, value) else was
    {
      match this
      case Local(s) => var _ := s.Cas(fk, expected, value);
      case Etcd(s) => var _ := s.Transact(fk, expected, value, fault);
    }

    method Draw()
      requires Valid()
      modifies Objects()
      ensures Valid() && Model() == Drawn(old(Model()))
    {
      match this
      case Local(s) => var _ := s.NextVersion();
      case Etcd(s) => s.Advance();
    }

    /** Over etcd a write takes the newest revision; only the local `put` can insert one drawn before others. */
    method Insert(fk: string, value: V, version: int)
      requires Valid() && (Etcd? ==> version == Model().next - 1)
      modifies Objects()
      ensures Valid() && Model() == Placed(old(Model()), fk, value, version)
    {
      match this
      case Local(s) => s.Insert(fk, value, version);
      case Etcd(s) => s.Place(fk, value);
    }
  }
}
