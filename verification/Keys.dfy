/** The store keys: a plain join of the algorithm's name, the client and the resource. */
module Keys {
  datatype Algorithm = FixedWindow | SlidingWindowLog | SlidingWindowCounter | TokenBucket | LeakyBucket

  function Name(alg: Algorithm): string {
    match alg
    case FixedWindow => "fixed_window"
    case SlidingWindowLog => "sliding_window_log"
    case SlidingWindowCounter => "sliding_window_counter"
    case TokenBucket => "token_bucket"
    case LeakyBucket => "leaky_bucket"
  }

  function Key(alg: Algorithm, client: string, resource: string): string {
    Name(alg) + "/" + client + "/" + resource
  }

  /** The key under which etcd holds `key`: its namespace in front. */
  function FullKey(prefix: string, key: string): string {
    prefix + "/" + key
  }

  /** The keys as the five limiters spell them. */
  lemma KeysSpelled(client: string, resource: string)
    ensures Key(FixedWindow, client, resource) == "fixed_window" + "/" + client + "/" + resource
    ensures Key(SlidingWindowLog, client, resource) == "sliding_window_log" + "/" + client + "/" + resource
    ensures Key(SlidingWindowCounter, client, resource) == "sliding_window_counter" + "/" + client + "/" + resource
    ensures Key(TokenBucket, client, resource) == "token_bucket" + "/" + client + "/" + resource
    ensures Key(LeakyBucket, client, resource) == "leaky_bucket" + "/" + client + "/" + resource
  {
  }

  predicate HasSlash(s: string) {
    '/' in s
  }

  /** Two joins agree only if the left parts are equal, or one continues the other past a slash. */
  lemma JoinsAgree(a: string, x: string, b: string, y: string)
    requires a + "/" + x == b + "/" + y
    ensures (a == b && x == y) || a + "/" <= b || b + "/" <= a
  {
    var left, right := a + "/" + x, b + "/" + y;
    assert a == left[..|a|] && b == right[..|b|];
    assert left[|a|] == '/' && right[|b|] == '/';
    if |a| == |b| {
      assert x == left[|a| + 1..] && y == right[|b| + 1..];
    } else if |a| < |b| {
      assert b[..|a|] == a && b[|a|] == '/';
      assert a + "/" == b[..|a| + 1];
    } else {
      assert a[..|b|] == b && a[|b|] == '/';
      assert b + "/" == a[..|b| + 1];
    }
  }

  lemma ContinuationHasSlash(a: string, b: string)
    requires a + "/" <= b
    ensures HasSlash(b)
  {
    assert b[|a|] == (a + "/")[|a|];
  }

  lemma NamesPlain(alg: Algorithm)
    ensures !HasSlash(Name(alg))
  {
  }

  lemma NamesDistinct(a: Algorithm, b: Algorithm)
    requires Name(a) == Name(b)
    ensures a == b
  {
    assert Name(a)[0] == Name(b)[0] && |Name(a)| == |Name(b)|;
  }

  /** A join can be split at its slash when neither left part holds one. */
  lemma JoinsOfPlain(a: string, x: string, b: string, y: string)
    requires !HasSlash(a) && !HasSlash(b)
    requires a + "/" + x == b + "/" + y
    ensures a == b && x == y
  {
    JoinsAgree(a, x, b, y);
    if a + "/" <= b { ContinuationHasSlash(a, b); }
    if b + "/" <= a { ContinuationHasSlash(b, a); }
  }

  lemma KeySplits(alg: Algorithm, client: string, resource: string)
    ensures Key(alg, client, resource) == Name(alg) + "/" + (client + "/" + resource)
  {
  }

  lemma KeyParts(a: Algorithm, c: string, r: string, b: Algorithm, d: string, q: string)
    requires Key(a, c, r) == Key(b, d, q)
    ensures a == b && c + "/" + r == d + "/" + q
  {
    KeySplits(a, c, r);
    KeySplits(b, d, q);
    NamesPlain(a);
    NamesPlain(b);
    JoinsOfPlain(Name(a), c + "/" + r, Name(b), d + "/" + q);
    NamesDistinct(a, b);
  }

  /** Among clients without a slash, a key belongs to one algorithm, one client and one resource. */
  lemma KeysInjective(a: Algorithm, c: string, r: string, b: Algorithm, d: string, q: string)
    requires !HasSlash(c) && !HasSlash(d)
    requires Key(a, c, r) == Key(b, d, q)
    ensures a == b && c == d && r == q
  {
    KeyParts(a, c, r, b, d, q);
    JoinsOfPlain(c, r, d, q);
  }

  /** Two clients share a key for some pair of resources. */
  ghost predicate Collide(alg: Algorithm, c: string, d: string) {
    exists r, q :: Key(alg, c, r) == Key(alg, d, q)
  }

  /** Exactly which clients can share state: those where one id continues the other past a slash. */
  lemma CollideExactly(alg: Algorithm, c: string, d: string)
    requires c != d
    ensures Collide(alg, c, d) <==> c + "/" <= d || d + "/" <= c
  {
    if Collide(alg, c, d) {
      var r, q :| Key(alg, c, r) == Key(alg, d, q);
      KeyParts(alg, c, r, alg, d, q);
      JoinsAgree(c, r, d, q);
    }
    if c + "/" <= d { ContinuationCollides(alg, c, d); }
    if d + "/" <= c {
      ContinuationCollides(alg, d, c);
      var r, q :| Key(alg, d, r) == Key(alg, c, q);
      assert Key(alg, c, q) == Key(alg, d, r);
    }
  }

  lemma ContinuationCollides(alg: Algorithm, c: string, d: string)
    requires c + "/" <= d
    ensures Collide(alg, c, d)
  {
    var rest := d[|c| + 1..];
    assert d == c + "/" + rest;
    assert c + "/" + (rest + "/") == d + "/" + "";
    KeySplits(alg, c, rest + "/");
    KeySplits(alg, d, "");
  }

  /** A full key is its namespace, a slash and the key, and under one namespace tells keys apart. */
  lemma FullKeysInjective(prefix: string, k: string, l: string)
    ensures FullKey(prefix, k)[..|prefix| + 1] == prefix + "/" && FullKey(prefix, k)[|prefix| + 1..] == k
    ensures FullKey(prefix, k) == FullKey(prefix, l) ==> k == l
  {
    assert k == FullKey(prefix, k)[|prefix| + 1..];
    assert l == FullKey(prefix, l)[|prefix| + 1..];
  }

  /** Two namespaces share a full key for some pair of keys. */
  ghost predicate NamespacesCollide(p: string, q: string) {
    exists k, l :: FullKey(p, k) == FullKey(q, l)
  }

  lemma ContinuedNamespace(p: string, q: string)
    requires p + "/" <= q
    ensures NamespacesCollide(p, q)
  {
    var rest := q[|p| + 1..];
    assert q == p + "/" + rest;
    assert FullKey(p, rest + "/") == FullKey(q, "");
  }

  /** Exactly which services on one cluster can share an entry: those whose namespace continues the other's. */
  lemma NamespacesApart(p: string, q: string)
    requires p != q
    ensures NamespacesCollide(p, q) <==> p + "/" <= q || q + "/" <= p
    ensures !HasSlash(p) && !HasSlash(q) ==> !NamespacesCollide(p, q)
  {
    if NamespacesCollide(p, q) {
      var k, l :| FullKey(p, k) == FullKey(q, l);
      JoinsAgree(p, k, q, l);
    }
    if p + "/" <= q {
      ContinuedNamespace(p, q);
      ContinuationHasSlash(p, q);
    }
    if q + "/" <= p {
      ContinuedNamespace(q, p);
      ContinuationHasSlash(q, p);
      var k, l :| FullKey(q, k) == FullKey(p, l);
      assert FullKey(p, l) == FullKey(q, k);
    }
  }
}
