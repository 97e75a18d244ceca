/** Tables whose entries carry an expiry time. */
module Expiry {
  import opened Common

  function Unexpired<K>(m: map<K, Nanos>, now: Nanos): map<K, Nanos> {
    map k | k in m && now <= m[k] :: m[k]
  }

  ghost predicate AnyExpired<K>(m: map<K, Nanos>, now: Nanos) {
    exists k :: k in m && now > m[k]
  }

  /** Deletes the expired entries of a map. */
  method Prune<K>(m: map<K, Nanos>, now: Nanos) returns (kept: map<K, Nanos>, expired: bool)
    ensures kept == Unexpired(m, now)
    ensures expired <==> AnyExpired(m, now)
  {
    kept, expired := m, false;
    var todo := m.Keys;
    while todo != {}
      invariant todo <= m.Keys
      invariant kept == map k | k in m && (k in todo || now <= m[k]) :: m[k]
      invariant expired <==> exists k :: k in m && k !in todo && now > m[k]
      decreases todo
    {
      var k :| k in todo;
      todo := todo - {k};
      if now > m[k] {
        kept := kept - {k};
        expired := true;
      }
    }
  }
}
