/** The in-memory reference adapter: a two-level map from namespace to key to
    the stored value and its absolute expiry time (`ttl`, in milliseconds
    since the epoch, `0` for "never"). Every operation of the adapter
    contract is a function from the old store to the new one and its
    answer; the clock reading that `deleteExpired` takes is the parameter
    `now`. The stored value's type `V` is left open, as the source stores
    whatever it is given. */
module Memory {
  import opened Wrappers

  datatype Entry<V> = Entry(value: V, ttl: int)

  /** `KeydbFields`: the record `get` answers with. */
  datatype Record<V> = Record(key: string, ns: string, value: V, ttl: int)

  type Namespace<V> = map<string, Entry<V>>

  datatype Store<V> = Store(namespaces: map<string, Namespace<V>>)

  function EmptyStore<V>(): Store<V> {
    Store(map[])
  }

  /** The entries of a namespace; a namespace not yet created has none. */
  function Entries<V>(st: Store<V>, ns: string): Namespace<V> {
    if ns in st.namespaces then st.namespaces[ns] else map[]
  }

  /** What is stored under `(ns, k)`, observed without touching the store. */
  function Lookup<V>(st: Store<V>, ns: string, k: string): Option<Entry<V>> {
    if k in Entries(st, ns) then Some(Entries(st, ns)[k]) else None
  }

  /** Two stores that hold the same entries in every namespace except `ns`. */
  ghost predicate SameOutside<V>(st: Store<V>, st': Store<V>, ns: string) {
    forall n :: n != ns ==> Entries(st', n) == Entries(st, n)
  }

  /** Two stores that hold the same entries. */
  ghost predicate SameEntries<V>(st: Store<V>, st': Store<V>) {
    forall n :: Entries(st', n) == Entries(st, n)
  }

  /** `checkNamespace`: creates the namespace, empty, if it is absent. */
  function CheckNamespace<V>(st: Store<V>, ns: string): (r: Store<V>)
    ensures ns in r.namespaces
    ensures ns in st.namespaces ==> r == st
    ensures r.namespaces.Keys == st.namespaces.Keys + {ns}
    ensures SameEntries(st, r)
  {
    if ns in st.namespaces then st else Store(st.namespaces[ns := map[]])
  }

  /** `ns`: the namespace's map, after creating it if need be. */
  function Ns<V>(st: Store<V>, ns: string): (r: (Store<V>, Namespace<V>))
    ensures ns in r.0.namespaces && r.1 == r.0.namespaces[ns]
    ensures r.1 == Entries(st, ns)
    ensures SameEntries(st, r.0)
  {
    var st' := CheckNamespace(st, ns);
    (st', st'.namespaces[ns])
  }

  /** `set(k, v, ns, ttl)`: stores or overwrites one entry. */
  function Set<V>(st: Store<V>, k: string, v: V, ns: string, ttl: int): (r: Store<V>)
    ensures Lookup(r, ns, k) == Some(Entry(v, ttl))
    ensures forall key :: key != k ==> Lookup(r, ns, key) == Lookup(st, ns, key)
    ensures Entries(r, ns).Keys == Entries(st, ns).Keys + {k}
    ensures SameOutside(st, r, ns)
  {
    var (st', n) := Ns(st, ns);
    Store(st'.namespaces[ns := n[k := Entry(v, ttl)]])
  }

  /** `get(k, ns)`: the record stored under the key, whether or not it has
      expired. */
  function Get<V>(st: Store<V>, k: string, ns: string): (r: (Store<V>, Option<Record<V>>))
    ensures SameEntries(st, r.0) && ns in r.0.namespaces
    ensures r.1.None? <==> Lookup(st, ns, k).None?
    ensures r.1.Some? ==> r.1.value.key == k && r.1.value.ns == ns
                          && Lookup(st, ns, k) == Some(Entry(r.1.value.value, r.1.value.ttl))
  {
    var (st', n) := Ns(st, ns);
    if k in n then (st', Some(Record(k, ns, n[k].value, n[k].ttl))) else (st', None)
  }

  /** `has(k, ns)`: presence of the key, regardless of expiry. */
  function Has<V>(st: Store<V>, k: string, ns: string): (r: (Store<V>, bool))
    ensures SameEntries(st, r.0) && ns in r.0.namespaces
    ensures r.1 <==> Lookup(st, ns, k).Some?
  {
    var (st', n) := Ns(st, ns);
    (st', k in n)
  }

  /** `delete(k, ns)`: removes the key; answers whether it was there. */
  function Delete<V>(st: Store<V>, k: string, ns: string): (r: (Store<V>, bool))
    ensures r.1 <==> Lookup(st, ns, k).Some?
    ensures Lookup(r.0, ns, k).None?
    ensures forall key :: key != k ==> Lookup(r.0, ns, key) == Lookup(st, ns, key)
    ensures Entries(r.0, ns).Keys == Entries(st, ns).Keys - {k}
    ensures SameOutside(st, r.0, ns)
  {
    var (st', n) := Ns(st, ns);
    (Store(st'.namespaces[ns := n - {k}]), k in n)
  }

  /** The keys a namespace holds. */
  function KeySet<V>(st: Store<V>, ns: string): set<string> {
    Entries(st, ns).Keys
  }

  /** `keys(ns)`: every key of the namespace, each exactly once. The source
      lists them in insertion order; this model leaves the order open. */
  method Keys<V>(st: Store<V>, ns: string) returns (st': Store<V>, ks: seq<string>)
    ensures st' == CheckNamespace(st, ns)
    ensures forall k :: k in ks <==> Lookup(st, ns, k).Some?
    ensures forall i, j :: 0 <= i < j < |ks| ==> ks[i] != ks[j]
    ensures |ks| == |KeySet(st, ns)|
  {
    var p := Ns(st, ns);
    var n := p.1;
    st' := p.0;
    var remaining := n.Keys;
    ks := [];
    while remaining != {}
      invariant remaining <= n.Keys
      invariant forall k :: k in n ==> (k in ks <==> k !in remaining)
      invariant forall k :: k in ks ==> k in n
      invariant forall i, j :: 0 <= i < j < |ks| ==> ks[i] != ks[j]
      invariant |ks| + |remaining| == |n.Keys|
      decreases remaining
    {
      var k :| k in remaining;
      ks := ks + [k];
      remaining := remaining - {k};
    }
  }

  /** `clear(ns)`: the namespace is replaced by an empty one. */
  function Clear<V>(st: Store<V>, ns: string): (r: Store<V>)
    ensures ns in r.namespaces && KeySet(r, ns) == {}
    ensures SameOutside(st, r, ns)
  {
    Store(st.namespaces[ns := map[]])
  }

  /** An entry whose expiry time is set and has passed. */
  predicate Expired<V>(e: Entry<V>, now: int) {
    e.ttl != 0 && now > e.ttl
  }

  /** `deleteExpired(ns)` at time `now`: drops exactly the expired entries of
      the namespace. */
  function DeleteExpired<V>(st: Store<V>, ns: string, now: int): (r: Store<V>)
    ensures ns in r.namespaces
    ensures forall k :: Lookup(r, ns, k) == if Lookup(st, ns, k).Some? && !Expired(Lookup(st, ns, k).value, now)
                                            then Lookup(st, ns, k) else None
    ensures SameOutside(st, r, ns)
  {
    var (st', n) := Ns(st, ns);
    Store(st'.namespaces[ns := map k | k in n && !Expired(n[k], now) :: n[k]])
  }

  /** The source's loop: walks the entries of the namespace and deletes each
      expired one as it meets it. It ends where `DeleteExpired` does. */
  method DeleteExpiredLoop<V>(st: Store<V>, ns: string, now: int) returns (r: Store<V>)
    ensures r == DeleteExpired(st, ns, now)
  {
    var (st', n) := Ns(st, ns);
    var kept := n;
    var todo := n.Keys;
    while todo != {}
      invariant todo <= n.Keys
      invariant kept.Keys <= n.Keys
      invariant forall k :: k in kept ==> kept[k] == n[k]
      invariant forall k :: k in todo ==> k in kept
      invariant forall k :: k in n && k !in todo ==> (k in kept <==> !Expired(n[k], now))
      decreases todo
    {
      var k :| k in todo;
      if Expired(n[k], now) {
        kept := kept - {k};
      }
      todo := todo - {k};
    }
    assert kept == map k | k in n && !Expired(n[k], now) :: n[k];
    r := Store(st'.namespaces[ns := kept]);
  }

  // ------------------------------------------------------------------ lemmas

  /** Reading back what was set gives the full record; setting the same key
      again overwrites it. */
  lemma {:induction false} SetThenGet<V>(st: Store<V>, k: string, v: V, ns: string, ttl: int, v': V, ttl': int)
    ensures Get(Set(st, k, v, ns, ttl), k, ns).1 == Some(Record(k, ns, v, ttl))
    ensures Get(Set(Set(st, k, v, ns, ttl), k, v', ns, ttl'), k, ns).1 == Some(Record(k, ns, v', ttl'))
  {
  }

  /** Writes to one namespace are never seen in another. */
  lemma {:induction false} NamespaceIsolation<V>(st: Store<V>, k: string, v: V, a: string, b: string, ttl: int, now: int)
    requires a != b
    ensures Entries(Set(st, k, v, a, ttl), b) == Entries(st, b)
    ensures Entries(Delete(st, k, a).0, b) == Entries(st, b)
    ensures Entries(Clear(st, a), b) == Entries(st, b)
    ensures Entries(DeleteExpired(st, a, now), b) == Entries(st, b)
  {
  }

  /** `has` ignores expiry: an expired entry is present until
      `deleteExpired` runs, and absent after. */
  lemma {:induction false} HasIgnoresExpiry<V>(st: Store<V>, k: string, ns: string, now: int)
    requires Lookup(st, ns, k).Some? && Expired(Lookup(st, ns, k).value, now)
    ensures Has(st, k, ns).1
    ensures !Has(DeleteExpired(st, ns, now), k, ns).1
  {
  }

  /** A second `deleteExpired` at the same time finds nothing to do. */
  lemma {:induction false} DeleteExpiredIdempotent<V>(st: Store<V>, ns: string, now: int)
    ensures DeleteExpired(DeleteExpired(st, ns, now), ns, now) == DeleteExpired(st, ns, now)
  {
    var r := DeleteExpired(st, ns, now);
    var n := r.namespaces[ns];
    assert (map k | k in n && !Expired(n[k], now) :: n[k]) == n;
  }

  /** `deleteExpired` leaves a namespace alone when nothing in it has
      expired. */
  lemma {:induction false} DeleteExpiredNoOp<V>(st: Store<V>, ns: string, now: int)
    requires ns in st.namespaces
    requires forall k :: k in st.namespaces[ns] ==> !Expired(st.namespaces[ns][k], now)
    ensures DeleteExpired(st, ns, now) == st
  {
    var n := st.namespaces[ns];
    assert (map k | k in n && !Expired(n[k], now) :: n[k]) == n;
  }

  /** Touching a namespace twice is the same as touching it once. */
  lemma {:induction false} CheckNamespaceIdempotent<V>(st: Store<V>, ns: string)
    ensures CheckNamespace(CheckNamespace(st, ns), ns) == CheckNamespace(st, ns)
    ensures forall n, k :: Lookup(CheckNamespace(st, ns), n, k) == Lookup(st, n, k)
  {
  }
}
