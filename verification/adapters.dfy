/** The adapter registry: the process-wide list of `(protocol, init)` pairs
    through which a connection URI's protocol finds the factory of its
    storage adapter. The list lives in a module cache under the key
    `"adapters"`, which is absent until the first registration; it only
    ever grows, at its end. */
module Adapters {
  import opened Wrappers

  /** `AdapterInitializer`: the factory `init` is opaque to the registry,
      hence a type parameter. */
  datatype Initializer<F> = Initializer(protocol: string, init: F)

  /** The cache entry `"adapters"`, `None` before anything was registered. */
  datatype Registry<F> = Registry(cached: Option<seq<Initializer<F>>>)

  datatype RegisterError = InvalidProtocol | DuplicateProtocol

  function EmptyRegistry<F>(): Registry<F> {
    Registry(None)
  }

  predicate IsAsciiAlphanumeric(c: char) {
    ('A' <= c <= 'Z') || ('a' <= c <= 'z') || ('0' <= c <= '9')
  }

  /** The test `/^[A-Za-z0-9]+$/`. */
  predicate ValidProtocol(p: string) {
    |p| > 0 && forall i :: 0 <= i < |p| ==> IsAsciiAlphanumeric(p[i])
  }

  function LowerChar(c: char): char {
    if 'A' <= c <= 'Z' then (c as int + ('a' as int - 'A' as int)) as char else c
  }

  /** `toLowerCase` on the ASCII letters. */
  function Lower(s: string): (r: string)
    ensures |r| == |s|
    ensures forall i :: 0 <= i < |s| ==> r[i] == LowerChar(s[i])
  {
    seq(|s|, i requires 0 <= i < |s| => LowerChar(s[i]))
  }

  /** Two protocols name the same adapter when they are equal ignoring case. */
  predicate SameProtocol(a: string, b: string) {
    Lower(a) == Lower(b)
  }

  /** `getAll`: the cached list, or an empty one when nothing is cached. */
  function GetAll<F>(reg: Registry<F>): (r: seq<Initializer<F>>)
    ensures reg.cached.None? ==> r == []
    ensures reg.cached.Some? ==> r == reg.cached.value
  {
    reg.cached.GetOr([])
  }

  /** `Array.prototype.find` with the case-insensitive protocol test: the
      first entry whose protocol matches. */
  function Find<F>(entries: seq<Initializer<F>>, protocol: string): (r: Option<Initializer<F>>)
    ensures r.None? <==> forall i :: 0 <= i < |entries| ==> !SameProtocol(entries[i].protocol, protocol)
    ensures r.Some? ==> exists i :: 0 <= i < |entries| && entries[i] == r.value
                          && SameProtocol(entries[i].protocol, protocol)
                          && forall k :: 0 <= k < i ==> !SameProtocol(entries[k].protocol, protocol)
  {
    if |entries| == 0 then None
    else if SameProtocol(entries[0].protocol, protocol) then Some(entries[0])
    else
      var r := Find(entries[1..], protocol);
      assert forall i :: 1 <= i < |entries| ==> entries[i] == entries[1..][i - 1];
      r
  }

  /** `get`: the first registered entry whose protocol equals `protocol`
      ignoring case, or nothing when none does. */
  function Get<F>(reg: Registry<F>, protocol: string): (r: Option<Initializer<F>>)
    ensures r.None? <==> forall i :: 0 <= i < |GetAll(reg)| ==> !SameProtocol(GetAll(reg)[i].protocol, protocol)
    ensures r.Some? ==> r.value in GetAll(reg) && SameProtocol(r.value.protocol, protocol)
  {
    Find(GetAll(reg), protocol)
  }

  /** `register`: the new registry and the error it throws, if any. A
      failing call leaves the registry as it was. */
  function Register<F>(reg: Registry<F>, a: Initializer<F>): (r: (Registry<F>, Option<RegisterError>))
    ensures !ValidProtocol(a.protocol) ==> r == (reg, Some(InvalidProtocol))
    ensures ValidProtocol(a.protocol)
            && (exists i :: 0 <= i < |GetAll(reg)| && SameProtocol(GetAll(reg)[i].protocol, a.protocol))
            ==> r == (reg, Some(DuplicateProtocol))
    ensures r.1.None? <==> (ValidProtocol(a.protocol)
                           && forall i :: 0 <= i < |GetAll(reg)| ==> !SameProtocol(GetAll(reg)[i].protocol, a.protocol))
    ensures r.1.None? ==> GetAll(r.0) == GetAll(reg) + [a]
  {
    if !ValidProtocol(a.protocol) then (reg, Some(InvalidProtocol))
    else
      var all := GetAll(reg);
      if Find(all, a.protocol).Some? then (reg, Some(DuplicateProtocol))
      else (Registry(Some(all + [a])), None)
  }

  /** The registry invariant: every protocol is valid and no two are the
      same ignoring case. */
  predicate Wf<F>(reg: Registry<F>) {
    var all := GetAll(reg);
    && (forall i :: 0 <= i < |all| ==> ValidProtocol(all[i].protocol))
    && (forall i, j :: 0 <= i < j < |all| ==> !SameProtocol(all[i].protocol, all[j].protocol))
  }

  lemma {:induction false} EmptyRegistryWf<F>()
    ensures Wf(EmptyRegistry<F>())
    ensures GetAll(EmptyRegistry<F>()) == []
  {
  }

  lemma {:induction false} RegisterPreservesWf<F>(reg: Registry<F>, a: Initializer<F>)
    requires Wf(reg)
    ensures Wf(Register(reg, a).0)
  {
    var (reg', err) := Register(reg, a);
    if err.None? {
      var all, all' := GetAll(reg), GetAll(reg');
      assert all' == all + [a];
      forall i, j | 0 <= i < j < |all'|
        ensures !SameProtocol(all'[i].protocol, all'[j].protocol)
      {
        if j == |all| {
          assert all'[i] == all[i];
        } else {
          assert all'[i] == all[i] && all'[j] == all[j];
        }
      }
    }
  }

  /** Lookup ignores case: `"SQLite"` finds what `"sqlite"` finds. */
  lemma {:induction false} GetIgnoresCase<F>(reg: Registry<F>, p: string, q: string)
    requires SameProtocol(p, q)
    ensures Get(reg, p) == Get(reg, q)
  {
    var all := GetAll(reg);
    assert forall i :: 0 <= i < |all| ==> (SameProtocol(all[i].protocol, p) <==> SameProtocol(all[i].protocol, q));
    FindRespects(all, p, q);
  }

  lemma {:induction false} FindRespects<F>(entries: seq<Initializer<F>>, p: string, q: string)
    requires forall i :: 0 <= i < |entries| ==> (SameProtocol(entries[i].protocol, p) <==> SameProtocol(entries[i].protocol, q))
    ensures Find(entries, p) == Find(entries, q)
    decreases |entries|
  {
    if |entries| > 0 && !SameProtocol(entries[0].protocol, p) {
      FindRespects(entries[1..], p, q);
    }
  }

  /** In a well-formed registry, a lookup returns the one entry registered
      under that protocol, and nothing when there is none. */
  lemma {:induction false} GetUnique<F>(reg: Registry<F>, p: string)
    requires Wf(reg)
    ensures Get(reg, p).Some? <==> exists i :: 0 <= i < |GetAll(reg)| && SameProtocol(GetAll(reg)[i].protocol, p)
    ensures forall i :: 0 <= i < |GetAll(reg)| && SameProtocol(GetAll(reg)[i].protocol, p)
              ==> Get(reg, p) == Some(GetAll(reg)[i])
  {
    var all := GetAll(reg);
    forall i | 0 <= i < |all| && SameProtocol(all[i].protocol, p)
      ensures Get(reg, p) == Some(all[i])
    {
      var r := Get(reg, p);
      var k :| 0 <= k < |all| && all[k] == r.value && SameProtocol(all[k].protocol, p)
               && forall m :: 0 <= m < k ==> !SameProtocol(all[m].protocol, p);
      assert SameProtocol(all[k].protocol, all[i].protocol);
    }
  }

  /** After a successful registration the new entry is found under its own
      protocol in any letter case. */
  lemma {:induction false} RegisterThenGet<F>(reg: Registry<F>, a: Initializer<F>, p: string)
    requires Wf(reg)
    requires Register(reg, a).1.None?
    requires SameProtocol(p, a.protocol)
    ensures Get(Register(reg, a).0, p) == Some(a)
  {
    var reg' := Register(reg, a).0;
    RegisterPreservesWf(reg, a);
    var all' := GetAll(reg');
    assert all'[|all'| - 1] == a;
    GetUnique(reg', p);
  }

  /** Registering `"sqlite"` into an empty registry succeeds; then a protocol
      with a `-` is refused as invalid, `"SQLite"` is refused as a duplicate,
      and `"Sqlite"` finds the `"sqlite"` entry. */
  lemma {:induction false} RegistryScenario<F>(init: F)
    ensures var sqlite := Initializer("sqlite", init);
      var (reg, err) := Register(EmptyRegistry(), sqlite);
      && err.None?
      && Register(reg, Initializer("my-sql", init)) == (reg, Some(InvalidProtocol))
      && Register(reg, Initializer("SQLite", init)) == (reg, Some(DuplicateProtocol))
      && Get(reg, "Sqlite") == Some(sqlite)
  {
    var sqlite := Initializer("sqlite", init);
    var reg := Register(EmptyRegistry(), sqlite).0;
    assert !IsAsciiAlphanumeric("my-sql"[2]);
    assert Lower("SQLite") == "sqlite" == Lower("sqlite");
    assert GetAll(reg)[0] == sqlite;
    assert Lower("Sqlite") == "sqlite";
    RegisterThenGet(EmptyRegistry(), sqlite, "Sqlite");
  }
}
