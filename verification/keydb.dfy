/** The `Keydb` façade: a namespace and a default time-to-live in front of a
    storage adapter, with values passed through the JSONB codec on the way
    in and out. The adapter here is the in-memory one; the clock reading
    every time-dependent call takes is the parameter `now` (milliseconds). A
    call that changes the store answers with the new façade state. */
module Keydb {
  import opened Wrappers
  import Memory
  import Jsonb
  import Adapters

  /** `KeydbOptions`: the namespace and the default time-to-live. */
  datatype Options = Options(namespace: Option<string>, ttl: Option<int>)

  /** What the adapter stores for a key: the codec's text, or nothing when
      the codec answered `undefined`. */
  type Stored = Option<string>

  datatype Db = Db(store: Memory.Store<Stored>, namespace: string, ttl: Option<int>)

  datatype ConnectError = InvalidConnectionUri | AdapterNotFound(protocol: string)

  /** The text `JSON.parse` reads when it is handed `undefined`. */
  const UndefinedText: string := "undefined"

  /** The constructor with the default in-memory adapter. The namespace
      defaults to `""`; a default time-to-live of `0` counts as none. */
  function New(options: Options): (db: Db)
    ensures db.store == Memory.EmptyStore()
    ensures db.namespace == options.namespace.GetOr("")
    ensures db.ttl.Some? <==> options.ttl.Some? && options.ttl.value != 0
    ensures db.ttl.Some? ==> db.ttl == options.ttl
  {
    Db(Memory.EmptyStore(), options.namespace.GetOr(""),
       if options.ttl.Some? && options.ttl.value != 0 then options.ttl else None)
  }

  /** `ttl ?? this.ttl`: an explicit argument, even `0`, wins over the
      default. */
  function EffectiveTtl(arg: Option<int>, default: Option<int>): Option<int> {
    if arg.Some? then arg else default
  }

  /** The absolute expiry the façade hands the adapter: `now + ttl` for a
      non-zero time-to-live, otherwise the adapter's default `0`, "never". */
  function Expiry(ttl: Option<int>, now: int): int {
    if ttl.Some? && ttl.value != 0 then now + ttl.value else 0
  }

  /** The entry under `key` in the façade's namespace, if any. */
  function Lookup(db: Db, key: string): Option<Memory.Entry<Stored>> {
    Memory.Lookup(db.store, db.namespace, key)
  }

  /** A key that `get` finds at time `now`: present and not expired. */
  predicate Live(db: Db, key: string, now: int) {
    Lookup(db, key).Some? && !Memory.Expired(Lookup(db, key).value, now)
  }

  /** `deleteExpired` on the façade's namespace. */
  function Purge(db: Db, now: int): (r: Db)
    ensures r.namespace == db.namespace && r.ttl == db.ttl
    ensures forall k :: Lookup(r, k).Some? <==> Live(db, k, now)
    ensures forall k :: Live(db, k, now) ==> Lookup(r, k) == Lookup(db, k)
    ensures Memory.SameOutside(db.store, r.store, db.namespace)
  {
    db.(store := Memory.DeleteExpired(db.store, db.namespace, now))
  }

  /** `set(key, value, ttl)` at time `now`, through the default serializer
      `JSONB.stringify` as the source writes it. */
  function Set(db: Db, key: string, value: Jsonb.Value, ttl: Option<int>, now: int): (r: Db)
    ensures r.namespace == db.namespace && r.ttl == db.ttl
    ensures Lookup(r, key) == Some(Memory.Entry(Jsonb.StringifyAsWritten(value), Expiry(EffectiveTtl(ttl, db.ttl), now)))
    ensures forall k :: k != key ==> Lookup(r, k) == Lookup(db, k)
    ensures Memory.SameOutside(db.store, r.store, db.namespace)
  {
    var expiry := Expiry(EffectiveTtl(ttl, db.ttl), now);
    db.(store := Memory.Set(db.store, key, Jsonb.StringifyAsWritten(value), db.namespace, expiry))
  }

  /** Decodes what the adapter stored. `undefined` reaches `JSON.parse` as
      the text `"undefined"`, which is not JSON. */
  function Decode(stored: Stored): (r: Result<Jsonb.Value, Jsonb.DecodeError>)
    ensures stored.Some? ==> r == Jsonb.Parse(stored.value)
    ensures stored.None? ==> r == Err(Jsonb.SyntaxError)
  {
    UndefinedIsNotJson();
    Jsonb.Parse(stored.GetOr(UndefinedText))
  }

  /** `get(key)` at time `now`: expired entries go first, then the key is
      read and decoded. `Ok(None)` is the source's `undefined`; `Err` is
      what `parse` throws. */
  function Get(db: Db, key: string, now: int): (r: (Db, Result<Option<Jsonb.Value>, Jsonb.DecodeError>))
    ensures r.0.namespace == db.namespace && r.0.ttl == db.ttl
    ensures Memory.SameEntries(Purge(db, now).store, r.0.store)
    ensures r.1 == Ok(None) <==> !Live(db, key, now)
    ensures Live(db, key, now) ==>
              var d := Decode(Lookup(db, key).value.value);
              (r.1.Ok? <==> d.Ok?)
              && (d.Ok? ==> r.1.value == Some(d.value))
              && (d.Err? ==> r.1.error == d.error)
  {
    var purged := Purge(db, now);
    var (st, rec) := Memory.Get(purged.store, key, db.namespace);
    var db' := db.(store := st);
    match rec
    case None => (db', Ok(None))
    case Some(x) =>
      match Decode(x.value)
      case Ok(v) => (db', Ok(Some(v)))
      case Err(e) => (db', Err(e))
  }

  /** `delete(key)`: answers whether the key was stored, expired or not, as
      nothing purges first. */
  function Delete(db: Db, key: string): (r: (Db, bool))
    ensures r.0.namespace == db.namespace && r.0.ttl == db.ttl
    ensures r.1 <==> Lookup(db, key).Some?
    ensures Lookup(r.0, key).None?
    ensures forall k :: k != key ==> Lookup(r.0, k) == Lookup(db, k)
    ensures Memory.SameOutside(db.store, r.0.store, db.namespace)
  {
    var (st, existed) := Memory.Delete(db.store, key, db.namespace);
    (db.(store := st), existed)
  }

  /** `clear()`: empties the façade's namespace and no other. */
  function Clear(db: Db): (r: Db)
    ensures r.namespace == db.namespace && r.ttl == db.ttl
    ensures forall k :: Lookup(r, k).None?
    ensures Memory.SameOutside(db.store, r.store, db.namespace)
  {
    db.(store := Memory.Clear(db.store, db.namespace))
  }

  /** The keys `keys()` lists at time `now`. */
  function KeySet(db: Db, now: int): (r: set<string>)
    ensures forall k :: k in r <==> Live(db, k, now)
  {
    Memory.KeySet(Purge(db, now).store, db.namespace)
  }

  /** `keys()` at time `now`: expired entries go first, then every remaining
      key is listed once. */
  method Keys(db: Db, now: int) returns (db': Db, ks: seq<string>)
    ensures db' == Purge(db, now)
    ensures forall k :: k in ks <==> Live(db, k, now)
    ensures forall i, j :: 0 <= i < j < |ks| ==> ks[i] != ks[j]
    ensures |ks| == |KeySet(db, now)|
  {
    var purged := Purge(db, now);
    var st;
    st, ks := Memory.Keys(purged.store, db.namespace);
    db' := db.(store := st);
  }

  /** The adapter name of a parsed URI's scheme: `protocol.substr(0,
      protocol.length - 1)`, which drops the trailing `:`. */
  function ProtocolName(scheme: string): (r: string)
    ensures |scheme| > 0 ==> r + [scheme[|scheme| - 1]] == scheme
    ensures |scheme| == 0 ==> r == ""
  {
    if |scheme| == 0 then "" else scheme[..|scheme| - 1]
  }

  /** The constructor given a connection URI: `scheme` is the parsed URI's
      `protocol`, `None` when the text is not a URI. Answers the adapter
      factory registered for the scheme, whose call is not modelled. */
  function Connect<F>(reg: Adapters.Registry<F>, scheme: Option<string>): (r: Result<Adapters.Initializer<F>, ConnectError>)
    ensures scheme.None? ==> r == Err(InvalidConnectionUri)
    ensures scheme.Some? ==> (r.Ok? <==> Adapters.Get(reg, ProtocolName(scheme.value)).Some?)
    ensures r.Ok? ==> Adapters.SameProtocol(r.value.protocol, ProtocolName(scheme.value))
                      && r.value in Adapters.GetAll(reg)
    ensures r.Err? && scheme.Some? ==> r.error == AdapterNotFound(scheme.value)
  {
    match scheme
    case None => Err(InvalidConnectionUri)
    case Some(p) =>
      match Adapters.Get(reg, ProtocolName(p))
      case Some(a) => Ok(a)
      case None => Err(AdapterNotFound(p))
  }

  // ------------------------------------------------------------------ lemmas

  lemma {:induction false} UndefinedIsNotJson()
    ensures Jsonb.Parse(UndefinedText) == Err(Jsonb.SyntaxError)
  {
    assert Jsonb.Json.SkipWhitespace(UndefinedText) == UndefinedText;
  }

  /** What `set` stored is read back until its expiry time has passed and
      not after: with expiry `e`, a `get` at time `t` finds the value when
      `e == 0` or `t <= e`. A value without `undefined` or functions in it
      comes back with its member names escaped and otherwise unchanged. */
  lemma {:induction false} SetThenGet(db: Db, key: string, value: Jsonb.Value, ttl: Option<int>, t0: int, t: int)
    requires Jsonb.Complete(value)
    ensures var e := Expiry(EffectiveTtl(ttl, db.ttl), t0);
            Get(Set(db, key, value, ttl, t0), key, t).1 == if e == 0 || t <= e then Ok(Some(Jsonb.Renamed(value))) else Ok(None)
  {
    Jsonb.RoundTripAsWrittenComplete(value);
  }

  /** A value in which no member name starts with `:` is read back exactly
      as it was set, while it lives. */
  lemma {:induction false} SetThenGetPlain(db: Db, key: string, value: Jsonb.Value, ttl: Option<int>, t0: int, t: int)
    requires Jsonb.Complete(value) && Jsonb.PlainNames(value)
    requires Live(Set(db, key, value, ttl, t0), key, t)
    ensures Get(Set(db, key, value, ttl, t0), key, t).1 == Ok(Some(value))
  {
    SetThenGet(db, key, value, ttl, t0, t);
    Jsonb.RenamedPlain(value);
  }

  /** Through the façade, `{":a": 1}` is read back as `{"::a": 1}`. */
  lemma {:induction false} ColonNameReadBack(db: Db, key: string, t0: int)
    ensures Get(Set(db, key, Jsonb.Obj([Jsonb.Field(":a", Jsonb.Num(1))]), Some(0), t0), key, t0).1
            == Ok(Some(Jsonb.Obj([Jsonb.Field("::a", Jsonb.Num(1))])))
  {
    var fs := [Jsonb.Field(":a", Jsonb.Num(1))];
    assert Jsonb.Complete(Jsonb.Obj(fs)) by {
      assert fs[1..] == [];
    }
    assert Jsonb.Renamed(Jsonb.Obj(fs)) == Jsonb.Obj([Jsonb.Field("::a", Jsonb.Num(1))]) by {
      assert fs[1..] == [];
      assert Jsonb.EscapeString(":a") == "::a";
      assert Jsonb.RenamedFields(fs) == [Jsonb.Field("::a", Jsonb.Num(1))] + [];
    }
    SetThenGet(db, key, Jsonb.Obj(fs), Some(0), t0, t0);
  }

  /** A key set with a non-zero time-to-live `T` at time `t0` is found up to
      and including time `t0 + T`, and gone from any later time on. */
  lemma {:induction false} TtlWindow(db: Db, key: string, value: Jsonb.Value, ttl: int, t0: int, t: int)
    requires Jsonb.Complete(value)
    requires ttl != 0 && t0 + ttl != 0
    ensures t <= t0 + ttl ==> Get(Set(db, key, value, Some(ttl), t0), key, t).1 == Ok(Some(Jsonb.Renamed(value)))
    ensures t > t0 + ttl ==> Get(Set(db, key, value, Some(ttl), t0), key, t).1 == Ok(None)
  {
    SetThenGet(db, key, value, Some(ttl), t0, t);
  }

  /** `set(key, value, 0)` never expires, whatever the default. */
  lemma {:induction false} ZeroTtlNeverExpires(db: Db, key: string, value: Jsonb.Value, t0: int, t: int)
    requires Jsonb.Complete(value)
    ensures Get(Set(db, key, value, Some(0), t0), key, t).1 == Ok(Some(Jsonb.Renamed(value)))
  {
    SetThenGet(db, key, value, Some(0), t0, t);
  }

  /** Without an argument, `set` uses the default time-to-live; a default of
      `0` in the options is no default at all. */
  lemma {:induction false} DefaultTtl(options: Options, key: string, value: Jsonb.Value, t0: int)
    ensures var db := New(options);
            Lookup(Set(db, key, value, None, t0), key).value.ttl
            == if options.ttl.Some? && options.ttl.value != 0 then t0 + options.ttl.value else 0
  {
  }

  /** A value `stringify` turns into `undefined` is stored as such and makes
      every later `get` of the key throw until it expires. */
  lemma {:induction false} UndefinedUnreadable(db: Db, key: string, t0: int, t: int)
    requires Live(Set(db, key, Jsonb.Undefined, None, t0), key, t)
    ensures Get(Set(db, key, Jsonb.Undefined, None, t0), key, t).1 == Err(Jsonb.SyntaxError)
  {
  }

  /** After `delete`, `get` finds nothing. */
  lemma {:induction false} DeleteThenGet(db: Db, key: string, now: int)
    ensures Get(Delete(db, key).0, key, now).1 == Ok(None)
  {
  }

  /** After `clear`, `keys()` is empty, and no other namespace changed. */
  lemma {:induction false} ClearThenKeys(db: Db, now: int)
    ensures KeySet(Clear(db), now) == {}
    ensures Memory.SameOutside(db.store, Clear(db).store, db.namespace)
  {
  }

  /** Two façades with the same namespace and the same entries in it give
      the same answers. */
  lemma {:induction false} SameView(b: Db, b': Db, k: string, t: int)
    requires b'.namespace == b.namespace
    requires Memory.Entries(b'.store, b.namespace) == Memory.Entries(b.store, b.namespace)
    ensures Get(b', k, t).1 == Get(b, k, t).1 && KeySet(b', t) == KeySet(b, t)
  {
    assert forall k :: Lookup(b', k) == Lookup(b, k);
  }

  /** Two façades over one store with different namespaces do not see each
      other's writes. */
  lemma {:induction false} NamespacesIsolated(a: Db, b: Db, key: string, value: Jsonb.Value, ttl: Option<int>, t0: int, k: string, t: int)
    requires a.store == b.store && a.namespace != b.namespace
    ensures var b' := b.(store := Set(a, key, value, ttl, t0).store);
            Get(b', k, t).1 == Get(b, k, t).1 && KeySet(b', t) == KeySet(b, t)
  {
    var b' := b.(store := Set(a, key, value, ttl, t0).store);
    assert Memory.SameOutside(a.store, b'.store, a.namespace);
    SameView(b, b', k, t);
  }

  /** The partner of `register`: after a successful registration, a URI
      whose scheme names the new protocol, in any letter case, connects to
      the new entry. */
  lemma {:induction false} ConnectAfterRegister<F>(reg: Adapters.Registry<F>, a: Adapters.Initializer<F>, scheme: string)
    requires Adapters.Wf(reg)
    requires Adapters.Register(reg, a).1.None?
    requires Adapters.SameProtocol(ProtocolName(scheme), a.protocol)
    ensures Connect(Adapters.Register(reg, a).0, Some(scheme)) == Ok(a)
  {
    Adapters.RegisterThenGet(reg, a, ProtocolName(scheme));
  }

  /** The registry holding only the adapter registered as `name`. */
  function RegistryOf<F>(name: string, init: F): Adapters.Registry<F> {
    Adapters.Register(Adapters.EmptyRegistry(), Adapters.Initializer(name, init)).0
  }

  /** The URI `"sqlite://memory"`, whose parsed scheme is always the
      lower-case `"sqlite:"`, finds the adapter whether it was registered as
      `"sqlite"` or as `"SQLite"`. */
  lemma {:induction false} ConnectSqlite<F>(init: F)
    ensures Connect(RegistryOf("sqlite", init), Some("sqlite:")) == Ok(Adapters.Initializer("sqlite", init))
    ensures Connect(RegistryOf("SQLite", init), Some("sqlite:")) == Ok(Adapters.Initializer("SQLite", init))
  {
    Adapters.EmptyRegistryWf<F>();
    assert ProtocolName("sqlite:") == "sqlite";
    assert Adapters.Lower("SQLite") == "sqlite";
    assert Adapters.ValidProtocol("sqlite") && Adapters.ValidProtocol("SQLite");
    ConnectAfterRegister(Adapters.EmptyRegistry(), Adapters.Initializer("sqlite", init), "sqlite:");
    ConnectAfterRegister(Adapters.EmptyRegistry(), Adapters.Initializer("SQLite", init), "sqlite:");
  }

  /** A text that is not a URI, and a scheme nothing is registered for, are
      refused. */
  lemma {:induction false} ConnectRefuses<F>(init: F)
    ensures Connect(RegistryOf("sqlite", init), Some("redis:")) == Err(AdapterNotFound("redis:"))
    ensures Connect(RegistryOf("sqlite", init), None) == Err(InvalidConnectionUri)
  {
    var sqlite := Adapters.Initializer("sqlite", init);
    Adapters.RegistryScenario(init);
    assert Adapters.GetAll(RegistryOf("sqlite", init)) == [sqlite];
    assert ProtocolName("redis:") == "redis";
    assert !Adapters.SameProtocol("sqlite", "redis") by {
      assert Adapters.Lower("redis")[0] == 'r';
    }
  }

  /** `keys()` after `set`: the key is listed while its entry lives, and
      the other keys are those listed before. */
  lemma {:induction false} SetKeys(db: Db, key: string, value: Jsonb.Value, ttl: Option<int>, t0: int, t: int)
    ensures var e := Expiry(EffectiveTtl(ttl, db.ttl), t0);
            KeySet(Set(db, key, value, ttl, t0), t)
            == if e == 0 || t <= e then KeySet(db, t) + {key} else KeySet(db, t) - {key}
  {
  }

  /** `keys()` after `delete`: the key is no longer listed, the others are. */
  lemma {:induction false} DeleteKeys(db: Db, key: string, t: int)
    ensures KeySet(Delete(db, key).0, t) == KeySet(db, t) - {key}
  {
  }

  /** `set` of one key leaves what `get` answers for every other key. */
  lemma {:induction false} SetOtherKey(db: Db, key: string, value: Jsonb.Value, ttl: Option<int>, t0: int, k: string, t: int)
    requires k != key
    ensures Get(Set(db, key, value, ttl, t0), k, t).1 == Get(db, k, t).1
  {
    var db' := Set(db, key, value, ttl, t0);
    assert Lookup(db', k) == Lookup(db, k);
  }

  /** The values the sample session writes: a string, a number, a plain
      object and a `Map`. */
  function SampleObject(): Jsonb.Value {
    Jsonb.Obj([Jsonb.Field("hello", Jsonb.Str("world")), Jsonb.Field("cool", Jsonb.Bool(true)),
               Jsonb.Field("rate", Jsonb.Num(100))])
  }

  function SampleMap(): Jsonb.Value {
    Jsonb.MapOf([Jsonb.Json.Member("key", Jsonb.Json.Str("value"))])
  }

  /** None of the sample values holds `undefined` or a function, so each
      comes back from the codec as it was written. */
  lemma {:induction false} SampleValuesComplete()
    ensures Jsonb.Complete(Jsonb.Str("hello world")) && Jsonb.Complete(Jsonb.Num(69))
    ensures Jsonb.Complete(SampleObject()) && Jsonb.Complete(SampleMap())
  {
    var fs := SampleObject().fields;
    assert fs[1..][1..][1..] == [];
    assert Jsonb.CompleteFields(fs[1..][1..]);
  }

  /** No member name of the sample values starts with `:`, so the source's
      encoder writes them as they are. */
  lemma {:induction false} SampleValuesPlain()
    ensures Jsonb.Renamed(SampleObject()) == SampleObject()
    ensures Jsonb.Renamed(SampleMap()) == SampleMap()
  {
    var fs := SampleObject().fields;
    assert fs[1..][1..][1..] == [];
    assert Jsonb.PlainFieldNames(fs[1..][1..]);
    assert Jsonb.PlainNames(SampleObject());
    Jsonb.RenamedPlain(SampleObject());
  }

  /** The sample session's keys are four different strings. */
  lemma {:induction false} SampleKeysDistinct()
    ensures "test_string" != "test_number" && "test_string" != "test_json" && "test_string" != "test_map"
    ensures "test_number" != "test_json" && "test_number" != "test_map" && "test_json" != "test_map"
  {
    assert "test_string"[5] != "test_number"[5];
    assert |"test_string"| != |"test_json"| && |"test_string"| != |"test_map"|;
    assert |"test_number"| != |"test_json"| && |"test_number"| != |"test_map"|;
    assert |"test_json"| != |"test_map"|;
  }

  /** `clear()`, then four `set`s without a time-to-live. */
  function Writes(db: Db, now: int, k1: string, v1: Jsonb.Value, k2: string, v2: Jsonb.Value,
                  k3: string, v3: Jsonb.Value, k4: string, v4: Jsonb.Value): Db {
    var db1 := Clear(db);
    var db2 := Set(db1, k1, v1, None, now);
    var db3 := Set(db2, k2, v2, None, now);
    var db4 := Set(db3, k3, v3, None, now);
    Set(db4, k4, v4, None, now)
  }

  /** Without a default time-to-live, `set` adds its key to `keys()` for
      good. */
  lemma {:induction false} SetKeysNoTtl(db: Db, key: string, value: Jsonb.Value, t0: int, t: int)
    requires db.ttl.None?
    ensures KeySet(Set(db, key, value, None, t0), t) == KeySet(db, t) + {key}
  {
    SetKeys(db, key, value, None, t0, t);
  }

  /** After `clear()` and two writes, exactly the two keys written. */
  lemma {:induction false} TwoWrittenKeys(db: Db, now: int, later: int, k1: string, v1: Jsonb.Value, k2: string, v2: Jsonb.Value)
    requires db.ttl.None?
    ensures KeySet(Set(Set(Clear(db), k1, v1, None, now), k2, v2, None, now), later) == {k1, k2}
  {
    var db1 := Clear(db);
    ClearThenKeys(db, later);
    SetKeysNoTtl(db1, k1, v1, now, later);
    SetKeysNoTtl(Set(db1, k1, v1, None, now), k2, v2, now, later);
  }

  /** Four writes of different keys leave exactly those four keys. */
  lemma {:induction false} WrittenKeys(db: Db, now: int, later: int, k1: string, v1: Jsonb.Value, k2: string, v2: Jsonb.Value,
                                       k3: string, v3: Jsonb.Value, k4: string, v4: Jsonb.Value)
    requires db.ttl.None?
    ensures KeySet(Writes(db, now, k1, v1, k2, v2, k3, v3, k4, v4), later) == {k1, k2, k3, k4}
  {
    var db3 := Set(Set(Clear(db), k1, v1, None, now), k2, v2, None, now);
    var db4 := Set(db3, k3, v3, None, now);
    TwoWrittenKeys(db, now, later, k1, v1, k2, v2);
    SetKeysNoTtl(db3, k3, v3, now, later);
    SetKeysNoTtl(db4, k4, v4, now, later);
  }

  /** Four different keys make a set of four; three of them a set of
      three. */
  lemma {:induction false} DistinctCount(a: string, b: string, c: string, d: string)
    requires a != b && a != c && a != d && b != c && b != d && c != d
    ensures |{a, b, c, d}| == 4 && |{a, c, d}| == 3
    ensures {a, b, c, d} - {b} == {a, c, d}
  {
  }

  /** After four writes of different keys there are four keys; deleting the
      second finds it and leaves three. */
  lemma {:induction false} WritesThenDelete(db: Db, now: int, later: int, k1: string, v1: Jsonb.Value, k2: string, v2: Jsonb.Value,
                                            k3: string, v3: Jsonb.Value, k4: string, v4: Jsonb.Value)
    requires db.ttl.None?
    requires k1 != k2 && k1 != k3 && k1 != k4 && k2 != k3 && k2 != k4 && k3 != k4
    ensures var db5 := Writes(db, now, k1, v1, k2, v2, k3, v3, k4, v4);
            && |KeySet(db5, later)| == 4
            && Delete(db5, k2).1
            && |KeySet(Delete(db5, k2).0, later)| == 3
  {
    var db5 := Writes(db, now, k1, v1, k2, v2, k3, v3, k4, v4);
    WrittenKeys(db, now, later, k1, v1, k2, v2, k3, v3, k4, v4);
    assert Delete(db5, k2).1 by {
      assert k2 in KeySet(db5, later);
    }
    assert KeySet(Delete(db5, k2).0, later) == {k1, k3, k4} by {
      DeleteKeys(db5, k2, later);
      DistinctCount(k1, k2, k3, k4);
    }
    DistinctCount(k1, k2, k3, k4);
  }

  /** After four writes of different keys every value is read back as
      written, up to the escape of its member names; after deleting the second key, reading it finds nothing. */
  lemma {:induction false} WritesThenGet(db: Db, now: int, later: int, k1: string, v1: Jsonb.Value, k2: string, v2: Jsonb.Value,
                                         k3: string, v3: Jsonb.Value, k4: string, v4: Jsonb.Value)
    requires db.ttl.None?
    requires k1 != k2 && k1 != k3 && k1 != k4 && k2 != k3 && k2 != k4 && k3 != k4
    requires Jsonb.Complete(v1) && Jsonb.Complete(v2) && Jsonb.Complete(v3) && Jsonb.Complete(v4)
    ensures var db5 := Writes(db, now, k1, v1, k2, v2, k3, v3, k4, v4);
            && Get(db5, k1, later).1 == Ok(Some(Jsonb.Renamed(v1)))
            && Get(db5, k2, later).1 == Ok(Some(Jsonb.Renamed(v2)))
            && Get(db5, k3, later).1 == Ok(Some(Jsonb.Renamed(v3)))
            && Get(db5, k4, later).1 == Ok(Some(Jsonb.Renamed(v4)))
            && Get(Delete(db5, k2).0, k2, later).1 == Ok(None)
  {
    var db1 := Clear(db);
    var db2 := Set(db1, k1, v1, None, now);
    var db3 := Set(db2, k2, v2, None, now);
    var db4 := Set(db3, k3, v3, None, now);
    var db5 := Set(db4, k4, v4, None, now);
    SetThenGet(db1, k1, v1, None, now, later);
    SetOtherKey(db2, k2, v2, None, now, k1, later);
    SetOtherKey(db3, k3, v3, None, now, k1, later);
    SetOtherKey(db4, k4, v4, None, now, k1, later);
    SetThenGet(db2, k2, v2, None, now, later);
    SetOtherKey(db3, k3, v3, None, now, k2, later);
    SetOtherKey(db4, k4, v4, None, now, k2, later);
    SetThenGet(db3, k3, v3, None, now, later);
    SetOtherKey(db4, k4, v4, None, now, k3, later);
    SetThenGet(db4, k4, v4, None, now, later);
    DeleteThenGet(db5, k2, later);
  }

  /** The sample session: after `clear()` there are no keys; after `set` of
      `"hello world"`, `69`, a plain object and a `Map` under four keys there
      are four keys, and each value reads back as written;
      `delete("test_number")` finds its key, after which reading it answers
      `undefined` and three keys remain. */
  lemma {:induction false} SampleSession(db: Db, now: int, later: int)
    requires db.ttl.None?
    ensures KeySet(Clear(db), now) == {}
    ensures var db5 := Writes(db, now, "test_string", Jsonb.Str("hello world"), "test_number", Jsonb.Num(69),
                              "test_json", SampleObject(), "test_map", SampleMap());
            && |KeySet(db5, later)| == 4
            && Get(db5, "test_string", later).1 == Ok(Some(Jsonb.Str("hello world")))
            && Get(db5, "test_number", later).1 == Ok(Some(Jsonb.Num(69)))
            && Get(db5, "test_json", later).1 == Ok(Some(SampleObject()))
            && Get(db5, "test_map", later).1 == Ok(Some(SampleMap()))
            && Delete(db5, "test_number").1
            && Get(Delete(db5, "test_number").0, "test_number", later).1 == Ok(None)
            && |KeySet(Delete(db5, "test_number").0, later)| == 3
  {
    ClearThenKeys(db, now);
    SampleKeysDistinct();
    SampleValuesComplete();
    SampleValuesPlain();
    WritesThenDelete(db, now, later, "test_string", Jsonb.Str("hello world"), "test_number", Jsonb.Num(69),
                     "test_json", SampleObject(), "test_map", SampleMap());
    WritesThenGet(db, now, later, "test_string", Jsonb.Str("hello world"), "test_number", Jsonb.Num(69),
                  "test_json", SampleObject(), "test_map", SampleMap());
  }

  /** The time-to-live sample: `set("test_ttl", "exists", 500)` at `t0` is
      found at `t0` and still at `t0 + 500`, since expiry needs `now` to be
      strictly later; it is gone at `t0 + 501`. */
  lemma {:induction false} TtlSample(db: Db, t0: int)
    requires t0 + 500 != 0
    ensures var db1 := Set(db, "test_ttl", Jsonb.Str("exists"), Some(500), t0);
            && Get(db1, "test_ttl", t0).1 == Ok(Some(Jsonb.Str("exists")))
            && Get(db1, "test_ttl", t0 + 500).1 == Ok(Some(Jsonb.Str("exists")))
            && Get(db1, "test_ttl", t0 + 501).1 == Ok(None)
  {
    TtlWindow(db, "test_ttl", Jsonb.Str("exists"), 500, t0, t0);
    TtlWindow(db, "test_ttl", Jsonb.Str("exists"), 500, t0, t0 + 500);
    TtlWindow(db, "test_ttl", Jsonb.Str("exists"), 500, t0, t0 + 501);
  }
}
