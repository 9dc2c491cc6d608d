# Keydb in Dafny

Keydb is a key-value store with one façade over interchangeable storage
adapters. This project models its core:

- **JSONB codec** (`jsonb.ts`). It turns JavaScript values into text and back. Byte buffers are written as strings tagged `:base64:` and `Map`s as strings tagged `:map:`. A string that already starts with `:` gets one more `:` in front. The reviver on the parsing side undoes all three for values. Object member names keep the extra `:` (see below).
- **Adapter registry** (`adapter.ts`). A process-wide list of `(protocol, init)` pairs. A protocol must match `/^[A-Za-z0-9]+$/`, no two protocols may be equal ignoring case, and lookup ignores case.
- **In-memory adapter** (`memory.ts`). A two-level map from namespace to key to `{ value, ttl }`. Here `ttl` is an absolute expiry time in milliseconds, with `0` meaning "never". Namespaces are created lazily. `deleteExpired` drops entries with `ttl !== 0 && now > ttl`.
- **`Keydb` façade** (`keydb.ts`). It holds a default namespace and a default time-to-live. It encodes values on `set` and decodes them on `get`. It purges expired entries before `get` and `keys`. Given a connection URI, it looks up the adapter registered for the URI's scheme.

Modules, one file each:

| file | module | models |
|---|---|---|
| `wrappers.dfy` | `Wrappers` | `Option` and `Result` with the `:-` failure propagation |
| `base64.dfy` | `Base64` | the base64 encoding of section 4 of RFC 4648, used for `Buffer` ↔ `:base64:` text |
| `json.dfy` | `Json` | the JSON tree, the compact text `JSON.stringify` writes, and `JSON.parse` |
| `jsonb.dfy` | `Jsonb` | `JSONB.stringify` and `JSONB.parse` over a `Value` type of the JavaScript values the codec meets |
| `adapters.dfy` | `Adapters` | `Adapters.getAll`, `get` and `register` |
| `memory.dfy` | `Memory` | `MemoryAdapter`, as pure functions from the old store to the new store and the answer |
| `keydb.dfy` | `Keydb` | the `Keydb` façade over the in-memory adapter, plus the connection-URI path through the registry |

The clock reading (`Date.now()`) is the parameter `now` of every
time-dependent operation. Each operation that changes state returns the new
state alongside its answer.

The model follows the code, including where it behaves in ways a caller
might not expect:

- **Expiry is strict.** A key set with time-to-live `T` at time `t0` is still present at exactly `t0 + T`, because expiry needs `now > ttl` (memory.ts:53). It is gone from `t0 + T + 1` on (`Keydb.TtlWindow`, `Keydb.TtlSample`). test.ts:69-72 sleeps 500 ms after a `set` with time-to-live 500 and expects the key gone. That holds only if the clock has moved past `t0 + 500` by the time of the `get`.
- **An explicit time-to-live of `0` disables the default.** `ttl ?? this.ttl` keeps the `0`, and `_ttl && …` then stores expiry `0` (keydb.ts:83-86; `Keydb.ZeroTtlNeverExpires`).
- **A default time-to-live of `0` is no default.** See keydb.ts:56 and `Keydb.DefaultTtl`.
- **`delete` does not purge first.** It answers `true` for an expired key that is still stored (keydb.ts:102-105).
- **A stored `undefined` cannot be read back.** When `stringify` answers `undefined`, the adapter stores `undefined`. `JSON.parse(undefined)` then throws on every later `get` (`Keydb.UndefinedUnreadable`).
- **An expiry that lands on `0` means "never".** If `now + ttl` happens to be `0`, the stored expiry reads as "never expires".
- **Member names starting with `:` do not round-trip.** The façade's default serializer is `JSONB.stringify` as written (keydb.ts:28, keydb.ts:90). It escapes object member names, which the reviver never unescapes, so `{":a": 1}` is read back as `{"::a": 1}` (`Keydb.ColonNameReadBack`; see Findings). The model's façade uses that encoder, `Jsonb.StringifyAsWritten`. `Jsonb.Renamed` describes what it does to names.

## Model

| member | source | states |
|---|---|---|
| Base64.SextetValue | jsonb.ts:51 | A character has a 6-bit value exactly when it is in the base64 alphabet, and that value is below 64. |
| Base64.Encode | jsonb.ts:10 | The encoding of `n` bytes has `4 * ceil(n / 3)` characters, all from the alphabet or `=`. |
| Base64.Decode | jsonb.ts:51 | A decodable text has a length that is a multiple of four. `n` groups decode to between `3n - 2` and `3n` bytes, and the empty text to no bytes. Its partner is `DecodeEncode`. |
| Base64.DecodeEncode | jsonb.ts:10-11 | Decoding the encoding of any byte sequence gives the same bytes back. |
| Json.ParseCharsPrint | jsonb.ts:41 | Reading the escaped text of any string up to its closing quote gives the string back and leaves the rest of the text unread. |
| Json.ParseNumberPrint | jsonb.ts:44 | Reading the decimal text of any integer gives the integer back when a delimiter follows. |
| Json.ParsePrint | jsonb.ts:44 | `JSON.parse` reads back exactly the tree that `JSON.stringify` printed, for every tree. |
| Jsonb.Tag | jsonb.ts:6-45 | `stringify` answers `undefined` exactly for `undefined` and for a function. Every other value gets text. |
| Jsonb.TagItems | jsonb.ts:22-30 | An array encodes to at most as many elements as it has. It loses none when it holds no function, since `undefined` becomes `null`. |
| Jsonb.StringifyAsWritten | jsonb.ts:6-45 | The encoder as written answers text for every value except `undefined` and functions. |
| Jsonb.Stringify | jsonb.ts:6-45 | The corrected encoder answers text for the same values as the one as written. |
| Jsonb.EntriesOf | jsonb.ts:53 | `Object.entries` of an object gives its members. It throws exactly on `null`. |
| Jsonb.ReviveString | jsonb.ts:49-54 | `:base64:` is matched before `:map:`. A string with neither tag always revives to a string: one starting with `:` loses exactly that first `:`, any other comes back unchanged. A `:map:` string (and not `:base64:`) revives to a `Map` or fails. |
| Jsonb.TagFields | jsonb.ts:22-35 | Members holding `undefined` or a function are dropped, so some member is lost exactly when one is dropped. When none is, every member keeps its place and value, with its name passed through the `:` escape exactly when names are escaped. |
| Jsonb.Revive | jsonb.ts:48-57 | The reviver never produces `undefined` or a function. |
| Jsonb.ReviveMembers | jsonb.ts:48-57 | Reviving an object keeps its member count and every member name as it was. |
| Jsonb.ReviveEscaped | jsonb.ts:54 | Every string, including `":foo"` and `":base64:x"`, survives the escape of line 41 and the reviver unchanged. The reviver removes exactly the `:` the escape added. |
| Jsonb.ReviveBytes | jsonb.ts:50-51 | A byte buffer written as a `:base64:` string is revived as the same bytes. |
| Jsonb.ReviveMap | jsonb.ts:52-53 | A `Map` written as a `:map:` string is revived as a `Map` with the same entries. |
| Jsonb.RoundTrip | jsonb.ts:6-58 | For every value but a top-level `undefined` or function, parsing its encoding gives `Normalize(v)`. This is the value with array elements holding `undefined` turned to `null`, function elements dropped, and members holding `undefined` or functions dropped. |
| Jsonb.RoundTripComplete | jsonb.ts:6-58 | A value with no `undefined` and no function inside it comes back exactly. |
| Jsonb.RoundTripAsWritten | jsonb.ts:6-58 | The encoder as written round-trips the same way, but only for values where no member name starts with `:`. |
| Jsonb.StringEncoding | jsonb.ts:40-41 | A string starting with `:` is written with exactly one more `:` in front. Any other string is written as it is. Both read back as the original string. |
| Jsonb.Parse | jsonb.ts:47-58 | Text that is not JSON throws a syntax error. A successful parse never yields `undefined` or a function. |
| Jsonb.TagRenamed | jsonb.ts:32 | Writing member names through the escape is the same as escaping every member name first (`Renamed`) and writing names as they are. |
| Jsonb.RoundTripRenamed | jsonb.ts:6-58 | For every value but a top-level `undefined` or function, parsing the source encoder's text gives the value with every member name escaped, normalized as in `RoundTrip`. |
| Jsonb.RoundTripAsWrittenComplete | jsonb.ts:6-58 | A value with no `undefined` and no function inside comes back from the source's encoder with every member name escaped, and otherwise exactly. |
| Jsonb.RenamedPlain | jsonb.ts:32 | Escaping member names changes nothing when no member name starts with `:`. |
| Jsonb.AsWrittenEscapesNames | jsonb.ts:32 | The encoder as written turns `{":a": 1}` into text that parses back as `{"::a": 1}`, which is not the normalized original. |
| Adapters.GetAll | adapter.ts:38-40 | Before any registration the list is empty. Afterwards it is the cached list. |
| Adapters.Get | adapter.ts:42-46 | Finds nothing exactly when no registered protocol equals the given one ignoring case. Otherwise it finds a registered entry whose protocol does. |
| Adapters.Find | adapter.ts:42-46 | The lookup finds nothing exactly when no entry matches the protocol ignoring case. Otherwise it gives the first matching entry. |
| Adapters.Register | adapter.ts:48-60 | An invalid protocol is refused as invalid, and a protocol already present in any case as a duplicate; both leave the registry as it was. Registration succeeds exactly when neither applies, and then appends the entry. |
| Adapters.RegisterPreservesWf | adapter.ts:48-60 | Registration keeps every protocol valid and pairwise distinct ignoring case. |
| Adapters.GetIgnoresCase | adapter.ts:42-46 | Two protocols equal ignoring case find the same entry. |
| Adapters.GetUnique | adapter.ts:42-46 | In a well-formed registry, a lookup succeeds exactly when some entry matches. It then returns that entry, whichever one it is. |
| Adapters.RegisterThenGet | adapter.ts:42-60 | After a successful registration, the new entry is found under its protocol in any letter case. |
| Adapters.RegistryScenario | adapter.ts:48-60 | Registering `sqlite` into an empty registry succeeds. `my-sql` is then refused as invalid and `SQLite` as a duplicate, and `Sqlite` finds the `sqlite` entry. |
| Memory.CheckNamespace | memory.ts:9-12 | The namespace exists afterwards. A store that already had it is unchanged. No entry anywhere changes. |
| Memory.Ns | memory.ts:14-17 | Gives the namespace's entries, empty when it was absent, without changing any entry. |
| Memory.Set | memory.ts:20-24 | The key now holds the new value and expiry. Every other key of the namespace, and every other namespace, is unchanged. |
| Memory.Get | memory.ts:26-30 | Gives a record exactly when the key is stored, expired or not, carrying the key, the namespace, the value and the expiry. |
| Memory.Has | memory.ts:32-34 | True exactly when the key is stored, expired or not. |
| Memory.Delete | memory.ts:36-39 | Answers whether the key was stored. Removes it and nothing else. |
| Memory.Keys | memory.ts:41-43 | Lists exactly the namespace's keys, each once. The number of keys equals the size of the key set. |
| Memory.Clear | memory.ts:45-48 | The namespace is empty and every other namespace is unchanged. |
| Memory.DeleteExpired | memory.ts:50-57 | A key survives exactly when it was stored and has no expiry or an expiry not yet passed; survivors keep their entries. Other namespaces are unchanged. |
| Memory.DeleteExpiredLoop | memory.ts:50-57 | Walking the entries and deleting each expired one as it is met ends in the same store as `DeleteExpired`. |
| Memory.SetThenGet | memory.ts:20-30 | `get` after `set` gives the record just written. A second `set` of the key overwrites the first. |
| Memory.NamespaceIsolation | memory.ts:20-57 | `set`, `delete`, `clear` and `deleteExpired` on one namespace leave every other namespace as it was. |
| Memory.HasIgnoresExpiry | memory.ts:32-34 | An expired entry is still reported by `has` until `deleteExpired` runs, and not after. |
| Memory.DeleteExpiredIdempotent | memory.ts:50-57 | A second `deleteExpired` at the same time changes nothing. |
| Memory.DeleteExpiredNoOp | memory.ts:50-57 | `deleteExpired` leaves an existing namespace with nothing expired exactly as it was. |
| Keydb.New | keydb.ts:33-57 | The store starts empty and the namespace defaults to `""`. A default time-to-live is kept exactly when it is given and not `0`. |
| Keydb.Purge | keydb.ts:67 | Afterwards a key is present exactly when it was live, and live keys keep their entries. Other namespaces are unchanged. |
| Keydb.Set | keydb.ts:81-95 | The key holds the value encoded by `JSONB.stringify` as written. Its expiry is `now + ttl` for the argument, or else the default, when that is non-zero, and `0` otherwise. Other keys and namespaces are unchanged. |
| Keydb.Decode | keydb.ts:69-70 | A stored text is decoded by the codec. A stored `undefined` fails with a syntax error. |
| Keydb.Get | keydb.ts:65-72 | Answers `undefined` exactly when the key is not live. Otherwise it answers the decoded value, or the codec's error. Expired entries of the namespace are gone afterwards. |
| Keydb.Delete | keydb.ts:102-105 | Answers whether the key was stored, even if expired. Removes it and leaves every other key. |
| Keydb.Clear | keydb.ts:108-112 | No key is left in the namespace and other namespaces are unchanged. |
| Keydb.KeySet | keydb.ts:115-120 | A key is listed exactly when it is live. |
| Keydb.Keys | keydb.ts:115-120 | Purges, then lists exactly the live keys, each once. |
| Keydb.ProtocolName | keydb.ts:42 | The adapter name is the scheme without its final character, the `:`. |
| Keydb.Connect | keydb.ts:38-44 | A text that is not a URI is refused. Otherwise the answer is the registered entry whose protocol equals the scheme's name ignoring case, and the scheme is reported when there is none. |
| Keydb.SetThenGet | keydb.ts:65-95 | A value without `undefined` or functions is read back while its expiry is `0` or not yet passed, and reads as `undefined` after. It comes back with every member name escaped (`Jsonb.Renamed`) and is otherwise unchanged. |
| Keydb.SetThenGetPlain | keydb.ts:65-95 | A live value without `undefined` or functions, in which no member name starts with `:`, reads back exactly as it was set. |
| Keydb.ColonNameReadBack | keydb.ts:90 | Through the façade, `set` of `{":a": 1}` followed by `get` gives `{"::a": 1}`. |
| Keydb.TtlWindow | keydb.ts:83-86 | With time-to-live `T` set at `t0`, the key (with its member names escaped) is found at every time up to and including `t0 + T`, and at no later time, because the adapter's expiry test is strict (memory.ts:53). |
| Keydb.ZeroTtlNeverExpires | keydb.ts:83-86 | `set(key, value, 0)` never expires, whatever the default: every later `get` finds the value, with its member names escaped. |
| Keydb.DefaultTtl | keydb.ts:56 | Without an argument, `set` uses the constructor's default time-to-live. A default of `0` means no expiry. |
| Keydb.UndefinedUnreadable | keydb.ts:69-70 | After `set(key, undefined)`, every `get` of the key throws while it lives. |
| Keydb.DeleteThenGet | keydb.ts:102-105 | After `delete`, `get` answers `undefined`. |
| Keydb.ClearThenKeys | keydb.ts:108-120 | After `clear`, `keys` is empty, and other namespaces are untouched. |
| Keydb.NamespacesIsolated | keydb.ts:53 | A write through a façade on one namespace changes nothing that a façade on another namespace of the same store reads. |
| Keydb.SetOtherKey | keydb.ts:65-95 | `set` of one key leaves what `get` answers for every other key. |
| Keydb.SetKeys | keydb.ts:115-120 | After `set`, `keys` holds the key while it lives and otherwise the keys listed before. |
| Keydb.DeleteKeys | keydb.ts:102-105 | After `delete`, `keys` is what it was without the key. |
| Keydb.ConnectAfterRegister | keydb.ts:38-44 | After a successful registration, any scheme whose name equals the new protocol ignoring case connects to the new entry. |
| Keydb.ConnectSqlite | keydb.ts:38-44 | `sqlite://memory`, whose parsed scheme is the lower-case `sqlite:`, finds the adapter whether it was registered as `sqlite` or as `SQLite`. |
| Keydb.ConnectRefuses | keydb.ts:38-44 | A scheme with no adapter, and a text that is not a URI, are refused with their own errors. |
| Keydb.SampleSession | test.ts:16-64 | The sample session: `clear` leaves no keys. Four `set`s of a string, a number, an object and a `Map` give four keys, and each value reads back as written. `delete("test_number")` finds the key, which then reads as `undefined`, and three keys remain. |
| Keydb.TtlSample | test.ts:66-74 | A key set with time-to-live 500 is found at once and 500 ms later, and is gone 501 ms later. |

## Left out

- **Storage drivers and readiness.** The SQLite, Postgres and Redis drivers are not modelled, nor the promise returned by an adapter factory (`awaitReady`). The façade runs over the in-memory adapter.
- **URL parsing.** It is a parameter: `Keydb.Connect` takes the parsed URI's `protocol`, or `None` when `new URL` throws.
- Keydb.Connect: answers the registered factory rather than calling it, because the factory is foreign code (`adp.init(proto)`).
- **An adapter passed as an object.** The façade is fixed to the in-memory adapter. The `this.adapter?.` paths with no adapter at all are not modelled. `new Keydb(null)` reaches them, and they give `undefined`, `false` and `[]`.
- **Custom `serialize` and `deserialize` options.** The façade always uses the default JSONB codec, with the encoder as written (`Jsonb.StringifyAsWritten`). The corrected `Jsonb.Stringify` is proved on its own and not used by the façade.
- **The clock.** `Date.now()` is the parameter `now`.
- **The module cache behind the registry.** It is modelled as one `Option` of a list; there is no cross-module sharing.
- Jsonb.Stringify: numbers are unbounded integers. JavaScript numbers are doubles, so the model agrees with the source only on safe integers, `|n| <= 2^53 - 1`.
  - Beyond that, `JSON.stringify` writes the nearest double: `2^60` is written `1152921504606847000`, where the model writes `1152921504606846976`. Integers such as `2^60 + 1` are not JavaScript values at all.
  - From `1e21` on, `JSON.stringify` writes exponent form, which `Json.ParseNumber` refuses.
  - Fractions, `NaN`, `Infinity` and `-0` are left out, as are `toJSON` hooks (jsonb.ts:14) and objects other than arrays, plain objects, `Map`s and buffers.
- Jsonb.Normalize: sparse arrays are not modelled. A real hole (`[1, , 3]`) is not an own property, so `for (var k in o)` (jsonb.ts:22) skips it and the array is written `[1,3]`. Only an element that holds `undefined` becomes `null` (jsonb.ts:29).
- Jsonb.Stringify: a `Map`'s keys are strings and its values plain JSON. A `Map` holding a buffer, a nested `Map` or `undefined` is not modelled.
- Jsonb.Stringify: object members keep the order given. JavaScript's integer-key-first enumeration order and duplicate keys are not modelled.
- Jsonb.EntriesOf: a string is split into Unicode scalar values, where `Object.entries` (jsonb.ts:53) splits it into UTF-16 code units; `":map:\"😀\""` gives the source `Map {"0" => "\uD83D", "1" => "\uDE00"}` but the model the one entry `"0" => "😀"`.
- Jsonb.ReviveMap: `Map` entries keep the order given. They pass through `Object.fromEntries` (jsonb.ts:12) and `Object.entries` (jsonb.ts:53), which move integer-like keys first, so `new Map([["b", 1], ["1", 2]])` comes back ordered `1, b`.
- Json.Parse: a `\u` escape of a surrogate is refused, where `JSON.parse` would combine a pair into one character. Characters here are Unicode scalar values, so lone surrogates cannot occur.
- Json.ParseNumber: fractions and exponents are refused, as numbers are integers.
- Base64.Decode: it is strict (RFC 4648 section 4), refusing missing padding and characters outside the alphabet; a malformed payload is the error `BadBase64`. How the `Buffer` library imported at jsonb.ts:1 treats malformed payloads is not part of this model.
- Adapters.Lower: only ASCII letters are lowered. `toLowerCase` also maps a few non-ASCII letters, such as KELVIN SIGN, to ASCII ones. A URI scheme is ASCII anyway.
- Memory.Keys: the order is not stated. A JavaScript `Map` lists keys in insertion order, and the model only proves each key is listed exactly once.
- Keydb.Keys: the order is not stated, as for `Memory.Keys`.
- Memory.Has: the façade never calls it; it is modelled for the adapter alone.

## Findings

| source | as written | input that shows it | evidently intended | confidence | as-written member | corrected member |
|---|---|---|---|---|---|---|
| jsonb.ts:32 | Object member names go through `stringify`, so a name starting with `:` gets an extra `:`. The reviver (jsonb.ts:48-57) only sees values, so the extra `:` is never removed. | `{":a": 1}` is written as `{"::a":1}` and parsed back as `{"::a": 1}` | member names written as they are (`JSON.stringify(k)`), so that every plain object round-trips | not executed | Jsonb.StringifyAsWritten, Jsonb.AsWrittenEscapesNames | Jsonb.Stringify, Jsonb.RoundTrip, Jsonb.RoundTripComplete |
