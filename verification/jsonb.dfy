/** The JSONB codec: `JSON.stringify` with two string tags, `:base64:` for
    byte buffers and `:map:` for `Map`s, and an escape that doubles a leading
    `:` of an ordinary string; `JSON.parse` with a reviver that undoes both.

    Encoding is split into `Tag`, which turns a JavaScript value into the
    JSON tree the source writes out, and `Json.Print`; decoding into
    `Json.Parse` and `Revive`, the reviver applied to every value of the
    parsed tree. */
module Jsonb {
  import opened Wrappers
  import Base64
  import Json

  /** The JavaScript values the codec meets. `Undefined` and `Func` are the
      two that `JSON.stringify` cannot write; `MapOf` is a `Map` whose keys
      are strings and whose values are plain JSON. */
  datatype Value =
    | Undefined
    | Null
    | Bool(b: bool)
    | Num(n: int)
    | Str(s: string)
    | Arr(items: seq<Value>)
    | Obj(fields: seq<Field>)
    | Bytes(data: seq<Base64.byte>)
    | MapOf(entries: seq<Json.Member>)
    | Func

  /** An own enumerable property of a plain object, in enumeration order. */
  datatype Field = Field(name: string, value: Value)

  /** Why `parse` throws: malformed JSON, a `:base64:` payload that is not
      base64, or `Object.entries` applied to `null`. */
  datatype DecodeError = SyntaxError | BadBase64 | NotAnObject

  const Base64Tag: string := ":base64:"
  const MapTag: string := ":map:"

  predicate HasPrefix(s: string, p: string) {
    |p| <= |s| && s[..|p|] == p
  }

  predicate StartsWithColon(s: string) {
    |s| > 0 && s[0] == ':'
  }

  // ---------------------------------------------------------------- encoding

  /** The escape of an ordinary string: one more `:` in front when it
      already starts with `:`. */
  function EscapeString(s: string): string {
    if StartsWithColon(s) then ":" + s else s
  }

  /** The JSON tree `stringify` writes for `v`; `None` when it returns
      `undefined` instead of text. `escapeNames` selects whether object member
      names go through `EscapeString` as well (the source does so). */
  function Tag(v: Value, escapeNames: bool): (r: Option<Json.Json>)
    ensures r.None? <==> v.Undefined? || v.Func?
    decreases v, 1
  {
    match v
    case Undefined => None
    case Func => None
    case Null => Some(Json.Null)
    case Bool(b) => Some(Json.Bool(b))
    case Num(n) => Some(Json.Num(n))
    case Str(s) => Some(Json.Str(EscapeString(s)))
    case Bytes(data) => Some(Json.Str(Base64Tag + Base64.Encode(data)))
    case MapOf(entries) => Some(Json.Str(MapTag + Json.Print(Json.Obj(entries))))
    case Arr(items) => Some(Json.Arr(TagItems(items, escapeNames)))
    case Obj(fields) => Some(Json.Obj(TagFields(fields, escapeNames)))
  }

  /** Array elements: functions are skipped, `undefined` is written as
      `null`, so no other element is lost. */
  function TagItems(items: seq<Value>, escapeNames: bool): (r: seq<Json.Json>)
    ensures |r| <= |items|
    ensures (forall i :: 0 <= i < |items| ==> !items[i].Func?) ==> |r| == |items|
    decreases items, 0
  {
    if |items| == 0 then []
    else
      var x := items[0];
      var rest := TagItems(items[1..], escapeNames);
      if x.Func? then rest
      else if x.Undefined? then [Json.Null] + rest
      else [Tag(x, escapeNames).value] + rest
  }

  /** A member `stringify` leaves out of an object: its value is
      `undefined` or a function. */
  predicate Dropped(f: Field) {
    f.value.Undefined? || f.value.Func?
  }

  /** Object members: the dropped ones are left out, the others keep their
      order, with names escaped exactly when `escapeNames` is set. */
  function TagFields(fields: seq<Field>, escapeNames: bool): (r: seq<Json.Member>)
    ensures |r| <= |fields|
    ensures (exists i :: 0 <= i < |fields| && Dropped(fields[i])) ==> |r| < |fields|
    ensures (forall i :: 0 <= i < |fields| ==> !Dropped(fields[i])) ==>
              |r| == |fields|
              && forall i :: 0 <= i < |r| ==>
                   r[i] == Json.Member(if escapeNames then EscapeString(fields[i].name) else fields[i].name,
                                       Tag(fields[i].value, escapeNames).value)
    decreases fields, 0
  {
    if |fields| == 0 then []
    else
      var f := fields[0];
      var rest := TagFields(fields[1..], escapeNames);
      if f.value.Undefined? || f.value.Func? then rest
      else
        var name := if escapeNames then EscapeString(f.name) else f.name;
        [Json.Member(name, Tag(f.value, escapeNames).value)] + rest
  }

  /** `JSONB.stringify` as written: member names are escaped too. */
  function StringifyAsWritten(v: Value): (r: Option<string>)
    ensures r.None? <==> v.Undefined? || v.Func?
  {
    match Tag(v, true)
    case Some(j) => Some(Json.Print(j))
    case None => None
  }

  /** `JSONB.stringify` with member names written as they are, which is what
      the reviver expects, so that every value round-trips (`RoundTrip`).
      The façade keeps the source's encoder, `StringifyAsWritten`. */
  function Stringify(v: Value): (r: Option<string>)
    ensures r.None? <==> v.Undefined? || v.Func?
  {
    match Tag(v, false)
    case Some(j) => Some(Json.Print(j))
    case None => None
  }

  // ---------------------------------------------------------------- decoding

  function Index(i: nat): string {
    Json.NatText(i)
  }

  /** `new Map(Object.entries(x))` for a value `x` that `JSON.parse` returned:
      an object gives its members, an array its elements and a string its
      characters under their decimal indices, a number or boolean nothing,
      and `null` makes `Object.entries` throw. */
  function EntriesOf(j: Json.Json): (r: Result<seq<Json.Member>, DecodeError>)
    ensures j.Obj? ==> r == Ok(j.members)
    ensures r.Err? <==> j.Null?
  {
    match j
    case Obj(members) => Ok(members)
    case Arr(items) => Ok(seq(|items|, i requires 0 <= i < |items| => Json.Member(Index(i), items[i])))
    case Str(s) => Ok(seq(|s|, i requires 0 <= i < |s| => Json.Member(Index(i), Json.Str([s[i]]))))
    case Null => Err(NotAnObject)
    case _ => Ok([])
  }

  /** The reviver on a string: `:base64:` is matched first, then `:map:`, and
      only then is one leading `:` removed. */
  function ReviveString(s: string): (r: Result<Value, DecodeError>)
    ensures HasPrefix(s, Base64Tag) ==> r.Err? || r.value.Bytes?
    ensures r.Ok? && r.value.Bytes? ==> HasPrefix(s, Base64Tag)
    ensures r.Ok? && r.value.MapOf? ==> HasPrefix(s, MapTag) && !HasPrefix(s, Base64Tag)
    ensures r.Ok? && r.value.Str? ==> !HasPrefix(s, Base64Tag) && !HasPrefix(s, MapTag)
    ensures r.Ok? && r.value.Str? ==> |s| - 1 <= |r.value.s| <= |s|
    ensures !HasPrefix(s, Base64Tag) && !HasPrefix(s, MapTag) ==>
              r.Ok? && r.value.Str? && (if StartsWithColon(s) then s == ":" + r.value.s else r.value.s == s)
    ensures HasPrefix(s, MapTag) && !HasPrefix(s, Base64Tag) ==> r.Err? || r.value.MapOf?
  {
    if HasPrefix(s, Base64Tag) then
      match Base64.Decode(s[|Base64Tag|..])
      case Some(data) => Ok(Bytes(data))
      case None => Err(BadBase64)
    else if HasPrefix(s, MapTag) then
      match Json.Parse(s[|MapTag|..])
      case Ok(j) =>
        var entries :- EntriesOf(j);
        Ok(MapOf(entries))
      case Err(_) => Err(SyntaxError)
    else if StartsWithColon(s) then Ok(Str(s[1..]))
    else Ok(Str(s))
  }

  /** The reviver applied bottom-up to every value of a parsed tree. Member
      names are never passed through it. */
  function Revive(j: Json.Json): (r: Result<Value, DecodeError>)
    ensures r.Ok? ==> !r.value.Undefined? && !r.value.Func?
    decreases j, 1
  {
    match j
    case Null => Ok(Null)
    case Bool(b) => Ok(Bool(b))
    case Num(n) => Ok(Num(n))
    case Str(s) => ReviveString(s)
    case Arr(items) =>
      var vs :- ReviveItems(items);
      Ok(Arr(vs))
    case Obj(members) =>
      var fs :- ReviveMembers(members);
      Ok(Obj(fs))
  }

  function ReviveItems(items: seq<Json.Json>): (r: Result<seq<Value>, DecodeError>)
    ensures r.Ok? ==> |r.value| == |items|
    decreases items, 0
  {
    if |items| == 0 then Ok([])
    else
      var x :- Revive(items[0]);
      var rest :- ReviveItems(items[1..]);
      Ok([x] + rest)
  }

  function ReviveMembers(members: seq<Json.Member>): (r: Result<seq<Field>, DecodeError>)
    ensures r.Ok? ==> |r.value| == |members|
    ensures r.Ok? ==> forall i :: 0 <= i < |members| ==> r.value[i].name == members[i].name
    decreases members, 0
  {
    if |members| == 0 then Ok([])
    else
      var m := members[0];
      var x :- Revive(m.value);
      var rest :- ReviveMembers(members[1..]);
      Ok([Field(m.name, x)] + rest)
  }

  /** `JSONB.parse`: `JSON.parse` with the reviver. Text that is not JSON
      throws a syntax error; what comes back is never `undefined` or a
      function. */
  function Parse(text: string): (r: Result<Value, DecodeError>)
    ensures Json.Parse(text).Err? ==> r == Err(SyntaxError)
    ensures r.Ok? ==> !r.value.Undefined? && !r.value.Func?
  {
    match Json.Parse(text)
    case Ok(j) => Revive(j)
    case Err(_) => Err(SyntaxError)
  }

  // --------------------------------------------------------- what survives

  /** The value a round trip gives back, defined without reference to the
      text: array elements holding `undefined` become `null`, function
      elements disappear, and object members holding `undefined` or a
      function disappear. */
  function Normalize(v: Value): Value
    decreases v, 1
  {
    match v
    case Arr(items) => Arr(NormalizeItems(items))
    case Obj(fields) => Obj(NormalizeFields(fields))
    case _ => v
  }

  function NormalizeItems(items: seq<Value>): seq<Value>
    decreases items, 0
  {
    if |items| == 0 then []
    else if items[0].Func? then NormalizeItems(items[1..])
    else if items[0].Undefined? then [Null] + NormalizeItems(items[1..])
    else [Normalize(items[0])] + NormalizeItems(items[1..])
  }

  function NormalizeFields(fields: seq<Field>): seq<Field>
    decreases fields, 0
  {
    if |fields| == 0 then []
    else if fields[0].value.Undefined? || fields[0].value.Func? then NormalizeFields(fields[1..])
    else [Field(fields[0].name, Normalize(fields[0].value))] + NormalizeFields(fields[1..])
  }

  /** No object member name anywhere inside `v` starts with `:`. */
  predicate PlainNames(v: Value)
    decreases v, 1
  {
    match v
    case Arr(items) => PlainItemNames(items)
    case Obj(fields) => PlainFieldNames(fields)
    case _ => true
  }

  predicate PlainItemNames(items: seq<Value>)
    decreases items, 0
  {
    |items| == 0 || (PlainNames(items[0]) && PlainItemNames(items[1..]))
  }

  predicate PlainFieldNames(fields: seq<Field>)
    decreases fields, 0
  {
    |fields| == 0
    || (!StartsWithColon(fields[0].name) && PlainNames(fields[0].value) && PlainFieldNames(fields[1..]))
  }

  /** What the source's encoder does to member names: `v` with the name of
      every object member, at any depth, escaped like an ordinary string.
      `Map` keys are left alone, as they reach `JSON.stringify` through
      `Object.fromEntries` and never pass through the escape. */
  function Renamed(v: Value): (r: Value)
    ensures r.Undefined? == v.Undefined? && r.Func? == v.Func?
    decreases v, 1
  {
    match v
    case Arr(items) => Arr(RenamedItems(items))
    case Obj(fields) => Obj(RenamedFields(fields))
    case _ => v
  }

  function RenamedItems(items: seq<Value>): (r: seq<Value>)
    ensures |r| == |items|
    decreases items, 0
  {
    if |items| == 0 then [] else [Renamed(items[0])] + RenamedItems(items[1..])
  }

  function RenamedFields(fields: seq<Field>): (r: seq<Field>)
    ensures |r| == |fields|
    decreases fields, 0
  {
    if |fields| == 0 then []
    else [Field(EscapeString(fields[0].name), Renamed(fields[0].value))] + RenamedFields(fields[1..])
  }

  // -------------------------------------------------------------- round trip

  /** A string after escaping never carries a tag: if it starts with `:` at
      all, it starts with `::`. */
  lemma {:induction false} EscapedNeverTagged(s: string)
    ensures !HasPrefix(EscapeString(s), Base64Tag)
    ensures !HasPrefix(EscapeString(s), MapTag)
  {
    var e := EscapeString(s);
    if StartsWithColon(s) {
      assert e[1] == ':';
      assert |Base64Tag| <= |e| ==> e[..|Base64Tag|][1] != Base64Tag[1];
      assert |MapTag| <= |e| ==> e[..|MapTag|][1] != MapTag[1];
    } else if |e| > 0 {
      assert e[0] != ':';
      assert |Base64Tag| <= |e| ==> e[..|Base64Tag|][0] != Base64Tag[0];
      assert |MapTag| <= |e| ==> e[..|MapTag|][0] != MapTag[0];
    }
  }

  /** Every string comes back unchanged, `":foo"` and `":base64:x"` included:
      exactly one `:` is taken off, and only from strings that got one. */
  lemma {:induction false} ReviveEscaped(s: string)
    ensures ReviveString(EscapeString(s)) == Ok(Str(s))
  {
    EscapedNeverTagged(s);
    if StartsWithColon(s) {
      assert (":" + s)[1..] == s;
    }
  }

  lemma {:induction false} ReviveBytes(data: seq<Base64.byte>)
    ensures ReviveString(Base64Tag + Base64.Encode(data)) == Ok(Bytes(data))
  {
    var s := Base64Tag + Base64.Encode(data);
    assert s[..|Base64Tag|] == Base64Tag;
    assert s[|Base64Tag|..] == Base64.Encode(data);
    Base64.DecodeEncode(data);
  }

  lemma {:induction false} ReviveMap(entries: seq<Json.Member>)
    ensures ReviveString(MapTag + Json.Print(Json.Obj(entries))) == Ok(MapOf(entries))
  {
    var s := MapTag + Json.Print(Json.Obj(entries));
    assert s[1] == 'm';
    assert |Base64Tag| <= |s| ==> s[..|Base64Tag|][1] != Base64Tag[1];
    assert s[..|MapTag|] == MapTag;
    assert s[|MapTag|..] == Json.Print(Json.Obj(entries));
    Json.ParsePrint(Json.Obj(entries));
  }

  lemma {:induction false} ReviveTag(v: Value, escapeNames: bool)
    requires !v.Undefined? && !v.Func?
    requires escapeNames ==> PlainNames(v)
    ensures Revive(Tag(v, escapeNames).value) == Ok(Normalize(v))
    decreases v, 1
  {
    match v
    case Null =>
    case Bool(_) =>
    case Num(_) =>
    case Str(s) => ReviveEscaped(s);
    case Bytes(data) => ReviveBytes(data);
    case MapOf(entries) => ReviveMap(entries);
    case Arr(items) => ReviveTagItems(items, escapeNames);
    case Obj(fields) => ReviveTagFields(fields, escapeNames);
  }

  lemma {:induction false} ReviveTagItems(items: seq<Value>, escapeNames: bool)
    requires escapeNames ==> PlainItemNames(items)
    ensures ReviveItems(TagItems(items, escapeNames)) == Ok(NormalizeItems(items))
    decreases items, 0
  {
    if |items| > 0 {
      var x := items[0];
      ReviveTagItems(items[1..], escapeNames);
      if !x.Func? && !x.Undefined? {
        ReviveTag(x, escapeNames);
      }
    }
  }

  lemma {:induction false} ReviveTagFields(fields: seq<Field>, escapeNames: bool)
    requires escapeNames ==> PlainFieldNames(fields)
    ensures ReviveMembers(TagFields(fields, escapeNames)) == Ok(NormalizeFields(fields))
    decreases fields, 0
  {
    if |fields| > 0 {
      var f := fields[0];
      ReviveTagFields(fields[1..], escapeNames);
      if !f.value.Undefined? && !f.value.Func? {
        ReviveTag(f.value, escapeNames);
      }
    }
  }

  /** Decoding what was encoded gives the value back, up to the holes that
      `Normalize` describes; only a top-level `undefined` or function has
      no text at all. */
  lemma {:induction false} RoundTrip(v: Value)
    requires !v.Undefined? && !v.Func?
    ensures Stringify(v).Some?
    ensures Parse(Stringify(v).value) == Ok(Normalize(v))
  {
    Json.ParsePrint(Tag(v, false).value);
    ReviveTag(v, false);
  }

  /** The source's own encoder round-trips the same way, but only for
      values in which no member name starts with `:`. */
  lemma {:induction false} RoundTripAsWritten(v: Value)
    requires !v.Undefined? && !v.Func?
    requires PlainNames(v)
    ensures StringifyAsWritten(v).Some?
    ensures Parse(StringifyAsWritten(v).value) == Ok(Normalize(v))
  {
    Json.ParsePrint(Tag(v, true).value);
    ReviveTag(v, true);
  }

  /** No `undefined` and no function anywhere inside `v`. */
  predicate Complete(v: Value)
    decreases v, 1
  {
    match v
    case Undefined => false
    case Func => false
    case Arr(items) => CompleteItems(items)
    case Obj(fields) => CompleteFields(fields)
    case _ => true
  }

  predicate CompleteItems(items: seq<Value>)
    decreases items, 0
  {
    |items| == 0 || (Complete(items[0]) && CompleteItems(items[1..]))
  }

  predicate CompleteFields(fields: seq<Field>)
    decreases fields, 0
  {
    |fields| == 0 || (Complete(fields[0].value) && CompleteFields(fields[1..]))
  }

  lemma {:induction false} NormalizeComplete(v: Value)
    requires Complete(v)
    ensures Normalize(v) == v
    decreases v, 1
  {
    match v
    case Arr(items) => NormalizeCompleteItems(items);
    case Obj(fields) => NormalizeCompleteFields(fields);
    case _ =>
  }

  lemma {:induction false} NormalizeCompleteItems(items: seq<Value>)
    requires CompleteItems(items)
    ensures NormalizeItems(items) == items
    decreases items, 0
  {
    if |items| > 0 {
      NormalizeComplete(items[0]);
      NormalizeCompleteItems(items[1..]);
      assert [items[0]] + items[1..] == items;
    }
  }

  lemma {:induction false} NormalizeCompleteFields(fields: seq<Field>)
    requires CompleteFields(fields)
    ensures NormalizeFields(fields) == fields
    decreases fields, 0
  {
    if |fields| > 0 {
      NormalizeComplete(fields[0].value);
      NormalizeCompleteFields(fields[1..]);
      assert [Field(fields[0].name, fields[0].value)] + fields[1..] == fields;
    }
  }

  /** A value without holes comes back exactly: `parse(stringify(v)) == v`. */
  lemma {:induction false} RoundTripComplete(v: Value)
    requires Complete(v)
    ensures Stringify(v).Some?
    ensures Parse(Stringify(v).value) == Ok(v)
  {
    RoundTrip(v);
    NormalizeComplete(v);
  }

  /** Encoding with escaped names is encoding the renamed value with names
      written as they are. */
  lemma {:induction false} TagRenamed(v: Value)
    ensures Tag(v, true) == Tag(Renamed(v), false)
    decreases v, 1
  {
    match v
    case Arr(items) => TagRenamedItems(items);
    case Obj(fields) => TagRenamedFields(fields);
    case _ =>
  }

  lemma {:induction false} TagRenamedItems(items: seq<Value>)
    ensures TagItems(items, true) == TagItems(RenamedItems(items), false)
    decreases items, 0
  {
    if |items| > 0 {
      var r := RenamedItems(items);
      assert r[0] == Renamed(items[0]) && r[1..] == RenamedItems(items[1..]);
      TagRenamedItems(items[1..]);
      if !items[0].Func? && !items[0].Undefined? {
        TagRenamed(items[0]);
      }
    }
  }

  lemma {:induction false} TagRenamedFields(fields: seq<Field>)
    ensures TagFields(fields, true) == TagFields(RenamedFields(fields), false)
    decreases fields, 0
  {
    if |fields| > 0 {
      var r := RenamedFields(fields);
      assert r[0] == Field(EscapeString(fields[0].name), Renamed(fields[0].value));
      assert r[1..] == RenamedFields(fields[1..]);
      TagRenamedFields(fields[1..]);
      if !fields[0].value.Undefined? && !fields[0].value.Func? {
        TagRenamed(fields[0].value);
      }
    }
  }

  /** Renaming brings in no `undefined` and no function. */
  lemma {:induction false} RenamedComplete(v: Value)
    requires Complete(v)
    ensures Complete(Renamed(v))
    decreases v, 1
  {
    match v
    case Arr(items) => RenamedCompleteItems(items);
    case Obj(fields) => RenamedCompleteFields(fields);
    case _ =>
  }

  lemma {:induction false} RenamedCompleteItems(items: seq<Value>)
    requires CompleteItems(items)
    ensures CompleteItems(RenamedItems(items))
    decreases items, 0
  {
    if |items| > 0 {
      var r := RenamedItems(items);
      assert r[0] == Renamed(items[0]) && r[1..] == RenamedItems(items[1..]);
      RenamedComplete(items[0]);
      RenamedCompleteItems(items[1..]);
    }
  }

  lemma {:induction false} RenamedCompleteFields(fields: seq<Field>)
    requires CompleteFields(fields)
    ensures CompleteFields(RenamedFields(fields))
    decreases fields, 0
  {
    if |fields| > 0 {
      var r := RenamedFields(fields);
      assert r[0].value == Renamed(fields[0].value) && r[1..] == RenamedFields(fields[1..]);
      RenamedComplete(fields[0].value);
      RenamedCompleteFields(fields[1..]);
    }
  }

  /** A value in which no member name starts with `:` is its own renaming. */
  lemma {:induction false} RenamedPlain(v: Value)
    requires PlainNames(v)
    ensures Renamed(v) == v
    decreases v, 1
  {
    match v
    case Arr(items) => RenamedPlainItems(items);
    case Obj(fields) => RenamedPlainFields(fields);
    case _ =>
  }

  lemma {:induction false} RenamedPlainItems(items: seq<Value>)
    requires PlainItemNames(items)
    ensures RenamedItems(items) == items
    decreases items, 0
  {
    if |items| > 0 {
      RenamedPlain(items[0]);
      RenamedPlainItems(items[1..]);
      assert [items[0]] + items[1..] == items;
    }
  }

  lemma {:induction false} RenamedPlainFields(fields: seq<Field>)
    requires PlainFieldNames(fields)
    ensures RenamedFields(fields) == fields
    decreases fields, 0
  {
    if |fields| > 0 {
      RenamedPlain(fields[0].value);
      RenamedPlainFields(fields[1..]);
      assert [Field(fields[0].name, fields[0].value)] + fields[1..] == fields;
    }
  }

  /** The source's encoder, for every value but a top-level `undefined` or
      function: parsing its text gives the value with every member name
      escaped, up to the holes `Normalize` describes. */
  lemma {:induction false} RoundTripRenamed(v: Value)
    requires !v.Undefined? && !v.Func?
    ensures StringifyAsWritten(v).Some?
    ensures Parse(StringifyAsWritten(v).value) == Ok(Normalize(Renamed(v)))
  {
    TagRenamed(v);
    RoundTrip(Renamed(v));
  }

  /** The source's encoder on a value without `undefined` or functions: it
      comes back with every member name escaped, and otherwise as it was. */
  lemma {:induction false} RoundTripAsWrittenComplete(v: Value)
    requires Complete(v)
    ensures StringifyAsWritten(v).Some?
    ensures Parse(StringifyAsWritten(v).value) == Ok(Renamed(v))
  {
    RoundTripRenamed(v);
    RenamedComplete(v);
    NormalizeComplete(Renamed(v));
  }

  /** A string that starts with `:` is written with exactly one more `:` in
      front; every other string is written as it is. */
  lemma {:induction false} StringEncoding(s: string)
    ensures StartsWithColon(s) ==> Stringify(Str(s)) == Some(Json.Quote(":" + s))
    ensures !StartsWithColon(s) ==> Stringify(Str(s)) == Some(Json.Quote(s))
    ensures Parse(Stringify(Str(s)).value) == Ok(Str(s))
  {
    RoundTrip(Str(s));
  }

  lemma {:induction false} TagColonName()
    ensures Tag(Obj([Field(":a", Num(1))]), true) == Some(Json.Obj([Json.Member("::a", Json.Num(1))]))
  {
    var fs := [Field(":a", Num(1))];
    assert fs[1..] == [];
    assert TagFields(fs[1..], true) == [];
    assert EscapeString(":a") == "::a";
    assert TagFields(fs, true) == [Json.Member("::a", Json.Num(1))] + [];
    assert [Json.Member("::a", Json.Num(1))] + [] == [Json.Member("::a", Json.Num(1))];
    assert Tag(Obj(fs), true) == Some(Json.Obj(TagFields(fs, true)));
  }

  lemma {:induction false} ReviveColonName()
    ensures Revive(Json.Obj([Json.Member("::a", Json.Num(1))])) == Ok(Obj([Field("::a", Num(1))]))
  {
    var ms := [Json.Member("::a", Json.Num(1))];
    assert ms[1..] == [];
    assert ReviveMembers(ms[1..]) == Ok([]);
    assert Revive(ms[0].value) == Ok(Num(1));
    assert ReviveMembers(ms) == Ok([Field("::a", Num(1))] + []);
    assert [Field("::a", Num(1))] + [] == [Field("::a", Num(1))];
  }

  /** The source's encoder turns the member name `":a"` into `"::a"`, and
      the reviver never sees member names, so `{":a": 1}` comes back as
      `{"::a": 1}`. */
  lemma {:induction false} AsWrittenEscapesNames()
    ensures Parse(StringifyAsWritten(Obj([Field(":a", Num(1))])).value) == Ok(Obj([Field("::a", Num(1))]))
    ensures Obj([Field("::a", Num(1))]) != Normalize(Obj([Field(":a", Num(1))]))
  {
    var j := Json.Obj([Json.Member("::a", Json.Num(1))]);
    TagColonName();
    Json.ParsePrint(j);
    ReviveColonName();
    assert NormalizeFields([Field(":a", Num(1))])[0].name == ":a";
  }
}
