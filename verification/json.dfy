/** JSON text as the codec uses it: a tree of JSON values, the compact text
    `JSON.stringify` prints for such a tree, and a parser for that text in the
    grammar of RFC 8259 (integers only; see the README). The parser is the
    partner of the printer: `ParsePrint` proves that every printed tree reads
    back as itself. */
module Json {
  import opened Wrappers

  datatype Json =
    | Null
    | Bool(b: bool)
    | Num(n: int)
    | Str(s: string)
    | Arr(items: seq<Json>)
    | Obj(members: seq<Member>)

  /** One `"name": value` pair of an object, in the order it is written. */
  datatype Member = Member(name: string, value: Json)

  datatype Error = SyntaxError

  // ---------------------------------------------------------------- printing

  predicate IsDigit(c: char) {
    '0' <= c <= '9'
  }

  function Digit(d: int): (c: char)
    requires 0 <= d < 10
    ensures IsDigit(c)
  {
    ('0' as int + d) as char
  }

  /** Decimal text of a natural number, without leading zeros. */
  function NatText(n: nat): (s: string)
    ensures |s| > 0
    ensures forall i :: 0 <= i < |s| ==> IsDigit(s[i])
    ensures s[0] == '0' ==> n == 0 && |s| == 1
    decreases n
  {
    if n < 10 then [Digit(n)] else NatText(n / 10) + [Digit(n % 10)]
  }

  function IntText(n: int): string {
    if n < 0 then "-" + NatText(-n) else NatText(n)
  }

  function HexDigit(d: int): char
    requires 0 <= d < 16
  {
    if d < 10 then Digit(d) else ('a' as int + (d - 10)) as char
  }

  const Backspace: char := 8 as char
  const FormFeed: char := 12 as char

  /** How `JSON.stringify` writes one character inside a string literal:
      quote and backslash are escaped, control characters get their short
      escape or a lower-case `\u00XX` escape, everything else stays as is. */
  function EscapeChar(c: char): string {
    if c == '"' then "\\\""
    else if c == '\\' then "\\\\"
    else if c == Backspace then "\\b"
    else if c == FormFeed then "\\f"
    else if c == '\n' then "\\n"
    else if c == '\r' then "\\r"
    else if c == '\t' then "\\t"
    else if c < ' ' then "\\u00" + [HexDigit(c as int / 16), HexDigit(c as int % 16)]
    else [c]
  }

  function EscapeText(s: string): string {
    if |s| == 0 then "" else EscapeChar(s[0]) + EscapeText(s[1..])
  }

  function Quote(s: string): string {
    "\"" + EscapeText(s) + "\""
  }

  /** The compact text `JSON.stringify` produces: no whitespace, members and
      elements separated by `,`. */
  function Print(j: Json): string
    decreases j, 1
  {
    match j
    case Null => "null"
    case Bool(b) => if b then "true" else "false"
    case Num(n) => IntText(n)
    case Str(s) => Quote(s)
    case Arr(items) => "[" + PrintItems(items) + "]"
    case Obj(members) => "{" + PrintMembers(members) + "}"
  }

  function PrintItems(items: seq<Json>): string
    decreases items, 0
  {
    if |items| == 0 then ""
    else if |items| == 1 then Print(items[0])
    else Print(items[0]) + "," + PrintItems(items[1..])
  }

  function PrintMembers(members: seq<Member>): string
    decreases members, 0
  {
    if |members| == 0 then ""
    else
      var m := members[0];
      var first := Quote(m.name) + ":" + Print(m.value);
      if |members| == 1 then first else first + "," + PrintMembers(members[1..])
  }

  // ----------------------------------------------------------------- parsing

  predicate IsWhitespace(c: char) {
    c == ' ' || c == '\t' || c == '\n' || c == '\r'
  }

  function SkipWhitespace(s: string): (r: string)
    ensures |r| <= |s|
    ensures |r| > 0 ==> !IsWhitespace(r[0])
  {
    if |s| > 0 && IsWhitespace(s[0]) then SkipWhitespace(s[1..]) else s
  }

  /** Reads the keyword `word` at the start of `s`. */
  function Keyword(s: string, word: string, v: Json): (r: Result<(Json, string), Error>)
    requires |word| > 0
    ensures r.Ok? ==> |r.value.1| < |s|
  {
    if |word| <= |s| && s[..|word|] == word then Ok((v, s[|word|..])) else Err(SyntaxError)
  }

  /** The number of decimal digits at the start of `s`. */
  function DigitRun(s: string): (k: nat)
    ensures k <= |s|
  {
    if |s| > 0 && IsDigit(s[0]) then 1 + DigitRun(s[1..]) else 0
  }

  /** The value of a run of decimal digits, most significant first. */
  function DigitsValue(ds: string): nat
    requires forall i :: 0 <= i < |ds| ==> IsDigit(ds[i])
  {
    if |ds| == 0 then 0
    else
      var last := ds[|ds| - 1];
      assert IsDigit(last);
      DigitsValue(ds[..|ds| - 1]) * 10 + (last as int - '0' as int)
  }

  lemma {:induction false} DigitRunDigits(s: string)
    ensures forall i :: 0 <= i < DigitRun(s) ==> IsDigit(s[i])
  {
    if |s| > 0 && IsDigit(s[0]) {
      DigitRunDigits(s[1..]);
    }
  }

  /** An integer: an optional minus sign and at least one digit, with no
      leading zero. */
  function ParseNumber(s: string): (r: Result<(Json, string), Error>)
    ensures r.Ok? ==> |r.value.1| < |s|
  {
    var neg := |s| > 0 && s[0] == '-';
    var t := if neg then s[1..] else s;
    var k := DigitRun(t);
    if k == 0 || (k > 1 && t[0] == '0') then Err(SyntaxError)
    else
      DigitRunDigits(t);
      var m: int := DigitsValue(t[..k]);
      Ok((Num(if neg then -m else m), t[k..]))
  }

  function HexValue(c: char): (r: Option<int>)
    ensures r.Some? ==> 0 <= r.value < 16
  {
    if '0' <= c <= '9' then Some(c as int - '0' as int)
    else if 'a' <= c <= 'f' then Some(c as int - 'a' as int + 10)
    else if 'A' <= c <= 'F' then Some(c as int - 'A' as int + 10)
    else None
  }

  /** Reads the escape sequence after a backslash. */
  function ParseEscape(s: string): (r: Result<(char, string), Error>)
    ensures r.Ok? ==> |r.value.1| < |s|
  {
    if |s| == 0 then Err(SyntaxError)
    else if s[0] == '"' || s[0] == '\\' || s[0] == '/' then Ok((s[0], s[1..]))
    else if s[0] == 'b' then Ok((Backspace, s[1..]))
    else if s[0] == 'f' then Ok((FormFeed, s[1..]))
    else if s[0] == 'n' then Ok(('\n', s[1..]))
    else if s[0] == 'r' then Ok(('\r', s[1..]))
    else if s[0] == 't' then Ok(('\t', s[1..]))
    else if s[0] == 'u' && |s| >= 5 then
      match (HexValue(s[1]), HexValue(s[2]), HexValue(s[3]), HexValue(s[4]))
      case (Some(a), Some(b), Some(c), Some(d)) =>
        var code := ((a * 16 + b) * 16 + c) * 16 + d;
        if 0xD800 <= code < 0xE000 then Err(SyntaxError) else Ok((code as char, s[5..]))
      case _ => Err(SyntaxError)
    else Err(SyntaxError)
  }

  /** Reads the characters of a string literal up to and including its
      closing quote. */
  function ParseChars(s: string): (r: Result<(string, string), Error>)
    ensures r.Ok? ==> |r.value.1| < |s|
    decreases |s|
  {
    if |s| == 0 then Err(SyntaxError)
    else if s[0] == '"' then Ok(([], s[1..]))
    else if s[0] == '\\' then
      var e :- ParseEscape(s[1..]);
      var tail :- ParseChars(e.1);
      Ok(([e.0] + tail.0, tail.1))
    else if s[0] < ' ' then Err(SyntaxError)
    else
      var tail :- ParseChars(s[1..]);
      Ok(([s[0]] + tail.0, tail.1))
  }

  /** Reads one value after optional whitespace; returns it with the
      unread rest of the text. */
  function ParseValue(s: string): (r: Result<(Json, string), Error>)
    ensures r.Ok? ==> |r.value.1| < |s|
    decreases |s|, 0
  {
    var t := SkipWhitespace(s);
    if |t| == 0 then Err(SyntaxError)
    else if t[0] == 'n' then Keyword(t, "null", Null)
    else if t[0] == 't' then Keyword(t, "true", Bool(true))
    else if t[0] == 'f' then Keyword(t, "false", Bool(false))
    else if t[0] == '"' then
      var p :- ParseChars(t[1..]);
      Ok((Str(p.0), p.1))
    else if t[0] == '[' then ParseArray(t[1..])
    else if t[0] == '{' then ParseObject(t[1..])
    else if t[0] == '-' || IsDigit(t[0]) then ParseNumber(t)
    else Err(SyntaxError)
  }

  /** Reads the rest of an array after its `[`. */
  function ParseArray(s: string): (r: Result<(Json, string), Error>)
    ensures r.Ok? ==> |r.value.1| < |s|
    decreases |s|, 2
  {
    var t := SkipWhitespace(s);
    if |t| > 0 && t[0] == ']' then Ok((Arr([]), t[1..]))
    else
      var p :- ParseItems(t);
      Ok((Arr(p.0), p.1))
  }

  /** Reads one or more comma-separated elements and the closing `]`. */
  function ParseItems(s: string): (r: Result<(seq<Json>, string), Error>)
    ensures r.Ok? ==> |r.value.1| < |s|
    decreases |s|, 1
  {
    var v :- ParseValue(s);
    var t := SkipWhitespace(v.1);
    if |t| == 0 then Err(SyntaxError)
    else if t[0] == ',' then
      var more :- ParseItems(t[1..]);
      Ok(([v.0] + more.0, more.1))
    else if t[0] == ']' then Ok(([v.0], t[1..]))
    else Err(SyntaxError)
  }

  /** Reads the rest of an object after its `{`. */
  function ParseObject(s: string): (r: Result<(Json, string), Error>)
    ensures r.Ok? ==> |r.value.1| < |s|
    decreases |s|, 2
  {
    var t := SkipWhitespace(s);
    if |t| > 0 && t[0] == '}' then Ok((Obj([]), t[1..]))
    else
      var p :- ParseMembers(t);
      Ok((Obj(p.0), p.1))
  }

  /** Reads one or more comma-separated members and the closing `}`. */
  function ParseMembers(s: string): (r: Result<(seq<Member>, string), Error>)
    ensures r.Ok? ==> |r.value.1| < |s|
    decreases |s|, 1
  {
    var t := SkipWhitespace(s);
    if |t| == 0 || t[0] != '"' then Err(SyntaxError)
    else
      var name :- ParseChars(t[1..]);
      var u := SkipWhitespace(name.1);
      if |u| == 0 || u[0] != ':' then Err(SyntaxError)
      else
        var v :- ParseValue(u[1..]);
        var w := SkipWhitespace(v.1);
        if |w| == 0 then Err(SyntaxError)
        else if w[0] == ',' then
          var more :- ParseMembers(w[1..]);
          Ok(([Member(name.0, v.0)] + more.0, more.1))
        else if w[0] == '}' then Ok(([Member(name.0, v.0)], w[1..]))
        else Err(SyntaxError)
  }

  /** `JSON.parse` without a reviver: one value, surrounded by optional
      whitespace and nothing else. */
  function Parse(s: string): Result<Json, Error> {
    var v :- ParseValue(s);
    if |SkipWhitespace(v.1)| == 0 then Ok(v.0) else Err(SyntaxError)
  }

  // ------------------------------------------------------------- round trip

  /** What may follow a printed value without changing how it is read: a
      number's digits must not run on into the text after it. */
  predicate Delimited(rest: string) {
    |rest| == 0 || !IsDigit(rest[0])
  }

  /** The first character of a value's text, by which the parser chooses
      how to read it. */
  predicate StartsValue(c: char) {
    c == 'n' || c == 't' || c == 'f' || c == '"' || c == '[' || c == '{' || c == '-' || IsDigit(c)
  }

  lemma {:induction false} PrintStart(j: Json)
    ensures |Print(j)| > 0 && StartsValue(Print(j)[0])
  {
  }

  lemma {:induction false} NatTextValue(n: nat)
    ensures DigitsValue(NatText(n)) == n
    decreases n
  {
    if n >= 10 {
      var a := NatText(n / 10);
      var s := a + [Digit(n % 10)];
      assert s[..|s| - 1] == a;
      NatTextValue(n / 10);
    }
  }

  lemma {:induction false} DigitRunOf(ds: string, rest: string)
    requires forall i :: 0 <= i < |ds| ==> IsDigit(ds[i])
    requires Delimited(rest)
    ensures DigitRun(ds + rest) == |ds|
    decreases |ds|
  {
    if |ds| == 0 {
      assert ds + rest == rest;
    } else {
      assert (ds + rest)[1..] == ds[1..] + rest;
      DigitRunOf(ds[1..], rest);
    }
  }

  /** The facts `ParseNumber` needs about the digits of `m` followed by
      `rest`. */
  lemma {:induction false} NatTextRun(m: nat, rest: string)
    requires Delimited(rest)
    ensures var ds := NatText(m);
            var t := ds + rest;
            && DigitRun(t) == |ds| > 0
            && !(|ds| > 1 && t[0] == '0')
            && t[..|ds|] == ds && t[|ds|..] == rest
            && DigitsValue(ds) == m
  {
    var ds := NatText(m);
    DigitRunOf(ds, rest);
    NatTextValue(m);
    assert (ds + rest)[..|ds|] == ds;
    assert (ds + rest)[|ds|..] == rest;
  }

  lemma {:induction false} ParseUnsigned(m: nat, rest: string)
    requires Delimited(rest)
    ensures ParseNumber(NatText(m) + rest) == Ok((Num(m), rest))
  {
    var t := NatText(m) + rest;
    NatTextRun(m, rest);
    assert t[0] != '-';
  }

  lemma {:induction false} ParseNegative(m: nat, rest: string)
    requires Delimited(rest)
    ensures ParseNumber("-" + NatText(m) + rest) == Ok((Num(-(m as int)), rest))
  {
    var t := NatText(m) + rest;
    NatTextRun(m, rest);
    assert "-" + NatText(m) + rest == "-" + t;
    assert ("-" + t)[1..] == t;
  }

  lemma {:induction false} ParseNumberPrint(n: int, rest: string)
    requires Delimited(rest)
    ensures ParseNumber(IntText(n) + rest) == Ok((Num(n), rest))
  {
    if n < 0 {
      ParseNegative(-n, rest);
    } else {
      ParseUnsigned(n, rest);
    }
  }

  lemma {:induction false} HexRoundTrip(d: int)
    requires 0 <= d < 16
    ensures HexValue(HexDigit(d)) == Some(d)
  {
  }

  /** Reading an escaped character, then whatever follows it. */
  lemma {:induction false} EscapedCharStep(c: char, tail: string, p: (string, string))
    requires ParseChars(tail) == Ok(p)
    ensures ParseChars(EscapeChar(c) + tail) == Ok(([c] + p.0, p.1))
  {
    var u := EscapeChar(c) + tail;
    if c == '"' || c == '\\' || c == Backspace || c == FormFeed || c == '\n' || c == '\r' || c == '\t' {
      assert u[0] == '\\';
      assert u[1..] == [EscapeChar(c)[1]] + tail;
      assert u[1..][1..] == tail;
    } else if c < ' ' {
      var hi, lo := c as int / 16, c as int % 16;
      HexRoundTrip(0);
      HexRoundTrip(hi);
      HexRoundTrip(lo);
      var e := u[1..];
      assert e == "u00" + [HexDigit(hi), HexDigit(lo)] + tail;
      assert e[0] == 'u' && e[1] == '0' && e[2] == '0' && e[3] == HexDigit(hi) && e[4] == HexDigit(lo);
      assert ((0 * 16 + 0) * 16 + hi) * 16 + lo == c as int;
      assert e[5..] == tail;
      assert ParseEscape(e) == Ok((c, tail));
    } else {
      assert u[0] == c;
      assert u[1..] == tail;
    }
  }

  lemma {:induction false} ParseCharsPrint(s: string, rest: string)
    ensures ParseChars(EscapeText(s) + "\"" + rest) == Ok((s, rest))
    decreases |s|
  {
    if |s| == 0 {
      assert EscapeText(s) + "\"" + rest == "\"" + rest;
      assert ("\"" + rest)[1..] == rest;
    } else {
      var tail := EscapeText(s[1..]) + "\"" + rest;
      ParseCharsPrint(s[1..], rest);
      EscapedCharStep(s[0], tail, (s[1..], rest));
      assert EscapeText(s) + "\"" + rest == EscapeChar(s[0]) + tail;
      assert [s[0]] + s[1..] == s;
    }
  }

  lemma {:induction false} ParseKeyword(word: string, v: Json, rest: string)
    requires |word| > 0 && !IsWhitespace(word[0])
    requires word == "null" || word == "true" || word == "false"
    requires v == (if word == "null" then Null else Bool(word == "true"))
    ensures ParseValue(word + rest) == Ok((v, rest))
  {
    var s := word + rest;
    assert s[0] == word[0];
    assert SkipWhitespace(s) == s;
    assert s[..|word|] == word && s[|word|..] == rest;
  }

  lemma {:induction false} ParseNumberValue(n: int, rest: string)
    requires Delimited(rest)
    ensures ParseValue(IntText(n) + rest) == Ok((Num(n), rest))
  {
    var s := IntText(n) + rest;
    assert s[0] == IntText(n)[0];
    assert SkipWhitespace(s) == s;
    ParseNumberPrint(n, rest);
  }

  lemma {:induction false} ParseStringValue(str: string, rest: string)
    ensures ParseValue(Quote(str) + rest) == Ok((Str(str), rest))
  {
    var s := Quote(str) + rest;
    assert s[0] == '"';
    assert SkipWhitespace(s) == s;
    ParseCharsPrint(str, rest);
    assert s[1..] == EscapeText(str) + "\"" + rest;
  }

  /** `ParseValue` hands text that opens with `[` to `ParseArray`. */
  lemma {:induction false} OpensArray(s: string)
    requires |s| > 0 && s[0] == '['
    ensures ParseValue(s) == ParseArray(s[1..])
  {
    assert SkipWhitespace(s) == s;
  }

  /** `ParseValue` hands text that opens with `{` to `ParseObject`. */
  lemma {:induction false} OpensObject(s: string)
    requires |s| > 0 && s[0] == '{'
    ensures ParseValue(s) == ParseObject(s[1..])
  {
    assert SkipWhitespace(s) == s;
  }

  lemma {:induction false} ArrayOfItems(t: string, items: seq<Json>, rest: string)
    requires |t| > 0 && StartsValue(t[0])
    requires ParseItems(t) == Ok((items, rest))
    ensures ParseArray(t) == Ok((Arr(items), rest))
  {
    assert SkipWhitespace(t) == t;
  }

  lemma {:induction false} ObjectOfMembers(t: string, members: seq<Member>, rest: string)
    requires |t| > 0 && t[0] == '"'
    requires ParseMembers(t) == Ok((members, rest))
    ensures ParseObject(t) == Ok((Obj(members), rest))
  {
    assert SkipWhitespace(t) == t;
  }

  lemma {:induction false} EmptyArray(rest: string)
    ensures ParseArray("]" + rest) == Ok((Arr([]), rest))
  {
    assert SkipWhitespace("]" + rest) == "]" + rest;
    assert ("]" + rest)[1..] == rest;
  }

  lemma {:induction false} EmptyObject(rest: string)
    ensures ParseObject("}" + rest) == Ok((Obj([]), rest))
  {
    assert SkipWhitespace("}" + rest) == "}" + rest;
    assert ("}" + rest)[1..] == rest;
  }

  lemma {:induction false} ItemsStart(items: seq<Json>, tail: string)
    requires |items| > 0
    ensures var t := PrintItems(items) + tail; |t| > 0 && StartsValue(t[0])
  {
    PrintStart(items[0]);
    assert (PrintItems(items) + tail)[0] == Print(items[0])[0];
  }

  lemma {:induction false} MembersStart(members: seq<Member>, tail: string)
    requires |members| > 0
    ensures var t := PrintMembers(members) + tail; |t| > 0 && t[0] == '"'
  {
    assert (PrintMembers(members) + tail)[0] == Quote(members[0].name)[0];
  }

  lemma {:induction false} ParseArrayValue(items: seq<Json>, rest: string)
    ensures ParseValue("[" + PrintItems(items) + "]" + rest) == Ok((Arr(items), rest))
    decreases items, 1
  {
    var s := "[" + PrintItems(items) + "]" + rest;
    var t := PrintItems(items) + "]" + rest;
    Assoc("[", PrintItems(items), "]");
    Assoc("[", PrintItems(items) + "]", rest);
    assert s[1..] == t;
    OpensArray(s);
    if |items| == 0 {
      assert t == "]" + rest;
      EmptyArray(rest);
    } else {
      ItemsStart(items, "]" + rest);
      Assoc(PrintItems(items), "]", rest);
      ParseItemsPrint(items, rest);
      ArrayOfItems(t, items, rest);
    }
  }

  lemma {:induction false} ParseObjectValue(members: seq<Member>, rest: string)
    ensures ParseValue("{" + PrintMembers(members) + "}" + rest) == Ok((Obj(members), rest))
    decreases members, 2
  {
    var s := "{" + PrintMembers(members) + "}" + rest;
    var t := PrintMembers(members) + "}" + rest;
    Assoc("{", PrintMembers(members), "}");
    Assoc("{", PrintMembers(members) + "}", rest);
    assert s[1..] == t;
    OpensObject(s);
    if |members| == 0 {
      assert t == "}" + rest;
      EmptyObject(rest);
    } else {
      MembersStart(members, "}" + rest);
      Assoc(PrintMembers(members), "}", rest);
      ParseMembersPrint(members, rest);
      ObjectOfMembers(t, members, rest);
    }
  }

  lemma {:induction false} ParseValuePrint(j: Json, rest: string)
    requires Delimited(rest)
    ensures ParseValue(Print(j) + rest) == Ok((j, rest))
    decreases j, 2
  {
    match j
    case Null => ParseKeyword("null", j, rest);
    case Bool(b) => ParseKeyword(if b then "true" else "false", j, rest);
    case Num(n) => ParseNumberValue(n, rest);
    case Str(str) => ParseStringValue(str, rest);
    case Arr(items) => ParseArrayValue(items, rest);
    case Obj(members) => ParseObjectValue(members, rest);
  }

  /** `ParseItems` after the last element. */
  lemma {:induction false} ParseItemsLast(s: string, x: Json, rest: string)
    requires ParseValue(s) == Ok((x, "]" + rest))
    ensures ParseItems(s) == Ok(([x], rest))
  {
    assert SkipWhitespace("]" + rest) == "]" + rest;
    assert ("]" + rest)[1..] == rest;
  }

  /** `ParseItems` after an element followed by a comma. */
  lemma {:induction false} ParseItemsNext(s: string, x: Json, more: string, xs: seq<Json>, rest: string)
    requires ParseValue(s) == Ok((x, "," + more))
    requires ParseItems(more) == Ok((xs, rest))
    ensures ParseItems(s) == Ok(([x] + xs, rest))
  {
    assert SkipWhitespace("," + more) == "," + more;
    assert ("," + more)[1..] == more;
  }

  lemma {:induction false} ParseItemsPrint(items: seq<Json>, rest: string)
    requires |items| > 0
    ensures ParseItems(PrintItems(items) + "]" + rest) == Ok((items, rest))
    decreases items, 0
  {
    var x := items[0];
    if |items| == 1 {
      ParseValuePrint(x, "]" + rest);
      assert PrintItems(items) + "]" + rest == Print(x) + ("]" + rest);
      ParseItemsLast(PrintItems(items) + "]" + rest, x, rest);
      assert [x] == items;
    } else {
      var more := PrintItems(items[1..]) + "]" + rest;
      ParseValuePrint(x, "," + more);
      assert PrintItems(items) + "]" + rest == Print(x) + ("," + more);
      ParseItemsPrint(items[1..], rest);
      ParseItemsNext(PrintItems(items) + "]" + rest, x, more, items[1..], rest);
      assert [x] + items[1..] == items;
    }
  }

  /** Reading a printed member name up to the text `after` it. */
  lemma {:induction false} ParseNameText(name: string, after: string)
    ensures var s := Quote(name) + after;
      && SkipWhitespace(s) == s && |s| > 0 && s[0] == '"'
      && ParseChars(s[1..]) == Ok((name, after))
  {
    var s := Quote(name) + after;
    assert s == "\"" + (EscapeText(name) + "\"" + after);
    assert s[1..] == EscapeText(name) + "\"" + after;
    ParseCharsPrint(name, after);
  }

  /** Reading one printed member: its name, then after the `:` its value
      up to the text `after` it. */
  lemma {:induction false} ParseMemberHead(m: Member, after: string)
    requires Delimited(after)
    ensures var s := Quote(m.name) + (":" + (Print(m.value) + after));
      && |s| > 0 && s[0] == '"'
      && ParseChars(s[1..]) == Ok((m.name, ":" + (Print(m.value) + after)))
      && ParseValue(Print(m.value) + after) == Ok((m.value, after))
    decreases m, 1
  {
    ParseNameText(m.name, ":" + (Print(m.value) + after));
    ParseValuePrint(m.value, after);
  }

  /** `ParseMembers` past a member's name and value. */
  lemma {:induction false} MemberStep(s: string, m: Member, vt: string, after: string)
    requires |s| > 0 && s[0] == '"'
    requires ParseChars(s[1..]) == Ok((m.name, ":" + vt))
    requires ParseValue(vt) == Ok((m.value, after))
    ensures ParseMembers(s) ==
      var w := SkipWhitespace(after);
      if |w| == 0 then Err(SyntaxError)
      else if w[0] == ',' then
        match ParseMembers(w[1..])
        case Ok(more) => Ok(([m] + more.0, more.1))
        case Err(e) => Err(e)
      else if w[0] == '}' then Ok(([m], w[1..]))
      else Err(SyntaxError)
  {
    assert SkipWhitespace(s) == s;
    assert SkipWhitespace(":" + vt) == ":" + vt;
    assert (":" + vt)[1..] == vt;
  }

  lemma {:induction false} MembersLast(s: string, m: Member, vt: string, rest: string)
    requires |s| > 0 && s[0] == '"'
    requires ParseChars(s[1..]) == Ok((m.name, ":" + vt))
    requires ParseValue(vt) == Ok((m.value, "}" + rest))
    ensures ParseMembers(s) == Ok(([m], rest))
  {
    MemberStep(s, m, vt, "}" + rest);
    assert SkipWhitespace("}" + rest) == "}" + rest;
    assert ("}" + rest)[1..] == rest;
  }

  lemma {:induction false} MembersNext(s: string, m: Member, vt: string, more: string, ms: seq<Member>, rest: string)
    requires |s| > 0 && s[0] == '"'
    requires ParseChars(s[1..]) == Ok((m.name, ":" + vt))
    requires ParseValue(vt) == Ok((m.value, "," + more))
    requires ParseMembers(more) == Ok((ms, rest))
    ensures ParseMembers(s) == Ok(([m] + ms, rest))
  {
    MemberStep(s, m, vt, "," + more);
    assert SkipWhitespace("," + more) == "," + more;
    assert ("," + more)[1..] == more;
  }

  lemma {:induction false} Assoc(a: string, b: string, c: string)
    ensures a + b + c == a + (b + c)
  {
  }

  /** How the text of a member list followed by `tail` splits at its first
      member. */
  lemma {:induction false} MembersText(members: seq<Member>, tail: string)
    requires |members| > 0
    ensures var m := members[0];
            var after := if |members| == 1 then tail else "," + (PrintMembers(members[1..]) + tail);
            PrintMembers(members) + tail == Quote(m.name) + (":" + (Print(m.value) + after))
  {
    var m := members[0];
    var q, p := Quote(m.name), Print(m.value);
    if |members| == 1 {
      assert PrintMembers(members) == q + ":" + p;
      Assoc(q + ":", p, tail);
      Assoc(q, ":", p + tail);
    } else {
      var more := PrintMembers(members[1..]);
      assert PrintMembers(members) == q + ":" + p + "," + more;
      Assoc(q + ":" + p + ",", more, tail);
      Assoc(q + ":" + p, ",", more + tail);
      Assoc(q + ":", p, "," + (more + tail));
      Assoc(q, ":", p + ("," + (more + tail)));
    }
  }

  /** A printed member followed by `}` reads as the last member. */
  lemma {:induction false} MemberLastPrint(m: Member, rest: string)
    ensures ParseMembers(Quote(m.name) + (":" + (Print(m.value) + ("}" + rest)))) == Ok(([m], rest))
    decreases m, 2
  {
    var vt := Print(m.value) + ("}" + rest);
    ParseMemberHead(m, "}" + rest);
    MembersLast(Quote(m.name) + (":" + vt), m, vt, rest);
  }

  /** A printed member followed by `,` reads on into the members after it. */
  lemma {:induction false} MemberNextPrint(m: Member, more: string, ms: seq<Member>, rest: string)
    requires ParseMembers(more) == Ok((ms, rest))
    ensures ParseMembers(Quote(m.name) + (":" + (Print(m.value) + ("," + more)))) == Ok(([m] + ms, rest))
    decreases m, 2
  {
    var vt := Print(m.value) + ("," + more);
    ParseMemberHead(m, "," + more);
    MembersNext(Quote(m.name) + (":" + vt), m, vt, more, ms, rest);
  }

  /** A one-member object body reads back. */
  lemma {:induction false} MembersPrintOne(members: seq<Member>, rest: string)
    requires |members| == 1
    ensures ParseMembers(PrintMembers(members) + "}" + rest) == Ok((members, rest))
    decreases members, 0
  {
    MembersText(members, "}" + rest);
    Assoc(PrintMembers(members), "}", rest);
    MemberLastPrint(members[0], rest);
    assert [members[0]] == members;
  }

  /** A body of several members reads back when the body without its first
      member does. */
  lemma {:induction false} MembersPrintCons(members: seq<Member>, rest: string)
    requires |members| > 1
    requires ParseMembers(PrintMembers(members[1..]) + "}" + rest) == Ok((members[1..], rest))
    ensures ParseMembers(PrintMembers(members) + "}" + rest) == Ok((members, rest))
    decreases members, 0
  {
    MembersText(members, "}" + rest);
    Assoc(PrintMembers(members), "}", rest);
    Assoc(PrintMembers(members[1..]), "}", rest);
    MemberNextPrint(members[0], PrintMembers(members[1..]) + "}" + rest, members[1..], rest);
    assert [members[0]] + members[1..] == members;
  }

  lemma {:induction false} ParseMembersPrint(members: seq<Member>, rest: string)
    requires |members| > 0
    ensures ParseMembers(PrintMembers(members) + "}" + rest) == Ok((members, rest))
    decreases members, 1
  {
    if |members| == 1 {
      MembersPrintOne(members, rest);
    } else {
      ParseMembersPrint(members[1..], rest);
      MembersPrintCons(members, rest);
    }
  }

  /** `JSON.parse` reads back exactly the tree `JSON.stringify` printed. */
  lemma {:induction false} ParsePrint(j: Json)
    ensures Parse(Print(j)) == Ok(j)
  {
    ParseValuePrint(j, []);
    assert Print(j) + [] == Print(j);
  }
}
