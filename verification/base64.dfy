/** The "base64" encoding of section 4 of RFC 4648 (standard alphabet, with
    `=` padding), used by the codec to carry byte buffers inside strings. */
module Base64 {
  import opened Wrappers

  newtype byte = x: int | 0 <= x < 256

  /** A character of the 64-character alphabet of Table 1 of RFC 4648. */
  predicate IsAlphabet(c: char) {
    ('A' <= c <= 'Z') || ('a' <= c <= 'z') || ('0' <= c <= '9') || c == '+' || c == '/'
  }

  /** Table 1 of RFC 4648: the character that encodes the 6-bit value `i`. */
  function SextetChar(i: int): (c: char)
    requires 0 <= i < 64
    ensures IsAlphabet(c)
    ensures SextetValue(c) == Some(i)
  {
    if i < 26 then ('A' as int + i) as char
    else if i < 52 then ('a' as int + (i - 26)) as char
    else if i < 62 then ('0' as int + (i - 52)) as char
    else if i == 62 then '+'
    else '/'
  }

  /** The inverse of Table 1: the 6-bit value a character encodes, if any. */
  function SextetValue(c: char): (r: Option<int>)
    ensures r.Some? <==> IsAlphabet(c)
    ensures r.Some? ==> 0 <= r.value < 64
  {
    if 'A' <= c <= 'Z' then Some(c as int - 'A' as int)
    else if 'a' <= c <= 'z' then Some(c as int - 'a' as int + 26)
    else if '0' <= c <= '9' then Some(c as int - '0' as int + 52)
    else if c == '+' then Some(62)
    else if c == '/' then Some(63)
    else None
  }

  /** The four characters for a full 24-bit group. */
  function Group3(b0: byte, b1: byte, b2: byte): string {
    var x, y, z := b0 as int, b1 as int, b2 as int;
    [SextetChar(x / 4), SextetChar(x % 4 * 16 + y / 16), SextetChar(y % 16 * 4 + z / 64), SextetChar(z % 64)]
  }

  /** The final group when two bytes remain: one `=` of padding. */
  function Group2(b0: byte, b1: byte): string {
    var x, y := b0 as int, b1 as int;
    [SextetChar(x / 4), SextetChar(x % 4 * 16 + y / 16), SextetChar(y % 16 * 4), '=']
  }

  /** The final group when one byte remains: two `=` of padding. */
  function Group1(b0: byte): string {
    var x := b0 as int;
    [SextetChar(x / 4), SextetChar(x % 4 * 16), '=', '=']
  }

  /** True of the characters an encoder may emit. */
  predicate IsEncodedChar(c: char) {
    IsAlphabet(c) || c == '='
  }

  function Encode(data: seq<byte>): (s: string)
    ensures |s| == (|data| + 2) / 3 * 4
    ensures forall i :: 0 <= i < |s| ==> IsEncodedChar(s[i])
    decreases |data|
  {
    if |data| == 0 then []
    else if |data| == 1 then Group1(data[0])
    else if |data| == 2 then Group2(data[0], data[1])
    else
      var rest := Encode(data[3..]);
      assert (|data| + 2) / 3 * 4 == 4 + (|data| - 3 + 2) / 3 * 4;
      Group3(data[0], data[1], data[2]) + rest
  }

  /** Decodes one group of four alphabet characters into three bytes. */
  function DecodeGroup(q: string): (r: Option<seq<byte>>)
    requires |q| == 4
    ensures r.Some? ==> |r.value| == 3
  {
    var a :- SextetValue(q[0]);
    var b :- SextetValue(q[1]);
    var c :- SextetValue(q[2]);
    var d :- SextetValue(q[3]);
    Some([(a * 4 + b / 16) as byte, (b % 16 * 16 + c / 4) as byte, (c % 4 * 64 + d) as byte])
  }

  /** Decodes the last group, which may carry one or two `=` of padding.
      Non-zero pad bits are ignored, as most decoders do. */
  function DecodeFinalGroup(q: string): (r: Option<seq<byte>>)
    requires |q| == 4
    ensures r.Some? ==> 1 <= |r.value| <= 3
  {
    if q[2] == '=' && q[3] == '=' then
      var a :- SextetValue(q[0]);
      var b :- SextetValue(q[1]);
      Some([(a * 4 + b / 16) as byte])
    else if q[3] == '=' then
      var a :- SextetValue(q[0]);
      var b :- SextetValue(q[1]);
      var c :- SextetValue(q[2]);
      Some([(a * 4 + b / 16) as byte, (b % 16 * 16 + c / 4) as byte])
    else
      DecodeGroup(q)
  }

  /** Strict decoding: the length must be a multiple of four, every character
      must come from the alphabet, and `=` may only pad the final group. */
  function Decode(s: string): (r: Option<seq<byte>>)
    ensures r.Some? ==> |s| % 4 == 0
    ensures r.Some? && |s| > 0 ==> |s| / 4 * 3 - 2 <= |r.value| <= |s| / 4 * 3
    ensures |s| == 0 ==> r == Some([])
    decreases |s|
  {
    if |s| == 0 then Some([])
    else if |s| < 4 then None
    else if |s| == 4 then DecodeFinalGroup(s)
    else
      var head :- DecodeGroup(s[..4]);
      var tail :- Decode(s[4..]);
      Some(head + tail)
  }

  /** Splitting `hi * 16 + lo` back into its two parts. */
  lemma {:induction false} Split16(hi: int, lo: int)
    requires 0 <= hi && 0 <= lo < 16
    ensures (hi * 16 + lo) / 16 == hi && (hi * 16 + lo) % 16 == lo
  {
  }

  /** Splitting `hi * 4 + lo` back into its two parts. */
  lemma {:induction false} Split4(hi: int, lo: int)
    requires 0 <= hi && 0 <= lo < 4
    ensures (hi * 4 + lo) / 4 == hi && (hi * 4 + lo) % 4 == lo
  {
  }

  /** `DecodeGroup` on four alphabet characters with known values. */
  lemma {:induction false} DecodeGroupOf(q: string, a: int, b: int, c: int, d: int)
    requires |q| == 4
    requires SextetValue(q[0]) == Some(a) && SextetValue(q[1]) == Some(b)
    requires SextetValue(q[2]) == Some(c) && SextetValue(q[3]) == Some(d)
    ensures DecodeGroup(q) == Some([(a * 4 + b / 16) as byte, (b % 16 * 16 + c / 4) as byte, (c % 4 * 64 + d) as byte])
    ensures DecodeFinalGroup(q) == DecodeGroup(q)
  {
  }

  lemma {:induction false} Group3RoundTrip(b0: byte, b1: byte, b2: byte)
    ensures DecodeGroup(Group3(b0, b1, b2)) == Some([b0, b1, b2])
    ensures DecodeFinalGroup(Group3(b0, b1, b2)) == Some([b0, b1, b2])
  {
    var x, y, z := b0 as int, b1 as int, b2 as int;
    var a, b, c, d := x / 4, x % 4 * 16 + y / 16, y % 16 * 4 + z / 64, z % 64;
    Split16(x % 4, y / 16);
    Split4(y % 16, z / 64);
    assert a * 4 + b / 16 == x;
    assert b % 16 * 16 + c / 4 == y;
    assert c % 4 * 64 + d == z;
    DecodeGroupOf(Group3(b0, b1, b2), a, b, c, d);
  }

  lemma {:induction false} Group2RoundTrip(b0: byte, b1: byte)
    ensures DecodeFinalGroup(Group2(b0, b1)) == Some([b0, b1])
  {
    var x, y := b0 as int, b1 as int;
    var q := Group2(b0, b1);
    assert SextetValue(q[0]) == Some(x / 4);
    assert SextetValue(q[1]) == Some(x % 4 * 16 + y / 16);
    assert SextetValue(q[2]) == Some(y % 16 * 4);
    assert (x % 4 * 16 + y / 16) / 16 == x % 4;
    assert (x % 4 * 16 + y / 16) % 16 == y / 16;
    assert (y % 16 * 4) / 4 == y % 16;
  }

  lemma {:induction false} Group1RoundTrip(b0: byte)
    ensures DecodeFinalGroup(Group1(b0)) == Some([b0])
  {
    var x := b0 as int;
    var q := Group1(b0);
    assert SextetValue(q[0]) == Some(x / 4);
    assert SextetValue(q[1]) == Some(x % 4 * 16);
    assert (x % 4 * 16) / 16 == x % 4;
  }

  /** Every byte sequence survives an encode/decode round trip. */
  lemma {:induction false} DecodeEncode(data: seq<byte>)
    ensures Decode(Encode(data)) == Some(data)
    decreases |data|
  {
    if |data| == 0 {
    } else if |data| == 1 {
      Group1RoundTrip(data[0]);
      assert data == [data[0]];
    } else if |data| == 2 {
      Group2RoundTrip(data[0], data[1]);
      assert data == [data[0], data[1]];
    } else {
      var g := Group3(data[0], data[1], data[2]);
      var rest := Encode(data[3..]);
      Group3RoundTrip(data[0], data[1], data[2]);
      assert data == [data[0], data[1], data[2]] + data[3..];
      if |data| == 3 {
        assert rest == [];
        assert Encode(data) == g + rest == g;
        assert data == [data[0], data[1], data[2]];
      } else {
        DecodeEncode(data[3..]);
        var s := g + rest;
        assert s[..4] == g;
        assert s[4..] == rest;
      }
    }
  }
}
