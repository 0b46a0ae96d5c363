/** Secrets as text: mtglib/secret.go and parseEnvSecret of internal/config/env.go. A secret is 0xee, a 16-byte
    key and a host, written in hex or raw base64url (sections 8 and 5 of RFC 4648); hex is tried first. */
module SecretText {
  import opened ByteCodec

  const FIRST_BYTE := 0xee
  const KEY_LENGTH := 16

  type SecretKey = k: Bytes | |k| == KEY_LENGTH witness seq(16, i => 0)

  datatype Secret = Secret(key: SecretKey, host: Bytes)

  function MakeBytes(s: Secret): (r: Bytes)
    ensures |r| == 17 + |s.host|
  {
    [FIRST_BYTE] + s.key + s.host
  }

  // ---------------------------------------------------------------- hex

  type Nibble = n: int | 0 <= n < 16

  function HexChar(n: Nibble): char {
    if n < 10 then ('0' as int + n) as char else ('a' as int + n - 10) as char
  }

  function HexValue(c: char): Option<Nibble> {
    if '0' <= c <= '9' then Some(c as int - '0' as int)
    else if 'a' <= c <= 'f' then Some(c as int - 'a' as int + 10)
    else if 'A' <= c <= 'F' then Some(c as int - 'A' as int + 10)
    else None
  }

  function HexByte(hi: Nibble, lo: Nibble): byte { 16 * hi + lo }

  function EncodeHex(b: Bytes): string {
    if b == [] then "" else [HexChar(b[0] / 16), HexChar(b[0] % 16)] + EncodeHex(b[1..])
  }

  /** None for an odd length or any character that is not a hex digit. */
  function DecodeHex(s: string): (r: Option<Bytes>)
    ensures r.Some? ==> |s| == 2 * |r.value|
  {
    if s == "" then Some([])
    else if |s| == 1 then None
    else
      match (HexValue(s[0]), HexValue(s[1]), DecodeHex(s[2..]))
      case (Some(hi), Some(lo), Some(rest)) => Some([HexByte(hi, lo)] + rest)
      case _ => None
  }

  lemma {:induction false} HexRoundTrip(b: Bytes)
    ensures DecodeHex(EncodeHex(b)) == Some(b)
  {
    if b != [] {
      HexRoundTrip(b[1..]);
      var s := EncodeHex(b);
      assert s[2..] == EncodeHex(b[1..]);
      assert HexValue(s[0]) == Some(b[0] / 16) && HexValue(s[1]) == Some(b[0] % 16);
      assert b == [b[0]] + b[1..];
    }
  }

  const HEX_LOWER := "0123456789abcdef"
  const HEX_UPPER := "0123456789ABCDEF"

  /** Digits are written in lower case and read in both. */
  lemma HexDigits(n: Nibble, c: char)
    ensures HexChar(n) == HEX_LOWER[n]
    ensures HexValue(c) == Some(n) <==> c == HEX_LOWER[n] || c == HEX_UPPER[n]
  {
  }

  function LowerChar(c: char): char {
    if 'A' <= c <= 'F' then (c as int + 32) as char else c
  }

  function Lower(s: string): (r: string)
    ensures |r| == |s| && forall i :: 0 <= i < |s| ==> r[i] == LowerChar(s[i])
  {
    seq(|s|, i requires 0 <= i < |s| => LowerChar(s[i]))
  }

  /** A text decodes exactly to the bytes whose hex form it is, up to the case of its digits. */
  lemma {:induction false} DecodeHexIff(s: string, b: Bytes)
    ensures DecodeHex(s) == Some(b) <==> Lower(s) == EncodeHex(b)
    decreases |s|
  {
    if |s| < 2 || b == [] {
      assert s == "" ==> Lower(s) == "";
    } else {
      DecodeHexIff(s[2..], b[1..]);
      var tail := EncodeHex(b[1..]);
      var t := EncodeHex(b);
      assert t == [HexChar(b[0] / 16), HexChar(b[0] % 16)] + tail && t[2..] == tail;
      assert Lower(s)[2..] == Lower(s[2..]);
      DigitIff(s[0], b[0] / 16);
      DigitIff(s[1], b[0] % 16);
      assert b == [b[0]] + b[1..];
      assert Lower(s) == t <==> Lower(s)[0] == t[0] && Lower(s)[1] == t[1] && Lower(s)[2..] == tail by {
        assert Lower(s) == [Lower(s)[0], Lower(s)[1]] + Lower(s)[2..];
      }
      HexByteIff(s, b);
    }
  }

  lemma DigitIff(c: char, n: Nibble)
    ensures HexValue(c) == Some(n) <==> LowerChar(c) == HexChar(n)
  {
  }

  lemma HexByteIff(s: string, b: Bytes)
    requires |s| >= 2 && b != []
    ensures DecodeHex(s) == Some(b) <==>
            HexValue(s[0]) == Some(b[0] / 16) && HexValue(s[1]) == Some(b[0] % 16) && DecodeHex(s[2..]) == Some(b[1..])
  {
    if HexValue(s[0]).Some? && HexValue(s[1]).Some? && DecodeHex(s[2..]).Some? {
      var hi, lo, rest := HexValue(s[0]).value, HexValue(s[1]).value, DecodeHex(s[2..]).value;
      var x := HexByte(hi, lo);
      assert x / 16 == hi && x % 16 == lo;
      assert ([x] + rest)[0] == x && ([x] + rest)[1..] == rest;
      assert b == [b[0]] + b[1..];
    }
  }

  // ---------------------------------------------------------------- base64url without padding

  type Sextet = n: int | 0 <= n < 64

  function B64Char(n: Sextet): char {
    if n < 26 then ('A' as int + n) as char
    else if n < 52 then ('a' as int + n - 26) as char
    else if n < 62 then ('0' as int + n - 52) as char
    else if n == 62 then '-' else '_'
  }

  function B64Value(c: char): Option<Sextet> {
    if 'A' <= c <= 'Z' then Some(c as int - 'A' as int)
    else if 'a' <= c <= 'z' then Some(c as int - 'a' as int + 26)
    else if '0' <= c <= '9' then Some(c as int - '0' as int + 52)
    else if c == '-' then Some(62)
    else if c == '_' then Some(63)
    else None
  }

  lemma B64CharRoundTrip(n: Sextet)
    ensures B64Value(B64Char(n)) == Some(n)
    ensures B64Char(n) != '\r' && B64Char(n) != '\n'
  {
  }

  const UPPER := "ABCDEFGHIJKLMNOPQRSTUVWXYZ"
  const LOWER := "abcdefghijklmnopqrstuvwxyz"
  const DIGITS := "0123456789"

  /** The alphabet of section 5 of RFC 4648, and no other character. */
  lemma B64Alphabet(n: Sextet, c: char)
    ensures n < 26 ==> B64Char(n) == UPPER[n]
    ensures 26 <= n < 52 ==> B64Char(n) == LOWER[n - 26]
    ensures 52 <= n < 62 ==> B64Char(n) == DIGITS[n - 52]
    ensures n == 62 ==> B64Char(n) == '-'
    ensures n == 63 ==> B64Char(n) == '_'
    ensures B64Value(c) == Some(n) <==> c == B64Char(n)
  {
  }

  /** The four sextets of three bytes. */
  function Sextets(a: byte, b: byte, c: byte): (r: seq<Sextet>)
    ensures |r| == 4
  {
    [a / 4, a % 4 * 16 + b / 16, b % 16 * 4 + c / 64, c % 64]
  }

  /** The sextets of a last group of one or two bytes: the missing bytes count as zero. */
  function LastOne(a: byte): (r: seq<Sextet>)
    ensures |r| == 2
  {
    [a / 4, a % 4 * 16]
  }

  function LastTwo(a: byte, b: byte): (r: seq<Sextet>)
    ensures |r| == 3
  {
    [a / 4, a % 4 * 16 + b / 16, b % 16 * 4]
  }

  function Byte0(v: Sextet, w: Sextet): byte { v * 4 + w / 16 }
  function Byte1(v: Sextet, w: Sextet): byte { v % 16 * 16 + w / 4 }
  function Byte2(v: Sextet, w: Sextet): byte { v % 4 * 64 + w }

  lemma SextetsRoundTrip(a: byte, b: byte, c: byte)
    ensures var v := Sextets(a, b, c);
            Byte0(v[0], v[1]) == a && Byte1(v[1], v[2]) == b && Byte2(v[2], v[3]) == c
  {
  }

  /** The bits of the bytes, high bits first, cut into sixes. */
  lemma SextetsAreBits(a: byte, b: byte, c: byte)
    ensures var v := Sextets(a, b, c);
            Base(64, Base(64, Base(64, v[0], v[1]), v[2]), v[3]) == Base(256, Base(256, a, b), c)
    ensures Base(64, LastOne(a)[0], LastOne(a)[1]) == Base(16, a, 0)
    ensures var v := LastTwo(a, b);
            Base(64, Base(64, v[0], v[1]), v[2]) == Base(4, Base(256, a, b), 0)
  {
  }

  function Base(base: int, high: int, low: int): int {
    base * high + low
  }

  function Chars(v: seq<Sextet>): (s: string)
    ensures |s| == |v|
    ensures forall i :: 0 <= i < |v| ==> s[i] == B64Char(v[i])
  {
    seq(|v|, i requires 0 <= i < |v| => B64Char(v[i]))
  }

  function EncodeB64(b: Bytes): string {
    if b == [] then ""
    else if |b| == 1 then Chars(LastOne(b[0]))
    else if |b| == 2 then Chars(LastTwo(b[0], b[1]))
    else Chars(Sextets(b[0], b[1], b[2])) + EncodeB64(b[3..])
  }

  /** Line breaks are ignored; a lone last character or a foreign one is an error; trailing bits are not
      looked at. */
  function DecodeB64(s: string): Option<Bytes> {
    DecodeGroups(WithoutBreaks(s))
  }

  function WithoutBreaks(s: string): string {
    if s == "" then ""
    else (if s[0] == '\r' || s[0] == '\n' then "" else [s[0]]) + WithoutBreaks(s[1..])
  }

  function DecodeGroups(s: string): Option<Bytes> {
    if s == "" then Some([])
    else if |s| == 1 then None
    else if |s| == 2 then
      match (B64Value(s[0]), B64Value(s[1]))
      case (Some(v), Some(w)) => Some([Byte0(v, w)])
      case _ => None
    else if |s| == 3 then
      match (B64Value(s[0]), B64Value(s[1]), B64Value(s[2]))
      case (Some(v), Some(w), Some(x)) => Some([Byte0(v, w), Byte1(w, x)])
      case _ => None
    else
      match (B64Value(s[0]), B64Value(s[1]), B64Value(s[2]), B64Value(s[3]), DecodeGroups(s[4..]))
      case (Some(v), Some(w), Some(x), Some(y), Some(rest)) => Some([Byte0(v, w), Byte1(w, x), Byte2(x, y)] + rest)
      case _ => None
  }

  lemma {:induction false} NoBreaks(s: string)
    requires BreakFree(s)
    ensures WithoutBreaks(s) == s
  {
    if s != "" {
      NoBreaks(s[1..]);
      assert s == [s[0]] + s[1..];
    }
  }

  /** A line break anywhere changes nothing. */
  lemma {:induction false} BreakIgnored(a: string, c: char, b: string)
    requires c == '\r' || c == '\n'
    ensures DecodeB64(a + [c] + b) == DecodeB64(a + b)
    ensures WithoutBreaks(a + [c] + b) == WithoutBreaks(a + b)
    decreases |a|
  {
    if a == "" {
      assert a + [c] + b == [c] + b && ([c] + b)[1..] == b && a + b == b;
      assert WithoutBreaks([c] + b) == "" + WithoutBreaks(b) == WithoutBreaks(b);
    } else {
      BreakIgnored(a[1..], c, b);
      assert (a + [c] + b)[1..] == a[1..] + [c] + b && (a + b)[1..] == a[1..] + b;
    }
  }

  /** A text without line breaks decodes exactly if all its characters are of the alphabet and none is alone. */
  lemma {:induction false} GroupsDecodeIff(s: string)
    ensures DecodeGroups(s).Some? <==> |s| % 4 != 1 && forall i :: 0 <= i < |s| ==> B64Value(s[i]).Some?
    decreases |s|
  {
    if |s| >= 4 {
      GroupsDecodeIff(s[4..]);
      assert s == [s[0], s[1], s[2], s[3]] + s[4..];
    }
  }

  lemma CharsDecode(v: seq<Sextet>)
    ensures forall i :: 0 <= i < |v| ==>
      B64Value(Chars(v)[i]) == Some(v[i]) && Chars(v)[i] != '\r' && Chars(v)[i] != '\n'
  {
    forall i | 0 <= i < |v|
      ensures B64Value(Chars(v)[i]) == Some(v[i]) && Chars(v)[i] != '\r' && Chars(v)[i] != '\n'
    {
      B64CharRoundTrip(v[i]);
    }
  }

  predicate BreakFree(s: string) {
    forall i :: 0 <= i < |s| ==> s[i] != '\r' && s[i] != '\n'
  }

  lemma LastOneRoundTrip(a: byte)
    ensures Byte0(LastOne(a)[0], LastOne(a)[1]) == a
  {
  }

  lemma LastTwoRoundTrip(a: byte, b: byte)
    ensures var v := LastTwo(a, b);
            Byte0(v[0], v[1]) == a && Byte1(v[1], v[2]) == b
  {
  }

  /** Two or three characters decode to one or two bytes. */
  lemma ShortGroup(v: seq<Sextet>)
    requires 2 <= |v| <= 3
    ensures BreakFree(Chars(v))
    ensures |v| == 2 ==> DecodeGroups(Chars(v)) == Some([Byte0(v[0], v[1])])
    ensures |v| == 3 ==> DecodeGroups(Chars(v)) == Some([Byte0(v[0], v[1]), Byte1(v[1], v[2])])
  {
    CharsDecode(v);
  }

  lemma {:induction false} GroupsRoundTrip(b: Bytes)
    ensures DecodeGroups(EncodeB64(b)) == Some(b) && BreakFree(EncodeB64(b))
  {
    if |b| == 1 {
      LastOneRoundTrip(b[0]);
      ShortGroup(LastOne(b[0]));
      assert b == [b[0]];
    } else if |b| == 2 {
      LastTwoRoundTrip(b[0], b[1]);
      ShortGroup(LastTwo(b[0], b[1]));
      assert b == [b[0], b[1]];
    } else if |b| > 2 {
      var v := Sextets(b[0], b[1], b[2]);
      SextetsRoundTrip(b[0], b[1], b[2]);
      CharsDecode(v);
      GroupsRoundTrip(b[3..]);
      var s := EncodeB64(b);
      assert s == Chars(v) + EncodeB64(b[3..]);
      assert s[4..] == EncodeB64(b[3..]);
      assert b == [b[0], b[1], b[2]] + b[3..];
    }
  }

  lemma B64RoundTrip(b: Bytes)
    ensures DecodeB64(EncodeB64(b)) == Some(b)
  {
    GroupsRoundTrip(b);
    NoBreaks(EncodeB64(b));
  }

  // ---------------------------------------------------------------- Set

  function Hex(s: Secret): string {
    EncodeHex(MakeBytes(s))
  }

  function Base64(s: Secret): string {
    EncodeB64(MakeBytes(s))
  }

  datatype SetResult =
    | Ok(secret: Secret)
    | Empty | BadFormat | Truncated | BadFirstByte | BadLength
    | EmptyHost(key: SecretKey)

  function DecodeText(text: string): Option<Bytes> {
    if DecodeHex(text).Some? then DecodeHex(text) else DecodeB64(text)
  }

  function Parse(text: string): SetResult {
    if text == "" then Empty
    else
      match DecodeText(text)
      case None => BadFormat
      case Some(decoded) =>
        if |decoded| < 2 then Truncated
        else if decoded[0] != FIRST_BYTE then BadFirstByte
        else if |decoded| - 1 < KEY_LENGTH then BadLength
        else if decoded[17..] == [] then EmptyHost(decoded[1..17])
        else Ok(Secret(decoded[1..17], decoded[17..]))
  }

  /** Exactly the texts that decode to a serialized secret with a host are accepted, as that secret. */
  lemma ParseIff(text: string, s: Secret)
    ensures Parse(text) == Ok(s) <==> text != "" && DecodeText(text) == Some(MakeBytes(s)) && s.host != []
  {
    var m := MakeBytes(s);
    assert m[1..17] == s.key && m[17..] == s.host;
    if Parse(text) == Ok(s) {
      var d := DecodeText(text).value;
      assert d == [d[0]] + d[1..17] + d[17..];
    }
  }

  /** 0xee, the key, the host. */
  lemma BytesExactly(s: Secret)
    ensures MakeBytes(s)[0] == 0xee && MakeBytes(s)[1..17] == s.key && MakeBytes(s)[17..] == s.host
  {
  }

  /** Which error a text gets, from what it decodes to. */
  lemma ParseErrors(text: string)
    ensures Parse(text) == Empty <==> text == ""
    ensures Parse(text) == BadFormat <==> text != "" && DecodeHex(text) == None && DecodeB64(text) == None
    ensures text != "" && (DecodeHex(text).Some? || DecodeB64(text).Some?) ==>
      var d := if DecodeHex(text).Some? then DecodeHex(text).value else DecodeB64(text).value;
      && (Parse(text) == Truncated <==> |d| < 2)
      && (Parse(text) == BadFirstByte <==> |d| >= 2 && d[0] != 0xee)
      && (Parse(text) == BadLength <==> 2 <= |d| < 17 && d[0] == 0xee)
      && (Parse(text).EmptyHost? <==> |d| == 17 && d[0] == 0xee)
      && (Parse(text).EmptyHost? ==> Parse(text).key == d[1..])
  {
  }

  lemma FirstHexChars(s: Secret)
    ensures |Hex(s)| >= 2 && Hex(s) != ""
  {
    var m := MakeBytes(s);
    assert Hex(s) == [HexChar(m[0] / 16), HexChar(m[0] % 16)] + EncodeHex(m[1..]);
  }

  /** The second base64 character of 0xee and any next byte lies between g and v. */
  lemma SecondCharIsNotHex(s: Secret)
    ensures |Base64(s)| >= 4 && HexValue(Base64(s)[1]) == None
    ensures 'g' <= Base64(s)[1] <= 'v'
  {
    var m := MakeBytes(s);
    assert m[0] == FIRST_BYTE && |m| >= 17;
    var v := Sextets(m[0], m[1], m[2]);
    assert v[1] == 32 + m[1] / 16;
    assert Base64(s)[1] == Chars(v)[1] == B64Char(v[1]);
  }

  /** So the base64 form is never taken for hex. */
  lemma Base64IsNotHex(s: Secret)
    ensures DecodeHex(Base64(s)) == None
  {
    SecondCharIsNotHex(s);
  }

  /** Set undoes both forms. */
  lemma SetRoundTrip(s: Secret)
    requires s.host != []
    ensures Parse(Hex(s)) == Ok(s)
    ensures Parse(Base64(s)) == Ok(s)
  {
    FirstHexChars(s);
    HexRoundTrip(MakeBytes(s));
    ParseIff(Hex(s), s);
    SecondCharIsNotHex(s);
    Base64IsNotHex(s);
    B64RoundTrip(MakeBytes(s));
    ParseIff(Base64(s), s);
  }

  /** Secret.Valid. */
  predicate Valid(s: Secret) {
    s.key != Zeros(16) && s.host != []
  }

  /** Some byte of the key and some of the host. */
  lemma ValidIff(s: Secret)
    ensures Valid(s) <==> |s.host| > 0 && exists i :: 0 <= i < 16 && s.key[i] != 0
  {
    if forall i :: 0 <= i < 16 ==> s.key[i] == 0 {
      assert s.key == Zeros(16);
    }
  }

  /** Secret as Set updates it: an empty host is an error that has already overwritten key and host. */
  class SecretValue {
    var key: SecretKey
    var host: Bytes

    constructor ()
      ensures key == Zeros(16) && host == []
    {
      key, host := Zeros(16), [];
    }

    method Set(text: string) returns (r: SetResult)
      modifies this
      ensures r == Parse(text)
      ensures match r
              case Ok(secret) => Secret(key, host) == secret
              case EmptyHost(k) => key == k && host == []
              case _ => key == old(key) && host == old(host)
    {
      if text == "" {
        return Empty;
      }
      var hex := DecodeHex(text);
      var decoded := if hex.Some? then hex else DecodeB64(text);
      if decoded.None? {
        return BadFormat;
      }
      if |decoded.value| < 2 {
        return Truncated;
      }
      if decoded.value[0] != FIRST_BYTE {
        return BadFirstByte;
      }
      var rest := decoded.value[1..];
      if |rest| < KEY_LENGTH {
        return BadLength;
      }
      assert rest[..16] == decoded.value[1..17] && rest[16..] == decoded.value[17..];
      key := rest[..16];
      host := rest[16..];
      if host == [] {
        return EmptyHost(key);
      }
      r := Ok(Secret(key, host));
    }
  }

  // ---------------------------------------------------------------- the SECRET environment variable

  datatype EnvResult = EnvOk(secret: Secret) | MissingHost | BadSecret(reason: SetResult)

  /** A bare 16-byte hex key needs the host from SECRET_HOST; anything else must be a full secret. */
  function ParseEnv(value: string, envHost: Bytes): EnvResult {
    var raw := DecodeHex(value);
    if raw.Some? && |raw.value| == KEY_LENGTH then
      if envHost == [] then MissingHost else EnvOk(Secret(raw.value, envHost))
    else
      match Parse(value)
      case Ok(secret) => EnvOk(secret)
      case other => BadSecret(other)
  }

  /** The bare-key branch swallows no text that Set accepts, whatever SECRET_HOST holds. */
  lemma EnvNeverSwallows(value: string, envHost: Bytes, s: Secret)
    requires Parse(value) == Ok(s)
    ensures ParseEnv(value, envHost) == EnvOk(s)
  {
    ParseIff(value, s);
  }

  /** Full secrets in either form are read as themselves, bare keys as key plus host. */
  lemma EnvRoundTrip(s: Secret, envHost: Bytes)
    requires s.host != []
    ensures ParseEnv(Hex(s), envHost) == EnvOk(s)
    ensures ParseEnv(Base64(s), envHost) == EnvOk(s)
    ensures ParseEnv(EncodeHex(s.key), s.host) == EnvOk(s)
  {
    SetRoundTrip(s);
    EnvNeverSwallows(Hex(s), envHost, s);
    EnvNeverSwallows(Base64(s), envHost, s);
    HexRoundTrip(s.key);
  }

  /** Exactly when a value is taken for a bare key, and what becomes of any other. */
  lemma EnvExactly(value: string, envHost: Bytes)
    ensures var bare := DecodeHex(value).Some? && |value| == 32;
            && (ParseEnv(value, envHost) == MissingHost <==> bare && envHost == [])
            && (bare && envHost != [] ==> ParseEnv(value, envHost) == EnvOk(Secret(DecodeHex(value).value, envHost)))
            && (!bare && Parse(value).Ok? ==> ParseEnv(value, envHost) == EnvOk(Parse(value).secret))
            && (!bare && !Parse(value).Ok? ==> ParseEnv(value, envHost) == BadSecret(Parse(value)))
  {
  }
}
