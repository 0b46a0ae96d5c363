/** parseHandshake and parseSNI of mtglib/internal/tls/fake/client_side.go (section 4.1.2 of RFC 8446,
    section 3 of RFC 6066, RFC 8701). */
module HelloParser {
  import opened ByteCodec
  import opened RawStream

  datatype ClientHello = ClientHello(random: Bytes, sessionId: Bytes, cipherSuite: nat)

  datatype HelloError =
    | ShortVersion | ShortRandom | ShortSessionIdLength | ShortSessionId
    | ShortCipherLength | ShortCipher | NoCipher | ShortCompressionLength | ShortCompression

  datatype HandshakeRead = Handshake(hello: ClientHello, rest: Bytes) | BadHandshake(error: HelloError)

  /** The 0x?a?a pattern of RFC 8701. */
  predicate IsGrease(suite: nat) {
    suite / 256 % 16 == 0xa && suite % 16 == 0xa
  }

  predicate IsUsable(suite: nat) {
    suite != 0 && !IsGrease(suite)
  }

  /** By the hexadecimal digits of a suite: not usable are 0 and those with a in the second and the fourth. */
  lemma UsableIff(d1: nat, d2: nat, d3: nat, d4: nat)
    requires d1 < 16 && d2 < 16 && d3 < 16 && d4 < 16
    ensures IsUsable(4096 * d1 + 256 * d2 + 16 * d3 + d4) <==>
            !(d1 == d2 == d3 == d4 == 0) && !(d2 == 10 && d4 == 10)
  {
    var suite, high, low := 4096 * d1 + 256 * d2 + 16 * d3 + d4, 16 * d1 + d2, 16 * d3 + d4;
    assert suite == 256 * high + low;
    HighAndLow(high, low);
    Nibbles(d1, d2);
    Nibbles(16 * high + d3, d4);
  }

  lemma HighAndLow(high: nat, low: nat)
    requires low < 256
    ensures (256 * high + low) / 256 == high
  {
  }

  lemma Nibbles(high: nat, low: nat)
    requires low < 16
    ensures (16 * high + low) % 16 == low
  {
  }

  /** The first usable suite of a list of two-byte suites, or 0. */
  function FirstSuite(b: Bytes): nat {
    if |b| < 2 then 0
    else
      var suite := FromBE(b[..2]);
      if IsUsable(suite) then suite else FirstSuite(b[2..])
  }

  function ParseHandshake(b: Bytes): HandshakeRead {
    if |b| < 2 then BadHandshake(ShortVersion)
    else if |b| < 34 then BadHandshake(ShortRandom)
    else ParseSession(b[2..34], b[34..])
  }

  function ParseSession(random: Bytes, b: Bytes): HandshakeRead {
    if |b| < 1 then BadHandshake(ShortSessionIdLength)
    else if |b| - 1 < b[0] then BadHandshake(ShortSessionId)
    else ParseCiphers(random, b[1..1 + b[0]], b[1 + b[0]..])
  }

  /** An odd last byte of the list is not part of any suite and stays in the stream. */
  function ParseCiphers(random: Bytes, sessionId: Bytes, b: Bytes): HandshakeRead {
    if |b| < 2 then BadHandshake(ShortCipherLength)
    else
      var n := FromBE(b[..2]) / 2;
      if |b| - 2 < 2 * n then BadHandshake(ShortCipher)
      else ParseCompression(random, sessionId, FirstSuite(b[2..2 + 2 * n]), b[2 + 2 * n..])
  }

  function ParseCompression(random: Bytes, sessionId: Bytes, suite: nat, b: Bytes): HandshakeRead {
    if suite == 0 then BadHandshake(NoCipher)
    else if |b| < 1 then BadHandshake(ShortCompressionLength)
    else if |b| - 1 < b[0] then BadHandshake(ShortCompression)
    else Handshake(ClientHello(random, sessionId, suite), b[1 + b[0]..])
  }

  /** The same in one piece, by offsets: version and random, session ID, cipher list, compression list. */
  lemma HandshakeExactly(b: Bytes)
    ensures |b| < 2 ==> ParseHandshake(b) == BadHandshake(ShortVersion)
    ensures 2 <= |b| < 34 ==> ParseHandshake(b) == BadHandshake(ShortRandom)
    ensures |b| == 34 ==> ParseHandshake(b) == BadHandshake(ShortSessionIdLength)
    ensures |b| >= 35 ==>
      var k: int := b[34];
      if |b| < 35 + k then ParseHandshake(b) == BadHandshake(ShortSessionId)
      else if |b| < 37 + k then ParseHandshake(b) == BadHandshake(ShortCipherLength)
      else ParseHandshake(b) == FromCiphers(b, b[2..34], b[35..35 + k], 35 + k)
  {
    if |b| >= 35 {
      var k: int := b[34];
      if |b| >= 37 + k {
        assert b[34..][1..1 + k] == b[35..35 + k] && b[34..][1 + k..] == b[35 + k..];
        CiphersExactly(b, b[2..34], b[35..35 + k], 35 + k);
      }
    }
  }

  /** Cipher and compression list from offset `at` on. */
  function FromCiphers(b: Bytes, random: Bytes, sessionId: Bytes, at: nat): HandshakeRead
    requires at + 2 <= |b|
  {
    var from := at + 2;
    var to := from + ListBytes(b[at], b[at + 1]);
    if |b| < to then BadHandshake(ShortCipher)
    else if FirstSuite(b[from..to]) == 0 then BadHandshake(NoCipher)
    else if |b| < to + 1 then BadHandshake(ShortCompressionLength)
    else if |b| - to - 1 < b[to] then BadHandshake(ShortCompression)
    else Handshake(ClientHello(random, sessionId, FirstSuite(b[from..to])), b[to + 1 + b[to]..])
  }

  lemma CiphersExactly(b: Bytes, random: Bytes, sessionId: Bytes, at: nat)
    requires at + 2 <= |b|
    ensures ParseCiphers(random, sessionId, b[at..]) == FromCiphers(b, random, sessionId, at)
  {
    var c := b[at..];
    var n := ListBytes(b[at], b[at + 1]);
    BEValue(c[..2]);
    EvenPart(b[at], b[at + 1]);
    assert c[..2] == [b[at], b[at + 1]];
    assert 2 * (FromBE(c[..2]) / 2) == n;
    if |c| >= 2 + n {
      assert c[2..2 + n] == b[at + 2..at + 2 + n] && c[2 + n..] == b[at + 2 + n..];
      CompressionExactly(random, sessionId, FirstSuite(c[2..2 + n]), b, at + 2 + n);
    }
  }

  /** The bytes of a list of two-byte entries whose length is announced by the two given bytes: an odd one is not
      counted. */
  function ListBytes(high: byte, low: byte): nat {
    Digits(high, low - low % 2)
  }

  lemma EvenPart(high: byte, low: byte)
    ensures 2 * (Digits(high, low) / 2) == ListBytes(high, low)
  {
    var q := low / 2;
    assert low == 2 * q + low % 2;
    assert Digits(high, low) == 2 * (128 * high + q) + low % 2;
  }

  lemma CompressionExactly(random: Bytes, sessionId: Bytes, suite: nat, b: Bytes, to: nat)
    requires to <= |b|
    ensures ParseCompression(random, sessionId, suite, b[to..])
         == if suite == 0 then BadHandshake(NoCipher)
            else if |b| < to + 1 then BadHandshake(ShortCompressionLength)
            else if |b| - to - 1 < b[to] then BadHandshake(ShortCompression)
            else Handshake(ClientHello(random, sessionId, suite), b[to + 1 + b[to]..])
  {
    var c := b[to..];
    if |c| >= 1 && c[0] <= |c| - 1 {
      assert c[1 + c[0]..] == b[to + 1 + b[to]..];
    }
  }

  datatype SniError =
    | ShortExtensionsLength | ShortExtensions | ShortExtensionType | ShortExtensionLength | ShortExtension
    | ShortListLength | NoListType | BadListType | ShortNameLength | ShortName

  datatype SniRead = Names(names: seq<Bytes>) | BadSni(error: SniError)

  function ParseSni(b: Bytes): SniRead {
    if |b| < 2 then BadSni(ShortExtensionsLength)
    else
      var n := FromBE(b[..2]);
      if |b| - 2 < n then BadSni(ShortExtensions) else ScanExtensions(b[2..2 + n])
  }

  datatype ExtensionRead = Found(kind: Bytes, data: Bytes, rest: Bytes) | BadExtension(error: SniError)

  function NextExtension(b: Bytes): (r: ExtensionRead)
    ensures r.Found? ==> |r.rest| < |b|
  {
    if |b| < 2 then BadExtension(ShortExtensionType)
    else if |b| < 4 then BadExtension(ShortExtensionLength)
    else
      var n := FromBE(b[2..4]);
      if |b| - 4 < n then BadExtension(ShortExtension) else Found(b[..2], b[4..4 + n], b[4 + n..])
  }

  function ScanExtensions(b: Bytes): SniRead
    decreases |b|
  {
    if b == [] then Names([])
    else
      match NextExtension(b)
      case BadExtension(e) => BadSni(e)
      case Found(kind, data, rest) => if kind == [0, 0] then ParseServerName(data) else ScanExtensions(rest)
  }

  /** The list length is only compared with zero, and the entry type is read once. */
  function ParseServerName(d: Bytes): SniRead {
    if |d| < 2 then BadSni(ShortListLength)
    else if FromBE(d[..2]) == 0 then Names([])
    else if |d| < 3 then BadSni(NoListType)
    else if d[2] != 0 then BadSni(BadListType)
    else ParseNames(d[3..])
  }

  function ParseNames(b: Bytes): SniRead
    decreases |b|
  {
    if b == [] then Names([])
    else if |b| < 2 then BadSni(ShortNameLength)
    else
      var n := FromBE(b[..2]);
      if |b| - 2 < n then BadSni(ShortName)
      else ConsName(b[2..2 + n], ParseNames(b[2 + n..]))
  }

  function ConsName(name: Bytes, r: SniRead): SniRead {
    match r
    case Names(names) => Names([name] + names)
    case BadSni(_) => r
  }

  /** One extension: two bytes of type, two of length, and the data. */
  lemma ExtensionExactly(b: Bytes)
    ensures |b| < 2 ==> NextExtension(b) == BadExtension(ShortExtensionType)
    ensures 2 <= |b| < 4 ==> NextExtension(b) == BadExtension(ShortExtensionLength)
    ensures |b| >= 4 ==>
      var n := Digits(b[2], b[3]);
      NextExtension(b) == if |b| < 4 + n then BadExtension(ShortExtension) else Found(b[..2], b[4..4 + n], b[4 + n..])
  {
    if |b| >= 4 {
      BEValue(b[2..4]);
    }
  }

  /** The data of a server_name extension: an empty list names nobody, a list must begin with a host name. */
  lemma ServerNameExactly(d: Bytes)
    ensures |d| < 2 ==> ParseServerName(d) == BadSni(ShortListLength)
    ensures |d| >= 2 && d[0] == 0 && d[1] == 0 ==> ParseServerName(d) == Names([])
    ensures |d| == 2 && !(d[0] == 0 && d[1] == 0) ==> ParseServerName(d) == BadSni(NoListType)
    ensures |d| >= 3 && !(d[0] == 0 && d[1] == 0) ==>
      ParseServerName(d) == if d[2] != 0 then BadSni(BadListType) else ParseNames(d[3..])
  {
    if |d| >= 2 {
      BEValue(d[..2]);
    }
  }

  /** One name: two bytes of length and the name. */
  lemma NameExactly(b: Bytes)
    ensures |b| == 1 ==> ParseNames(b) == BadSni(ShortNameLength)
    ensures |b| >= 2 ==>
      var n := Digits(b[0], b[1]);
      ParseNames(b) == if |b| < 2 + n then BadSni(ShortName) else ConsName(b[2..2 + n], ParseNames(b[2 + n..]))
  {
    if |b| >= 2 {
      BEValue(b[..2]);
      var n := FromBE(b[..2]);
      assert n == Digits(b[0], b[1]);
      if |b| - 2 >= n {
        assert ParseNames(b) == ConsName(b[2..2 + n], ParseNames(b[2 + n..]));
      }
    }
  }

  // ---------------------------------------------------------------- the RFC layout

  type Suite = s: int | 0 <= s < 65536

  datatype Extension = Extension(kind: Suite, data: Bytes)

  /** A ClientHello body as a client means it. */
  datatype HelloFields = HelloFields(version: Bytes, random: Bytes, sessionId: Bytes, suites: seq<Suite>,
                                     compression: Bytes, extensions: seq<Extension>)

  function SuiteBytes(suites: seq<Suite>): (r: Bytes)
    ensures |r| == 2 * |suites|
  {
    if suites == [] then [] else BE(suites[0], 2) + SuiteBytes(suites[1..])
  }

  function ExtensionBytes(e: Extension): Bytes {
    BE(e.kind, 2) + BE(|e.data|, 2) + e.data
  }

  function ExtensionList(es: seq<Extension>): Bytes {
    if es == [] then [] else ExtensionBytes(es[0]) + ExtensionList(es[1..])
  }

  ghost predicate Fits(f: HelloFields) {
    && |f.version| == 2 && |f.random| == 32
    && |f.sessionId| < 256 && |f.compression| < 256
    && 2 * |f.suites| < 65536
    && |ExtensionList(f.extensions)| < 65536
    && (forall i :: 0 <= i < |f.extensions| ==> |f.extensions[i].data| < 65536)
  }

  function Tail(f: HelloFields): Bytes {
    BE(|ExtensionList(f.extensions)|, 2) + ExtensionList(f.extensions)
  }

  function CompressionPart(f: HelloFields): Bytes
    requires |f.compression| < 256
  {
    [|f.compression|] + f.compression + Tail(f)
  }

  function CipherPart(f: HelloFields): Bytes
    requires |f.compression| < 256
  {
    BE(2 * |f.suites|, 2) + SuiteBytes(f.suites) + CompressionPart(f)
  }

  function EncodeHello(f: HelloFields): Bytes
    requires |f.sessionId| < 256 && |f.compression| < 256
  {
    f.version + f.random + [|f.sessionId|] + f.sessionId + CipherPart(f)
  }

  /** s is the first usable suite the client offered. */
  ghost predicate IsFirstUsable(suites: seq<Suite>, s: nat) {
    exists i :: 0 <= i < |suites| && suites[i] == s && IsUsable(s)
                && forall j :: 0 <= j < i ==> !IsUsable(suites[j])
  }

  lemma Word16(n: nat)
    requires n < 65536
    ensures FromBE(BE(n, 2)) == n
  {
    Pow256Values();
    BERoundTrip(n, 2);
  }

  lemma {:induction false} FirstSuiteIsFirst(suites: seq<Suite>)
    ensures FirstSuite(SuiteBytes(suites)) != 0 ==> IsFirstUsable(suites, FirstSuite(SuiteBytes(suites)))
    ensures FirstSuite(SuiteBytes(suites)) == 0 ==> forall i :: 0 <= i < |suites| ==> !IsUsable(suites[i])
  {
    if suites != [] {
      var b := SuiteBytes(suites);
      Word16(suites[0]);
      assert b[..2] == BE(suites[0], 2);
      assert b[2..] == SuiteBytes(suites[1..]);
      FirstSuiteIsFirst(suites[1..]);
      if IsUsable(suites[0]) {
        assert IsFirstUsable(suites, suites[0]);
      } else if FirstSuite(b) != 0 {
        var i :| 0 <= i < |suites| - 1 && suites[1..][i] == FirstSuite(b)
                 && forall j :: 0 <= j < i ==> !IsUsable(suites[1..][j]);
        forall j | 0 <= j < i + 1
          ensures !IsUsable(suites[j])
        {
          assert j > 0 ==> suites[j] == suites[1..][j - 1];
        }
        assert suites[i + 1] == FirstSuite(b);
      }
    }
  }

  lemma CompressionRoundTrip(f: HelloFields, random: Bytes, sessionId: Bytes, suite: nat)
    requires |f.compression| < 256 && suite != 0
    ensures ParseCompression(random, sessionId, suite, CompressionPart(f))
         == Handshake(ClientHello(random, sessionId, suite), Tail(f))
  {
    var b := CompressionPart(f);
    assert b[1 + b[0]..] == Tail(f);
  }

  lemma SuiteListParses(h: Bytes, list: Bytes, n: nat, rest: Bytes, random: Bytes, sessionId: Bytes)
    requires |h| == 2 && FromBE(h) == 2 * n == |list|
    ensures ParseCiphers(random, sessionId, h + list + rest)
         == ParseCompression(random, sessionId, FirstSuite(list), rest)
  {
    ThreeParts(h, list, rest);
    assert FromBE(h) / 2 == n;
  }

  lemma CiphersRoundTrip(f: HelloFields, random: Bytes, sessionId: Bytes)
    requires Fits(f)
    ensures ParseCiphers(random, sessionId, CipherPart(f))
         == ParseCompression(random, sessionId, FirstSuite(SuiteBytes(f.suites)), CompressionPart(f))
  {
    var h := BE(2 * |f.suites|, 2);
    Word16(2 * |f.suites|);
    SuiteListParses(h, SuiteBytes(f.suites), |f.suites|, CompressionPart(f), random, sessionId);
  }

  lemma SessionRoundTrip(f: HelloFields)
    requires Fits(f)
    ensures ParseHandshake(EncodeHello(f)) == ParseCiphers(f.random, f.sessionId, CipherPart(f))
  {
    SessionParses(f, CipherPart(f));
  }

  lemma SessionParses(f: HelloFields, rest: Bytes)
    requires Fits(f)
    ensures ParseHandshake(f.version + f.random + [|f.sessionId|] + f.sessionId + rest)
         == ParseCiphers(f.random, f.sessionId, rest)
  {
    var b := f.version + f.random + [|f.sessionId|] + f.sessionId + rest;
    assert b[2..34] == f.random;
    var s := b[34..];
    assert s[0] == |f.sessionId|;
    assert s[1..1 + s[0]] == f.sessionId;
    assert s[1 + s[0]..] == rest;
  }

  /** Parsing a ClientHello in the RFC layout returns its random, its session id and the first usable suite, and
      stops at the extensions; it fails exactly when no suite is usable. */
  lemma HandshakeRoundTrip(f: HelloFields)
    requires Fits(f)
    ensures var r := ParseHandshake(EncodeHello(f));
            if exists i :: 0 <= i < |f.suites| && IsUsable(f.suites[i]) then
              && r.Handshake? && r.rest == Tail(f)
              && r.hello.random == f.random && r.hello.sessionId == f.sessionId
              && IsFirstUsable(f.suites, r.hello.cipherSuite)
            else r == BadHandshake(NoCipher)
  {
    SessionRoundTrip(f);
    CiphersRoundTrip(f, f.random, f.sessionId);
    FirstSuiteIsFirst(f.suites);
    var suite := FirstSuite(SuiteBytes(f.suites));
    if suite != 0 {
      CompressionRoundTrip(f, f.random, f.sessionId, suite);
    }
  }

  // ---------------------------------------------------------------- server name

  function NameEntry(host: Bytes): Bytes {
    [0] + BE(|host|, 2) + host
  }

  function NameEntries(hosts: seq<Bytes>): Bytes {
    if hosts == [] then [] else NameEntry(hosts[0]) + NameEntries(hosts[1..])
  }

  /** The data of a server_name extension that lists hosts, one typed entry each. */
  function ServerName(hosts: seq<Bytes>): Bytes {
    BE(|NameEntries(hosts)|, 2) + NameEntries(hosts)
  }

  lemma OneEntry(host: Bytes)
    ensures NameEntries([host]) == NameEntry(host)
  {
    assert [host][1..] == [];
    assert NameEntries([host]) == NameEntry(host) + NameEntries([host][1..]);
  }

  lemma ParseOneName(host: Bytes, rest: Bytes)
    requires |host| < 65536
    ensures ParseNames(BE(|host|, 2) + host + rest) == ConsName(host, ParseNames(rest))
  {
    var b := BE(|host|, 2) + host + rest;
    Word16(|host|);
    assert b[..2] == BE(|host|, 2);
    assert b[2..2 + |host|] == host;
    assert b[2 + |host|..] == rest;
  }

  lemma EntriesFront(hosts: seq<Bytes>)
    requires hosts != []
    ensures NameEntries(hosts) == [0] + (BE(|hosts[0]|, 2) + hosts[0] + NameEntries(hosts[1..]))
  {
  }

  lemma ParseList(h: Bytes, names: Bytes)
    requires |h| == 2 && FromBE(h) != 0
    ensures ParseServerName(h + ([0] + names)) == ParseNames(names)
  {
    var d := h + ([0] + names);
    assert d[..2] == h;
    assert d[2] == 0;
    assert d[3..] == names;
  }

  lemma ServerNameEntries(hosts: seq<Bytes>)
    requires hosts != [] && |NameEntries(hosts)| < 65536
    ensures |hosts[0]| < 65536
    ensures ParseServerName(ServerName(hosts)) == ConsName(hosts[0], ParseNames(NameEntries(hosts[1..])))
  {
    EntriesFront(hosts);
    var h := BE(|NameEntries(hosts)|, 2);
    Word16(|NameEntries(hosts)|);
    ParseList(h, BE(|hosts[0]|, 2) + hosts[0] + NameEntries(hosts[1..]));
    ParseOneName(hosts[0], NameEntries(hosts[1..]));
  }

  /** The bytes that names take up as the parser reads them, without a type in front of each. */
  function NameBytes(names: seq<Bytes>): nat {
    if names == [] then 0 else 2 + |names[0]| + NameBytes(names[1..])
  }

  /** A list is read only if its names use it up. */
  lemma {:induction false} ParseUsesAll(b: Bytes)
    ensures ParseNames(b).Names? ==> NameBytes(ParseNames(b).names) == |b|
    decreases |b|
  {
    if |b| >= 2 && FromBE(b[..2]) <= |b| - 2 {
      var n := FromBE(b[..2]);
      ParseUsesAll(b[2 + n..]);
      var later := ParseNames(b[2 + n..]);
      if later.Names? {
        assert ([b[2..2 + n]] + later.names)[1..] == later.names;
      }
    }
  }

  lemma {:induction false} EntriesAreLonger(hosts: seq<Bytes>)
    ensures |NameEntries(hosts)| == NameBytes(hosts) + |hosts|
  {
    if hosts != [] {
      EntriesAreLonger(hosts[1..]);
    }
  }

  /** A server_name extension is read back exactly when it lists at most one host: the type byte of every further
      entry is taken for part of a length. */
  lemma ServerNameIff(hosts: seq<Bytes>)
    requires |NameEntries(hosts)| < 65536
    ensures ParseServerName(ServerName(hosts)) == Names(hosts) <==> |hosts| <= 1
  {
    if hosts == [] {
      Word16(0);
      assert ServerName(hosts)[..2] == BE(0, 2);
    } else {
      ServerNameEntries(hosts);
      var later := ParseNames(NameEntries(hosts[1..]));
      if |hosts| == 1 {
        assert hosts[1..] == [];
        assert [hosts[0]] + [] == hosts;
      } else if later.Names? {
        ParseUsesAll(NameEntries(hosts[1..]));
        EntriesAreLonger(hosts[1..]);
        assert ([hosts[0]] + later.names)[1..] == later.names;
      }
    }
  }

  lemma {:induction false} ScanToServerName(before: seq<Extension>, e: Extension, after: seq<Extension>)
    requires forall i :: 0 <= i < |before| ==> before[i].kind != 0 && |before[i].data| < 65536
    requires e.kind == 0 && |e.data| < 65536
    ensures ScanExtensions(ExtensionList(before + [e] + after)) == ParseServerName(e.data)
    decreases |before|
  {
    var es := before + [e] + after;
    var rest := ExtensionList(es[1..]);
    if before == [] {
      assert es[0] == e;
      ScanOne(e, rest);
    } else {
      assert es[0] == before[0];
      assert es[1..] == before[1..] + [e] + after;
      ScanOne(before[0], rest);
      ScanToServerName(before[1..], e, after);
    }
  }

  /** Without a server_name extension nobody is named. */
  lemma {:induction false} ScanFindsNone(es: seq<Extension>)
    requires forall i :: 0 <= i < |es| ==> es[i].kind != 0 && |es[i].data| < 65536
    ensures ScanExtensions(ExtensionList(es)) == Names([])
    decreases |es|
  {
    if es != [] {
      ScanOne(es[0], ExtensionList(es[1..]));
      ScanFindsNone(es[1..]);
    }
  }

  lemma KindBytes(kind: Suite)
    ensures BE(kind, 2) == [0, 0] <==> kind == 0
  {
    Word16(kind);
    Word16(0);
    assert BE(0, 2) == BE(0, 1) + [0];
    assert BE(0, 1) == BE(0, 0) + [0];
    assert BE(0, 2) == [0, 0];
  }

  lemma ScanOne(e: Extension, rest: Bytes)
    requires |e.data| < 65536
    ensures ScanExtensions(ExtensionBytes(e) + rest)
         == if e.kind == 0 then ParseServerName(e.data) else ScanExtensions(rest)
  {
    var b := ExtensionBytes(e) + rest;
    assert b[..2] == BE(e.kind, 2);
    assert b[2..4] == BE(|e.data|, 2);
    Word16(|e.data|);
    KindBytes(e.kind);
    assert b[4..4 + |e.data|] == e.data;
    assert b[4 + |e.data|..] == rest;
  }

  lemma TailRoundTrip(f: HelloFields)
    requires Fits(f)
    ensures ParseSni(Tail(f)) == ScanExtensions(ExtensionList(f.extensions))
  {
    var n := |ExtensionList(f.extensions)|;
    Word16(n);
    assert Tail(f)[..2] == BE(n, 2);
    assert Tail(f)[2..2 + n] == ExtensionList(f.extensions);
  }

  /** The first server_name extension is found behind any others and its single host returned. */
  lemma SniRoundTrip(f: HelloFields, before: seq<Extension>, host: Bytes, after: seq<Extension>)
    requires Fits(f)
    requires f.extensions == before + [Extension(0, ServerName([host]))] + after
    requires forall i :: 0 <= i < |before| ==> before[i].kind != 0
    ensures ParseSni(Tail(f)) == Names([host])
  {
    TailRoundTrip(f);
    OneEntry(host);
    forall i | 0 <= i < |before|
      ensures |before[i].data| < 65536
    {
      assert f.extensions[i] == before[i];
    }
    assert f.extensions[|before|].data == ServerName([host]);
    assert |NameEntries([host])| < 65536;
    ScanToServerName(before, Extension(0, ServerName([host])), after);
    ServerNameIff([host]);
  }

  /** End to end: a ClientHello whose first server_name extension holds one host yields its session id, its
      first usable suite and exactly that host. */
  lemma HelloRoundTrip(f: HelloFields, before: seq<Extension>, host: Bytes, after: seq<Extension>)
    requires Fits(f)
    requires f.extensions == before + [Extension(0, ServerName([host]))] + after
    requires forall i :: 0 <= i < |before| ==> before[i].kind != 0
    requires exists i :: 0 <= i < |f.suites| && IsUsable(f.suites[i])
    ensures var r := ParseHandshake(EncodeHello(f));
            && r.Handshake?
            && r.hello.random == f.random && r.hello.sessionId == f.sessionId
            && IsFirstUsable(f.suites, r.hello.cipherSuite)
            && ParseSni(r.rest) == Names([host])
  {
    HandshakeRoundTrip(f);
    SniRoundTrip(f, before, host, after);
  }

  lemma OddListParses(h: Bytes, list: Bytes, n: nat, rest: Bytes, random: Bytes, sessionId: Bytes)
    requires |h| == 2 && |list| == 2 * n && FromBE(h) == 2 * n + 1
    ensures ParseCiphers(random, sessionId, h + list + rest)
         == ParseCompression(random, sessionId, FirstSuite(list), rest)
  {
    ThreeParts(h, list, rest);
    assert FromBE(h) / 2 == n;
  }

  /** A ClientHello whose cipher list has one more byte, `odd`. */
  function EncodeOddHello(f: HelloFields, odd: byte): Bytes
    requires Fits(f)
  {
    f.version + f.random + [|f.sessionId|] + f.sessionId
    + (BE(2 * |f.suites| + 1, 2) + SuiteBytes(f.suites) + ([odd] + CompressionPart(f)))
  }

  /** The odd byte stays in the stream and is read as the length of the compression list. Parsing still ends at the
      extensions exactly when that byte happens to count the real list and its length. */
  lemma OddCipherList(f: HelloFields, odd: byte)
    requires Fits(f) && 2 * |f.suites| + 1 < 65536
    ensures var r := ParseHandshake(EncodeOddHello(f, odd));
            r.Handshake? && r.rest == Tail(f) <==>
              odd == 1 + |f.compression| && exists i :: 0 <= i < |f.suites| && IsUsable(f.suites[i])
  {
    var h := BE(2 * |f.suites| + 1, 2);
    var rest := [odd] + CompressionPart(f);
    SessionParses(f, h + SuiteBytes(f.suites) + rest);
    Word16(2 * |f.suites| + 1);
    OddListParses(h, SuiteBytes(f.suites), |f.suites|, rest, f.random, f.sessionId);
    FirstSuiteIsFirst(f.suites);
    OddCompression(f, odd, FirstSuite(SuiteBytes(f.suites)));
  }

  lemma OddCompression(f: HelloFields, odd: byte, suite: nat)
    requires |f.compression| < 256
    ensures var r := ParseCompression(f.random, f.sessionId, suite, [odd] + CompressionPart(f));
            r.Handshake? && r.rest == Tail(f) <==> suite != 0 && odd == 1 + |f.compression|
  {
    var left := CompressionPart(f);
    var rest := [odd] + left;
    assert |left| == 1 + |f.compression| + |Tail(f)|;
    if odd <= |left| {
      assert rest[1 + odd..] == left[odd..];
      assert left[1 + |f.compression|..] == Tail(f);
    }
  }

  // ---------------------------------------------------------------- the parsers as they run

  /** bytes.Buffer as the parsers use it. */
  class ByteBuffer {
    var data: Bytes

    constructor (data: Bytes)
      ensures this.data == data
    {
      this.data := data;
    }

    /** io.ReadFull. */
    method ReadFull(n: nat) returns (r: FullRead)
      modifies this
      ensures n <= |old(data)| ==> r == Data(old(data)[..n]) && data == old(data)[n..]
      ensures n > |old(data)| ==> r == Short && data == []
    {
      if n > |data| {
        data := [];
        return Short;
      }
      r := Data(data[..n]);
      data := data[n..];
    }

    /** Up to n bytes. */
    method Next(n: nat) returns (b: Bytes)
      modifies this
      ensures b == old(data)[..Min(n, |old(data)|)]
      ensures data == old(data)[Min(n, |old(data)|)..]
    {
      var k := Min(n, |data|);
      b := data[..k];
      data := data[k..];
    }
  }

  datatype SuiteRead = Suite(suite: nat) | NoSuite

  /** The loop over the cipher list: scans to the end, keeps the first usable suite. */
  method ScanSuites(r: ByteBuffer, n: nat) returns (s: SuiteRead)
    modifies r
    ensures s.NoSuite? <==> |old(r.data)| < 2 * n
    ensures s.Suite? ==> s.suite == FirstSuite(old(r.data)[..2 * n]) && r.data == old(r.data)[2 * n..]
  {
    var suite := 0;
    ghost var all := r.data;
    ghost var list := if |all| < 2 * n then all else all[..2 * n];
    for i := 0 to n
      invariant 2 * i <= |all| && r.data == all[2 * i..]
      invariant |all| >= 2 * n ==> suite != 0 ==> FirstSuite(list) == suite
      invariant |all| >= 2 * n ==> suite == 0 ==> FirstSuite(list) == FirstSuite(list[2 * i..])
    {
      var pair := r.ReadFull(2);
      if pair.Short? {
        return NoSuite;
      }
      if |all| >= 2 * n {
        assert list[2 * i..][..2] == pair.bytes;
        assert list[2 * i..][2..] == list[2 * (i + 1)..];
      }
      if suite == 0 {
        var cs := FromBE(pair.bytes);
        if !IsGrease(cs) {
          suite := cs;
        }
      }
    }
    s := Suite(suite);
  }

  datatype HelloResult = HelloOk(hello: ClientHello) | HelloBad(error: HelloError)

  method ParseHandshakeFrom(r: ByteBuffer) returns (h: HelloResult)
    modifies r
    ensures match ParseHandshake(old(r.data))
            case Handshake(hello, rest) => h == HelloOk(hello) && r.data == rest
            case BadHandshake(e) => h == HelloBad(e)
  {
    ghost var all := r.data;
    var version := r.ReadFull(2);
    if version.Short? {
      return HelloBad(ShortVersion);
    }
    var random := r.ReadFull(32);
    if random.Short? {
      return HelloBad(ShortRandom);
    }
    assert random.bytes == all[2..34] && r.data == all[34..];
    h := ParseSessionFrom(r, random.bytes);
  }

  method ParseSessionFrom(r: ByteBuffer, random: Bytes) returns (h: HelloResult)
    modifies r
    ensures match ParseSession(random, old(r.data))
            case Handshake(hello, rest) => h == HelloOk(hello) && r.data == rest
            case BadHandshake(e) => h == HelloBad(e)
  {
    ghost var all := r.data;
    var length := r.ReadFull(1);
    if length.Short? {
      return HelloBad(ShortSessionIdLength);
    }
    var sessionId := r.ReadFull(length.bytes[0]);
    if sessionId.Short? {
      return HelloBad(ShortSessionId);
    }
    assert sessionId.bytes == all[1..1 + all[0]] && r.data == all[1 + all[0]..];
    h := ParseCiphersFrom(r, random, sessionId.bytes);
  }

  method ParseCiphersFrom(r: ByteBuffer, random: Bytes, sessionId: Bytes) returns (h: HelloResult)
    modifies r
    ensures match ParseCiphers(random, sessionId, old(r.data))
            case Handshake(hello, rest) => h == HelloOk(hello) && r.data == rest
            case BadHandshake(e) => h == HelloBad(e)
  {
    ghost var all := r.data;
    var length := r.ReadFull(2);
    if length.Short? {
      return HelloBad(ShortCipherLength);
    }
    var n := FromBE(length.bytes) / 2;
    var suite := ScanSuites(r, n);
    if suite.NoSuite? {
      return HelloBad(ShortCipher);
    }
    assert all[2..][..2 * n] == all[2..2 + 2 * n] && r.data == all[2 + 2 * n..];
    h := ParseCompressionFrom(r, random, sessionId, suite.suite);
  }

  method ParseCompressionFrom(r: ByteBuffer, random: Bytes, sessionId: Bytes, suite: nat) returns (h: HelloResult)
    modifies r
    ensures match ParseCompression(random, sessionId, suite, old(r.data))
            case Handshake(hello, rest) => h == HelloOk(hello) && r.data == rest
            case BadHandshake(e) => h == HelloBad(e)
  {
    ghost var all := r.data;
    if suite == 0 {
      return HelloBad(NoCipher);
    }
    var length := r.ReadFull(1);
    if length.Short? {
      return HelloBad(ShortCompressionLength);
    }
    var skipped := r.ReadFull(length.bytes[0]);
    if skipped.Short? {
      return HelloBad(ShortCompression);
    }
    assert r.data == all[1 + all[0]..];
    h := HelloOk(ClientHello(random, sessionId, suite));
  }

  /** parseSNI; both loops end because each pass takes at least two bytes off its buffer. */
  method ParseSniFrom(r: ByteBuffer) returns (s: SniRead)
    modifies r
    ensures s == ParseSni(old(r.data))
  {
    ghost var all := r.data;
    var header := r.ReadFull(2);
    if header.Short? {
      return BadSni(ShortExtensionsLength);
    }
    var extensions := r.ReadFull(FromBE(header.bytes));
    if extensions.Short? {
      return BadSni(ShortExtensions);
    }
    assert extensions.bytes == all[2..2 + FromBE(header.bytes)];
    s := ScanFrom(extensions.bytes);
  }

  method NextExtensionFrom(buf: ByteBuffer) returns (e: ExtensionRead)
    modifies buf
    ensures e == NextExtension(old(buf.data))
    ensures e.Found? ==> buf.data == e.rest
  {
    ghost var all := buf.data;
    var extType := buf.Next(2);
    if |extType| != 2 {
      return BadExtension(ShortExtensionType);
    }
    var lengthB := buf.Next(2);
    if |lengthB| != 2 {
      return BadExtension(ShortExtensionLength);
    }
    assert lengthB == all[2..4];
    var length := FromBE(lengthB);
    var extData := buf.Next(length);
    if |extData| != length {
      return BadExtension(ShortExtension);
    }
    assert extData == all[4..4 + length] && buf.data == all[4 + length..];
    e := Found(extType, extData, buf.data);
  }

  method ScanFrom(extensions: Bytes) returns (s: SniRead)
    ensures s == ScanExtensions(extensions)
  {
    var buf := new ByteBuffer(extensions);
    while |buf.data| > 0
      invariant ScanExtensions(buf.data) == ScanExtensions(extensions)
      decreases |buf.data|
    {
      var e := NextExtensionFrom(buf);
      if e.BadExtension? {
        return BadSni(e.error);
      }
      if e.kind == [0, 0] {
        s := ServerNameFrom(e.data);
        return;
      }
    }
    s := Names([]);
  }

  method ServerNameFrom(extData: Bytes) returns (s: SniRead)
    ensures s == ParseServerName(extData)
  {
    if |extData| < 2 {
      return BadSni(ShortListLength);
    }
    if FromBE(extData[..2]) == 0 {
      return Names([]);
    }
    if |extData| < 3 {
      return BadSni(NoListType);
    }
    if extData[2] != 0 {
      return BadSni(BadListType);
    }
    var buf := new ByteBuffer(extData[3..]);
    var names: seq<Bytes> := [];
    while |buf.data| > 0
      invariant ParseNames(extData[3..]) == AllNames(names, ParseNames(buf.data))
      decreases |buf.data|
    {
      ghost var all := buf.data;
      var lengthB := buf.Next(2);
      if |lengthB| != 2 {
        return BadSni(ShortNameLength);
      }
      var length := FromBE(lengthB);
      var name := buf.Next(length);
      if |name| != length {
        return BadSni(ShortName);
      }
      assert name == all[2..2 + length] && buf.data == all[2 + length..];
      AllNamesSnoc(names, name, ParseNames(buf.data));
      names := names + [name];
    }
    s := Names(names);
    assert names + [] == names;
  }

  ghost function AllNames(names: seq<Bytes>, r: SniRead): SniRead {
    match r
    case Names(more) => Names(names + more)
    case BadSni(_) => r
  }

  lemma AllNamesSnoc(names: seq<Bytes>, name: Bytes, r: SniRead)
    ensures AllNames(names, ConsName(name, r)) == AllNames(names + [name], r)
  {
    if r.Names? {
      assert names + ([name] + r.names) == names + [name] + r.names;
    }
  }
}
