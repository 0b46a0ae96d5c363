/** ReadClientHelloMulti of mtglib/internal/tls/fake/client_side.go and the fronting branches of
    doFakeTLSHandshake in mtglib/proxy.go. */
module FakeTls {
  import opened ByteCodec
  import opened RewindConn
  import opened Fragments
  import opened HelloParser
  import SecretSets
  import Quota
  import LiveConns

  const RANDOM_OFFSET := 11
  const RANDOM_END := 43
  const NANOSECONDS := 1_000_000_000

  type Digest = d: Bytes | |d| == 32 witness seq(32, i => 0)

  /** HMAC-SHA256 is any function of secret and message. */
  type Hmac = (Bytes, Bytes) -> Digest

  /** The hello with its random nullified. */
  function SignedInput(copy: Bytes): (r: Bytes)
    requires |copy| >= RANDOM_END
    ensures |r| == |copy|
  {
    copy[..RANDOM_OFFSET] + Zeros(32) + copy[RANDOM_END..]
  }

  /** The digest XORed with the client's random: 28 zero bytes and a timestamp when the secret is right. */
  function Unmasked(hmac: Hmac, secret: Bytes, copy: Bytes, random: Digest): Digest
    requires |copy| >= RANDOM_END
  {
    XorBytes(hmac(secret, SignedInput(copy)), random)
  }

  function Abs(n: int): nat {
    if n < 0 then -n else n
  }

  predicate Accepts(hmac: Hmac, secret: Bytes, copy: Bytes, random: Digest, now: int, tolerance: nat)
    requires |copy| >= RANDOM_END
  {
    var computed := Unmasked(hmac, secret, copy, random);
    computed[..28] == Zeros(28) && Abs(now - FromLE(computed[28..]) * NANOSECONDS) <= tolerance
  }

  /** The reading of the clock when each secret is tried. */
  type Readings = nat -> int

  /** Accepted is exactly the random that a holder of the secret would have sent within the tolerance: the HMAC of the
      hello with 32 zero bytes for its random, XORed with 28 zero bytes and a time. */
  lemma AcceptsIff(hmac: Hmac, secret: Bytes, copy: Bytes, random: Digest, now: int, tolerance: nat)
    requires |copy| >= 43
    ensures Accepts(hmac, secret, copy, random, now, tolerance) <==>
            exists time: nat :: time < 0x1_0000_0000 && Abs(now - time * 1_000_000_000) <= tolerance
                                && random == Signed(hmac, secret, copy[..11] + Zeros(32) + copy[43..], time)
  {
    var digest := hmac(secret, copy[..11] + Zeros(32) + copy[43..]);
    var computed := Unmasked(hmac, secret, copy, random);
    XorBytesBack(digest, random);
    if Accepts(hmac, secret, copy, random, now, tolerance) {
      var time := FromLE(computed[28..]);
      Pow256Values();
      LEInverse(computed[28..]);
      assert computed == Zeros(28) + LE(time, 4);
      assert random == Signed(hmac, secret, copy[..11] + Zeros(32) + copy[43..], time);
    }
    forall time: nat | time < 0x1_0000_0000 && random == Signed(hmac, secret, copy[..11] + Zeros(32) + copy[43..], time)
      ensures computed == Zeros(28) + LE(time, 4) && computed[..28] == Zeros(28) && FromLE(computed[28..]) == time
    {
      XorBytesBack(digest, Zeros(28) + LE(time, 4));
      MaskedTime(time);
    }
  }

  /** What a holder of the secret sends as its random. */
  function Signed(hmac: Hmac, secret: Bytes, blank: Bytes, time: nat): Digest {
    XorBytes(hmac(secret, blank), Zeros(28) + LE(time, 4))
  }

  lemma XorBytesBack(a: Bytes, b: Bytes)
    requires |a| == |b|
    ensures XorBytes(a, XorBytes(a, b)) == b
  {
    forall i | 0 <= i < |a|
      ensures XorBytes(a, XorBytes(a, b))[i] == b[i]
    {
      XorCancels(a[i], XorBytes(a, b)[i]);
      XorCancels(b[i], a[i]);
      XorCancels(a[i], b[i]);
    }
  }

  /** The first secret at or after `from` that accepts the hello. */
  function FirstMatch(hmac: Hmac, secrets: seq<Bytes>, from: nat, copy: Bytes, random: Digest, now: Readings,
                      tolerance: nat): (r: Option<nat>)
    requires |copy| >= RANDOM_END && from <= |secrets|
    ensures r.Some? ==> from <= r.value < |secrets|
                        && Accepts(hmac, secrets[r.value], copy, random, now(r.value), tolerance)
                        && forall i :: from <= i < r.value ==> !Accepts(hmac, secrets[i], copy, random, now(i), tolerance)
    ensures r.None? ==> forall i :: from <= i < |secrets| ==> !Accepts(hmac, secrets[i], copy, random, now(i), tolerance)
    decreases |secrets| - from
  {
    if from == |secrets| then None
    else if Accepts(hmac, secrets[from], copy, random, now(from), tolerance) then Some(from)
    else FirstMatch(hmac, secrets, from + 1, copy, random, now, tolerance)
  }

  /** The first allowed host the client named; an empty one counts as none. */
  function FirstHost(hostnames: seq<Bytes>, names: seq<Bytes>): Bytes {
    if hostnames == [] then []
    else if hostnames[0] in names then hostnames[0]
    else FirstHost(hostnames[1..], names)
  }

  /** The order of the allowed hosts decides, not the order in which the client names them. */
  lemma {:induction false} FirstHostIsFirst(hostnames: seq<Bytes>, names: seq<Bytes>, i: nat)
    requires i <= |hostnames| && forall j :: 0 <= j < i ==> hostnames[j] !in names
    ensures i < |hostnames| && hostnames[i] in names ==> FirstHost(hostnames, names) == hostnames[i]
    ensures i == |hostnames| ==> FirstHost(hostnames, names) == []
    decreases i
  {
    if i > 0 {
      FirstHostIsFirst(hostnames[1..], names, i - 1);
    }
  }

  datatype MultiResult =
    | Matched(hello: ClientHello, index: nat, host: Bytes)
    | BadDigest(host: Bytes)
    | NoRecord(fragment: FragmentError)
    | NoHandshake(helloError: HelloError)
    | NoServerName(sniError: SniError)
    | UnknownHost

  lemma RandomIsDigest(body: Bytes)
    requires ParseHandshake(body).Handshake?
    ensures |body| >= 34 && ParseHandshake(body).hello.random == body[2..34]
  {
  }

  /** Everything after reassembly; `copy` is always long enough to be cut at the random. */
  function Evaluate(hmac: Hmac, secrets: seq<Bytes>, hostnames: seq<Bytes>, now: Readings, tolerance: nat,
                    copy: Bytes, body: Bytes): MultiResult
    requires |copy| == 9 + |body|
  {
    match ParseHandshake(body)
    case BadHandshake(e) => NoHandshake(e)
    case Handshake(hello, rest) =>
      match ParseSni(rest)
      case BadSni(e) => NoServerName(e)
      case Names(names) =>
        var host := FirstHost(hostnames, names);
        if host == [] then UnknownHost
        else
          RandomIsDigest(body);
          match FirstMatch(hmac, secrets, 0, copy, hello.random, now, tolerance)
          case Some(i) => Matched(hello, i, host)
          case None => BadDigest(host)
  }

  function ReadMulti(hmac: Hmac, secrets: seq<Bytes>, hostnames: seq<Bytes>, now: Readings, tolerance: nat,
                     src: Bytes): MultiResult
  {
    match ParseClientHello(src)
    case NoHello(e, _) => NoRecord(e)
    case Hello(copy, body, _) => Evaluate(hmac, secrets, hostnames, now, tolerance, copy, body)
  }

  /** Two splits of one message are judged alike, whatever is sent after either of them. */
  lemma SplitDoesNotMatter(hmac: Hmac, secrets: seq<Bytes>, hostnames: seq<Bytes>, now: Readings, tolerance: nat,
                           body: Bytes, ps: seq<Payload>, rest: Bytes, qs: seq<Payload>, more: Bytes)
    requires |body| < 16777216
    requires Carries(ps, Message(body)) && |ps| <= 11
    requires Carries(qs, Message(body)) && |qs| <= 11
    ensures ReadMulti(hmac, secrets, hostnames, now, tolerance, Records(ps) + rest)
         == ReadMulti(hmac, secrets, hostnames, now, tolerance, Records(qs) + more)
  {
    AnySplit(body, ps, rest);
    AnySplit(body, qs, more);
  }

  // ---------------------------------------------------------------- a client that knows the secret

  function Blank(f: HelloFields): HelloFields {
    f.(random := Zeros(32))
  }

  /** The random a client sends: the digest of its blank hello, masked with the time. */
  function ClientRandom(hmac: Hmac, secret: Bytes, f: HelloFields, time: nat): Digest
    requires Fits(f) && |EncodeHello(f)| <= 65531
  {
    assert |EncodeHello(Blank(f))| == |EncodeHello(f)|;
    XorBytes(hmac(secret, RecordBytes(Message(EncodeHello(Blank(f))))), Zeros(28) + LE(time, 4))
  }

  lemma RecordLayout(f: HelloFields)
    requires Fits(f) && |EncodeHello(f)| <= 65531
    ensures var r := RecordBytes(Message(EncodeHello(f)));
            r == r[..9] + f.version + f.random + r[RANDOM_END..] && |r| == 9 + |EncodeHello(f)|
    ensures RecordBytes(Message(EncodeHello(f)))[RANDOM_END..] == EncodeHello(f)[34..]
  {
    var r := RecordBytes(Message(EncodeHello(f)));
    assert r[9..] == EncodeHello(f);
    assert r[9..11] == EncodeHello(f)[..2] == f.version;
    assert r[11..43] == EncodeHello(f)[2..34] == f.random;
    assert r[43..] == EncodeHello(f)[34..];
  }

  lemma BlankTail(f: HelloFields)
    requires Fits(f)
    ensures |EncodeHello(Blank(f))| == |EncodeHello(f)|
    ensures EncodeHello(Blank(f))[34..] == EncodeHello(f)[34..]
    ensures EncodeHello(Blank(f))[..2] == EncodeHello(f)[..2]
  {
    var rest := [|f.sessionId|] + f.sessionId + CipherPart(f);
    assert CipherPart(Blank(f)) == CipherPart(f);
    assert EncodeHello(f) == f.version + f.random + rest;
    assert EncodeHello(Blank(f)) == f.version + Zeros(32) + rest;
  }

  /** Server and client sign the same bytes. */
  lemma SameSignedInput(f: HelloFields)
    requires Fits(f) && |EncodeHello(f)| <= 65531
    ensures |EncodeHello(Blank(f))| == |EncodeHello(f)|
    ensures |RecordBytes(Message(EncodeHello(f)))| >= RANDOM_END
    ensures SignedInput(RecordBytes(Message(EncodeHello(f)))) == RecordBytes(Message(EncodeHello(Blank(f))))
  {
    BlankTail(f);
    RecordLayout(f);
    RecordLayout(Blank(f));
    var r := RecordBytes(Message(EncodeHello(f)));
    var b := RecordBytes(Message(EncodeHello(Blank(f))));
    assert r[..9] == b[..9];
    assert r[..RANDOM_OFFSET] == r[..9] + f.version;
  }

  lemma MaskedTime(time: nat)
    requires time < 0x1_0000_0000
    ensures (Zeros(28) + LE(time, 4))[..28] == Zeros(28)
    ensures FromLE((Zeros(28) + LE(time, 4))[28..]) == time
  {
    assert (Zeros(28) + LE(time, 4))[28..] == LE(time, 4);
    Pow256Values();
    LERoundTrip(time, 4);
  }

  /** What the server unmasks is exactly the time the client put in. */
  lemma UnmaskClientRandom(hmac: Hmac, secret: Bytes, f: HelloFields, time: nat)
    requires Fits(f) && |EncodeHello(f)| <= 65531 && time < 0x1_0000_0000
    requires f.random == ClientRandom(hmac, secret, f, time)
    ensures |RecordBytes(Message(EncodeHello(f)))| >= RANDOM_END
    ensures Unmasked(hmac, secret, RecordBytes(Message(EncodeHello(f))), f.random) == Zeros(28) + LE(time, 4)
  {
    SameSignedInput(f);
    var digest := hmac(secret, RecordBytes(Message(EncodeHello(Blank(f)))));
    var mask := Zeros(28) + LE(time, 4);
    assert f.random == XorBytes(digest, mask);
    forall i | 0 <= i < 32
      ensures XorBytes(digest, f.random)[i] == mask[i]
    {
      XorCancels(digest[i], mask[i]);
      XorCancels(mask[i], digest[i]);
      XorCancels(digest[i], f.random[i]);
    }
    assert XorBytes(digest, f.random) == mask;
  }

  lemma AcceptsClientRandom(hmac: Hmac, secret: Bytes, f: HelloFields, time: nat, now: int, tolerance: nat)
    requires Fits(f) && |EncodeHello(f)| <= 65531 && time < 0x1_0000_0000
    requires f.random == ClientRandom(hmac, secret, f, time)
    ensures |RecordBytes(Message(EncodeHello(f)))| >= RANDOM_END
    ensures Accepts(hmac, secret, RecordBytes(Message(EncodeHello(f))), f.random, now, tolerance)
       <==> Abs(now - time * NANOSECONDS) <= tolerance
  {
    UnmaskClientRandom(hmac, secret, f, time);
    MaskedTime(time);
  }

  /** A client with the i-th secret, a clock within tolerance and an allowed host is matched to that host, however it
      splits its hello into records; and to that secret exactly when no earlier one accepts the hello too. */
  lemma ClientAccepted(hmac: Hmac, secrets: seq<Bytes>, hostnames: seq<Bytes>, now: Readings, tolerance: nat,
                       f: HelloFields, before: seq<Extension>, host: Bytes, after: seq<Extension>,
                       index: nat, time: nat, ps: seq<Payload>, rest: Bytes)
    requires Fits(f) && |EncodeHello(f)| <= 65531
    requires f.extensions == before + [Extension(0, ServerName([host]))] + after
    requires forall i :: 0 <= i < |before| ==> before[i].kind != 0
    requires host != [] && host in hostnames
    requires exists i :: 0 <= i < |f.suites| && IsUsable(f.suites[i])
    requires index < |secrets| && time < 0x1_0000_0000
    requires f.random == ClientRandom(hmac, secrets[index], f, time)
    requires Abs(now(index) - time * NANOSECONDS) <= tolerance
    requires Carries(ps, Message(EncodeHello(f))) && |ps| <= 11
    ensures |RecordBytes(Message(EncodeHello(f)))| >= RANDOM_END
    ensures var r := ReadMulti(hmac, secrets, hostnames, now, tolerance, Records(ps) + rest);
            && r.Matched? && r.index <= index && r.host == host && r.hello.sessionId == f.sessionId
            && (r.index == index <==> forall i :: 0 <= i < index ==>
                  !Accepts(hmac, secrets[i], RecordBytes(Message(EncodeHello(f))), f.random, now(i), tolerance))
  {
    assert RecordBytes(Message(EncodeHello(f))) == Copy(EncodeHello(f));
    HelloJudged(hmac, secrets, hostnames, now, tolerance, f, before, host, after, ps, rest);
    AcceptsClientRandom(hmac, secrets[index], f, time, now(index), tolerance);
  }

  /** The record in which a reassembled message is signed. */
  function Copy(body: Bytes): Bytes {
    [0x16, 3, 1] + BE(|Message(body)|, 2) + Message(body)
  }

  predicate AnyUsable(f: HelloFields) {
    exists i :: 0 <= i < |f.suites| && IsUsable(f.suites[i])
  }

  /** The right verdict on a hello that names one host: a host that is not allowed is unknown; an allowed one that no
      secret accepts is known all the same; otherwise the hello is matched to that host and to the first secret that
      accepts it. */
  ghost predicate RightVerdict(r: MultiResult, hmac: Hmac, secrets: seq<Bytes>, hostnames: seq<Bytes>, now: Readings,
                               tolerance: nat, copy: Bytes, random: Digest, sessionId: Bytes, host: Bytes)
    requires |copy| >= RANDOM_END
  {
    if host == [] || host !in hostnames then r == UnknownHost
    else if forall i :: 0 <= i < |secrets| ==> !Accepts(hmac, secrets[i], copy, random, now(i), tolerance)
    then r == BadDigest(host)
    else
      && r.Matched? && r.host == host && r.index < |secrets| && r.hello.sessionId == sessionId
      && Accepts(hmac, secrets[r.index], copy, random, now(r.index), tolerance)
      && forall i :: 0 <= i < r.index ==> !Accepts(hmac, secrets[i], copy, random, now(i), tolerance)
  }

  lemma EvaluateOneHost(hmac: Hmac, secrets: seq<Bytes>, hostnames: seq<Bytes>, now: Readings, tolerance: nat,
                        copy: Bytes, body: Bytes, host: Bytes)
    requires |copy| == 9 + |body|
    requires ParseHandshake(body).Handshake? && ParseSni(ParseHandshake(body).rest) == Names([host])
    ensures var hello := ParseHandshake(body).hello;
            |copy| >= RANDOM_END && |hello.random| == 32
            && RightVerdict(Evaluate(hmac, secrets, hostnames, now, tolerance, copy, body), hmac, secrets, hostnames, now,
                            tolerance, copy, hello.random, hello.sessionId, host)
  {
    OnlyHost(hostnames, host);
    RandomIsDigest(body);
  }

  lemma HelloBound(f: HelloFields)
    requires Fits(f)
    ensures |EncodeHello(f)| < 16777216
  {
  }

  /** Every hello in the RFC layout whose first server_name extension holds one host gets the right verdict, however it
      is split into records; without a usable suite it is no handshake. */
  lemma HelloJudged(hmac: Hmac, secrets: seq<Bytes>, hostnames: seq<Bytes>, now: Readings, tolerance: nat,
                    f: HelloFields, before: seq<Extension>, host: Bytes, after: seq<Extension>,
                    ps: seq<Payload>, rest: Bytes)
    requires Fits(f)
    requires f.extensions == before + [Extension(0, ServerName([host]))] + after
    requires forall i :: 0 <= i < |before| ==> before[i].kind != 0
    requires Carries(ps, Message(EncodeHello(f))) && |ps| <= 11
    ensures |Copy(EncodeHello(f))| >= RANDOM_END
    ensures var r := ReadMulti(hmac, secrets, hostnames, now, tolerance, Records(ps) + rest);
            if AnyUsable(f) then
              RightVerdict(r, hmac, secrets, hostnames, now, tolerance, Copy(EncodeHello(f)), f.random, f.sessionId, host)
            else r == NoHandshake(NoCipher)
  {
    var body := EncodeHello(f);
    HelloBound(f);
    AnySplit(body, ps, rest);
    HandshakeRoundTrip(f);
    if AnyUsable(f) {
      SniRoundTrip(f, before, host, after);
      EvaluateOneHost(hmac, secrets, hostnames, now, tolerance, Copy(body), body, host);
    }
  }

  /** And a hello that names nobody. */
  lemma NamelessJudged(hmac: Hmac, secrets: seq<Bytes>, hostnames: seq<Bytes>, now: Readings, tolerance: nat,
                       f: HelloFields, ps: seq<Payload>, rest: Bytes)
    requires Fits(f) && AnyUsable(f)
    requires forall i :: 0 <= i < |f.extensions| ==> f.extensions[i].kind != 0
    requires Carries(ps, Message(EncodeHello(f))) && |ps| <= 11
    ensures ReadMulti(hmac, secrets, hostnames, now, tolerance, Records(ps) + rest) == UnknownHost
  {
    HelloBound(f);
    AnySplit(EncodeHello(f), ps, rest);
    HandshakeRoundTrip(f);
    TailRoundTrip(f);
    ScanFindsNone(f.extensions);
    FirstHostIsFirst(hostnames, [], |hostnames|);
  }

  lemma {:induction false} OnlyHost(hostnames: seq<Bytes>, host: Bytes)
    ensures FirstHost(hostnames, [host]) == if host in hostnames then host else []
  {
    if hostnames != [] && hostnames[0] != host {
      OnlyHost(hostnames[1..], host);
    }
  }

  // ---------------------------------------------------------------- as it runs

  method ReadClientHelloMulti(conn: ConnRewind, hmac: Hmac, secrets: seq<Bytes>, hostnames: seq<Bytes>,
                              now: Readings, tolerance: nat) returns (r: MultiResult)
    requires !conn.rewound
    modifies conn`buf, conn.raw`incoming
    ensures r == ReadMulti(hmac, secrets, hostnames, now, tolerance, old(conn.Ahead()))
    ensures conn.Ahead() == ParseClientHello(old(conn.Ahead())).rest
    ensures conn.Stream() == old(conn.Stream())
  {
    var whole := ReadHello(conn);
    if whole.Torn? {
      return NoRecord(whole.error);
    }
    var reader := new ByteBuffer(whole.body);
    var hello := ParseHandshakeFrom(reader);
    if hello.HelloBad? {
      return NoHandshake(hello.error);
    }
    var sni := ParseSniFrom(reader);
    if sni.BadSni? {
      return NoServerName(sni.error);
    }
    var host := PickHost(hostnames, sni.names);
    if host == [] {
      return UnknownHost;
    }
    RandomIsDigest(whole.body);
    var index := PickSecret(hmac, secrets, whole.copy, hello.hello.random, now, tolerance);
    r := if index.Some? then Matched(hello.hello, index.value, host) else BadDigest(host);
  }

  method PickHost(hostnames: seq<Bytes>, names: seq<Bytes>) returns (host: Bytes)
    ensures host == FirstHost(hostnames, names)
  {
    var i := 0;
    while i < |hostnames|
      invariant 0 <= i <= |hostnames|
      invariant FirstHost(hostnames, names) == FirstHost(hostnames[i..], names)
    {
      if hostnames[i] in names {
        return hostnames[i];
      }
      assert hostnames[i..][1..] == hostnames[i + 1..];
      i := i + 1;
    }
    host := [];
  }

  method PickSecret(hmac: Hmac, secrets: seq<Bytes>, copy: Bytes, random: Digest, now: Readings, tolerance: nat)
    returns (index: Option<nat>)
    requires |copy| >= RANDOM_END
    ensures index == FirstMatch(hmac, secrets, 0, copy, random, now, tolerance)
  {
    var i := 0;
    while i < |secrets|
      invariant 0 <= i <= |secrets|
      invariant FirstMatch(hmac, secrets, 0, copy, random, now, tolerance)
             == FirstMatch(hmac, secrets, i, copy, random, now, tolerance)
    {
      var computed := hmac(secrets[i], copy[..RANDOM_OFFSET] + Zeros(32) + copy[RANDOM_END..]);
      computed := XorBytes(computed, random);
      if computed[..28] == Zeros(28) {
        var timestamp := FromLE(computed[28..]);
        if Abs(now(i) - timestamp * NANOSECONDS) <= tolerance {
          return Some(i);
        }
      }
      i := i + 1;
    }
    index := None;
  }

  /** What a served stream is given, or the host it is fronted to. */
  datatype Outcome = Serve(index: nat, name: Bytes, key: Bytes, adTag: Option<SecretSets.AdTag>) | Front(host: Bytes)

  /** The anti-replay cache: its answer is any function of what it was offered before, and asking offers. */
  class ReplayCache {
    const decide: (seq<Bytes>, Bytes) -> bool
    var offered: seq<Bytes>

    constructor (decide: (seq<Bytes>, Bytes) -> bool)
      ensures this.decide == decide && offered == []
    {
      this.decide, offered := decide, [];
    }

    method SeenBefore(data: Bytes) returns (r: bool)
      modifies this
      ensures r == decide(old(offered), data) && offered == old(offered) + [data]
    {
      r := decide(offered, data);
      offered := offered + [data];
    }
  }

  /** The keys of a snapshot, in its order. */
  function KeyList(set': SecretSets.SecretSet): (r: seq<Bytes>)
    ensures |r| == |set'.secrets|
    ensures forall i :: 0 <= i < |r| ==> r[i] == set'.secrets[i].key
  {
    seq(|set'.secrets|, i requires 0 <= i < |set'.secrets| => set'.secrets[i].key)
  }

  lemma MatchedInRange(hmac: Hmac, secrets: seq<Bytes>, hostnames: seq<Bytes>, now: Readings, tolerance: nat, src: Bytes)
    ensures var r := ReadMulti(hmac, secrets, hostnames, now, tolerance, src);
            r.Matched? ==> r.index < |secrets|
  {
  }

  /** A user who is disabled, expired or, after a rollover that is due, over quota. */
  predicate Denied(lim: SecretSets.Limits, clock: LiveConns.Clock, after: Quota.UserStats) {
    LiveConns.Banned(lim, clock.now)
    || (LiveConns.MetersQuota(lim, clock.now) && after.quotaUsed >= lim.quotaBytes)
  }

  /** From the limits themselves. */
  lemma DeniedIff(lim: SecretSets.Limits, clock: LiveConns.Clock, after: Quota.UserStats)
    ensures Denied(lim, clock, after) <==>
            || lim.disabled
            || (lim.expiresAt != None && lim.expiresAt.value <= clock.now)
            || (lim.quotaBytes > 0 && after.quotaUsed >= lim.quotaBytes)
  {
  }

  function Granted(set': SecretSets.SecretSet, index: nat): Outcome
    requires SecretSets.Aligned(set') && index < |set'.names|
  {
    Serve(index, set'.names[index], set'.secrets[index].key, SecretSets.EffectiveAdTag(set', index))
  }

  /** The limit check of a matched secret; its quota period may roll over. */
  method Admit(p: LiveConns.Proxy, set': SecretSets.SecretSet, index: nat, host: Bytes, clock: LiveConns.Clock,
               month: Quota.Calendar) returns (o: Outcome)
    requires SecretSets.Aligned(set') && index < |set'.names|
    modifies p`stats
    ensures var name, lim := set'.names[index], set'.limits[index];
            var after := LiveConns.Metered(old(LiveConns.StatsOf(p.stats, name)), lim, clock, month);
            && LiveConns.StatsOf(p.stats, name) == after
            && o == if Denied(lim, clock, after) then Front(host) else Granted(set', index)
    ensures forall n :: n != set'.names[index] ==> LiveConns.StatsOf(p.stats, n) == old(LiveConns.StatsOf(p.stats, n))
  {
    var allowed, reason := p.CheckLimits(set'.names[index], set'.limits[index], clock, month);
    o := if allowed then Granted(set', index) else Front(host);
  }

  /** What becomes of a hello: the cache is asked exactly about hellos that match, the limits are checked exactly for
      those it has not seen. */
  ghost predicate Decided(set': SecretSets.SecretSet, result: MultiResult, clock: LiveConns.Clock,
                          month: Quota.Calendar, decide: (seq<Bytes>, Bytes) -> bool, asked: seq<Bytes>,
                          askedNow: seq<Bytes>, stats: Stats, statsNow: Stats, o: Outcome)
    requires Usable(set', result)
  {
    if result.Matched? then
      var name, lim := set'.names[result.index], set'.limits[result.index];
      var before := LiveConns.StatsOf(stats, name);
      var seen := decide(asked, result.hello.sessionId);
      var after := if seen then before else LiveConns.Metered(before, lim, clock, month);
      && askedNow == asked + [result.hello.sessionId]
      && LiveConns.StatsOf(statsNow, name) == after
      && (forall n :: n != name ==> LiveConns.StatsOf(statsNow, n) == LiveConns.StatsOf(stats, n))
      && o == if seen || Denied(lim, clock, after) then Front(result.host) else Granted(set', result.index)
    else
      && askedNow == asked && statsNow == stats
      && o == Front(if result.BadDigest? then result.host else set'.secrets[0].host)
  }

  type Stats = map<Bytes, Quota.UserStats>

  /** The snapshot has the secret that the hello was matched to. */
  predicate Usable(set': SecretSets.SecretSet, result: MultiResult) {
    && SecretSets.Aligned(set') && set'.secrets != []
    && (result.Matched? ==> result.index < |set'.names|)
  }

  method Decide(p: LiveConns.Proxy, cache: ReplayCache, set': SecretSets.SecretSet, result: MultiResult,
                clock: LiveConns.Clock, month: Quota.Calendar) returns (o: Outcome)
    requires Usable(set', result)
    modifies cache, p`stats
    ensures Decided(set', result, clock, month, cache.decide, old(cache.offered), cache.offered, old(p.stats), p.stats, o)
  {
    if !result.Matched? {
      return Front(if result.BadDigest? then result.host else set'.secrets[0].host);
    }
    var seen := cache.SeenBefore(result.hello.sessionId);
    if seen {
      return Front(result.host);
    }
    o := Admit(p, set', result.index, result.host, clock, month);
  }

  /** A proxy's snapshot can be used for every hello. */
  lemma SnapshotUsable(set': SecretSets.SecretSet, t: SecretSets.Table, hmac: Hmac, now: Readings, tolerance: nat,
                       src: Bytes)
    requires SecretSets.Shows(set', t) && SecretSets.Good(t)
    ensures Usable(set', ReadMulti(hmac, KeyList(set'), set'.hostnames, now, tolerance, src))
  {
    SecretSets.NoElements(set'.names);
    MatchedInRange(hmac, KeyList(set'), set'.hostnames, now, tolerance, src);
  }

  /** The hello is read and decided on, with the tee still running. */
  method ReadAndDecide(p: LiveConns.Proxy, conn: ConnRewind, cache: ReplayCache, set': SecretSets.SecretSet, hmac: Hmac,
                       now: Readings, tolerance: nat, clock: LiveConns.Clock, month: Quota.Calendar, ghost src: Bytes,
                       ghost t: SecretSets.Table) returns (o: Outcome, ghost result: MultiResult)
    requires SecretSets.Shows(set', t) && SecretSets.Good(t)
    requires !conn.rewound && conn.buf == [] && conn.raw.incoming == src
    modifies conn`buf, conn.raw`incoming, cache, p`stats
    ensures result == ReadMulti(hmac, KeyList(set'), set'.hostnames, now, tolerance, src)
    ensures Usable(set', result)
    ensures Decided(set', result, clock, month, cache.decide, old(cache.offered), cache.offered, old(p.stats), p.stats, o)
    ensures conn.Stream() == src && conn.raw.incoming == ParseClientHello(src).rest
  {
    SnapshotUsable(set', t, hmac, now, tolerance, src);
    assert conn.Ahead() == src && conn.Stream() == src;
    var r := ReadClientHelloMulti(conn, hmac, KeyList(set'), set'.hostnames, now, tolerance);
    result := r;
    o := Decide(p, cache, set', r, clock, month);
  }

  /** doFakeTLSHandshake up to the server hello, on the snapshot it loads. Every branch that goes to the fronting domain
      hands it the client's stream from its first byte; a stream that is served goes on behind the hello. */
  method DoFakeTlsHandshake(p: LiveConns.Proxy, conn: ConnRewind, cache: ReplayCache, hmac: Hmac, now: Readings,
                            tolerance: nat, clock: LiveConns.Clock, month: Quota.Calendar)
    returns (o: Outcome, ghost result: MultiResult)
    requires p.Valid() && !conn.rewound && conn.buf == []
    modifies conn`buf, conn`rewound, conn.raw`incoming, cache, p`stats
    ensures result == ReadMulti(hmac, KeyList(p.secrets), p.secrets.hostnames, now, tolerance, old(conn.raw.incoming))
    ensures Usable(p.secrets, result)
    ensures Decided(p.secrets, result, clock, month, cache.decide, old(cache.offered), cache.offered, old(p.stats),
                    p.stats, o)
    ensures o.Front? ==> conn.Ahead() == old(conn.raw.incoming)
    ensures o.Serve? ==> conn.raw.incoming == ParseClientHello(old(conn.raw.incoming)).rest
  {
    o, result := ReadAndDecide(p, conn, cache, p.secrets, hmac, now, tolerance, clock, month, conn.raw.incoming, p.table);
    if o.Front? {
      conn.Rewind();
    }
  }

  /** The same for a hello in the RFC layout, however it is split: a host that no user has goes to the host of the first
      secret, a host of some user that no secret accepts to that host, and neither touches the cache or the quotas. */
  method HandshakeOfHello(p: LiveConns.Proxy, conn: ConnRewind, cache: ReplayCache, hmac: Hmac, now: Readings,
                          tolerance: nat, clock: LiveConns.Clock, month: Quota.Calendar, ghost f: HelloFields,
                          ghost before: seq<Extension>, ghost host: Bytes, ghost after: seq<Extension>,
                          ghost ps: seq<Payload>, ghost rest: Bytes) returns (o: Outcome)
    requires p.Valid() && !conn.rewound && conn.buf == [] && conn.raw.incoming == Records(ps) + rest
    requires Fits(f) && AnyUsable(f)
    requires f.extensions == before + [Extension(0, ServerName([host]))] + after
    requires forall i :: 0 <= i < |before| ==> before[i].kind != 0
    requires Carries(ps, Message(EncodeHello(f))) && |ps| <= 11
    modifies conn`buf, conn`rewound, conn.raw`incoming, cache, p`stats
    ensures |Copy(EncodeHello(f))| >= RANDOM_END
    ensures RightOutcome(o, p.secrets, p.table, hmac, f, host, now, tolerance, clock, p.stats)
    ensures host !in SecretSets.Hosts(p.table) || NobodyAccepts(hmac, p.secrets, f, now, tolerance) ==>
            cache.offered == old(cache.offered) && p.stats == old(p.stats)
    ensures o.Front? ==> conn.Ahead() == Records(ps) + rest
    ensures o.Serve? ==> conn.raw.incoming == rest
  {
    ghost var set', t := p.secrets, p.table;
    JudgedForProxy(set', t, hmac, now, tolerance, f, before, host, after, ps, rest);
    HelloBound(f);
    AnySplit(EncodeHello(f), ps, rest);
    ghost var result;
    o, result := DoFakeTlsHandshake(p, conn, cache, hmac, now, tolerance, clock, month);
    OutcomeOfVerdict(set', t, result, hmac, f, host, now, tolerance, clock, month, cache.decide, old(cache.offered),
                     cache.offered, old(p.stats), p.stats, o);
  }

  /** The host that is fronted to, and what a served stream is given. */
  ghost predicate RightOutcome(o: Outcome, set': SecretSets.SecretSet, t: SecretSets.Table, hmac: Hmac, f: HelloFields,
                               host: Bytes, now: Readings, tolerance: nat, clock: LiveConns.Clock, stats: Stats)
    requires Fits(f) && |Copy(EncodeHello(f))| >= RANDOM_END
  {
    && set'.secrets != []
    && (host !in SecretSets.Hosts(t) ==> o == Front(set'.secrets[0].host))
    && (host in SecretSets.Hosts(t) ==> o == Front(host) || o.Serve?)
    && (host in SecretSets.Hosts(t) && NobodyAccepts(hmac, set', f, now, tolerance) ==> o == Front(host))
    && (o.Serve? ==> RightlyServed(o, t, clock, stats)
                     && Accepts(hmac, o.key, Copy(EncodeHello(f)), f.random, now(o.index), tolerance))
  }

  /** The verdict on the hello, for a proxy with this table. */
  ghost predicate Judged(r: MultiResult, set': SecretSets.SecretSet, t: SecretSets.Table, hmac: Hmac, f: HelloFields,
                         host: Bytes, now: Readings, tolerance: nat)
    requires Fits(f) && |Copy(EncodeHello(f))| >= RANDOM_END
  {
    && (host !in SecretSets.Hosts(t) ==> r == UnknownHost)
    && (host in SecretSets.Hosts(t) && NobodyAccepts(hmac, set', f, now, tolerance) ==> r == BadDigest(host))
    && (host in SecretSets.Hosts(t) ==> r == BadDigest(host) || (r.Matched? && r.host == host))
    && (r.Matched? ==> r.index < |set'.secrets| && Accepts(hmac, set'.secrets[r.index].key, Copy(EncodeHello(f)),
                                                           f.random, now(r.index), tolerance))
  }

  lemma OutcomeOfVerdict(set': SecretSets.SecretSet, t: SecretSets.Table, r: MultiResult, hmac: Hmac, f: HelloFields,
                         host: Bytes, now: Readings, tolerance: nat, clock: LiveConns.Clock, month: Quota.Calendar,
                         decide: (seq<Bytes>, Bytes) -> bool, asked: seq<Bytes>, askedNow: seq<Bytes>, stats: Stats,
                         statsNow: Stats, o: Outcome)
    requires SecretSets.Shows(set', t) && Usable(set', r) && Fits(f) && |Copy(EncodeHello(f))| >= RANDOM_END
    requires Judged(r, set', t, hmac, f, host, now, tolerance)
    requires Decided(set', r, clock, month, decide, asked, askedNow, stats, statsNow, o)
    ensures RightOutcome(o, set', t, hmac, f, host, now, tolerance, clock, statsNow)
    ensures host !in SecretSets.Hosts(t) || NobodyAccepts(hmac, set', f, now, tolerance) ==>
            askedNow == asked && statsNow == stats
  {
    if o.Serve? {
      ServedRightly(set', t, r.index, clock, statsNow, o);
    }
  }

  /** A served stream gets the name, key and effective tag of one user, who is within the limits. */
  ghost predicate RightlyServed(o: Outcome, t: SecretSets.Table, clock: LiveConns.Clock, stats: Stats) {
    && o.Serve? && o.name in t.users
    && var user := t.users[o.name];
       && o.key == user.secret.key
       && o.adTag == (if user.tag != None then user.tag else t.globalTag)
       && !user.limits.disabled
       && (user.limits.expiresAt != None ==> clock.now < user.limits.expiresAt.value)
       && (user.limits.quotaBytes > 0 ==> LiveConns.StatsOf(stats, o.name).quotaUsed < user.limits.quotaBytes)
  }

  lemma ServedRightly(set': SecretSets.SecretSet, t: SecretSets.Table, index: nat, clock: LiveConns.Clock, stats: Stats,
                      o: Outcome)
    requires SecretSets.Shows(set', t) && index < |set'.names| && o == Granted(set', index)
    requires !Denied(set'.limits[index], clock, LiveConns.StatsOf(stats, set'.names[index]))
    ensures RightlyServed(o, t, clock, stats)
  {
    SecretSets.ShowsExactly(set', t, index, []);
    DeniedIff(set'.limits[index], clock, LiveConns.StatsOf(stats, set'.names[index]));
  }

  ghost predicate NobodyAccepts(hmac: Hmac, set': SecretSets.SecretSet, f: HelloFields, now: Readings, tolerance: nat)
    requires Fits(f) && |Copy(EncodeHello(f))| >= RANDOM_END
  {
    forall i :: 0 <= i < |set'.secrets| ==>
      !Accepts(hmac, set'.secrets[i].key, Copy(EncodeHello(f)), f.random, now(i), tolerance)
  }

  lemma JudgedForProxy(set': SecretSets.SecretSet, t: SecretSets.Table, hmac: Hmac, now: Readings, tolerance: nat,
                       f: HelloFields, before: seq<Extension>, host: Bytes, after: seq<Extension>,
                       ps: seq<Payload>, rest: Bytes)
    requires SecretSets.Shows(set', t) && SecretSets.Good(t) && Fits(f) && AnyUsable(f)
    requires f.extensions == before + [Extension(0, ServerName([host]))] + after
    requires forall i :: 0 <= i < |before| ==> before[i].kind != 0
    requires Carries(ps, Message(EncodeHello(f))) && |ps| <= 11
    ensures |Copy(EncodeHello(f))| >= RANDOM_END
    ensures Judged(ReadMulti(hmac, KeyList(set'), set'.hostnames, now, tolerance, Records(ps) + rest), set', t, hmac, f,
                   host, now, tolerance)
  {
    HostsOf(set', t, host);
    HelloJudged(hmac, KeyList(set'), set'.hostnames, now, tolerance, f, before, host, after, ps, rest);
  }

  lemma HostsOf(set': SecretSets.SecretSet, t: SecretSets.Table, host: Bytes)
    requires SecretSets.Shows(set', t) && SecretSets.Good(t)
    ensures host in set'.hostnames <==> host in SecretSets.Hosts(t)
    ensures host in set'.hostnames ==> host != []
  {
    assert host in set'.hostnames <==> host in SecretSets.Elements(set'.hostnames);
  }
}
