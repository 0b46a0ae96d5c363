/** ClientHello reassembly of mtglib/internal/tls/fake/utils.go: one handshake message spread over several TLS
    records (section 6.2.1 of RFC 5246) is read as if it had come in one. */
module Fragments {
  import opened ByteCodec
  import opened RewindConn

  const TYPE_HANDSHAKE := 0x16
  const TYPE_CLIENT_HELLO := 0x01
  const MAX_FRAGMENTS := 10

  datatype FragmentError =
    | ShortHeader | BadRecordType | BadVersion | ShortPayload | TooManyFragments | BadHandshakeType

  /** One TLS record, or why there is none; `rest` is what is left of the stream. */
  datatype Fragment = Fragment(payload: Bytes, rest: Bytes) | BadFragment(error: FragmentError, rest: Bytes)

  function NextFragment(src: Bytes): (r: Fragment)
    ensures r.Fragment? ==> |r.rest| < |src|
  {
    if |src| < 5 then BadFragment(ShortHeader, [])
    else if src[0] != TYPE_HANDSHAKE then BadFragment(BadRecordType, src[5..])
    else if src[1] != 3 || src[2] != 1 then BadFragment(BadVersion, src[5..])
    else
      var n := FromBE(src[3..5]);
      if |src| - 5 < n then BadFragment(ShortPayload, []) else Fragment(src[5..5 + n], src[5 + n..])
  }

  /** Exactly what is a handshake record, and what is wrong with anything else. */
  lemma FragmentExactly(src: Bytes)
    ensures |src| < 5 ==> NextFragment(src) == BadFragment(ShortHeader, [])
    ensures |src| >= 5 ==>
      var n := Digits(src[3], src[4]);
      NextFragment(src) ==
        if src[0] != 0x16 then BadFragment(BadRecordType, src[5..])
        else if src[1] != 3 || src[2] != 1 then BadFragment(BadVersion, src[5..])
        else if |src| < 5 + n then BadFragment(ShortPayload, [])
        else Fragment(src[5..5 + n], src[5 + n..])
  {
    if |src| >= 5 {
      BEValue(src[3..5]);
    }
  }

  /** The fragment reader: unread stream, payload bytes not served yet, records read so far. */
  datatype Reader = Reader(src: Bytes, buf: Bytes, count: nat)

  datatype Taken = Taken(bytes: Bytes, reader: Reader) | Lost(error: FragmentError, src: Bytes)

  function Prepend(bytes: Bytes, t: Taken): Taken {
    match t
    case Taken(more, reader) => Taken(bytes + more, reader)
    case Lost(_, _) => t
  }

  /** Reads records until one has a payload. */
  function Pull(r: Reader): (t: Taken)
    ensures t.Taken? ==> t.bytes == [] && t.reader.buf != []
    ensures r.buf != [] ==> t == Taken([], r)
    decreases MAX_FRAGMENTS + 1 - r.count
  {
    if r.buf != [] then Taken([], r)
    else if r.count > MAX_FRAGMENTS then Lost(TooManyFragments, r.src)
    else
      match NextFragment(r.src)
      case BadFragment(e, rest) => Lost(e, rest)
      case Fragment(payload, rest) => Pull(Reader(rest, payload, r.count + 1))
  }

  /** The next n bytes of handshake data. */
  function Take(r: Reader, n: nat): (t: Taken)
    ensures t.Taken? ==> |t.bytes| == n
    decreases n
  {
    if n == 0 then Taken([], r)
    else
      match Pull(r)
      case Lost(e, src) => Lost(e, src)
      case Taken(_, full) =>
        var k := Min(n, |full.buf|);
        Prepend(full.buf[..k], Take(full.(buf := full.buf[k..]), n - k))
  }

  lemma PrependTwice(a: Bytes, b: Bytes, t: Taken)
    ensures Prepend(a, Prepend(b, t)) == Prepend(a + b, t)
  {
    if t.Taken? {
      assert a + (b + t.bytes) == a + b + t.bytes;
    }
  }

  lemma PrependNothing(t: Taken)
    ensures Prepend([], t) == t
  {
    if t.Taken? {
      assert [] + t.bytes == t.bytes;
    }
  }

  /** Serving part of the buffer first makes no difference. */
  lemma {:induction false} TakePart(r: Reader, n: nat, k: nat)
    requires k <= n && k <= |r.buf|
    ensures Take(r, n) == Prepend(r.buf[..k], Take(r.(buf := r.buf[k..]), n - k))
  {
    var rest := r.(buf := r.buf[k..]);
    if k == 0 {
      assert rest == r;
      PrependNothing(Take(r, n));
    } else {
      var all := Min(n, |r.buf|);
      assert Pull(r) == Taken([], r);
      var last := r.(buf := r.buf[all..]);
      assert Take(r, n) == Prepend(r.buf[..all], Take(last, n - all));
      if k == all {
      } else {
        assert Pull(rest) == Taken([], rest);
        assert rest.buf[all - k..] == r.buf[all..];
        assert rest.(buf := rest.buf[all - k..]) == last;
        assert Min(n - k, |rest.buf|) == all - k;
        assert Take(rest, n - k) == Prepend(rest.buf[..all - k], Take(last, n - all));
        PrependTwice(r.buf[..k], rest.buf[..all - k], Take(last, n - all));
        assert r.buf[..k] + rest.buf[..all - k] == r.buf[..all];
      }
    }
  }

  /** After a successful take, b bytes more. */
  function Then(t: Taken, b: nat): Taken {
    match t
    case Lost(_, _) => t
    case Taken(x, mid) => Prepend(x, Take(mid, b))
  }

  lemma ThenPrepend(x: Bytes, t: Taken, b: nat)
    ensures Then(Prepend(x, t), b) == Prepend(x, Then(t, b))
  {
    if t.Taken? {
      PrependTwice(x, t.bytes, Take(t.reader, b));
    }
  }

  lemma TakeLost(r: Reader, n: nat)
    requires n > 0 && Pull(r).Lost?
    ensures Take(r, n) == Pull(r)
  {
  }

  /** Taking a + b bytes is taking a and then b. */
  lemma {:induction false} TakeAdd(r: Reader, a: nat, b: nat)
    ensures Take(r, a + b) == Then(Take(r, a), b)
    decreases a
  {
    if a == 0 {
      PrependNothing(Take(r, b));
    } else if Pull(r).Lost? {
      TakeLost(r, a + b);
      TakeLost(r, a);
    } else {
      PullThenTake(r, Pull(r).reader, a + b);
      PullThenTake(r, Pull(r).reader, a);
      TakeAddFull(Pull(r).reader, a, b);
    }
  }

  lemma {:induction false} TakeAddFull(full: Reader, a: nat, b: nat)
    requires full.buf != [] && a > 0
    ensures Take(full, a + b) == Then(Take(full, a), b)
    decreases a, 0
  {
    var k := Min(a, |full.buf|);
    var rest := full.(buf := full.buf[k..]);
    var c := a - k;
    TakePart(full, a + b, k);
    TakePart(full, a, k);
    TakeAdd(rest, c, b);
    ThenPrepend(full.buf[..k], Take(rest, c), b);
    assert a + b - k == c + b;
    assert Take(full, a + b) == Prepend(full.buf[..k], Take(rest, c + b));
    assert Take(full, a) == Prepend(full.buf[..k], Take(rest, c));
  }

  lemma PullThenTake(r: Reader, full: Reader, n: nat)
    requires n > 0 && Pull(r) == Taken([], full)
    ensures Take(r, n) == Take(full, n)
  {
    assert Pull(full) == Taken([], full);
  }

  // ---------------------------------------------------------------- any split gives the same bytes

  type Payload = p: Bytes | |p| < 65536

  /** One handshake record of a TLS 1.0 record layer. */
  function RecordBytes(p: Payload): Bytes {
    [0x16, 3, 1] + BE(|p|, 2) + p
  }

  function Records(ps: seq<Payload>): Bytes {
    if ps == [] then [] else RecordBytes(ps[0]) + Records(ps[1..])
  }

  lemma ReadRecord(p: Payload, rest: Bytes)
    ensures NextFragment(RecordBytes(p) + rest) == Fragment(p, rest)
  {
    var src := RecordBytes(p) + rest;
    assert src[3..5] == BE(|p|, 2);
    Pow256Values();
    BERoundTrip(|p|, 2);
    assert src[5..5 + |p|] == p;
    assert src[5 + |p|..] == rest;
  }

  /** With an empty buffer, the next record simply becomes the buffer, even when it is empty itself. */
  lemma TakeNextRecord(p: Payload, rest: Bytes, count: nat, n: nat)
    requires n > 0 && count <= MAX_FRAGMENTS
    ensures Take(Reader(RecordBytes(p) + rest, [], count), n) == Take(Reader(rest, p, count + 1), n)
  {
    var r := Reader(RecordBytes(p) + rest, [], count);
    ReadRecord(p, rest);
    assert Pull(r) == Pull(Reader(rest, p, count + 1));
  }

  lemma RecordsFront(ps: seq<Payload>, rest: Bytes)
    requires ps != []
    ensures Records(ps) + rest == RecordBytes(ps[0]) + (Records(ps[1..]) + rest)
  {
  }

  /** A take that goes beyond the buffer drains it and goes on with the next record. */
  lemma TakeThrough(p: Payload, src: Bytes, buf: Bytes, count: nat, n: nat)
    requires n > |buf| && count <= MAX_FRAGMENTS
    ensures Take(Reader(RecordBytes(p) + src, buf, count), n)
         == Prepend(buf, Take(Reader(src, p, count + 1), n - |buf|))
  {
    DrainBuffer(RecordBytes(p) + src, buf, count, n);
    TakeNextRecord(p, src, count, n - |buf|);
  }

  lemma DrainBuffer(src: Bytes, buf: Bytes, count: nat, n: nat)
    requires n >= |buf|
    ensures Take(Reader(src, buf, count), n) == Prepend(buf, Take(Reader(src, [], count), n - |buf|))
  {
    TakePart(Reader(src, buf, count), n, |buf|);
    assert buf[..|buf|] == buf && buf[|buf|..] == [];
  }

  lemma Slices(buf: Bytes, all: Bytes, n: nat)
    requires |buf| <= n <= |buf| + |all|
    ensures buf + all[..n - |buf|] == (buf + all)[..n]
    ensures all[n - |buf|..] == (buf + all)[n..]
  {
  }

  /** All but the last record. */
  function Earlier(ps: seq<Payload>): seq<Payload>
    requires ps != []
  {
    ps[..|ps| - 1]
  }

  /** ps is exactly what a reader holding `buffered` bytes needs for n bytes. */
  ghost predicate Completes(ps: seq<Payload>, buffered: nat, n: nat) {
    && n <= buffered + |Concat(ps)|
    && (ps != [] ==> buffered + |Concat(Earlier(ps))| < n)
  }

  lemma CompletesTail(ps: seq<Payload>, buffered: nat, n: nat)
    requires ps != [] && Completes(ps, buffered, n)
    ensures buffered < n && Completes(ps[1..], |ps[0]|, n - buffered)
  {
    if |ps| > 1 {
      assert Earlier(ps)[1..] == Earlier(ps[1..]);
      assert |Concat(Earlier(ps))| == |ps[0]| + |Concat(Earlier(ps[1..]))|;
    }
  }

  lemma TakeOneRecord(p: Payload, src: Bytes, buf: Bytes, count: nat, n: nat, all: Bytes, rest: Bytes, final: nat)
    requires |buf| < n <= |buf| + |all| && count <= MAX_FRAGMENTS
    requires Take(Reader(src, p, count + 1), n - |buf|)
          == Taken(all[..n - |buf|], Reader(rest, all[n - |buf|..], final))
    ensures Take(Reader(RecordBytes(p) + src, buf, count), n)
         == Taken((buf + all)[..n], Reader(rest, (buf + all)[n..], final))
  {
    TakeThrough(p, src, buf, count, n);
    Slices(buf, all, n);
  }

  lemma TakeNoRecords(rest: Bytes, buf: Bytes, count: nat, n: nat)
    requires n <= |buf|
    ensures Take(Reader(Records([]) + rest, buf, count), n)
         == Taken((buf + Concat([]))[..n], Reader(rest, (buf + Concat([]))[n..], count))
  {
    assert Records([]) + rest == rest;
    assert buf + Concat([]) == buf;
    HeadOfBuffer(Reader(rest, buf, count), n);
  }

  /** The last of ps is the record that completes n bytes: exactly ps are consumed. */
  lemma {:induction false} TakeRecords(ps: seq<Payload>, rest: Bytes, buf: Bytes, count: nat, n: nat)
    requires Completes(ps, |buf|, n)
    requires count + |ps| <= MAX_FRAGMENTS + 1
    ensures Take(Reader(Records(ps) + rest, buf, count), n)
         == Taken((buf + Concat(ps))[..n], Reader(rest, (buf + Concat(ps))[n..], count + |ps|))
    decreases |ps|
  {
    if ps == [] {
      TakeNoRecords(rest, buf, count, n);
    } else {
      CompletesTail(ps, |buf|, n);
      TakeRecords(ps[1..], rest, ps[0], count + 1, n - |buf|);
      TakeFront(ps, rest, buf, count, n, count + |ps|);
    }
  }

  lemma TakeFront(ps: seq<Payload>, rest: Bytes, buf: Bytes, count: nat, n: nat, final: nat)
    requires ps != [] && |buf| < n && Completes(ps[1..], |ps[0]|, n - |buf|) && count <= MAX_FRAGMENTS
    requires var all := ps[0] + Concat(ps[1..]);
             Take(Reader(Records(ps[1..]) + rest, ps[0], count + 1), n - |buf|)
             == Taken(all[..n - |buf|], Reader(rest, all[n - |buf|..], final))
    ensures Take(Reader(Records(ps) + rest, buf, count), n)
         == Taken((buf + Concat(ps))[..n], Reader(rest, (buf + Concat(ps))[n..], final))
  {
    RecordsFront(ps, rest);
    TakeOneRecord(ps[0], Records(ps[1..]) + rest, buf, count, n, Concat(ps), rest, final);
  }

  /** What stops a reader at position `rest` of the stream after so many records: the limit, or what comes next. */
  ghost predicate Stops(count: nat, rest: Bytes, error: FragmentError, left: Bytes) {
    if count == MAX_FRAGMENTS + 1 then error == TooManyFragments && left == rest
    else count <= MAX_FRAGMENTS && NextFragment(rest) == BadFragment(error, left)
  }

  /** Records that do not add up to n bytes, and then something that stops the reader. */
  lemma {:induction false} NotEnough(ps: seq<Payload>, rest: Bytes, buf: Bytes, count: nat, n: nat,
                                     error: FragmentError, left: Bytes)
    requires |buf| + |Concat(ps)| < n
    requires Stops(count + |ps|, rest, error, left)
    ensures Take(Reader(Records(ps) + rest, buf, count), n) == Lost(error, left)
    decreases |ps|
  {
    if ps == [] {
      assert Records(ps) + rest == rest;
      StopsHere(rest, buf, count, n, error, left);
    } else {
      var later := Records(ps[1..]) + rest;
      NotEnough(ps[1..], rest, ps[0], count + 1, n - |buf|, error, left);
      RecordsFront(ps, rest);
      TakeThrough(ps[0], later, buf, count, n);
      assert Take(Reader(later, ps[0], count + 1), n - |buf|) == Lost(error, left);
    }
  }

  lemma StopsHere(rest: Bytes, buf: Bytes, count: nat, n: nat, error: FragmentError, left: Bytes)
    requires |buf| < n && Stops(count, rest, error, left)
    ensures Take(Reader(rest, buf, count), n) == Lost(error, left)
  {
    DrainBuffer(rest, buf, count, n);
    TakeLost(Reader(rest, [], count), n - |buf|);
  }

  // ---------------------------------------------------------------- parseClientHello

  /** `copy` is the HMAC input, rebuilt as one record; `body` the handshake body; `rest` the unread stream. */
  datatype HelloRead = Hello(copy: Bytes, body: Bytes, rest: Bytes) | NoHello(error: FragmentError, rest: Bytes)

  /** The record length keeps only 16 bits, as the source's conversion does. */
  function RebuiltRecord(header: Bytes, body: Bytes): (r: Bytes)
    requires |header| == 4
    ensures |r| == 9 + |body|
  {
    [TYPE_HANDSHAKE, 3, 1] + BE(1 + 3 + FromBE(header[1..]), 2) + [TYPE_CLIENT_HELLO] + header[1..] + body
  }

  /** What parseClientHello makes of the stream, given its first four handshake bytes. */
  function AfterHeader(header: Bytes, mid: Reader): HelloRead
    requires |header| == 4
  {
    if header[0] != TYPE_CLIENT_HELLO then NoHello(BadHandshakeType, mid.src)
    else
      match Take(mid, FromBE(header[1..]))
      case Lost(e, rest) => NoHello(e, rest)
      case Taken(body, end) => Hello(RebuiltRecord(header, body), body, end.src)
  }

  function ParseClientHello(src: Bytes): HelloRead {
    match Take(Reader(src, [], 0), 4)
    case Lost(e, rest) => NoHello(e, rest)
    case Taken(header, mid) => AfterHeader(header, mid)
  }

  /** A ClientHello handshake message: type, 24-bit length, body. */
  function Message(body: Bytes): (r: Bytes)
    ensures |r| == 4 + |body|
  {
    [1] + BE(|body|, 3) + body
  }

  /** The records ps carry the message, and the last of them completes it. */
  ghost predicate Carries(ps: seq<Payload>, msg: Bytes) {
    ps != [] && msg <= Concat(ps) && |Concat(Earlier(ps))| < |msg|
  }

  lemma MessageHeader(body: Bytes)
    requires |body| < 16777216
    ensures Message(body)[0] == TYPE_CLIENT_HELLO
    ensures FromBE(Message(body)[1..4]) == |body|
    ensures Message(body)[..4][1..] == Message(body)[1..4]
    ensures Message(body)[4..] == body
  {
    assert Message(body)[1..4] == BE(|body|, 3);
    Pow256Values();
    BERoundTrip(|body|, 3);
  }

  lemma RebuiltIsMessage(body: Bytes)
    requires |body| < 16777216
    ensures RebuiltRecord(Message(body)[..4], body) == [TYPE_HANDSHAKE, 3, 1] + BE(|Message(body)|, 2) + Message(body)
  {
    MessageHeader(body);
    var h := Message(body)[..4];
    assert [TYPE_CLIENT_HELLO] + h[1..] + body == Message(body);
  }

  /** Once the whole message can be taken, parsing returns it. */
  lemma ParseTaken(src: Bytes, body: Bytes, end: Reader)
    requires |body| < 16777216
    requires Take(Reader(src, [], 0), |Message(body)|) == Taken(Message(body), end)
    ensures ParseClientHello(src) == Hello(RebuiltRecord(Message(body)[..4], body), body, end.src)
  {
    var msg := Message(body);
    TakeAdd(Reader(src, [], 0), 4, |body|);
    var head := Take(Reader(src, [], 0), 4);
    var tail := Take(head.reader, |body|);
    assert head.bytes + tail.bytes == msg;
    assert head.bytes == msg[..4];
    assert tail.bytes == msg[4..];
    MessageHeader(body);
  }

  lemma TakeMessage(ps: seq<Payload>, rest: Bytes, msg: Bytes)
    requires Carries(ps, msg) && |ps| <= MAX_FRAGMENTS + 1
    ensures Take(Reader(Records(ps) + rest, [], 0), |msg|)
         == Taken(msg, Reader(rest, Concat(ps)[|msg|..], |ps|))
  {
    TakeRecords(ps, rest, [], 0, |msg|);
    assert [] + Concat(ps) == Concat(ps);
    assert Concat(ps)[..|msg|] == msg;
  }

  /** Every split of a message over at most eleven records, empty ones and trailing bytes included, gives the
      same HMAC input and body, and consumes exactly the records up to the completing one. */
  lemma AnySplit(body: Bytes, ps: seq<Payload>, rest: Bytes)
    requires |body| < 16777216
    requires Carries(ps, Message(body)) && |ps| <= 11
    ensures ParseClientHello(Records(ps) + rest)
         == Hello([0x16, 3, 1] + BE(|Message(body)|, 2) + Message(body), body, rest)
  {
    TakeMessage(ps, rest, Message(body));
    ParseTaken(Records(ps) + rest, body, Reader(rest, Concat(ps)[|Message(body)|..], |ps|));
    RebuiltIsMessage(body);
  }

  lemma OneRecord(p: Payload)
    ensures Records([p]) == RecordBytes(p) && Concat([p]) == p && Earlier([p]) == []
  {
    assert [p][1..] == [];
    assert Records([p]) == RecordBytes(p) + Records([p][1..]);
    assert Concat([p]) == p + Concat([p][1..]);
  }

  /** The HMAC input is the single-record encoding, as long as one record can hold the message. */
  lemma SameAsOneRecord(body: Bytes, ps: seq<Payload>, rest: Bytes)
    requires |body| <= 65531
    requires Carries(ps, Message(body)) && |ps| <= 11
    ensures ParseClientHello(Records(ps) + rest) == Hello(RecordBytes(Message(body)), body, rest)
    ensures ParseClientHello(RecordBytes(Message(body)) + rest) == Hello(RecordBytes(Message(body)), body, rest)
  {
    AnySplit(body, ps, rest);
    OneRecord(Message(body));
    AnySplit(body, [Message(body)], rest);
  }

  /** A longer message still arrives whole, but no record header can announce it: the rebuilt length wraps. */
  lemma LongMessageWraps(body: Bytes)
    requires |body| < 16777216
    ensures FromBE(BE(|Message(body)|, 2)) == |Message(body)| <==> |body| <= 65531
  {
    Pow256Values();
    if |body| <= 65531 {
      BERoundTrip(|Message(body)|, 2);
    }
  }

  lemma {:induction false} HeadOfRecords(ps: seq<Payload>, rest: Bytes, buf: Bytes, count: nat, n: nat)
    requires n <= |buf| + |Concat(ps)| && count + |ps| <= MAX_FRAGMENTS + 1
    ensures Take(Reader(Records(ps) + rest, buf, count), n).Taken?
    ensures Take(Reader(Records(ps) + rest, buf, count), n).bytes == (buf + Concat(ps))[..n]
    decreases |ps|
  {
    if n <= |buf| {
      HeadOfBuffer(Reader(Records(ps) + rest, buf, count), n);
      assert (buf + Concat(ps))[..n] == buf[..n];
    } else {
      HeadOfRecords(ps[1..], rest, ps[0], count + 1, n - |buf|);
      RecordsFront(ps, rest);
      TakeThrough(ps[0], Records(ps[1..]) + rest, buf, count, n);
      Slices(buf, Concat(ps), n);
    }
  }

  lemma HeadOfBuffer(r: Reader, n: nat)
    requires n <= |r.buf|
    ensures Take(r, n) == Taken(r.buf[..n], r.(buf := r.buf[n..]))
  {
    TakePart(r, n, n);
    assert r.buf[..n] + [] == r.buf[..n];
  }

  lemma ParseLost(src: Bytes, body: Bytes, error: FragmentError, rest: Bytes)
    requires |body| < 16777216
    requires Take(Reader(src, [], 0), |Message(body)|) == Lost(error, rest)
    requires Take(Reader(src, [], 0), 4).Taken? ==> Take(Reader(src, [], 0), 4).bytes == Message(body)[..4]
    ensures ParseClientHello(src) == NoHello(error, rest)
  {
    TakeAdd(Reader(src, [], 0), 4, |body|);
    MessageHeader(body);
  }

  lemma HeadOrLost(ps: seq<Payload>, rest: Bytes, msg: Bytes, n: nat, error: FragmentError, left: Bytes)
    requires Stops(|ps|, rest, error, left) && Concat(ps) < msg && n <= |msg|
    ensures var head := Take(Reader(Records(ps) + rest, [], 0), n);
            head.Taken? ==> head.bytes == msg[..n]
  {
    var none: Bytes := [];
    var all := Concat(ps);
    if |all| < n {
      NotEnough(ps, rest, none, 0, n, error, left);
    } else {
      HeadOfRecords(ps, rest, none, 0, n);
      assert none + all == all;
      assert all[..n] == msg[..n];
    }
  }

  /** A message that is not complete when the reader is stopped, by the end of the stream, by a record of another kind
      or version, or by the limit, is refused for that reason. */
  lemma IncompleteRefused(body: Bytes, ps: seq<Payload>, rest: Bytes, error: FragmentError, left: Bytes)
    requires |body| < 16777216 && Concat(ps) < Message(body) && Stops(|ps|, rest, error, left)
    ensures ParseClientHello(Records(ps) + rest) == NoHello(error, left)
  {
    NotEnough(ps, rest, [], 0, |Message(body)|, error, left);
    HeadOrLost(ps, rest, Message(body), 4, error, left);
    ParseLost(Records(ps) + rest, body, error, left);
  }

  /** A message that eleven records do not complete is refused, whatever follows. */
  lemma TwelveRecordsRefused(body: Bytes, ps: seq<Payload>, rest: Bytes)
    requires |body| < 16777216 && |ps| == 11 && Concat(ps) < Message(body)
    ensures ParseClientHello(Records(ps) + rest) == NoHello(TooManyFragments, rest)
  {
    IncompleteRefused(body, ps, rest, TooManyFragments, rest);
  }

  /** Only a ClientHello is read on: any other handshake message is refused once its header is there. */
  lemma OtherMessageRefused(ps: seq<Payload>, rest: Bytes)
    requires Completes(ps, 0, 4) && |ps| <= 11 && Concat(ps)[0] != 1
    ensures ParseClientHello(Records(ps) + rest) == NoHello(BadHandshakeType, rest)
  {
    TakeRecords(ps, rest, [], 0, 4);
    assert ([] + Concat(ps))[..4][0] == Concat(ps)[0];
  }

  // ---------------------------------------------------------------- the reader object

  datatype ChunkRead = Chunk(bytes: Bytes) | Stopped(error: FragmentError)

  class FragmentReader {
    const conn: ConnRewind
    var buf: Bytes
    var readFragments: nat

    constructor (conn: ConnRewind)
      ensures this.conn == conn && buf == [] && readFragments == 0
    {
      this.conn, buf, readFragments := conn, [], 0;
    }

    ghost function View(): Reader
      reads this, conn, conn.raw
    {
      Reader(conn.Ahead(), buf, readFragments)
    }

    /** Reads one record header and its payload. */
    method ParseNextFragment() returns (error: Option<FragmentError>)
      requires buf == [] && !conn.rewound
      modifies this`buf, conn`buf, conn.raw`incoming
      ensures match NextFragment(old(conn.Ahead()))
              case Fragment(payload, rest) => error == None && buf == payload && conn.Ahead() == rest
              case BadFragment(e, rest) => error == Some(e) && conn.Ahead() == rest
      ensures conn.Stream() == old(conn.Stream())
    {
      var header := conn.ReadFull(5);
      if header.Short? {
        return Some(ShortHeader);
      }
      var h := header.bytes;
      assert h[3..] == old(conn.Ahead())[3..5];
      if h[0] != TYPE_HANDSHAKE {
        return Some(BadRecordType);
      }
      if h[1] != 3 || h[2] != 1 {
        return Some(BadVersion);
      }
      var length := FromBE(h[3..]);
      var payload := conn.ReadFull(length);
      if payload.Short? {
        return Some(ShortPayload);
      }
      buf := payload.bytes;
      error := None;
    }

    /** One pass of the refill loop. */
    method Advance() returns (error: Option<FragmentError>)
      requires buf == [] && !conn.rewound
      modifies this, conn`buf, conn.raw`incoming
      ensures error.Some? ==> Pull(old(View())) == Lost(error.value, conn.Ahead())
      ensures error.None? ==> Pull(View()) == Pull(old(View()))
      ensures error.None? ==> old(readFragments) <= MAX_FRAGMENTS && readFragments == old(readFragments) + 1
      ensures conn.Stream() == old(conn.Stream())
    {
      if readFragments > MAX_FRAGMENTS {
        return Some(TooManyFragments);
      }
      error := ParseNextFragment();
      if error.None? {
        readFragments := readFragments + 1;
      }
    }

    /** The refill loop of Read. */
    method Fill() returns (error: Option<FragmentError>)
      requires !conn.rewound
      modifies this, conn`buf, conn.raw`incoming
      ensures error.Some? ==> Pull(old(View())) == Lost(error.value, conn.Ahead())
      ensures error.None? ==> Pull(old(View())) == Taken([], View())
      ensures conn.Stream() == old(conn.Stream())
    {
      while buf == []
        invariant Pull(View()) == Pull(old(View()))
        invariant conn.Stream() == old(conn.Stream())
        decreases MAX_FRAGMENTS + 1 - readFragments, buf == []
      {
        error := Advance();
        if error.Some? {
          return;
        }
      }
      error := None;
    }

    /** One Read call: part of the first non-empty payload. */
    method Read(n: nat) returns (r: ChunkRead)
      requires !conn.rewound
      modifies this, conn`buf, conn.raw`incoming
      ensures n == 0 ==> r == Chunk([]) && View() == old(View())
      ensures n > 0 ==>
        match Pull(old(View()))
        case Lost(e, rest) => r == Stopped(e) && conn.Ahead() == rest
        case Taken(_, full) =>
          var k := Min(n, |full.buf|);
          r == Chunk(full.buf[..k]) && View() == full.(buf := full.buf[k..])
      ensures conn.Stream() == old(conn.Stream())
    {
      if n == 0 {
        return Chunk([]);
      }
      var error := Fill();
      if error.Some? {
        return Stopped(error.value);
      }
      var k := Min(n, |buf|);
      r := Chunk(buf[..k]);
      buf := buf[k..];
    }

    /** One request of CopyN, with `got` already copied and n bytes to go. */
    method CopySome(ghost got: Bytes, ghost n: nat, want: nat) returns (r: ChunkRead)
      requires !conn.rewound && 0 < want <= n
      modifies this, conn`buf, conn.raw`incoming
      ensures r.Stopped? ==> Prepend(got, Take(old(View()), n)) == Lost(r.error, conn.Ahead())
      ensures r.Chunk? ==> 0 < |r.bytes| <= n
      ensures r.Chunk? ==>
        Prepend(got, Take(old(View()), n)) == Prepend(got + r.bytes, Take(View(), n - |r.bytes|))
      ensures conn.Stream() == old(conn.Stream())
    {
      ghost var view := View();
      TakeChunk(view, got, n, want);
      r := Read(want);
      if r.Chunk? {
        ghost var full := Pull(view).reader;
        ghost var k := Min(want, |full.buf|);
        assert View() == full.(buf := full.buf[k..]) && r.bytes == full.buf[..k];
      }
    }

    /** io.ReadFull and io.CopyN alike: requests of any size until n bytes have arrived. */
    method CopyN(n: nat) returns (r: ChunkRead)
      requires !conn.rewound
      modifies this, conn`buf, conn.raw`incoming
      ensures r.Stopped? ==> Take(old(View()), n) == Lost(r.error, conn.Ahead())
      ensures r.Chunk? ==> Take(old(View()), n) == Taken(r.bytes, View())
      ensures conn.Stream() == old(conn.Stream())
    {
      var got: Bytes := [];
      PrependNothing(Take(View(), n));
      while |got| < n
        invariant |got| <= n
        invariant Prepend(got, Take(View(), n - |got|)) == Take(old(View()), n)
        invariant conn.Stream() == old(conn.Stream())
      {
        var want: nat :| 0 < want <= n - |got|;
        var chunk := CopySome(got, n - |got|, want);
        if chunk.Stopped? {
          return Stopped(chunk.error);
        }
        got := got + chunk.bytes;
      }
      r := Chunk(got);
      assert got + [] == got;
    }
  }

  lemma TakeChunk(r: Reader, got: Bytes, n: nat, want: nat)
    requires 0 < want <= n
    ensures Pull(r).Lost? ==> Prepend(got, Take(r, n)) == Pull(r)
    ensures Pull(r).Taken? ==>
      var full := Pull(r).reader;
      var k := Min(want, |full.buf|);
      Prepend(got, Take(r, n)) == Prepend(got + full.buf[..k], Take(full.(buf := full.buf[k..]), n - k))
  {
    if Pull(r).Taken? {
      var full := Pull(r).reader;
      var k := Min(want, |full.buf|);
      PullThenTake(r, full, n);
      TakePart(full, n, k);
      PrependTwice(got, full.buf[..k], Take(full.(buf := full.buf[k..]), n - k));
    }
  }

  datatype Reassembled = Whole(copy: Bytes, body: Bytes) | Torn(error: FragmentError)

  /** The outcome and the unread stream of a reassembly. */
  ghost predicate Matches(r: Reassembled, rest: Bytes, h: HelloRead) {
    match h
    case Hello(copy, body, left) => r == Whole(copy, body) && rest == left
    case NoHello(e, left) => r == Torn(e) && rest == left
  }

  method ReadBody(reader: FragmentReader, header: Bytes) returns (r: Reassembled)
    requires !reader.conn.rewound && |header| == 4
    modifies reader, reader.conn`buf, reader.conn.raw`incoming
    ensures Matches(r, reader.conn.Ahead(), AfterHeader(header, old(reader.View())))
    ensures reader.conn.Stream() == old(reader.conn.Stream())
  {
    if header[0] != TYPE_CLIENT_HELLO {
      return Torn(BadHandshakeType);
    }
    var length := FromBE(header[1..]);
    var copy := [TYPE_HANDSHAKE, 3, 1] + BE(1 + 3 + length, 2) + [TYPE_CLIENT_HELLO] + header[1..];
    var body := reader.CopyN(length);
    if body.Stopped? {
      return Torn(body.error);
    }
    r := Whole(copy + body.bytes, body.bytes);
  }

  /** parseClientHello. Whatever happens, the tee keeps the whole stream. */
  method ReadHello(conn: ConnRewind) returns (r: Reassembled)
    requires !conn.rewound
    modifies conn`buf, conn.raw`incoming
    ensures Matches(r, conn.Ahead(), ParseClientHello(old(conn.Ahead())))
    ensures conn.Stream() == old(conn.Stream())
  {
    var reader := new FragmentReader(conn);
    assert reader.View() == Reader(conn.Ahead(), [], 0);
    var header := reader.CopyN(4);
    if header.Stopped? {
      return Torn(header.error);
    }
    r := ReadBody(reader, header.bytes);
  }
}
