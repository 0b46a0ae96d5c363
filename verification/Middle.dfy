/** The RPC byte stream of mtglib/internal/middleproxy/stream.go. Client bytes, however they are cut,
    become one RPC_PROXY_REQ per complete inner packet; RPC answers become a plain byte stream again. */
module MiddleStream {
  import opened ByteCodec
  import opened CbcStream
  import opened FrameCodec

  const QUICK_ACK := 0x8000_0000

  const TAG_PROXY_REQUEST: Bytes := [0xee, 0xf1, 0xce, 0x36]
  const TAG_PROXY_ANS: Bytes := [0x0d, 0xda, 0x03, 0x44]
  const TAG_SIMPLE_ACK: Bytes := [0x9b, 0x40, 0xac, 0x3b]
  const TAG_CLOSE_EXT: Bytes := [0xa2, 0x34, 0xb6, 0x5e]
  const EXTRA_SIZE: Bytes := [0x18, 0x00, 0x00, 0x00]
  const PROXY_TAG: Bytes := [0xae, 0x26, 0x1e, 0xdb]

  const FLAG_ENCRYPTED := 0x2
  const FLAG_QUICK_ACK := 0x8000_0000
  /** flagHasAdTag, flagMagic, flagExtMode2, flagPad and flagIntermediate, whose bits are disjoint. */
  const FLAGS_ALWAYS := 0x8 + 0x1000 + 0x20000 + 0x800_0000 + 0x2000_0000

  // ---------------------------------------------------------------- client to middle proxy

  /** One inner packet: aligned body, and whether the client asked for a quick acknowledgement. */
  datatype ClientPacket = ClientPacket(body: Bytes, quickAck: bool)

  /** Complete packets at the front of a stream and the incomplete tail after them. */
  datatype Cut = Cut(packets: seq<ClientPacket>, tail: Bytes)

  function PacketLength(stream: Bytes): (n: nat)
    requires |stream| >= 4
    ensures n < QUICK_ACK
  {
    var w := WordValue(stream[..4]);
    if w >= QUICK_ACK then w - QUICK_ACK else w
  }

  predicate WantsQuickAck(stream: Bytes)
    requires |stream| >= 4
  {
    WordValue(stream[..4]) >= QUICK_ACK
  }

  predicate Complete(stream: Bytes) {
    |stream| >= 4 && |stream| >= PacketLength(stream) + 4
  }

  /** Drops the 0 to 3 padding bytes that follow a word-aligned packet. */
  function StripPadding(packet: Bytes): (r: Bytes)
    ensures |r| % 4 == 0 && r <= packet && |packet| - |r| < 4
  {
    packet[..|packet| - |packet| % 4]
  }

  function FirstPacket(stream: Bytes): ClientPacket
    requires Complete(stream)
  {
    ClientPacket(StripPadding(stream[4..4 + PacketLength(stream)]), WantsQuickAck(stream))
  }

  function AfterFirst(stream: Bytes): (r: Bytes)
    requires Complete(stream)
    ensures |r| < |stream|
  {
    stream[4 + PacketLength(stream)..]
  }

  /** Puts packets in front of a cut. */
  function After(packets: seq<ClientPacket>, cut: Cut): Cut {
    Cut(packets + cut.packets, cut.tail)
  }

  function Split(stream: Bytes): (r: Cut)
    ensures !Complete(r.tail)
    decreases |stream|
  {
    if Complete(stream) then After([FirstPacket(stream)], Split(AfterFirst(stream))) else Cut([], stream)
  }

  lemma CompleteAppend(a: Bytes, b: Bytes)
    requires Complete(a)
    ensures Complete(a + b)
    ensures FirstPacket(a + b) == FirstPacket(a)
    ensures AfterFirst(a + b) == AfterFirst(a) + b
  {
    assert (a + b)[..4] == a[..4];
    assert (a + b)[4..4 + PacketLength(a)] == a[4..4 + PacketLength(a)];
  }

  lemma AfterTwice(a: seq<ClientPacket>, b: seq<ClientPacket>, cut: Cut)
    ensures After(a, After(b, cut)) == After(a + b, cut)
  {
    assert a + (b + cut.packets) == a + b + cut.packets;
  }

  /** Cutting the stream anywhere and carrying the tail over changes neither packets nor tail. */
  lemma {:induction false} SplitAppend(a: Bytes, b: Bytes)
    ensures Split(a + b) == After(Split(a).packets, Split(Split(a).tail + b))
    decreases |a|
  {
    if Complete(a) {
      CompleteAppend(a, b);
      SplitAppend(AfterFirst(a), b);
      AfterTwice([FirstPacket(a)], Split(AfterFirst(a)).packets, Split(Split(a).tail + b));
    }
  }

  /** What a sequence of Write calls emits and leaves in the buffer. */
  function WriteAll(inbuf: Bytes, chunks: seq<Bytes>): Cut
    decreases |chunks|
  {
    if chunks == [] then Cut([], inbuf) else
      var now := Split(inbuf + chunks[0]);
      After(now.packets, WriteAll(now.tail, chunks[1..]))
  }

  lemma ConcatFront(a: Bytes, chunks: seq<Bytes>)
    requires chunks != []
    ensures a + Concat(chunks) == (a + chunks[0]) + Concat(chunks[1..])
  {
  }

  lemma {:induction false} WriteAllFrom(inbuf: Bytes, chunks: seq<Bytes>)
    requires !Complete(inbuf)
    ensures WriteAll(inbuf, chunks) == Split(inbuf + Concat(chunks))
    decreases |chunks|
  {
    if chunks == [] {
      assert inbuf + Concat(chunks) == inbuf;
    } else {
      var whole := inbuf + chunks[0];
      ConcatFront(inbuf, chunks);
      WriteAllFrom(Split(whole).tail, chunks[1..]);
      SplitAppend(whole, Concat(chunks[1..]));
    }
  }

  /** Every way of cutting a client stream into writes gives the packets and tail of one whole write. */
  lemma ChunkingIsInvisible(chunks: seq<Bytes>)
    ensures WriteAll([], chunks) == Split(Concat(chunks))
  {
    WriteAllFrom([], chunks);
    assert [] + Concat(chunks) == Concat(chunks);
  }

  /** A packet as a client puts it on the wire: length with the quick-ack bit, body, random padding. */
  datatype PaddedPacket = PaddedPacket(packet: ClientPacket, padding: Bytes)

  ghost predicate WellFormed(p: PaddedPacket) {
    && |p.packet.body| % 4 == 0
    && |p.padding| < 4
    && |p.packet.body| + |p.padding| < 0x8000_0000
  }

  function ClientWire(p: PaddedPacket): Bytes
  {
    var n := |p.packet.body| + |p.padding|;
    LE(if p.packet.quickAck then n + 0x8000_0000 else n, 4) + p.packet.body + p.padding
  }

  function ClientStream(ps: seq<PaddedPacket>): Bytes {
    if ps == [] then [] else ClientWire(ps[0]) + ClientStream(ps[1..])
  }

  function Unpadded(ps: seq<PaddedPacket>): (r: seq<ClientPacket>)
    ensures |r| == |ps|
    ensures forall i :: 0 <= i < |ps| ==> r[i] == ps[i].packet
  {
    if ps == [] then [] else [ps[0].packet] + Unpadded(ps[1..])
  }

  lemma StripPadded(body: Bytes, padding: Bytes)
    requires |body| % 4 == 0 && |padding| < 4
    ensures StripPadding(body + padding) == body
  {
  }

  lemma LengthWord(p: PaddedPacket, rest: Bytes)
    requires WellFormed(p)
    ensures var stream := ClientWire(p) + rest;
            PacketLength(stream) == |p.packet.body| + |p.padding| && WantsQuickAck(stream) == p.packet.quickAck
  {
    var n := |p.packet.body| + |p.padding|;
    var w := if p.packet.quickAck then n + QUICK_ACK else n;
    assert (ClientWire(p) + rest)[..4] == LE(w, 4);
    WordOfLE(w);
  }

  lemma SplitOnePacket(p: PaddedPacket, rest: Bytes)
    requires WellFormed(p)
    ensures var stream := ClientWire(p) + rest;
            Complete(stream) && FirstPacket(stream) == p.packet && AfterFirst(stream) == rest
  {
    var stream := ClientWire(p) + rest;
    LengthWord(p, rest);
    assert stream[4..4 + PacketLength(stream)] == p.packet.body + p.padding;
    StripPadded(p.packet.body, p.padding);
  }

  /** Splitting undoes the client's framing: bodies, order and quick-ack bits kept, padding gone. */
  lemma {:induction false} SplitClientStream(ps: seq<PaddedPacket>)
    requires forall i :: 0 <= i < |ps| ==> WellFormed(ps[i])
    ensures Split(ClientStream(ps)) == Cut(Unpadded(ps), [])
    decreases |ps|
  {
    if ps != [] {
      SplitOnePacket(ps[0], ClientStream(ps[1..]));
      SplitClientStream(ps[1..]);
    }
  }

  // ---------------------------------------------------------------- RPC_PROXY_REQ

  /** A TCP address; `ip` is its 16-byte form, absent when it has none. */
  datatype TcpAddr = TcpAddr(ip: Option<Block>, port: int)

  function EncodeIpPort(addr: Option<TcpAddr>): (r: Bytes)
    ensures |r| == 20
  {
    match addr
    case None => Zeros(20)
    case Some(a) =>
      (if a.ip.Some? then a.ip.value else Zeros(16)) + LE(a.port % 0x1_0000_0000, 4)
  }

  /** Address and port can be read back; a missing address is all zeros. */
  lemma IpPortRoundTrip(a: TcpAddr)
    requires 0 <= a.port < 0x1_0000_0000
    ensures var r := EncodeIpPort(Some(a));
            r[..16] == (if a.ip.Some? then a.ip.value else Zeros(16)) && WordValue(r[16..]) == a.port
  {
    var r := EncodeIpPort(Some(a));
    assert r[16..] == LE(a.port % 0x1_0000_0000, 4);
    WordOfLE(a.port);
  }

  lemma NoAddress(i: nat)
    requires i < 20
    ensures EncodeIpPort(None)[i] == 0
  {
  }

  type ConnId = b: Bytes | |b| == 8 witness seq(8, i => 0)

  /** What one stream puts into each of its requests. */
  datatype StreamInfo = StreamInfo(connId: ConnId, adTag: Block, client: Option<TcpAddr>, our: Option<TcpAddr>)

  predicate StartsWithZeros(packet: Bytes) {
    |packet| >= 8 && forall i :: 0 <= i < 8 ==> packet[i] == 0
  }

  function RequestFlags(p: ClientPacket): Word {
    FLAGS_ALWAYS
    + (if p.quickAck then FLAG_QUICK_ACK else 0)
    + (if StartsWithZeros(p.body) then FLAG_ENCRYPTED else 0)
  }

  function RequestHead(info: StreamInfo, flags: Word): (r: Bytes)
    ensures |r| == 81
  {
    TAG_PROXY_REQUEST + LE(flags, 4) + info.connId + EncodeIpPort(info.client) + EncodeIpPort(info.our)
    + EXTRA_SIZE + PROXY_TAG + [|info.adTag|] + info.adTag
  }

  function BuildProxyReq(info: StreamInfo, p: ClientPacket): (r: Bytes)
    ensures |r| == 84 + |p.body|
  {
    var head := RequestHead(info, RequestFlags(p));
    head + Zeros((4 - |head| % 4) % 4) + p.body
  }

  /** A request as the middle proxy takes it apart, at the offsets of the RPC_PROXY_REQ layout. */
  datatype ProxyReq = ProxyReq(flags: Word, connId: Bytes, client: Bytes, our: Bytes, adTag: Bytes, body: Bytes)

  function ParseProxyReq(msg: Bytes): Option<ProxyReq> {
    if |msg| < 84 || msg[..4] != [0xee, 0xf1, 0xce, 0x36] || msg[56..60] != [0x18, 0, 0, 0]
       || msg[60..64] != [0xae, 0x26, 0x1e, 0xdb] || msg[64] != 16 || msg[81..84] != [0, 0, 0]
    then None
    else Some(ProxyReq(WordValue(msg[4..8]), msg[8..16], msg[16..36], msg[36..56], msg[65..81], msg[84..]))
  }

  /** The flag word: bits 3, 12, 17, 27 and 29 always, bit 31 for a quick acknowledgement, bit 1 for a packet whose
      first eight bytes are zero, and no other bit ever. */
  lemma FlagsExactly(p: ClientPacket)
    ensures RequestFlags(p)
         == 0x8 + 0x1000 + 0x2_0000 + 0x800_0000 + 0x2000_0000
            + (if p.quickAck then 0x8000_0000 else 0)
            + (if |p.body| >= 8 && p.body[..8] == [0, 0, 0, 0, 0, 0, 0, 0] then 0x2 else 0)
  {
    if |p.body| >= 8 {
      assert forall i :: 0 <= i < 8 ==> p.body[..8][i] == p.body[i];
    }
  }

  /** The middle proxy recovers every field, the packet and the flags from a built request. */
  lemma ProxyReqRoundTrip(info: StreamInfo, p: ClientPacket)
    ensures ParseProxyReq(BuildProxyReq(info, p))
         == Some(ProxyReq(RequestFlags(p), info.connId, EncodeIpPort(info.client), EncodeIpPort(info.our), info.adTag,
                          p.body))
  {
    var msg := BuildProxyReq(info, p);
    assert msg[..4] == TAG_PROXY_REQUEST;
    assert msg[4..8] == LE(RequestFlags(p), 4);
    assert msg[8..16] == info.connId;
    assert msg[16..36] == EncodeIpPort(info.client);
    assert msg[36..56] == EncodeIpPort(info.our);
    assert msg[56..60] == EXTRA_SIZE;
    assert msg[60..64] == PROXY_TAG;
    assert msg[65..81] == info.adTag;
    assert msg[81..84] == [0, 0, 0];
    assert msg[84..] == p.body;
    WordOfLE(RequestFlags(p));
  }

  function Requests(info: StreamInfo, ps: seq<ClientPacket>): (r: seq<Bytes>)
    ensures |r| == |ps|
    ensures forall i :: 0 <= i < |ps| ==> r[i] == BuildProxyReq(info, ps[i])
  {
    if ps == [] then [] else [BuildProxyReq(info, ps[0])] + Requests(info, ps[1..])
  }

  lemma {:induction false} SplitBodiesAligned(stream: Bytes)
    ensures forall i :: 0 <= i < |Split(stream).packets| ==> |Split(stream).packets[i].body| % 4 == 0
    decreases |stream|
  {
    if Complete(stream) {
      SplitBodiesAligned(AfterFirst(stream));
    }
  }

  lemma RequestWords(info: StreamInfo, p: ClientPacket)
    requires |p.body| % 4 == 0
    ensures |BuildProxyReq(info, p)| % 4 == 0
  {
  }

  /** The longest inner packet whose request still fits a frame. */
  const MAX_BODY := FRAME_MAX - 12 - 84

  /** A request meets what the frame reader demands exactly when its packet is aligned and not too long. */
  lemma RequestSendable(info: StreamInfo, p: ClientPacket)
    ensures Sendable(BuildProxyReq(info, p)) <==> |p.body| % 4 == 0 && |p.body| <= 16777120
  {
  }

  /** End to end: client packets, padded and cut into writes in any way, framed and encrypted, are drained by
      the middle proxy as exactly one request per packet, in order, each carrying that packet's body. */
  lemma ClientToMiddleProxy(enc: BlockMap, dec: BlockMap, iv: Block, crc: Checksum, s: SeqNo, info: StreamInfo,
                            ps: seq<PaddedPacket>, chunks: seq<Bytes>)
    requires Inverse(enc, dec)
    requires forall i :: 0 <= i < |ps| ==> WellFormed(ps[i]) && |ps[i].packet.body| <= MAX_BODY
    requires Concat(chunks) == ClientStream(ps)
    ensures WriteAll([], chunks) == Cut(Unpadded(ps), [])
    ensures Aligned(EncodeAll(crc, s, Requests(info, Unpadded(ps))))
    ensures var wire := Encrypt(enc, iv, EncodeAll(crc, s, Requests(info, WriteAll([], chunks).packets)));
            DecodeAll(crc, s, Decrypt(dec, iv, WholeBlocks(wire)))
            == Drained(Requests(info, Unpadded(ps)), ShortLength)
    ensures forall i :: 0 <= i < |ps| ==>
              var req := ParseProxyReq(Requests(info, Unpadded(ps))[i]);
              && req.Some? && req.value.body == ps[i].packet.body && req.value.adTag == info.adTag
              && (req.value.flags >= 0x8000_0000 <==> ps[i].packet.quickAck)
  {
    ChunkingIsInvisible(chunks);
    SplitClientStream(ps);
    var packets := Unpadded(ps);
    var msgs := Requests(info, packets);
    forall i | 0 <= i < |ps|
      ensures Sendable(msgs[i])
      ensures ParseProxyReq(msgs[i]).Some? && ParseProxyReq(msgs[i]).value.body == ps[i].packet.body
      ensures ParseProxyReq(msgs[i]).value.adTag == info.adTag
      ensures ParseProxyReq(msgs[i]).value.flags >= 0x8000_0000 <==> ps[i].packet.quickAck
    {
      RequestSendable(info, packets[i]);
      ProxyReqRoundTrip(info, packets[i]);
    }
    CipheredRoundTrip(enc, dec, iv, crc, s, msgs);
  }

  // ---------------------------------------------------------------- middle proxy to client

  datatype Response = Answer(payload: Bytes) | SimpleAck(payload: Bytes) | CloseExt | BadResponse

  function ParseProxyResponse(packet: Bytes): Response {
    if |packet| < 4 then BadResponse
    else if packet[..4] == TAG_PROXY_ANS then
      if |packet| < 16 then BadResponse else Answer(packet[16..])
    else if packet[..4] == TAG_SIMPLE_ACK then
      if |packet| < 12 then BadResponse else SimpleAck(packet[12..])
    else if packet[..4] == TAG_CLOSE_EXT then CloseExt
    else BadResponse
  }

  /** Which responses are what; anything else, a tag without its fixed fields included, is an error. */
  lemma ResponseExactly(packet: Bytes)
    ensures var r := ParseProxyResponse(packet);
            && (r.Answer? <==> |packet| >= 16 && packet[..4] == [0x0d, 0xda, 0x03, 0x44])
            && (r.Answer? ==> r.payload == packet[16..])
            && (r.SimpleAck? <==> |packet| >= 12 && packet[..4] == [0x9b, 0x40, 0xac, 0x3b])
            && (r.SimpleAck? ==> r.payload == packet[12..])
            && (r.CloseExt? <==> |packet| >= 4 && packet[..4] == [0xa2, 0x34, 0xb6, 0x5e])
  {
    assert TAG_PROXY_ANS[0] != TAG_SIMPLE_ACK[0] && TAG_PROXY_ANS[0] != TAG_CLOSE_EXT[0];
    assert TAG_SIMPLE_ACK[0] != TAG_CLOSE_EXT[0];
  }

  /** The length prefix keeps only 32 bits, as in the source. */
  function FrameIntermediate(payload: Bytes): (r: Bytes)
    ensures |r| == 4 + |payload|
  {
    LE(|payload|, 4) + payload
  }

  /** The bytes one response adds to the client's stream. */
  function Rendered(r: Response): Bytes {
    match r
    case Answer(payload) => FrameIntermediate(payload)
    case SimpleAck(payload) => payload
    case _ => []
  }

  /** Why a read stops: a frame error, an unknown response, or RPC_CLOSE_EXT (io.EOF). */
  datatype StreamEnd = FrameEnd(error: FrameError) | ResponseEnd | Eof

  /** Everything the client can still be given, and what comes after it. */
  datatype Downstream = Downstream(bytes: Bytes, end: StreamEnd)

  /** One response in front of what follows it. */
  function Deliver(r: Response, later: Downstream): Downstream {
    match r
    case CloseExt => Downstream([], Eof)
    case BadResponse => Downstream([], ResponseEnd)
    case _ => Downstream(Rendered(r) + later.bytes, later.end)
  }

  function Delivery(crc: Checksum, s: SeqNo, plain: Bytes): Downstream
    decreases |plain|
  {
    match DecodeFrame(crc, s, plain)
    case Bad(e, _) => Downstream([], FrameEnd(e))
    case Frame(msg, rest) => Deliver(ParseProxyResponse(msg), Delivery(crc, NextSeq(s), rest))
  }

  /** The reference: walk the received responses and stop at the first one that ends the stream. */
  function Transcript(msgs: seq<Bytes>, last: StreamEnd): Downstream {
    if msgs == [] then Downstream([], last)
    else Deliver(ParseProxyResponse(msgs[0]), Transcript(msgs[1..], last))
  }

  lemma {:induction false} DeliveryIsTranscript(crc: Checksum, s: SeqNo, plain: Bytes)
    ensures var d := DecodeAll(crc, s, plain);
            Delivery(crc, s, plain) == Transcript(d.msgs, FrameEnd(d.end))
    decreases |plain|
  {
    match DecodeFrame(crc, s, plain)
    case Bad(_, _) =>
    case Frame(msg, rest) =>
      DeliveryIsTranscript(crc, NextSeq(s), rest);
      assert DecodeAll(crc, s, plain).msgs[1..] == DecodeAll(crc, NextSeq(s), rest).msgs;
  }

  /** Whatever the middle proxy framed and encrypted, the client is owed the length-prefixed answers and raw
      quick-acks before the first RPC_CLOSE_EXT, in order and nothing else. */
  lemma MiddleProxyToClient(enc: BlockMap, dec: BlockMap, iv: Block, crc: Checksum, s: SeqNo, msgs: seq<Bytes>)
    requires Inverse(enc, dec) && AllSendable(msgs)
    ensures Aligned(EncodeAll(crc, s, msgs))
    ensures var wire := Encrypt(enc, iv, EncodeAll(crc, s, msgs));
            Delivery(crc, s, Decrypt(dec, iv, WholeBlocks(wire))) == Transcript(msgs, FrameEnd(ShortLength))
  {
    CipheredRoundTrip(enc, dec, iv, crc, s, msgs);
    DeliveryIsTranscript(crc, s, Decrypt(dec, iv, WholeBlocks(Encrypt(enc, iv, EncodeAll(crc, s, msgs)))));
  }

  /** A response as the middle proxy means it. */
  datatype Reply = AnswerReply(flags: Word, connId: ConnId, payload: Bytes) | AckReply(connId: ConnId, payload: Bytes)

  function ReplyMessage(r: Reply): Bytes {
    match r
    case AnswerReply(flags, connId, payload) => [0x0d, 0xda, 0x03, 0x44] + LE(flags, 4) + connId + payload
    case AckReply(connId, payload) => [0x9b, 0x40, 0xac, 0x3b] + connId + payload
  }

  function ReplyMessages(rs: seq<Reply>): (msgs: seq<Bytes>)
    ensures |msgs| == |rs|
  {
    if rs == [] then [] else [ReplyMessage(rs[0])] + ReplyMessages(rs[1..])
  }

  /** What the client must see: an answer with its length in front, a quick-ack as it is. */
  function ClientBytes(rs: seq<Reply>): Bytes {
    if rs == [] then []
    else (if rs[0].AnswerReply? then LE(|rs[0].payload|, 4) else []) + rs[0].payload + ClientBytes(rs[1..])
  }

  lemma ReplyParses(r: Reply)
    ensures ParseProxyResponse(ReplyMessage(r))
         == if r.AnswerReply? then Answer(r.payload) else SimpleAck(r.payload)
  {
    var msg := ReplyMessage(r);
    match r
    case AnswerReply(flags, connId, payload) =>
      assert msg[..4] == TAG_PROXY_ANS && msg[16..] == payload;
    case AckReply(connId, payload) =>
      assert msg[..4] == TAG_SIMPLE_ACK && msg[12..] == payload;
      assert TAG_SIMPLE_ACK[0] != TAG_PROXY_ANS[0];
  }

  lemma {:induction false} RepliesTranscript(rs: seq<Reply>, later: seq<Bytes>, last: StreamEnd)
    ensures var t := Transcript(later, last);
            Transcript(ReplyMessages(rs) + later, last) == Downstream(ClientBytes(rs) + t.bytes, t.end)
    decreases |rs|
  {
    var t := Transcript(later, last);
    if rs == [] {
      assert ReplyMessages(rs) + later == later;
      assert [] + t.bytes == t.bytes;
    } else {
      var msgs := ReplyMessages(rs) + later;
      assert msgs[0] == ReplyMessage(rs[0]);
      assert msgs[1..] == ReplyMessages(rs[1..]) + later;
      RepliesTranscript(rs[1..], later, last);
      ReplyParses(rs[0]);
      var head := (if rs[0].AnswerReply? then LE(|rs[0].payload|, 4) else []) + rs[0].payload;
      assert Rendered(ParseProxyResponse(msgs[0])) == head;
      Regroup(head, ClientBytes(rs[1..]), t.bytes);
    }
  }

  /** Any replies, then a message that is no reply, then anything, framed and encrypted: the client gets the answers
      with their lengths and the quick-acks as they are, in order; then end of file if that message is a close, and an
      error otherwise. */
  lemma RepliesUntilEnd(enc: BlockMap, dec: BlockMap, iv: Block, crc: Checksum, s: SeqNo, rs: seq<Reply>, last: Bytes,
                        later: seq<Bytes>)
    requires Inverse(enc, dec) && AllSendable(ReplyMessages(rs) + ([last] + later))
    requires var r := ParseProxyResponse(last); !r.Answer? && !r.SimpleAck?
    ensures var msgs := ReplyMessages(rs) + ([last] + later);
            Aligned(EncodeAll(crc, s, msgs))
            && Delivery(crc, s, Decrypt(dec, iv, WholeBlocks(Encrypt(enc, iv, EncodeAll(crc, s, msgs)))))
               == Downstream(ClientBytes(rs),
                             if |last| >= 4 && last[..4] == [0xa2, 0x34, 0xb6, 0x5e] then Eof else ResponseEnd)
  {
    var end := [last] + later;
    MiddleProxyToClient(enc, dec, iv, crc, s, ReplyMessages(rs) + end);
    RepliesTranscript(rs, end, FrameEnd(ShortLength));
    ResponseExactly(last);
    assert end[0] == last;
    assert Transcript(end, FrameEnd(ShortLength)).bytes == [];
    assert ClientBytes(rs) + [] == ClientBytes(rs);
  }

  /** The client's own framing reads an answer back as one packet without a quick-ack bit. */
  lemma AnswerReadsBack(payload: Bytes, rest: Bytes)
    requires |payload| < QUICK_ACK
    ensures var stream := FrameIntermediate(payload) + rest;
            && Complete(stream) && PacketLength(stream) == |payload| && !WantsQuickAck(stream)
            && stream[4..4 + |payload|] == payload && AfterFirst(stream) == rest
  {
    var stream := FrameIntermediate(payload) + rest;
    assert stream[..4] == LE(|payload|, 4);
    WordOfLE(|payload|);
  }

  // ---------------------------------------------------------------- the connection object

  datatype StreamRead = Chunk(bytes: Bytes) | Ended(end: StreamEnd)

  datatype NextRead = NoFrame(error: FrameError) | Got(response: Response)

  class MiddleConn {
    const frame: FrameConn
    const info: StreamInfo
    var inbuf: Bytes
    var outbuf: Bytes

    constructor (frame: FrameConn, info: StreamInfo)
      ensures this.frame == frame && this.info == info && inbuf == [] && outbuf == []
    {
      this.frame, this.info := frame, info;
      inbuf, outbuf := [], [];
    }

    /** The wire holds exactly the requests for `sent`, framed and encrypted from the given start. */
    ghost predicate Forwarded(iv0: Block, s0: SeqNo, out0: Bytes, sent: seq<ClientPacket>)
      reads frame, frame.conn, frame.conn.raw
    {
      Wrote(frame.conn.enc, frame.crc, iv0, s0, out0, Requests(info, sent),
            frame.conn.encIv, frame.writeSeqNo, frame.conn.raw.outgoing)
    }

    /** The same, and then the raw write of the request for `packet` failed part way. */
    ghost predicate Stalled(iv0: Block, s0: SeqNo, out0: Bytes, sent: seq<ClientPacket>, packet: ClientPacket)
      reads frame, frame.conn, frame.conn.raw
    {
      Interrupted(frame.conn.enc, frame.crc, iv0, s0, out0, Requests(info, sent), BuildProxyReq(info, packet),
                  frame.conn.encIv, frame.writeSeqNo, frame.conn.raw.outgoing)
    }

    /** The packet at the front of the buffer, its padding stripped, and what follows it. */
    method TakeFirst() returns (packet: ClientPacket, rest: Bytes)
      requires Complete(inbuf)
      ensures packet == FirstPacket(inbuf) && rest == AfterFirst(inbuf)
      ensures |packet.body| % 4 == 0
    {
      var length: nat := WordValue(inbuf[..4]);
      var quickAck := false;
      if length >= QUICK_ACK {
        quickAck := true;
        length := length - QUICK_ACK;
      }
      var body := inbuf[4..4 + length];
      packet := ClientPacket(body[..|body| - |body| % 4], quickAck);
      rest := inbuf[4 + length..];
    }

    /** One pass of the Write loop: the first packet of the buffer becomes one framed request. */
    method ForwardFirst(ghost iv0: Block, ghost s0: SeqNo, ghost out0: Bytes, ghost sent: seq<ClientPacket>)
      returns (ok: bool)
      requires Complete(inbuf)
      requires Forwarded(iv0, s0, out0, sent)
      modifies this`inbuf, frame`writeSeqNo, frame.conn`encIv, frame.conn.raw`outgoing
      ensures frame.writeSeqNo == NextSeq(old(frame.writeSeqNo))
      ensures !ok ==> inbuf == old(inbuf) && Stalled(iv0, s0, out0, sent, FirstPacket(inbuf))
      ensures ok ==> inbuf == AfterFirst(old(inbuf))
      ensures ok ==> Forwarded(iv0, s0, out0, sent + [FirstPacket(old(inbuf))])
    {
      var packet, rest := TakeFirst();
      var req := BuildProxyReq(info, packet);
      RequestsSnoc(info, sent, packet);
      RequestWords(info, packet);
      var outcome := frame.WriteNext(iv0, s0, out0, Requests(info, sent), req);
      ok := outcome == Sent;
      if ok {
        inbuf := rest;
      }
    }

    /** Repackages every packet that p completes. When the raw write of one packet fails, that packet and
        everything after it stay buffered, while the sequence number has already moved past it. */
    method Write(p: Bytes) returns (ok: bool, ghost sent: seq<ClientPacket>)
      modifies this`inbuf, frame`writeSeqNo, frame.conn`encIv, frame.conn.raw`outgoing
      ensures Split(old(inbuf) + p) == After(sent, Split(inbuf))
      ensures ok <==> !Complete(inbuf)
      ensures ok ==>
        Forwarded(old(frame.conn.encIv), old(frame.writeSeqNo), old(frame.conn.raw.outgoing), sent)
      ensures !ok ==>
        Stalled(old(frame.conn.encIv), old(frame.writeSeqNo), old(frame.conn.raw.outgoing), sent, FirstPacket(inbuf))
    {
      inbuf := inbuf + p;
      ghost var whole := inbuf;
      sent := [];
      assert Encrypt(frame.conn.enc, frame.conn.encIv, []) == [];
      ok := true;
      while Complete(inbuf)
        invariant ok
        invariant Split(whole) == After(sent, Split(inbuf))
        invariant Forwarded(old(frame.conn.encIv), old(frame.writeSeqNo), old(frame.conn.raw.outgoing), sent)
        decreases |inbuf|
      {
        ghost var first := FirstPacket(inbuf);
        ForwardStep(whole, inbuf, sent);
        ok := ForwardFirst(old(frame.conn.encIv), old(frame.writeSeqNo), old(frame.conn.raw.outgoing), sent);
        if !ok {
          return;
        }
        sent := sent + [first];
      }
    }

    /** Write for a stream that has already forwarded `sent`. */
    method WriteMore(ghost iv0: Block, ghost s0: SeqNo, ghost out0: Bytes, ghost sent: seq<ClientPacket>, p: Bytes)
      returns (ok: bool, ghost more: seq<ClientPacket>)
      requires Forwarded(iv0, s0, out0, sent)
      modifies this`inbuf, frame`writeSeqNo, frame.conn`encIv, frame.conn.raw`outgoing
      ensures Split(old(inbuf) + p) == After(more, Split(inbuf))
      ensures ok <==> !Complete(inbuf)
      ensures ok ==> Forwarded(iv0, s0, out0, sent + more)
      ensures !ok ==> Stalled(iv0, s0, out0, sent + more, FirstPacket(inbuf))
    {
      ok, more := Write(p);
      RequestsAppend(info, sent, more);
      if ok {
        WroteThen(frame.conn.enc, frame.crc, iv0, s0, out0, Requests(info, sent),
                  old(frame.conn.encIv), old(frame.writeSeqNo), old(frame.conn.raw.outgoing), Requests(info, more),
                  frame.conn.encIv, frame.writeSeqNo, frame.conn.raw.outgoing);
      } else {
        WroteThenInterrupted(
          frame.conn.enc, frame.crc, iv0, s0, out0, Requests(info, sent),
          old(frame.conn.encIv), old(frame.writeSeqNo), old(frame.conn.raw.outgoing), Requests(info, more),
          BuildProxyReq(info, FirstPacket(inbuf)), frame.conn.encIv, frame.writeSeqNo, frame.conn.raw.outgoing);
      }
    }

    /** A whole run of Write calls, up to the first that fails: wire and buffer depend only on
        the bytes written. */
    method WriteRun(chunks: seq<Bytes>) returns (ok: bool, ghost sent: seq<ClientPacket>, written: nat)
      requires !Complete(inbuf)
      modifies this`inbuf, frame`writeSeqNo, frame.conn`encIv, frame.conn.raw`outgoing
      ensures written <= |chunks| && (ok ==> written == |chunks|)
      ensures Split(old(inbuf) + Concat(chunks[..written])) == After(sent, Split(inbuf))
      ensures ok <==> !Complete(inbuf)
      ensures ok ==>
        Forwarded(old(frame.conn.encIv), old(frame.writeSeqNo), old(frame.conn.raw.outgoing), sent)
      ensures !ok ==>
        Stalled(old(frame.conn.encIv), old(frame.writeSeqNo), old(frame.conn.raw.outgoing), sent, FirstPacket(inbuf))
    {
      sent, written := [], 0;
      assert inbuf + Concat(chunks[..0]) == inbuf;
      assert Encrypt(frame.conn.enc, frame.conn.encIv, []) == [];
      ok := true;
      while written < |chunks|
        invariant ok && 0 <= written <= |chunks| && !Complete(inbuf)
        invariant Split(old(inbuf) + Concat(chunks[..written])) == After(sent, Split(inbuf))
        invariant Forwarded(old(frame.conn.encIv), old(frame.writeSeqNo), old(frame.conn.raw.outgoing), sent)
      {
        ghost var more;
        ghost var before := inbuf;
        ok, more := WriteMore(old(frame.conn.encIv), old(frame.writeSeqNo), old(frame.conn.raw.outgoing), sent,
                              chunks[written]);
        RunStep(old(inbuf), sent, before, chunks, written, more, inbuf);
        sent, written := sent + more, written + 1;
        if !ok {
          return;
        }
      }
    }

    /** Everything this connection can still hand to the client. */
    ghost function Owed(): Downstream
      reads this, frame, frame.conn, frame.conn.raw
    {
      Downstream(outbuf + Later().bytes, Later().end)
    }

    /** What the frames still to be read will deliver. */
    ghost function Later(): Downstream
      reads frame, frame.conn, frame.conn.raw
    {
      Delivery(frame.crc, frame.readSeqNo, frame.conn.Plain())
    }

    /** Reads one frame and classifies it. */
    method NextResponse() returns (r: NextRead)
      modifies frame`readSeqNo, frame.conn`buf, frame.conn`decIv, frame.conn.raw`incoming
      ensures r.NoFrame? ==> old(Later()) == Downstream([], FrameEnd(r.error))
      ensures r.Got? ==> old(Later()) == Deliver(r.response, Later())
      ensures r.Got? ==> |frame.conn.Plain()| < |old(frame.conn.Plain())|
    {
      var msg := frame.ReadPacket();
      r := if msg.Failed? then NoFrame(msg.error) else Got(ParseProxyResponse(msg.msg));
    }

    /** One pass of the Read loop: one frame is turned into client bytes, or ends the stream. */
    method Refill() returns (end: Option<StreamEnd>)
      requires outbuf == []
      modifies this`outbuf, frame`readSeqNo, frame.conn`buf, frame.conn`decIv, frame.conn.raw`incoming
      ensures end.Some? ==> old(Later()) == Downstream([], end.value)
      ensures end.None? ==> old(Later()) == Downstream(outbuf + Later().bytes, Later().end)
      ensures end.None? ==> |frame.conn.Plain()| < |old(frame.conn.Plain())|
    {
      var next := NextResponse();
      if next.NoFrame? {
        return Some(FrameEnd(next.error));
      }
      end := None;
      match next.response
      case BadResponse => return Some(ResponseEnd);
      case Answer(payload) => outbuf := FrameIntermediate(payload);
      case SimpleAck(payload) => outbuf := payload;
      case CloseExt => return Some(Eof);
    }

    /** The copy at the end of Read. */
    method Take(n: nat) returns (bytes: Bytes)
      modifies this`outbuf
      ensures |bytes| == Min(n, |old(outbuf)|)
      ensures old(Owed()) == Downstream(bytes + Owed().bytes, Owed().end)
    {
      var k := Min(n, |outbuf|);
      bytes := outbuf[..k];
      ghost var later := Later();
      outbuf := outbuf[k..];
      assert Later() == later;
      assert bytes + outbuf == old(outbuf);
      Regroup(bytes, outbuf, later.bytes);
    }

    /** The Read loop: fills the output buffer, or finds that nothing is owed. */
    method Fill() returns (end: Option<StreamEnd>)
      modifies this`outbuf, frame`readSeqNo, frame.conn`buf, frame.conn`decIv, frame.conn.raw`incoming
      ensures end.Some? ==> old(Owed()) == Downstream([], end.value)
      ensures end.None? ==> outbuf != [] && Owed() == old(Owed())
    {
      while outbuf == []
        invariant Owed() == old(Owed())
        decreases outbuf == [], |frame.conn.Plain()|
      {
        end := Refill();
        if end.Some? {
          return;
        }
      }
      end := None;
    }

    /** Each read takes its bytes off the front of what is owed; an end is reported only when nothing is. */
    method Read(n: nat) returns (r: StreamRead)
      modifies this`outbuf, frame`readSeqNo, frame.conn`buf, frame.conn`decIv, frame.conn.raw`incoming
      ensures r.Ended? <==> old(Owed()).bytes == []
      ensures r.Ended? ==> r.end == old(Owed()).end
      ensures r.Chunk? ==> old(Owed()) == Downstream(r.bytes + Owed().bytes, Owed().end)
      ensures r.Chunk? ==> |r.bytes| <= n && (n > 0 ==> |r.bytes| > 0)
    {
      var end := Fill();
      if end.Some? {
        return Ended(end.value);
      }
      var bytes := Take(n);
      r := Chunk(bytes);
    }

    /** A whole run of Read calls with any buffer sizes: together they return a prefix of what was owed, and
        all of it once the end is reported. */
    method ReadRun(sizes: seq<nat>) returns (got: Bytes, end: Option<StreamEnd>)
      modifies this`outbuf, frame`readSeqNo, frame.conn`buf, frame.conn`decIv, frame.conn.raw`incoming
      ensures end.None? ==> old(Owed()) == Downstream(got + Owed().bytes, Owed().end)
      ensures end.Some? ==> old(Owed()) == Downstream(got, end.value)
    {
      got := [];
      for i := 0 to |sizes|
        invariant old(Owed()) == Downstream(got + Owed().bytes, Owed().end)
      {
        ghost var before := Owed();
        var r := Read(sizes[i]);
        if r.Ended? {
          return got, Some(r.end);
        }
        Regroup(got, r.bytes, Owed().bytes);
        got := got + r.bytes;
      }
      end := None;
    }
  }

  lemma RunStep(start: Bytes, sent: seq<ClientPacket>, inbuf: Bytes, chunks: seq<Bytes>, i: nat,
                more: seq<ClientPacket>, rest: Bytes)
    requires i < |chunks| && !Complete(inbuf)
    requires Split(start + Concat(chunks[..i])) == After(sent, Split(inbuf))
    requires Split(inbuf + chunks[i]) == After(more, Split(rest))
    ensures Split(start + Concat(chunks[..i + 1])) == After(sent + more, Split(rest))
  {
    assert chunks[..i + 1] == chunks[..i] + [chunks[i]];
    ConcatAppend(chunks[..i], [chunks[i]]);
    assert Concat([chunks[i]]) == chunks[i];
    Regroup(start, Concat(chunks[..i]), chunks[i]);
    SplitAppend(start + Concat(chunks[..i]), chunks[i]);
    assert sent + [] == sent;
    AfterTwice(sent, more, Split(rest));
  }

  lemma RequestsAppend(info: StreamInfo, a: seq<ClientPacket>, b: seq<ClientPacket>)
    ensures Requests(info, a + b) == Requests(info, a) + Requests(info, b)
  {
    assert |Requests(info, a + b)| == |a| + |b|;
  }

  lemma RequestsSnoc(info: StreamInfo, ps: seq<ClientPacket>, p: ClientPacket)
    ensures Requests(info, ps + [p]) == Requests(info, ps) + [BuildProxyReq(info, p)]
  {
    assert |Requests(info, ps + [p])| == |ps| + 1;
  }

  lemma ForwardStep(whole: Bytes, inbuf: Bytes, sent: seq<ClientPacket>)
    requires Complete(inbuf)
    requires Split(whole) == After(sent, Split(inbuf))
    ensures Split(whole) == After(sent + [FirstPacket(inbuf)], Split(AfterFirst(inbuf)))
  {
    AfterTwice(sent, [FirstPacket(inbuf)], Split(AfterFirst(inbuf)));
  }

  // ---------------------------------------------------------------- against a peer

  predicate Short(ps: seq<ClientPacket>) {
    forall i :: 0 <= i < |ps| ==> |ps[i].body| <= MAX_BODY
  }

  /** Every request for what was split off a stream meets what the frame reader demands, unless it is too long. */
  lemma SplitIsSendable(info: StreamInfo, stream: Bytes)
    ensures AllSendable(Requests(info, Split(stream).packets)) <==> Short(Split(stream).packets)
  {
    SplitBodiesAligned(stream);
    var ps := Split(stream).packets;
    forall i | 0 <= i < |ps|
      ensures Sendable(Requests(info, ps)[i]) <==> |ps[i].body| <= MAX_BODY
    {
      RequestSendable(info, ps[i]);
    }
    if AllSendable(Requests(info, ps)) {
      assert forall i :: 0 <= i < |ps| ==> Sendable(Requests(info, ps)[i]);
    }
  }

  /** Client bytes, written in any chunks behind any incomplete tail, reach a peer that is in step as one request per
      complete packet. */
  method ClientToPeer(m: MiddleConn, r: FrameConn, chunks: seq<Bytes>)
    returns (ok: bool, got: seq<Bytes>, end: FrameError)
    requires !Complete(m.inbuf) && InStep(m.frame, r) && Short(Split(m.inbuf + Concat(chunks)).packets)
    modifies m`inbuf, m.frame`writeSeqNo, m.frame.conn`encIv, m.frame.conn.raw`outgoing
    modifies r`readSeqNo, r.conn`buf, r.conn`decIv, r.conn.raw`incoming
    ensures ok ==>
      var cut := Split(old(m.inbuf) + Concat(chunks));
      got == Requests(m.info, cut.packets) && m.inbuf == cut.tail && InStep(m.frame, r)
  {
    ghost var stream := m.inbuf + Concat(chunks);
    var out0 := m.frame.conn.raw.outgoing;
    ghost var sent;
    var written;
    ok, sent, written := m.WriteRun(chunks);
    got, end := [], ShortLength;
    if ok {
      assert chunks[..written] == chunks;
      assert Split(stream) == Cut(sent + [], m.inbuf) && sent + [] == sent;
      SplitIsSendable(m.info, stream);
      got, end := Collect(m.frame, r, out0, Requests(m.info, sent));
    }
  }

  /** Whatever messages a peer that is in step sends, reads of any sizes return the bytes owed for them. */
  method PeerToClient(w: FrameConn, m: MiddleConn, msgs: seq<Bytes>, sizes: seq<nat>)
    returns (ok: bool, got: Bytes, end: Option<StreamEnd>)
    requires InStep(w, m.frame) && AllSendable(msgs)
    modifies w`writeSeqNo, w.conn`encIv, w.conn.raw`outgoing
    modifies m`outbuf, m.frame`readSeqNo, m.frame.conn`buf, m.frame.conn`decIv, m.frame.conn.raw`incoming
    ensures ok ==>
      var owed := Transcript(msgs, FrameEnd(ShortLength));
      if end.Some? then Downstream(got, end.value) == Downstream(old(m.outbuf) + owed.bytes, owed.end)
      else got <= old(m.outbuf) + owed.bytes
  {
    got, end := [], None;
    var out0 := w.conn.raw.outgoing;
    ghost var sent;
    ok, sent := w.SendAll(msgs);
    if ok {
      Arrive(w, m.frame, out0, msgs);
      DeliveryIsTranscript(m.frame.crc, m.frame.readSeqNo, m.frame.conn.Plain());
      got, end := m.ReadRun(sizes);
    }
  }
}
