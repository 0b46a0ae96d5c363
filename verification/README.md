# mtg-multi: a verified model of its protocol code and multi-user state

mtg-multi is a Telegram MTProto proxy. This project models, in Dafny, the parts of it whose correctness is hard to see
by reading: the middle-proxy wire stack, the FakeTLS input path and record layer, the obfuscated2 handshake, the
fair-share throttle, the dial circuit breaker, and the multi-user state (secret texts, secret snapshots, live streams,
quota periods, pending slots). `dafny verify dfyconfig.toml` checks everything.

Objects that the source updates in place are classes whose methods are specified by functions of their old state; the
theorems are lemmas about those functions. Protocols with several goroutines are state machines whose steps are the
mutex sections and the single atomic operations, with theorems about every run.

| file | models |
|---|---|
| `Bytes.dfy`, `RawConn.dfy` | integer codecs, XOR, the byte pipe with short reads and failing writes |
| `Cbc.dfy`, `Frame.dfy`, `Middle.dfy` | `cbcConn`, `frameConn`, `middleConn` |
| `Rewind.dfy`, `Fragments.dfy`, `Hello.dfy`, `FakeTls.dfy` | `connRewind`, handshake reassembly, ClientHello and SNI parsing, secret matching and fronting |
| `TlsRecords.dfy`, `Doppel.dfy` | the TLS record layer and the doppelganger re-segmenter |
| `Obfuscation.dfy` | the obfuscated2 handshake and its stream ciphers |
| `FairShare.dfy`, `Breaker.dfy` | `computeFairCaps`, `circuitBreakerDialer` |
| `SecretText.dfy`, `SecretSet.dfy`, `LiveConns.dfy`, `LiveRuns.dfy`, `Quota.dfy`, `Pending.dfy` | secrets as text, snapshots, mutators and stream registry, their interleavings, quota rollover, pending-handshake slots |

AES, SHA-256, HMAC and CRC32 are function parameters: the results hold for every pair of block maps of which one undoes
the other, every keystream, hash, MAC and checksum. Clocks, random bytes and the calendar are parameters too.

## What the proofs brought to light

- A frame is a whole number of cipher blocks if and only if its message is a whole number of 4-byte words
  (`FrameAlignment`); only such messages of at most 16777216 - 12 bytes survive the trip (`RoundTripIff`). Requests are
  always whole words, but a client packet longer than `MAX_BODY` is sent as a frame that the peer refuses
  (`RequestSendable`, `DrainsUpToOversize`). A raw write that fails leaves the sequence number one ahead (`MiddleConn.Write`).
- HalfOpened is not always left: a cancelled half-open probe keeps the only attempt taken, and once no dial is in flight
  the breaker stays HalfOpened for good. It can be left exactly when the probe is free or a dial is in flight
  (`LeavesHalfOpenedIff`, `CancelledProbeWedges`).
- A server_name extension is read back exactly when it lists at most one host: the entry type is read once, so the
  type byte of a second entry is taken for part of a length (`ServerNameIff`).
- A ClientHello body of more than 65531 bytes wraps the rebuilt record length (`LongMessageWraps`). The last byte of a
  cipher list of odd length is read as the compression length, and parsing still ends at the extensions exactly when
  that byte happens to be one more than the real one (`OddCipherList`).
- A stream that matched a secret before a swap and registered after it outlives its key (`RaceOutlivesKey`); a live
  stream has its name's current key if and only if it had it when it registered (`LiveKeyIffFit`).
- The comment on `SetGlobalAdTag` says that no live connection is closed. The code closes the streams of users that
  have expired or are disabled by then, as every swap does (`DoomedByOp`).
- `DeleteSecret` leaves the limits of the deleted name in the configuration. Nothing brings them back
  (`LiveConns.Proxy.DeleteSecret`, `DeletedStaysDeleted`).
- `Set` returns an error for an empty host after it has already overwritten key and host (`SecretText.SecretValue.Set`).
- A quota period is reset exactly once only under a condition on the clocks: callers on the two sides of a month's end
  can reset a started period twice, and a period that has not started once (`NeverResetIff`, `AtMostOnceIff`,
  `ExactlyOnceIff` give the exact conditions).
- After a record that is cut off inside its payload, `tls.Conn` returns the bytes that have arrived on the next read,
  even of a record that is not application data: exactly when more than its header has arrived (`AnyCut`,
  `TlsRecords.TlsConn.Read`).
- In dry-run mode the 2^32nd open slot of one address would wrap its counter (`PendingHandshakes.Limiter.Acquire`).

## Model

| member | source | states |
|---|---|---|
| `CbcStream.EncryptAppend` | mtglib/internal/middleproxy/frame.go:55-68 | encrypting in several writes, each chained on the last block of the one before, is encrypting once |
| `CbcStream.DecryptEncrypt` | mtglib/internal/middleproxy/frame.go:37-68 | decryption under the same chaining value undoes encryption, for every two block maps of which the reader's undoes the writer's |
| `CbcStream.EncryptBlock` | mtglib/internal/middleproxy/frame.go:60-61 | cipher block chaining block by block: each is mixed with the ciphertext block before it, the first with the IV, and then goes through the key |
| `CbcStream.DecryptBlock` | mtglib/internal/middleproxy/frame.go:45-46 | and the same backwards, for every input |
| `ByteCodec.LEValue` | mtglib/internal/middleproxy/frame.go:122 | what the bytes of a little-endian integer are worth |
| `ByteCodec.BEValue` | mtglib/internal/tls/fake/utils.go:118 | what the bytes of a big-endian integer are worth |
| `ByteCodec.XorIsBitwise` | mtglib/internal/tls/fake/client_side.go:119-121 | a bit of an XOR is set exactly where one of the two bytes has it and the other has not |
| `CbcStream.CbcConn.Read` | mtglib/internal/middleproxy/frame.go:37-53 | a read takes a non-empty front off the plaintext still to come, and fails exactly when no whole block is left |
| `CbcStream.CbcConn.ReadFull` | mtglib/internal/middleproxy/frame.go:37-53 | block-at-a-time buffering cannot be seen: the next n plaintext bytes, or a short stream |
| `CbcStream.CbcConn.Write` | mtglib/internal/middleproxy/frame.go:55-68 | refused untouched exactly for a length that is not a whole number of blocks; else the ciphertext is appended and the chaining value moves, also when the raw write fails |
| `FrameCodec.FrameAlignment` | mtglib/internal/middleproxy/frame.go:87-104 | a frame fills whole cipher blocks if and only if its message is a whole number of words |
| `FrameCodec.FrameLayout` | mtglib/internal/middleproxy/frame.go:87-104 | the bytes of a frame: length, sequence number, message, the checksum of all these, and padding words 4, 0, 0, 0 up to the next block |
| `FrameCodec.SeqCounts` | mtglib/internal/middleproxy/frame.go:102 | the sequence number on the wire counts the frames, modulo 2^32 |
| `FrameCodec.FrameAt` | mtglib/internal/middleproxy/frame.go:87-107 | the i-th message is the i-th frame and carries the i-th sequence number after the first |
| `FrameCodec.ReadAnyFrame` | mtglib/internal/middleproxy/frame.go:127-150 | what a reader makes of a frame with any sequence number and any checksum: refused for the one, then for the other, accepted exactly if both are right |
| `FrameCodec.ReadAnyLength` | mtglib/internal/middleproxy/frame.go:112-130 | what it makes of any other length word: padding, a bad length, a short body |
| `FrameCodec.SkipPadding` | mtglib/internal/middleproxy/frame.go:112-120 | any number of padding words in front of a frame changes nothing |
| `FrameCodec.DecodeEncode` | mtglib/internal/middleproxy/frame.go:87-151 | reading a written frame returns its message and leaves exactly its padding in front of what follows |
| `FrameCodec.RoundTripIff` | mtglib/internal/middleproxy/frame.go:87-151 | a message can be written and read back if and only if its length is a multiple of 4 and at most 16777216 - 12 |
| `FrameCodec.AllRoundTrip` | mtglib/internal/middleproxy/frame.go:87-151 | a peer at the same sequence number drains exactly the messages written, in order, and then waits: no padding is taken for a frame |
| `FrameCodec.DrainsUpToOversize` | mtglib/internal/middleproxy/frame.go:87-151 | with messages that are too long among them, exactly those before the first of these are drained, and that one is refused for its length |
| `FrameCodec.CipheredRoundTrip` | mtglib/internal/middleproxy/frame.go:37-151 | the same through the cipher, and the alignment error never occurs |
| `FrameCodec.WroteThen` | mtglib/internal/middleproxy/frame.go:87-107 | two stretches of writing leave wire, chaining value and sequence number of one longer stretch |
| `FrameCodec.WroteThenInterrupted` | mtglib/internal/middleproxy/frame.go:87-107 | a stretch of writing and then one that fails part way leave the writer where one longer failing stretch does |
| `FrameCodec.FrameConn.WritePacket` | mtglib/internal/middleproxy/frame.go:87-107 | what goes on the wire in each outcome; the sequence number advances, wrapping at 32 bits, on failures too |
| `FrameCodec.FrameConn.WriteNext` | mtglib/internal/middleproxy/frame.go:87-107 | after any messages the wire grows by exactly one more encrypted frame; if the raw write fails, by some part of it, with cipher and sequence number moved past it |
| `FrameCodec.FrameConn.ReadPacket` | mtglib/internal/middleproxy/frame.go:109-151 | message, error, sequence number and remaining plaintext are those of the frame decoder, padding loop included |
| `FrameCodec.FrameConn.SendAll` | mtglib/internal/middleproxy/frame.go:87-107 | a run of writes puts exactly the frames of the messages on the wire; if it stops, the whole ones before the failed message and some part of that one |
| `FrameCodec.FrameConn.Drain` | mtglib/internal/middleproxy/frame.go:109-151 | a run of reads returns the messages of the reference decoder up to its first error |
| `FrameCodec.Exchange` | mtglib/internal/middleproxy/frame.go:37-151 | two connection objects in step, each with a key of its own for each direction: whatever messages one writes, the other reads back, message for message, with any padding left behind skipped, and they are in step again |
| `FrameCodec.Dialogue` | mtglib/internal/middleproxy/frame.go:37-151 | any turns in both directions between two connections in step are heard as they were spoken |
| `MiddleStream.SplitAppend` | mtglib/internal/middleproxy/stream.go:53-82 | cutting a stream anywhere and carrying the incomplete tail over changes neither packets nor final tail |
| `MiddleStream.ChunkingIsInvisible` | mtglib/internal/middleproxy/stream.go:53-82 | every way of cutting a client stream into writes gives the packets and tail of one write |
| `MiddleStream.SplitClientStream` | mtglib/internal/middleproxy/stream.go:56-79 | splitting undoes the client's framing: bodies, order and quick-ack bits kept, 0 to 3 padding bytes stripped |
| `MiddleStream.IpPortRoundTrip` | mtglib/internal/middleproxy/stream.go:199-208 | address and port can be read back from their 20 bytes |
| `MiddleStream.NoAddress` | mtglib/internal/middleproxy/stream.go:199-208 | a missing address is twenty zero bytes |
| `MiddleStream.ProxyReqRoundTrip` | mtglib/internal/middleproxy/stream.go:114-144 | every field, the packet and the flags can be recovered from a built request, at the offsets and with the constants of the layout |
| `MiddleStream.FlagsExactly` | mtglib/internal/middleproxy/stream.go:115-123 | the flag word: bits 3, 12, 17, 27 and 29 always, 31 for a quick-ack, 1 for a packet of at least eight bytes that begins with eight zeros, no other |
| `MiddleStream.RequestSendable` | mtglib/internal/middleproxy/stream.go:114-144 | a request meets what the frame reader demands if and only if its packet is word-aligned and not too long |
| `MiddleStream.ClientToMiddleProxy` | mtglib/internal/middleproxy/stream.go:53-144 | end to end: packets padded and cut in any way, framed and encrypted, are drained as one request per packet, in order, with body, ad tag and quick-ack bit |
| `MiddleStream.DeliveryIsTranscript` | mtglib/internal/middleproxy/stream.go:84-112 | reading frame by frame delivers what a walk over the received responses up to the first ending one delivers |
| `MiddleStream.MiddleProxyToClient` | mtglib/internal/middleproxy/stream.go:84-195 | whatever the middle proxy framed and encrypted, the client is owed the length-prefixed answers and raw quick-acks before the first close, and nothing else |
| `MiddleStream.ReplyParses` | mtglib/internal/middleproxy/stream.go:158-183 | a response in the RPC layout is classified as what it is and its payload returned |
| `MiddleStream.ResponseExactly` | mtglib/internal/middleproxy/stream.go:158-183 | exactly which messages are answers, quick-acks and closes, and their payloads; anything else, a tag without its fixed fields included, is an error |
| `MiddleStream.RepliesUntilEnd` | mtglib/internal/middleproxy/stream.go:84-195 | any replies, then a message that is none, then anything: the client gets each answer with its length and each quick-ack as it is, in order; then end of file if that message is a close, an error otherwise |
| `MiddleStream.AnswerReadsBack` | mtglib/internal/middleproxy/stream.go:189-195 | an answer framed for the client is one complete packet of the client's own framing, with the same payload and no quick-ack bit |
| `MiddleStream.MiddleConn.Write` | mtglib/internal/middleproxy/stream.go:53-82 | the packets that p completes are on the wire and the buffer is exactly the incomplete tail; if a raw write fails, the packets before are whole on the wire, the failed one partly, it and all after it are still buffered, and cipher and sequence number have passed it |
| `MiddleStream.MiddleConn.WriteRun` | mtglib/internal/middleproxy/stream.go:53-82 | after any run of writes, up to the first that fails, wire and buffer depend only on the bytes written so far |
| `MiddleStream.MiddleConn.Refill` | mtglib/internal/middleproxy/stream.go:85-106 | one frame becomes the bytes owed for it, or ends the stream with the right error |
| `MiddleStream.MiddleConn.Read` | mtglib/internal/middleproxy/stream.go:84-112 | a read takes its bytes off the front of what is owed; an end is reported exactly when nothing is |
| `MiddleStream.MiddleConn.ReadRun` | mtglib/internal/middleproxy/stream.go:84-112 | any sequence of reads with any buffer sizes returns a prefix of what was owed, and all of it once the end is reported |
| `MiddleStream.SplitIsSendable` | mtglib/internal/middleproxy/stream.go:53-144 | every request for a packet split off the stream has the alignment the frame reader demands, and all of them can be read if and only if no packet is too long |
| `MiddleStream.ClientToPeer` | mtglib/internal/middleproxy/stream.go:53-82 | client bytes written in any chunks behind any incomplete tail reach a peer object in step as one request per complete packet, and the buffer is the new tail |
| `MiddleStream.PeerToClient` | mtglib/internal/middleproxy/stream.go:84-112 | whatever messages a peer object in step sends, reads of any sizes return the bytes owed for them, and all of them once the end is reported |
| `RewindConn.ConnRewind.Read` | mtglib/conns.go:45-67 | reads before Rewind are recorded without loss; reads after it replay the record and then go on |
| `RewindConn.ConnRewind.Rewind` | mtglib/conns.go:56-58 | from here on the stream is read from its first byte again |
| `Fragments.TakeAdd` | mtglib/internal/tls/fake/utils.go:77-97 | taking a + b handshake bytes is taking a and then b: read sizes cannot be seen |
| `Fragments.TakeRecords` | mtglib/internal/tls/fake/utils.go:77-122 | from any buffer and record count, n bytes consume exactly the records up to the completing one, empty records included |
| `Fragments.AnySplit` | mtglib/internal/tls/fake/utils.go:77-158 | every split of a message over at most eleven records gives the same HMAC input and body and consumes exactly those records |
| `Fragments.SameAsOneRecord` | mtglib/internal/tls/fake/utils.go:124-158 | up to 65531 body bytes the rebuilt HMAC input is the single-record encoding |
| `Fragments.LongMessageWraps` | mtglib/internal/tls/fake/utils.go:140-150 | the rebuilt record length is right if and only if the body has at most 65531 bytes |
| `Fragments.TwelveRecordsRefused` | mtglib/internal/tls/fake/utils.go:84-94 | a message that eleven records do not complete is refused, whatever follows |
| `Fragments.FragmentExactly` | mtglib/internal/tls/fake/utils.go:99-122 | exactly what is a handshake record, and what is wrong with anything else |
| `Fragments.IncompleteRefused` | mtglib/internal/tls/fake/utils.go:77-158 | a message that is not complete when the stream ends, a record of another kind or version comes, or the limit is reached, is refused for that reason |
| `Fragments.OtherMessageRefused` | mtglib/internal/tls/fake/utils.go:132-134 | any other handshake message than a ClientHello is refused once its header is there |
| `Fragments.FragmentReader.ParseNextFragment` | mtglib/internal/tls/fake/utils.go:99-122 | payload, error and remaining stream of one record, and the tee keeps the whole stream |
| `Fragments.FragmentReader.Read` | mtglib/internal/tls/fake/utils.go:77-97 | one read serves part of the first non-empty payload, within the fragment limit |
| `Fragments.FragmentReader.CopyN` | mtglib/internal/tls/fake/utils.go:77-97 | however requests are cut, the next n handshake bytes or the error that comes before them |
| `Fragments.ReadHello` | mtglib/internal/tls/fake/utils.go:124-158 | HMAC input, body, error and unread stream are those of the reference reassembly; nothing of the stream is lost to the tee |
| `HelloParser.FirstSuiteIsFirst` | mtglib/internal/tls/fake/client_side.go:180-201 | the scan finds the first suite that is neither zero nor of the 0x?a?a form, and finds none exactly when there is none |
| `HelloParser.UsableIff` | mtglib/internal/tls/fake/client_side.go:194-196 | by the hexadecimal digits of a suite: not usable are 0 and those with a in the second and the fourth |
| `HelloParser.HandshakeExactly` | mtglib/internal/tls/fake/client_side.go:150-212 | result or error for every input, by offsets: version and random, session ID, cipher list, compression list |
| `HelloParser.HandshakeRoundTrip` | mtglib/internal/tls/fake/client_side.go:150-212 | a ClientHello in the RFC layout yields its random, session ID and first usable suite and stops at the extensions; it fails exactly when no suite is usable |
| `HelloParser.ServerNameIff` | mtglib/internal/tls/fake/client_side.go:259-301 | a server_name extension is read back if and only if it lists at most one host |
| `HelloParser.ExtensionExactly` | mtglib/internal/tls/fake/client_side.go:238-253 | one extension for every input: type, length, data, or which of them is cut off |
| `HelloParser.ServerNameExactly` | mtglib/internal/tls/fake/client_side.go:263-281 | an empty list names nobody, a list must begin with a host name, and a short one is an error |
| `HelloParser.NameExactly` | mtglib/internal/tls/fake/client_side.go:285-299 | one name for every input: length and name, or which of them is cut off |
| `HelloParser.ScanFindsNone` | mtglib/internal/tls/fake/client_side.go:229-304 | without a server_name extension nobody is named |
| `HelloParser.SniRoundTrip` | mtglib/internal/tls/fake/client_side.go:214-305 | the first server_name extension is found behind any others and its host returned |
| `HelloParser.HelloRoundTrip` | mtglib/internal/tls/fake/client_side.go:150-305 | both parsers in sequence return session ID, first usable suite and exactly that host |
| `HelloParser.OddCipherList` | mtglib/internal/tls/fake/client_side.go:178-209 | with a cipher list of odd length parsing still ends at the extensions if and only if the odd byte is one more than the length of the compression list and some suite is usable |
| `HelloParser.ScanSuites` | mtglib/internal/tls/fake/client_side.go:184-197 | the loop reads the whole list and keeps its first usable suite |
| `HelloParser.ParseHandshakeFrom` | mtglib/internal/tls/fake/client_side.go:150-212 | result, error and unread bytes are those of the reference parser |
| `HelloParser.ParseSniFrom` | mtglib/internal/tls/fake/client_side.go:214-305 | the names or the error of the reference parser |
| `HelloParser.ScanFrom` | mtglib/internal/tls/fake/client_side.go:229-257 | the extension loop ends, because its buffer shrinks, at the first server_name extension or without one |
| `HelloParser.ServerNameFrom` | mtglib/internal/tls/fake/client_side.go:259-301 | the name loop ends, because its buffer shrinks, with the names or error of the reference parser |
| `FakeTls.FirstMatch` | mtglib/internal/tls/fake/client_side.go:109-139 | the first secret that accepts the hello, none exactly when none does |
| `FakeTls.FirstHostIsFirst` | mtglib/internal/tls/fake/client_side.go:92-104 | the first allowed host that the client named, in the order of the allowed hosts |
| `FakeTls.SplitDoesNotMatter` | mtglib/internal/tls/fake/client_side.go:71-148 | two splits of one message into records are judged alike, whatever follows either |
| `FakeTls.SameSignedInput` | mtglib/internal/tls/fake/client_side.go:112-115 | the server signs the record the client signed, its random nullified |
| `FakeTls.AcceptsClientRandom` | mtglib/internal/tls/fake/client_side.go:110-132 | the random of a client with that secret is accepted if and only if its clock is within tolerance |
| `FakeTls.AcceptsIff` | mtglib/internal/tls/fake/client_side.go:110-132 | accepted is exactly the random that a holder of the secret sends within the tolerance: the HMAC of the hello with 32 zero bytes for its random, XORed with 28 zero bytes and a time |
| `FakeTls.ClientAccepted` | mtglib/internal/tls/fake/client_side.go:71-148 | a client with the i-th secret, an allowed host and a good clock is matched to that host, however it splits its hello, and to that secret if and only if no earlier one accepts the hello too |
| `FakeTls.HelloJudged` | mtglib/internal/tls/fake/client_side.go:71-148 | every hello in the RFC layout that names one host, in every split: no handshake without a usable suite; unknown for a host that is not allowed; a bad digest of exactly that host if no secret accepts it; else matched to the host and the first secret that accepts |
| `FakeTls.NamelessJudged` | mtglib/internal/tls/fake/client_side.go:92-104 | a hello without a server name is unknown |
| `FakeTls.ReadClientHelloMulti` | mtglib/internal/tls/fake/client_side.go:71-148 | the result of the reference evaluation of the client's stream, with a clock reading for each secret; reading stops behind the hello, and no byte is lost to the tee |
| `FakeTls.DoFakeTlsHandshake` | mtglib/proxy.go:595-649 | on the snapshot of the proxy object: which branch is taken to which host and what a served stream is given; the replay cache is offered exactly the session IDs of hellos that match, the limits are checked, with their quota rollover, exactly for those it has not seen; every fronting branch replays the client's stream from its first byte, a served stream goes on behind the hello |
| `FakeTls.HandshakeOfHello` | mtglib/proxy.go:595-649 | the same for every hello in the RFC layout: a host that no user has is fronted to the host of the first secret, a host of some user that no secret accepts to that host, neither touching cache or quotas; a served stream is accepted under the key it is given, and name, key and effective tag are those of one user, who is neither disabled nor expired nor over quota |
| `FakeTls.DeniedIff` | mtglib/proxy.go:643-649 | who is denied, from the limits themselves: disabled, not before the expiry, or at or over the quota |
| `Obfuscation.MaskTwice` | mtglib/obfuscation/conn.go:16-34 | masking with the same keystream position twice is the identity |
| `Obfuscation.RevertedKeyIv` | mtglib/obfuscation/handshake_frame.go:73-75 | the reversal crosses the key/IV border and undoes itself |
| `Obfuscation.CiphersOfFrame` | mtglib/obfuscation/obfuscator.go:84-96 | the two ciphers of a frame from its bytes, each key mixed with the secret if there is one |
| `Obfuscation.WireBytes` | mtglib/obfuscation/obfuscator.go:63-73 | the bytes that go out: key and IV in the clear, all others masked with the sender's first keystream bytes |
| `Obfuscation.ReadFrameExactly` | mtglib/obfuscation/obfuscator.go:41-53 | the last bytes unmasked must begin with the connection type, and the two after it are the DC, low byte first and signed, with 2 for 0 |
| `Obfuscation.HandshakeAgrees` | mtglib/obfuscation/obfuscator.go:27-96 | the reader sees the generated type and DC, and each side's receive stream is the other's send stream at the same position |
| `Obfuscation.DcRoundTrip` | mtglib/obfuscation/handshake_frame.go:60-71 | a DC comes back if and only if it is a non-zero int16, zero as 2; key, IV and the other bytes stay as they were |
| `Obfuscation.HandshakeRoundTrip` | mtglib/obfuscation/obfuscator.go:27-96 | for every non-zero int16 DC the exchange returns that DC and paired streams |
| `Obfuscation.ChunksAreOneStream` | mtglib/obfuscation/conn.go:27-34 | writing in any chunks masks like writing once |
| `Obfuscation.DataRoundTrip` | mtglib/obfuscation/conn.go:16-34 | data written in any chunks is unmasked to what was written |
| `Obfuscation.Cipher.XorKeyStream` | mtglib/obfuscation/conn.go:16-34 | the first n bytes are masked in place, the others stay, the position advances by n |
| `Obfuscation.Revert` | mtglib/obfuscation/handshake_frame.go:73-75 | key and IV are reversed in place and nothing else changes |
| `Obfuscation.GenerateHandshake` | mtglib/obfuscation/handshake_frame.go:77-111 | the first acceptable random frame, stamped with type and DC |
| `Obfuscation.AcceptableIff` | mtglib/obfuscation/handshake_frame.go:85-104 | exactly which random frames are taken, by first byte, first little-endian word and second word |
| `Obfuscation.SendHandshake` | mtglib/obfuscation/obfuscator.go:58-82 | the frame on the wire has clear key and IV; from the bytes of the frame, the send key is the hash of bytes 8 to 40 and the secret, the receive key that of the reversed bytes 24 to 56 and the secret, without a secret the bytes themselves |
| `Obfuscation.ReadHandshake` | mtglib/obfuscation/obfuscator.go:27-54 | refused exactly for a short stream or a wrong type; else the DC, and the same keys the other way round, 64 bytes consumed |
| `Obfuscation.Conn.Read` | mtglib/obfuscation/conn.go:16-25 | a read takes its bytes off the front of the unmasked stream and touches no other part of the buffer |
| `Obfuscation.Conn.Write` | mtglib/obfuscation/conn.go:27-34 | the caller's buffer is masked in place and sent, and the position advances |
| `Obfuscation.Introduce` | mtglib/obfuscation/obfuscator.go:27-82 | both ends of one handshake as objects: the reader gets the DC, and the two ends are paired, each one's ciphers where the other's are |
| `Obfuscation.Converse` | mtglib/obfuscation/conn.go:16-34 | between paired ends, what one writes in any chunks is what the other reads with any buffers, and the ends stay paired |
| `Obfuscation.Conversation` | mtglib/obfuscation/obfuscator.go:27-82 | handshake and then any turns in both directions, written in any chunks and read with any buffers: the DC arrives, and of every turn exactly the bytes written |
| `TlsRecords.DeframeWire` | mtglib/internal/tls/conn.go:50-69 | a reader recovers exactly the application data, whatever other records lie between |
| `TlsRecords.RecordExactly` | mtglib/internal/tls/utils.go:10-28 | exactly what is a record, and what is wrong with anything else |
| `TlsRecords.AnyCut` | mtglib/internal/tls/conn.go:50-69 | a stream of records cut off k bytes into record i: exactly the application data of the records before it is delivered, the end is a short header or a short payload as k says, and the payload bytes of record i that have arrived stay in the buffer whatever its kind, some if and only if more than the header has arrived |
| `TlsRecords.EveryCut` | mtglib/internal/tls/conn.go:50-69 | every place to cut a stream off is k bytes into some record i |
| `TlsRecords.DeframeFront` | mtglib/internal/tls/conn.go:50-69 | whole records in front of any stream add exactly their application data |
| `TlsRecords.WriteRecordInPlace` | mtglib/internal/tls/utils.go:37-52 | header in place in front of the payload, payload untouched; refused without effect exactly when too long; a failed write sends a front part |
| `TlsRecords.WriteRecord` | mtglib/internal/tls/utils.go:30-35 | one application-data record, or a refusal when too long |
| `TlsRecords.TlsConn.ReadRecord` | mtglib/internal/tls/utils.go:10-28 | kind and payload of one record, or the error with what was copied of the payload, and the remaining stream |
| `TlsRecords.TlsConn.Read` | mtglib/internal/tls/conn.go:50-69 | a read takes its bytes off the front of the application data; an end is reported exactly when none is left, and leaves buffer and stream as the reference says, so that later reads are determined too |
| `Doppelganger.Size` | mtglib/internal/doppel/stats.go:93-113 | every size is positive and fits a record |
| `Doppelganger.FixedSize` | mtglib/internal/doppel/stats.go:98-100 | without dynamic sizing every size is the greatest |
| `Doppelganger.Ramp` | mtglib/internal/doppel/stats.go:93-113 | at the beginning, and after any history and a pause of more than a second: while requests follow within a second, 40 records of about one packet, 20 of about 4 KiB, then full ones |
| `Doppelganger.EveryRun` | mtglib/internal/doppel/conn.go:36-95 | in every interleaving of writes, ticks, emissions, cancellations, stops and failures the records are non-empty, fit, and carry exactly the first bytes written; the rest is buffered or was in the one failed record; a TLS reader of whatever is on the wire recovers that prefix, and the failed record's bytes if and only if all of it arrived |
| `Doppelganger.CanDrain` | mtglib/internal/doppel/conn.go:58-83 | as long as the loop has not returned, whether it waits for its timer or for data, it can send everything that was accepted |
| `Doppelganger.EmitExactly` | mtglib/internal/doppel/conn.go:66-83 | a record is the size of the last tick, or all there is if that is less, off the front of the buffer; when its write fails it is the lost one and the loop is gone |
| `Doppelganger.CauseChanges` | mtglib/internal/doppel/conn.go:79-95 | which step ends the context, and for which reason |
| `Doppelganger.FirstCauseStays` | mtglib/internal/doppel/conn.go:79-95 | the first reason stays |
| `Doppelganger.StopReturns` | mtglib/internal/doppel/conn.go:58-95 | the wait of Stop ends: whatever the loop is doing, two of its own steps let it return |
| `Doppelganger.SilentAfterStop` | mtglib/internal/doppel/conn.go:58-95 | once the loop has returned nothing is sent, whatever is still written |
| `Doppelganger.DoppelConn.Write` | mtglib/internal/doppel/conn.go:36-48 | everything is accepted, with the reason why the context ended, if it has, as the error; the write step of the machine |
| `Doppelganger.DoppelConn.NextSize` | mtglib/internal/doppel/conn.go:58-66 | the tick step of the machine |
| `Doppelganger.DoppelConn.Leave` | mtglib/internal/doppel/conn.go:59-61 | the exit step of the machine |
| `Doppelganger.DoppelConn.EmitRecord` | mtglib/internal/doppel/conn.go:68-83 | the emission step of the machine, or its failing step; the wire holds exactly the emitted records and of a failed one some part |
| `Doppelganger.DoppelConn.Stop` | mtglib/internal/doppel/conn.go:86-95 | the cancel and stop steps of the machine; the first reason for the end of the context stays |
| `FairShare.FairCapsUnique` | mtglib/proxy_stats.go:314-352 | there is one fair answer, so the order of map iteration cannot matter |
| `FairShare.NoChangeIsBest` | mtglib/proxy_stats.go:330-349 | a pass that removes nobody has found the greatest level the limit can pay |
| `FairShare.Pass` | mtglib/proxy_stats.go:331-340 | one pass removes exactly the users at or below the share, in any order, and keeps the budget account |
| `FairShare.ComputeFairCaps` | mtglib/proxy_stats.go:314-352 | no caps if and only if everybody fits; else at least one user is capped, the capped are exactly those above the greatest level L with sum of min(conns, L) at most the limit, all at L |
| `CircuitBreaker.StepKeepsInv` | network/circuit_breaker.go:51-185 | every step keeps timers and phase matched, set timers armed, unset ones only due, and Closed below the threshold |
| `CircuitBreaker.EveryRunKeepsInv` | network/circuit_breaker.go:51-203 | so in every interleaving from a new breaker, late callbacks of stopped timers included |
| `CircuitBreaker.OpenedWakesUp` | network/circuit_breaker.go:127-161 | Opened always has a wake-up: its timer alone leads to HalfOpened with a free probe |
| `CircuitBreaker.PhaseChanges` | network/circuit_breaker.go:51-161 | the phase after every event: a success that was let through in Closed closes from every phase, a failure opens a Closed breaker that it brings to its limit, a probe decides HalfOpened, the wake-up half-opens Opened, nothing else changes it |
| `CircuitBreaker.CounterChanges` | network/circuit_breaker.go:69-79 | what clears both counters; otherwise a failure on the closed path counts one and the probe that is let through takes the attempt |
| `CircuitBreaker.DialChanges` | network/circuit_breaker.go:38-117 | how many dials are on which path after every event |
| `CircuitBreaker.SwitchTimers` | network/circuit_breaker.go:119-185 | a switch stops the running timers of other phases, leaves due callbacks and a running timer of the new phase alone, and starts one exactly if the new phase has none |
| `CircuitBreaker.StrayProbe` | network/circuit_breaker.go:106-108 | a finishing probe changes nothing if and only if the breaker is not HalfOpened |
| `CircuitBreaker.FailureStreak` | network/circuit_breaker.go:69-79 | the counter of a Closed breaker is the number of failures since the last success, cleanup or other phase |
| `CircuitBreaker.FindStreak` | network/circuit_breaker.go:69-79 | every run of a Closed breaker has such a place where its streak begins |
| `CircuitBreaker.StreakStartUnique` | network/circuit_breaker.go:69-79 | and only one |
| `CircuitBreaker.OpensExactlyAtThreshold` | network/circuit_breaker.go:75-79 | Closed turns Opened if and only if the event is a failure and completes threshold failures since the last success, cleanup or other phase |
| `CircuitBreaker.OpensOnlyAfterThreshold` | network/circuit_breaker.go:75-79 | Closed turns Opened only after threshold failures with no success and no cleanup between |
| `CircuitBreaker.OneProbePerPeriod` | network/circuit_breaker.go:84-89 | one half-open period admits at most one probe, however many dials race for it |
| `CircuitBreaker.WedgedForever` | network/circuit_breaker.go:84-99 | with the probe taken and no dial in flight, no run changes the phase or admits a probe |
| `CircuitBreaker.LeavesHalfOpenedIff` | network/circuit_breaker.go:84-117 | HalfOpened can be left if and only if the probe is free or a dial is in flight |
| `CircuitBreaker.CancelledProbeWedges` | network/circuit_breaker.go:93-99 | a run that reaches the stuck state by one cancelled probe |
| `CircuitBreaker.Dialer.DoSwitchState` | network/circuit_breaker.go:119-135 | the new state of fields and timers after a switch |
| `CircuitBreaker.Dialer.BeginDial` | network/circuit_breaker.go:38-49 | the load step of the machine and the path taken |
| `CircuitBreaker.Dialer.TakeProbe` | network/circuit_breaker.go:84-89 | the compare-and-swap step, won exactly when the attempt was free |
| `CircuitBreaker.Dialer.EndClosedDial` | network/circuit_breaker.go:56-82 | the finishing step of a closed-path dial, invariant kept |
| `CircuitBreaker.Dialer.EndProbe` | network/circuit_breaker.go:100-117 | the finishing step of a probe, invariant kept |
| `CircuitBreaker.Dialer.CancelClosedDial` | network/circuit_breaker.go:56-62 | a cancelled closed-path dial changes nothing but its own end |
| `CircuitBreaker.Dialer.CancelProbeDial` | network/circuit_breaker.go:93-99 | a cancelled probe leaves the attempt taken, and the breaker stuck when no other dial is in flight |
| `CircuitBreaker.Dialer.RunCallback` | network/circuit_breaker.go:137-161 | the callback steps, however late, invariant kept |
| `SecretText.HexRoundTrip` | mtglib/secret.go:116-118 | hex decoding undoes hex encoding |
| `SecretText.HexDigits` | mtglib/secret.go:116-118 | the digits, written in lower case and read in both |
| `SecretText.DecodeHexIff` | mtglib/secret.go:68 | a text decodes exactly to the bytes whose hex form it is, up to the case of its digits |
| `SecretText.B64RoundTrip` | mtglib/secret.go:111-113 | raw base64url decoding undoes its encoding |
| `SecretText.B64Alphabet` | mtglib/secret.go:111-113 | the alphabet of section 5 of RFC 4648, and no other character |
| `SecretText.SextetsAreBits` | mtglib/secret.go:111-113 | the bits of the bytes, high bits first, cut into sixes |
| `SecretText.BreakIgnored` | mtglib/secret.go:70 | a line break anywhere changes nothing |
| `SecretText.GroupsDecodeIff` | mtglib/secret.go:70 | a text without line breaks decodes exactly if all its characters are of the alphabet and none is alone |
| `SecretText.ParseIff` | mtglib/secret.go:63-98 | a text is accepted as a secret if and only if it decodes to that secret's bytes and the host is not empty |
| `SecretText.ParseErrors` | mtglib/secret.go:63-98 | which error every other text gets |
| `SecretText.BytesExactly` | mtglib/secret.go:120-125 | 0xee, the key, the host |
| `SecretText.ValidIff` | mtglib/secret.go:101-103 | a secret is valid if some byte of the key is not zero and the host is not empty |
| `SecretText.SecondCharIsNotHex` | mtglib/secret.go:111-125 | the second character of the base64 form lies between g and v |
| `SecretText.SetRoundTrip` | mtglib/secret.go:63-125 | Set inverts both Hex and Base64 for every key and non-empty host, although hex is tried first |
| `SecretText.SecretValue.Set` | mtglib/secret.go:63-98 | result and new fields; only an empty host is an error that changes them |
| `SecretText.EnvNeverSwallows` | internal/config/env.go:88-113 | the bare-key branch takes no text that is a full secret |
| `SecretText.EnvRoundTrip` | internal/config/env.go:88-113 | both forms of a full secret, and a bare key with its host, are read as that secret |
| `SecretText.EnvExactly` | internal/config/env.go:88-113 | exactly when a value is taken for a bare key, when its host is missing, and what becomes of any other |
| `SecretSets.SortedUnique` | mtglib/proxy.go:103-108 | a set of strings has one sorted listing in byte order, so map iteration order does not show |
| `SecretSets.SortedKeys` | mtglib/proxy.go:103-108 | collected in any order and sorted: strictly increasing, exactly the keys |
| `SecretSets.LessIff` | mtglib/proxy.go:103-108 | the order: a proper front part first, otherwise the smaller byte at the first difference |
| `SecretSets.ShowsOneToOne` | mtglib/proxy.go:66-147 | a table of users has one snapshot and a snapshot shows one table |
| `SecretSets.ShowsExactly` | mtglib/proxy.go:110-135 | a name's secret, tag and limits stand where the name stands, and a host is listed exactly if some user has it |
| `SecretSets.EffectiveAdTag` | mtglib/proxy.go:55-61 | the user's own tag or else the global one |
| `SecretSets.BuildSecretSet` | mtglib/proxy.go:102-147 | names sorted, unique and index-aligned with secrets, tags and limits; hostnames exactly the sorted set of hosts |
| `SecretSets.ToConfig` | mtglib/proxy.go:66-94 | the snapshot of a table is turned back into a configuration of exactly that table |
| `SecretSets.Rebuild` | mtglib/proxy.go:66-147 | toConfig followed by buildSecretSet gives the same snapshot again |
| `SecretSets.ApplyOutcome` | mtglib/proxy_api.go:95-186 | exactly which calls fail and how; a failure changes nothing; a proxy always keeps at least one secret, all valid |
| `SecretSets.GoodConfig` | mtglib/proxy.go:411-420 | a configuration is accepted if and only if it has a secret and none without host or with a zero key |
| `SecretSets.ApplyEffect` | mtglib/proxy_api.go:95-186 | what a successful operation makes of every name and of the global tag |
| `SecretSets.GlobalTagOfRun` | mtglib/proxy_api.go:95-186 | after any run the global tag is that of the last successful set-global-tag or replace, else the one at the start |
| `SecretSets.RunKeepsOthers` | mtglib/proxy_api.go:108-186 | operations that do not speak of a name leave its entry alone |
| `SecretSets.AbsentStaysAbsent` | mtglib/proxy_api.go:95-186 | a name that no operation gives to anybody stays absent, whatever is replaced, put or deleted |
| `SecretSets.DeletedStaysDeleted` | mtglib/proxy_api.go:108-167 | after a delete and any run in which no operation gives the name to anybody, replaces and failed attempts included, it is absent; whatever put or replace then adds it, it has exactly the secret, tag and limits of that operation |
| `LiveConns.DoomedByOp` | mtglib/proxy_api.go:101-186 | whom a put, a delete or a tag change closes |
| `LiveConns.Proxy.RegisterConn` | mtglib/proxy.go:435-446 | exactly this stream is added to the registry |
| `LiveConns.Proxy.UnregisterConn` | mtglib/proxy.go:448-462 | exactly this stream is removed and no empty entry stays |
| `LiveConns.Proxy.CloseStaleConns` | mtglib/proxy.go:468-500 | closes exactly the registered streams whose name is gone, was absent or is re-keyed |
| `LiveConns.Proxy.CheckLimits` | mtglib/proxy.go:506-520 | the reason from the limits: disabled, else not before the expiry, else at or over the quota after its rollover; only this user's quota period may roll over, no counter of connections or bytes changes |
| `LiveConns.Proxy.CloseDeniedConns` | mtglib/proxy.go:527-557 | closes exactly the registered streams of disabled or expired users, never for a quota |
| `LiveConns.Proxy.SwapSecretConfigLocked` | mtglib/proxy.go:411-433 | an invalid configuration changes nothing; else the new snapshot is in place, every name has statistics, and exactly the doomed streams are closed |
| `LiveConns.Proxy.ReplaceSecrets` | mtglib/proxy_api.go:95-100 | the update of the plain table, with the effect of one swap |
| `LiveConns.Proxy.PutSecret` | mtglib/proxy_api.go:108-144 | the update of the plain table, with the effect of one swap, or no change |
| `LiveConns.Proxy.DeleteSecret` | mtglib/proxy_api.go:149-167 | the update of the plain table, with the effect of one swap, or no change |
| `LiveConns.Proxy.SetGlobalAdTag` | mtglib/proxy_api.go:178-186 | always succeeds, with the effect of one swap; afterwards the effective tag of every user without one of their own is the given one |
| `LiveConns.Proxy.PerformAll` | mtglib/proxy_api.go:95-186 | after any sequence of operations the snapshot is that of the same updates on a plain map, and every counter of connections and bytes is as before |
| `LiveConns.NewProxy` | mtglib/proxy.go:840-859 | refused exactly for an empty or invalid set of secrets; else the snapshot of the configuration and a zero entry per name |
| `LiveRuns.EveryRunKeepsInv` | mtglib/proxy.go:411-557 | in every interleaving of matches, registrations and swaps the invariant about live streams holds |
| `LiveRuns.LiveKeyIffFit` | mtglib/proxy.go:411-557 | when no swap is under way, a live stream has its name's current key if and only if it had it when it registered |
| `LiveRuns.OneSnapshot` | mtglib/proxy.go:435-500 | if no swap came between match and registration, a live stream always has the current key |
| `LiveRuns.RaceOutlivesKey` | mtglib/proxy.go:435-500 | with a swap in between it can outlive its key |
| `LiveRuns.ClosedIffCollected` | mtglib/proxy.go:468-557 | a stream is closed, or waits to be, if and only if some swap found it registered and stale, disabled or expired |
| `LiveRuns.MatchAsStep` | mtglib/proxy.go:634-636 | a handshake that matches an index of the proxy's snapshot is the match step |
| `LiveRuns.RegisterAsStep` | mtglib/proxy.go:435-446 | registration by the proxy object is the register step |
| `LiveRuns.UnregisterAsStep` | mtglib/proxy.go:448-462 | and unregistration the unregister step |
| `LiveRuns.StaleAsRun` | mtglib/proxy.go:468-500 | closeStaleConns of the proxy object is the collecting step for stale streams and the closing of all it took |
| `LiveRuns.DeniedAsRun` | mtglib/proxy.go:527-557 | the same for closeDeniedConns |
| `LiveRuns.PerformAsRun` | mtglib/proxy_api.go:95-186 | every successful operation of the proxy object is a run of the interleaved machine from its old state to its new one |
| `Quota.ExactlyOnce` | mtglib/proxy_stats.go:41-59 | any number of callers, in any interleaving of their atomic steps with counted bytes: with callers calm about the period it is never reset and no byte is lost; a started one that they are calm about after whoever resets it is reset at most once, and exactly once when all finish, the counter then being what was counted after that |
| `Quota.SharedMonth` | mtglib/proxy_stats.go:41-59 | monthly callers of one month are calm about a period that has not started, and after every rollover |
| `Quota.NeverResetIff` | mtglib/proxy_stats.go:41-59 | no run resets the period if and only if the monthly callers are calm about it: all of its month, or, if it has not started, no one can start it for a caller of another month |
| `Quota.AtMostOnceIff` | mtglib/proxy_stats.go:41-59 | no run resets a started period twice if and only if whoever finds it due leaves the other monthly callers calm |
| `Quota.ExactlyOnceIff` | mtglib/proxy_stats.go:41-59 | all runs of all callers to their end reset it exactly once if and only if in addition some monthly caller finds it due |
| `Quota.CalmAfterPairs` | mtglib/proxy_stats.go:41-59 | with no clock at 0 that means: no two monthly callers of different months of which the first finds the period due |
| `Quota.SettledStep` | mtglib/proxy_stats.go:46-58 | once the period suits all callers still on their way nobody can win, because no start that suited another month comes back |
| `Quota.SoloIsRolled` | mtglib/proxy_stats.go:41-59 | a caller that nobody disturbs has the effect of the sequential description |
| `PendingHandshakes.SameAddress` | mtglib/pending_handshakes.go:51-56 | two addresses share a counter if and only if they are equal or one is the IPv6-mapped form of the other |
| `PendingHandshakes.TallyAdd` | mtglib/pending_handshakes.go:67 | counting one more keeps every counter equal to its open slots if and only if a uint32 can count them |
| `PendingHandshakes.TallyRemove` | mtglib/pending_handshakes.go:77-81 | releasing one keeps that, and stores no zero |
| `PendingHandshakes.TrackedExactly` | mtglib/pending_handshakes.go:93-111 | the tracked addresses are those of the open slots: none once all are released |
| `PendingHandshakes.Limiter.Acquire` | mtglib/pending_handshakes.go:46-90 | exactly when a slot is taken, refused or observed; without dry-run counters always equal open slots and stay within the limit, with it exactly up to the 2^32nd slot of one address |
| `PendingHandshakes.Limiter.Release` | mtglib/pending_handshakes.go:71-83 | any number of calls release the slot once |
| `PendingHandshakes.Limiter.FinishPendingHandshake` | mtglib/stream_context.go:31-35 | the same for a stream that may have taken no slot |
| `PendingHandshakes.Limiter.PendingFor` | mtglib/pending_handshakes.go:93-103 | the number of open slots of the address, IPv4 written as IPv6 included |
| `PendingHandshakes.Limiter.TrackedIPs` | mtglib/pending_handshakes.go:106-111 | the number of addresses with open slots, zero exactly when none is open |

## Left out

- Cryptographic primitives and their strength: they are parameters, and only their inverse laws are assumed.
- mtglib/internal/middleproxy/cipher.go, handshake.go and manager.go: key schedule, dialing and HTTP fetching.
- Weibull delays, ganger and scout of mtglib/internal/doppel: floating point and live crawling; a tick may come at any time.
- Network stacks, DNS, SOCKS5, listeners, relays, observers, loggers, HTTP handlers, JSON, TOML and the command line: plumbing.
- The server hello of mtglib/internal/tls/fake, the anti-replay cache and the IP lists: thin layers over random data and libraries; the answers of the cache are a parameter of the handshake.
- ResetQuota, LoadUsage and FlushUsage of mtglib/proxy_stats.go, and the throttle loop around the fair-share computation: single stores and I/O.
- CircuitBreaker.Dialer: a mutex section is one step, so the moment between the two atomic stores at the end of a switch is not modelled.
- FairShare.ComputeFairCaps: connection counts are not negative and their sum does not overflow int64.
- Obfuscation.Conn.Read: the connection below never returns bytes together with an error.
- SecretText.EnvRoundTrip: the host of SECRET_HOST is given with surrounding white space already removed.
- LiveConns.Proxy.CloseStaleConns: the old snapshot always exists; the source also guards against none.
- Quota.ExactlyOnce: the month is any function of the instant; time zones are not modelled.
- Doppelganger.Ramp: one reading of the clock stands for the two that the source takes in each request.
