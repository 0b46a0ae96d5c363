/** The obfuscated2 handshake of mtglib/obfuscation: both sides derive two stream ciphers from one 64-byte frame
    by reversing its key and IV in place. */
module Obfuscation {
  import opened ByteCodec
  import opened RawStream

  const FRAME_LENGTH := 64
  const DEFAULT_DC := 2
  const CONNECTION_TYPE: Bytes := [0xdd, 0xdd, 0xdd, 0xdd]

  type Frame = f: Bytes | |f| == FRAME_LENGTH witness seq(64, i => 0)

  /** AES-CTR is any function of key, IV and position; SHA-256 any function of bytes. */
  type Keystream = (Bytes, Bytes, nat) -> byte
  type Hash = Bytes -> Bytes

  /** One direction of a connection: where its keystream stands. */
  datatype Stream = Stream(key: Bytes, iv: Bytes, pos: nat)

  function Advance(s: Stream, n: nat): Stream {
    s.(pos := s.pos + n)
  }

  /** XORKeyStream. */
  function Masked(ks: Keystream, s: Stream, data: Bytes): (r: Bytes)
    ensures |r| == |data|
    ensures forall i :: 0 <= i < |data| ==> r[i] == Xor(data[i], ks(s.key, s.iv, s.pos + i))
  {
    seq(|data|, i requires 0 <= i < |data| => Xor(data[i], ks(s.key, s.iv, s.pos + i)))
  }

  lemma MaskTwice(ks: Keystream, s: Stream, data: Bytes)
    ensures Masked(ks, s, Masked(ks, s, data)) == data
  {
    forall i | 0 <= i < |data|
      ensures Masked(ks, s, Masked(ks, s, data))[i] == data[i]
    {
      XorCancels(data[i], ks(s.key, s.iv, s.pos + i));
    }
  }

  lemma MaskAppend(ks: Keystream, s: Stream, a: Bytes, b: Bytes)
    ensures Masked(ks, s, a + b) == Masked(ks, s, a) + Masked(ks, Advance(s, |a|), b)
  {
  }

  lemma MaskSlice(ks: Keystream, s: Stream, data: Bytes, from: nat, to: nat)
    requires from <= to <= |data|
    ensures Masked(ks, s, data)[from..to] == Masked(ks, Advance(s, from), data[from..to])
  {
  }

  function Reverse(b: Bytes): (r: Bytes)
    ensures |r| == |b|
    ensures forall i :: 0 <= i < |b| ==> r[i] == b[|b| - 1 - i]
  {
    seq(|b|, i requires 0 <= i < |b| => b[|b| - 1 - i])
  }

  // ---------------------------------------------------------------- frame layout

  function Key(f: Frame): (r: Bytes) ensures |r| == 32 { f[8..40] }
  function Iv(f: Frame): (r: Bytes) ensures |r| == 16 { f[40..56] }
  function ConnectionType(f: Frame): (r: Bytes) ensures |r| == 4 { f[56..60] }
  function DcBytes(f: Frame): (r: Bytes) ensures |r| == 2 { f[60..62] }

  /** A signed 16-bit DC; zero stands for the default. */
  function Dc(f: Frame): int {
    DcOf(DcBytes(f))
  }

  function DcOf(b: Bytes): int
    requires |b| == 2
  {
    var w := FromLE(b);
    var idx := if w >= 32768 then w - 65536 else w;
    if idx != 0 then idx else DEFAULT_DC
  }

  function Reverted(f: Frame): (r: Frame) {
    f[..8] + Reverse(f[8..56]) + f[56..]
  }

  /** The reversal crosses the key/IV border: the new key is the old IV and the old key's tail, backwards. */
  lemma RevertedKeyIv(f: Frame)
    ensures Key(Reverted(f)) == Reverse(f[24..56])
    ensures Iv(Reverted(f)) == Reverse(f[8..24])
    ensures Reverted(Reverted(f)) == f
  {
    var r := Reverted(f);
    assert r[8..56] == Reverse(f[8..56]);
    assert Reverse(Reverse(f[8..56])) == f[8..56];
    assert f == f[..8] + f[8..56] + f[56..];
    assert r[..8] == f[..8] && r[56..] == f[56..];
  }

  function CipherFor(hash: Hash, secret: Option<Bytes>, f: Frame): Stream {
    Stream(if secret.Some? then hash(Key(f) + secret.value) else Key(f), Iv(f), 0)
  }

  /** Both directions of one side. */
  datatype Session = Session(send: Stream, recv: Stream)

  // ---------------------------------------------------------------- the two handshakes as functions

  function ClientSession(hash: Hash, secret: Option<Bytes>, f: Frame): Session {
    Session(Advance(CipherFor(hash, secret, f), 64), CipherFor(hash, secret, Reverted(f)))
  }

  /** The frame as it goes out: everything masked but the key and IV. */
  function WireFrame(ks: Keystream, hash: Hash, secret: Option<Bytes>, f: Frame): Frame {
    var masked := Masked(ks, CipherFor(hash, secret, f), Reverted(f));
    masked[..8] + Key(f) + Iv(f) + masked[56..]
  }

  datatype Accepted = Accepted(dc: int, session: Session) | WrongType

  function ReadFrame(ks: Keystream, hash: Hash, secret: Option<Bytes>, w: Frame): Accepted {
    var recv := CipherFor(hash, secret, w);
    var plain: Frame := Masked(ks, recv, Reverted(w));
    if ConnectionType(plain) != CONNECTION_TYPE then WrongType
    else Accepted(Dc(plain), Session(CipherFor(hash, secret, Reverted(w)), Advance(recv, 64)))
  }

  /** The two ciphers of a frame, from its bytes: the key forwards and the reversed 48 bytes backwards, each mixed with
      the secret if there is one. */
  lemma CiphersOfFrame(hash: Hash, secret: Option<Bytes>, f: Frame)
    ensures CipherFor(hash, secret, f)
         == Stream(if secret.Some? then hash(f[8..40] + secret.value) else f[8..40], f[40..56], 0)
    ensures CipherFor(hash, secret, Reverted(f))
         == Stream(if secret.Some? then hash(Reverse(f[24..56]) + secret.value) else Reverse(f[24..56]),
                   Reverse(f[8..24]), 0)
  {
    RevertedKeyIv(f);
  }

  /** The bytes that go out: key and IV in the clear, all others masked with the sender's first 64 bytes of keystream. */
  lemma WireBytes(ks: Keystream, hash: Hash, secret: Option<Bytes>, f: Frame, i: nat)
    requires i < 64
    ensures var key := if secret.Some? then hash(f[8..40] + secret.value) else f[8..40];
            WireFrame(ks, hash, secret, f)[i] == if 8 <= i < 56 then f[i] else Xor(f[i], ks(key, f[40..56], i))
  {
    CiphersOfFrame(hash, secret, f);
    assert Reverted(f)[..8] == f[..8] && Reverted(f)[56..] == f[56..];
    if i >= 56 {
      assert Reverted(f)[i] == Reverted(f)[56..][i - 56] == f[56..][i - 56];
    }
  }

  /** What the reader makes of a frame: its last eight bytes unmasked must begin with the connection type, and the two
      bytes after that are the DC, low byte first and signed, with 2 for 0. */
  lemma ReadFrameExactly(ks: Keystream, hash: Hash, secret: Option<Bytes>, w: Frame, tail: Bytes)
    requires |tail| == 8
    requires var key := if secret.Some? then hash(w[8..40] + secret.value) else w[8..40];
             forall i :: 0 <= i < 8 ==> tail[i] == Xor(w[56..][i], ks(key, w[40..56], 56 + i))
    ensures var r, word := ReadFrame(ks, hash, secret, w), Digits(tail[5], tail[4]);
            && (r.Accepted? <==> tail[..4] == [0xdd, 0xdd, 0xdd, 0xdd])
            && (r.Accepted? ==> r.dc == if word == 0 then 2 else if word < 32768 then word else word - 65536)
  {
    var plain: Frame := Masked(ks, CipherFor(hash, secret, w), Reverted(w));
    var key := if secret.Some? then hash(w[8..40] + secret.value) else w[8..40];
    TailOfFrame(ks, hash, secret, w);
    Elementwise(ks, key, w[40..56], w[56..], tail);
    assert ConnectionType(plain) == plain[56..][..4] && DcBytes(plain) == plain[56..][4..6];
    DcExactly(tail[4..6]);
  }

  lemma Elementwise(ks: Keystream, key: Bytes, iv: Bytes, data: Bytes, tail: Bytes)
    requires |tail| == |data| && forall i :: 0 <= i < |data| ==> tail[i] == Xor(data[i], ks(key, iv, 56 + i))
    ensures tail == Masked(ks, Stream(key, iv, 56), data)
  {
  }

  lemma TailOfFrame(ks: Keystream, hash: Hash, secret: Option<Bytes>, w: Frame)
    ensures var key := if secret.Some? then hash(w[8..40] + secret.value) else w[8..40];
            Masked(ks, CipherFor(hash, secret, w), Reverted(w))[56..] == Masked(ks, Stream(key, w[40..56], 56), w[56..])
  {
    CiphersOfFrame(hash, secret, w);
    var c, r := CipherFor(hash, secret, w), Reverted(w);
    assert r[56..64] == r[56..] == w[56..];
    MaskSlice(ks, c, r, 56, 64);
    assert Masked(ks, c, r)[56..64] == Masked(ks, c, r)[56..];
  }

  lemma DcExactly(b: Bytes)
    requires |b| == 2
    ensures var word := Digits(b[1], b[0]);
            DcOf(b) == if word == 0 then 2 else if word < 32768 then word else word - 65536
  {
    LEValue(b);
  }

  lemma WireKeepsKey(ks: Keystream, hash: Hash, secret: Option<Bytes>, f: Frame)
    ensures var w := WireFrame(ks, hash, secret, f);
            Key(w) == Key(f) && Iv(w) == Iv(f)
            && Key(Reverted(w)) == Key(Reverted(f)) && Iv(Reverted(w)) == Iv(Reverted(f))
  {
    var w := WireFrame(ks, hash, secret, f);
    assert w[8..40] == Key(f);
    assert w[40..56] == Iv(f);
    assert w[8..56] == Key(f) + Iv(f) == f[8..56];
    assert Reverted(w)[8..56] == Reverse(w[8..56]);
    assert Reverted(f)[8..56] == Reverse(f[8..56]);
    assert Key(Reverted(w)) == Reverse(w[8..56])[..32];
    assert Key(Reverted(f)) == Reverse(f[8..56])[..32];
    assert Iv(Reverted(w)) == Reverse(w[8..56])[32..];
    assert Iv(Reverted(f)) == Reverse(f[8..56])[32..];
  }

  /** The reader unmasks the tail of the frame as it was generated. */
  lemma TailSurvives(ks: Keystream, hash: Hash, secret: Option<Bytes>, f: Frame)
    ensures var w := WireFrame(ks, hash, secret, f);
            Masked(ks, CipherFor(hash, secret, w), Reverted(w))[56..] == f[56..]
  {
    var w := WireFrame(ks, hash, secret, f);
    var s := CipherFor(hash, secret, f);
    WireKeepsKey(ks, hash, secret, f);
    assert CipherFor(hash, secret, w) == s;
    MaskSlice(ks, s, Reverted(f), 56, 64);
    MaskSlice(ks, s, Reverted(w), 56, 64);
    assert Reverted(f)[56..64] == f[56..];
    assert w[56..] == Masked(ks, s, Reverted(f))[56..64];
    assert Reverted(w)[56..64] == w[56..];
    MaskTwice(ks, Advance(s, 56), f[56..]);
  }

  /** The reader agrees with the sender: it sees the generated type and DC, its receive stream is the sender's
      send stream at the same position, and the other way round. */
  lemma HandshakeAgrees(ks: Keystream, hash: Hash, secret: Option<Bytes>, f: Frame)
    requires ConnectionType(f) == CONNECTION_TYPE
    ensures var mine := ClientSession(hash, secret, f);
            ReadFrame(ks, hash, secret, WireFrame(ks, hash, secret, f))
            == Accepted(Dc(f), Session(mine.recv, mine.send))
  {
    var w := WireFrame(ks, hash, secret, f);
    WireKeepsKey(ks, hash, secret, f);
    TailSurvives(ks, hash, secret, f);
    var plain: Frame := Masked(ks, CipherFor(hash, secret, w), Reverted(w));
    assert ConnectionType(plain) == plain[56..][..4] == f[56..][..4] == ConnectionType(f);
    assert DcBytes(plain) == plain[56..][4..6] == f[56..][4..6] == DcBytes(f);
  }

  // ---------------------------------------------------------------- generating the frame

  /** Not mistakable for another transport: see generateHandshake. */
  predicate Acceptable(f: Frame) {
    && f[0] != 0xef
    && f[..4] != [0x48, 0x45, 0x41, 0x44]   // HEAD
    && f[..4] != [0x50, 0x4f, 0x53, 0x54]   // POST
    && f[..4] != [0x47, 0x45, 0x54, 0x20]   // GET
    && f[..4] != [0x4f, 0x50, 0x54, 0x49]   // OPTI
    && f[..4] != [0x16, 0x03, 0x01, 0x02]
    && f[..4] != [0xdd, 0xdd, 0xdd, 0xdd]
    && f[..4] != [0xee, 0xee, 0xee, 0xee]
    && f[4..8] != [0, 0, 0, 0]
  }

  /** The same with the first four bytes read as a little-endian word. */
  lemma AcceptableIff(f: Frame)
    ensures Acceptable(f) <==>
            && f[0] != 0xef
            && FromLE(f[..4]) !in {0x44414548, 0x54534f50, 0x20544547, 0x4954504f, 0x02010316, 0xdddddddd, 0xeeeeeeee}
            && !(f[4] == f[5] == f[6] == f[7] == 0)
  {
    var b := f[..4];
    LEValue(b);
    assert b == [b[0], b[1], b[2], b[3]];
    assert f[4..8] == [f[4], f[5], f[6], f[7]];
  }

  function Stamped(f: Frame, dc: int): Frame {
    f[..56] + CONNECTION_TYPE + LE(dc % 65536, 2) + f[62..]
  }

  predicate FitsInt16(dc: int) {
    -32768 <= dc < 32768
  }

  /** A DC survives exactly when it is a non-zero int16; zero comes back as the default. */
  lemma DcRoundTrip(f: Frame, dc: int)
    ensures ConnectionType(Stamped(f, dc)) == CONNECTION_TYPE
    ensures Dc(Stamped(f, dc)) == dc <==> FitsInt16(dc) && dc != 0
    ensures Dc(Stamped(f, 0)) == 2
    ensures Stamped(f, dc)[..56] == f[..56] && Stamped(f, dc)[62..] == f[62..]
  {
    DcStamp(f, dc);
    DcStamp(f, 0);
  }

  lemma DcStamp(f: Frame, dc: int)
    ensures ConnectionType(Stamped(f, dc)) == CONNECTION_TYPE
    ensures DcBytes(Stamped(f, dc)) == LE(dc % 65536, 2)
    ensures FromLE(LE(dc % 65536, 2)) == dc % 65536
  {
    var s := Stamped(f, dc);
    assert s[56..60] == CONNECTION_TYPE;
    assert s[60..62] == LE(dc % 65536, 2);
    Pow256Values();
    LERoundTrip(dc % 65536, 2);
  }

  /** For every non-zero int16 DC the whole exchange returns that DC and paired streams. */
  lemma HandshakeRoundTrip(ks: Keystream, hash: Hash, secret: Option<Bytes>, f: Frame, dc: int)
    requires FitsInt16(dc) && dc != 0
    ensures var frame := Stamped(f, dc);
            var mine := ClientSession(hash, secret, frame);
            ReadFrame(ks, hash, secret, WireFrame(ks, hash, secret, frame))
            == Accepted(dc, Session(mine.recv, mine.send))
  {
    DcRoundTrip(f, dc);
    HandshakeAgrees(ks, hash, secret, Stamped(f, dc));
  }

  /** Data written in any chunks after the handshake is unmasked by the peer to what was written. */
  function WriteAll(ks: Keystream, s: Stream, chunks: seq<Bytes>): Bytes
    decreases |chunks|
  {
    if chunks == [] then [] else Masked(ks, s, chunks[0]) + WriteAll(ks, Advance(s, |chunks[0]|), chunks[1..])
  }

  lemma {:induction false} ChunksAreOneStream(ks: Keystream, s: Stream, chunks: seq<Bytes>)
    ensures WriteAll(ks, s, chunks) == Masked(ks, s, Concat(chunks))
    decreases |chunks|
  {
    if chunks != [] {
      ChunksAreOneStream(ks, Advance(s, |chunks[0]|), chunks[1..]);
      MaskAppend(ks, s, chunks[0], Concat(chunks[1..]));
    }
  }

  lemma DataRoundTrip(ks: Keystream, s: Stream, chunks: seq<Bytes>)
    ensures Masked(ks, s, WriteAll(ks, s, chunks)) == Concat(chunks)
  {
    ChunksAreOneStream(ks, s, chunks);
    MaskTwice(ks, s, Concat(chunks));
  }

  // ---------------------------------------------------------------- in place

  /** cipher.Stream. */
  class Cipher {
    const ks: Keystream
    var at: Stream

    constructor (ks: Keystream, at: Stream)
      ensures this.ks == ks && this.at == at
    {
      this.ks, this.at := ks, at;
    }

    /** XORs the first n bytes of p in place and advances. */
    method XorKeyStream(p: array<byte>, n: nat)
      requires n <= p.Length
      modifies p, this
      ensures p[..n] == Masked(ks, old(at), old(p[..n]))
      ensures p[n..] == old(p[n..])
      ensures at == Advance(old(at), n)
    {
      for i := 0 to n
        invariant forall j :: 0 <= j < i ==> p[j] == Xor(old(p[j]), ks(at.key, at.iv, at.pos + j))
        invariant forall j :: i <= j < p.Length ==> p[j] == old(p[j])
        invariant at == old(at)
      {
        p[i] := Xor(p[i], ks(at.key, at.iv, at.pos + i));
      }
      assert p[..n] == Masked(ks, at, old(p[..n]));
      at := Advance(at, n);
    }
  }

  /** slices.Reverse over key and IV, in place. */
  method Revert(data: array<byte>)
    requires data.Length == FRAME_LENGTH
    modifies data
    ensures data[..] == Reverted(old(data[..]))
  {
    var i, j := 8, 55;
    while i < j
      invariant 8 <= i <= 32 && j == 63 - i
      invariant forall k :: 8 <= k < i ==> data[k] == old(data[63 - k]) && data[63 - k] == old(data[k])
      invariant forall k :: i <= k <= j ==> data[k] == old(data[k])
      invariant forall k :: 0 <= k < 64 && (k < 8 || k >= 56) ==> data[k] == old(data[k])
    {
      data[i], data[j] := data[j], data[i];
      i, j := i + 1, j - 1;
    }
    assert forall k :: 8 <= k < 56 ==> data[k] == old(data[63 - k]);
    assert data[..] == Reverted(old(data[..]));
  }

  /** getCipher. */
  method GetCipher(ks: Keystream, hash: Hash, secret: Option<Bytes>, data: array<byte>) returns (c: Cipher)
    requires data.Length == FRAME_LENGTH
    ensures fresh(c) && c.ks == ks && c.at == CipherFor(hash, secret, data[..])
  {
    var blockKey := data[8..40];
    if secret.Some? {
      blockKey := hash(blockKey + secret.value);
    }
    assert data[..][8..40] == data[8..40] && data[..][40..56] == data[40..56];
    c := new Cipher(ks, Stream(blockKey, data[40..56], 0));
  }

  /** The retry loop of generateHandshake over the frames the random source yields. */
  method GenerateHandshake(random: seq<Frame>, dc: int) returns (r: Option<Frame>, ghost i: nat)
    ensures r.Some? <==> exists k :: 0 <= k < |random| && Acceptable(random[k])
    ensures r.Some? ==> i < |random| && Acceptable(random[i]) && r.value == Stamped(random[i], dc)
    ensures r.Some? ==> forall k :: 0 <= k < i ==> !Acceptable(random[k])
  {
    i := 0;
    for k := 0 to |random|
      invariant forall j :: 0 <= j < k ==> !Acceptable(random[j])
    {
      if Acceptable(random[k]) {
        return Some(Stamped(random[k], dc)), k;
      }
    }
    r := None;
  }

  class Conn {
    const raw: RawConn
    const sendCipher: Cipher
    const recvCipher: Cipher

    constructor (raw: RawConn, sendCipher: Cipher, recvCipher: Cipher)
      ensures this.raw == raw && this.sendCipher == sendCipher && this.recvCipher == recvCipher
    {
      this.raw, this.sendCipher, this.recvCipher := raw, sendCipher, recvCipher;
    }

    ghost function Sessions(): Session
      reads sendCipher, recvCipher
    {
      Session(sendCipher.at, recvCipher.at)
    }

    /** What the reads to come will return. */
    ghost function Plain(): Bytes
      reads recvCipher, raw
    {
      Masked(recvCipher.ks, recvCipher.at, raw.incoming)
    }

    /** Masks the caller's buffer in place and sends it. */
    method Write(p: array<byte>) returns (ok: bool)
      requires sendCipher != recvCipher
      modifies p, sendCipher, raw`outgoing
      ensures p[..] == Masked(sendCipher.ks, old(sendCipher.at), old(p[..]))
      ensures sendCipher.at == Advance(old(sendCipher.at), p.Length)
      ensures ok ==> raw.outgoing == old(raw.outgoing) + p[..]
      ensures !ok ==> old(raw.outgoing) <= raw.outgoing <= old(raw.outgoing) + p[..]
    {
      sendCipher.XorKeyStream(p, p.Length);
      assert p[..p.Length] == p[..];
      ok := raw.Write(p[..]);
    }

    /** Reads up to p.Length bytes and unmasks them in place; the rest of p is the caller's. */
    method Read(p: array<byte>) returns (n: Option<nat>)
      requires sendCipher != recvCipher
      modifies p, recvCipher, raw`incoming
      ensures n.None? <==> old(Plain()) == [] && p.Length > 0
      ensures n.Some? ==> n.value <= p.Length && p[n.value..] == old(p[n.value..])
      ensures n.Some? && p.Length > 0 ==> n.value > 0
      ensures n.Some? ==> old(Plain()) == p[..n.value] + Plain()
      ensures recvCipher.at == Advance(old(recvCipher.at), if n.Some? then n.value else 0)
      ensures |raw.incoming| == |old(raw.incoming)| - if n.Some? then n.value else 0
    {
      var chunk := raw.Read(p.Length);
      if chunk.None? {
        return None;
      }
      var k := |chunk.value|;
      forall i | 0 <= i < k {
        p[i] := chunk.value[i];
      }
      assert p[..k] == chunk.value;
      MaskAppend(recvCipher.ks, recvCipher.at, chunk.value, raw.incoming);
      recvCipher.XorKeyStream(p, k);
      n := Some(k);
    }
  }

  /** Both sides derive their ciphers alike: one from the frame, one from the frame reversed in place. */
  method DeriveCiphers(ks: Keystream, hash: Hash, secret: Option<Bytes>, data: array<byte>)
    returns (forward: Cipher, backward: Cipher)
    requires data.Length == FRAME_LENGTH
    modifies data
    ensures fresh(forward) && fresh(backward) && forward != backward
    ensures forward.ks == ks && backward.ks == ks
    ensures forward.at == CipherFor(hash, secret, old(data[..]))
    ensures backward.at == CipherFor(hash, secret, Reverted(old(data[..])))
    ensures data[..] == Reverted(old(data[..]))
  {
    forward := GetCipher(ks, hash, secret, data);
    Revert(data);
    backward := GetCipher(ks, hash, secret, data);
  }

  /** The ciphers of a frame, and the reversed frame masked with the first of them. */
  method MaskFrame(ks: Keystream, hash: Hash, secret: Option<Bytes>, f: Frame)
    returns (data: array<byte>, forward: Cipher, backward: Cipher)
    ensures fresh(data) && data.Length == FRAME_LENGTH
    ensures fresh(forward) && fresh(backward) && forward != backward
    ensures forward.ks == ks && backward.ks == ks
    ensures data[..] == Masked(ks, CipherFor(hash, secret, f), Reverted(f))
    ensures forward.at == Advance(CipherFor(hash, secret, f), 64)
    ensures backward.at == CipherFor(hash, secret, Reverted(f))
  {
    data := new byte[FRAME_LENGTH](i requires 0 <= i < FRAME_LENGTH => f[i]);
    assert data[..] == f;
    forward, backward := DeriveCiphers(ks, hash, secret, data);
    assert data[..FRAME_LENGTH] == data[..];
    forward.XorKeyStream(data, FRAME_LENGTH);
    assert data[..FRAME_LENGTH] == data[..];
  }

  /** Puts the clear key and IV back over the masked ones. */
  method RestoreKey(data: array<byte>, f: Frame)
    requires data.Length == FRAME_LENGTH
    modifies data
    ensures data[..] == old(data[..])[..8] + Key(f) + Iv(f) + old(data[..])[56..]
  {
    forall i | 8 <= i < 56 {
      data[i] := f[i];
    }
  }

  /** SendHandshake over a generated frame. */
  method SendHandshake(ks: Keystream, hash: Hash, secret: Option<Bytes>, w: RawConn, generated: Frame)
    returns (c: Option<Conn>)
    modifies w`outgoing
    ensures c.Some? ==> w.outgoing == old(w.outgoing) + WireFrame(ks, hash, secret, generated)
    ensures c.Some? ==> fresh(c.value.sendCipher) && fresh(c.value.recvCipher)
    ensures c.Some? ==> c.value.raw == w && c.value.sendCipher != c.value.recvCipher
    ensures c.Some? ==> c.value.sendCipher.ks == ks && c.value.recvCipher.ks == ks
    ensures c.Some? ==> c.value.Sessions() == ClientSession(hash, secret, generated)
    ensures c.Some? ==>
      var f := generated;
      && c.value.sendCipher.at == Stream(match secret case Some(x) => hash(f[8..40] + x) case None => f[8..40], f[40..56], 64)
      && c.value.recvCipher.at == Stream(match secret case Some(x) => hash(Reverse(f[24..56]) + x) case None => Reverse(f[24..56]),
                                         Reverse(f[8..24]), 0)
  {
    CiphersOfFrame(hash, secret, generated);
    var data, sendCipher, recvCipher := MaskFrame(ks, hash, secret, generated);
    RestoreKey(data, generated);
    var ok := w.Write(data[..]);
    if !ok {
      return None;
    }
    var conn := new Conn(w, sendCipher, recvCipher);
    c := Some(conn);
  }

  datatype Served = Served(dc: int, conn: Conn) | Refused

  /** ReadHandshake. */
  method ReadHandshake(ks: Keystream, hash: Hash, secret: Option<Bytes>, r: RawConn) returns (s: Served)
    modifies r`incoming
    ensures |old(r.incoming)| < 64 ==> s.Refused?
    ensures |old(r.incoming)| >= 64 ==> r.incoming == old(r.incoming)[64..]
    ensures |old(r.incoming)| >= 64 ==>
      var frame := ReadFrame(ks, hash, secret, old(r.incoming)[..64]);
      (s.Served? <==> frame.Accepted?)
      && (s.Served? ==> s.dc == frame.dc && s.conn.Sessions() == frame.session)
    ensures s.Served? ==>
      var w := old(r.incoming)[..64];
      && s.conn.recvCipher.at == Stream(match secret case Some(x) => hash(w[8..40] + x) case None => w[8..40], w[40..56], 64)
      && s.conn.sendCipher.at == Stream(match secret case Some(x) => hash(Reverse(w[24..56]) + x) case None => Reverse(w[24..56]),
                                        Reverse(w[8..24]), 0)
    ensures s.Served? ==> fresh(s.conn.sendCipher) && fresh(s.conn.recvCipher)
    ensures s.Served? ==> s.conn.raw == r && s.conn.sendCipher != s.conn.recvCipher
    ensures s.Served? ==> s.conn.recvCipher.ks == ks && s.conn.sendCipher.ks == ks
  {
    var read := r.ReadFull(64);
    if read.Short? {
      return Refused;
    }
    CiphersOfFrame(hash, secret, read.bytes);
    var data, recvCipher, sendCipher := MaskFrame(ks, hash, secret, read.bytes);
    ghost var plain: Frame := data[..];
    assert ConnectionType(plain) == data[56..60] && DcBytes(plain) == data[60..62];
    if data[56..60] != CONNECTION_TYPE {
      return Refused;
    }
    var conn := new Conn(r, sendCipher, recvCipher);
    s := Served(DcOf(data[60..62]), conn);
  }

  /** Two ends whose streams stand where the other's do, with nothing on the way. */
  ghost predicate Paired(c: Conn, d: Conn)
    reads c.sendCipher, c.recvCipher, c.raw, d.sendCipher, d.recvCipher, d.raw
  {
    && c.raw != d.raw
    && c.sendCipher != c.recvCipher && d.sendCipher != d.recvCipher
    && {c.sendCipher, c.recvCipher} !! {d.sendCipher, d.recvCipher}
    && c.sendCipher.ks == d.recvCipher.ks && c.sendCipher.at == d.recvCipher.at
    && d.sendCipher.ks == c.recvCipher.ks && d.sendCipher.at == c.recvCipher.at
    && c.raw.incoming == [] && d.raw.incoming == []
  }

  /** One handshake between two fresh connections: the reader gets the DC and the ends are paired. */
  method Introduce(ks: Keystream, hash: Hash, secret: Option<Bytes>, w: RawConn, r: RawConn, random: Frame, dc: int)
    returns (c: Option<Conn>, s: Served)
    requires w != r && w.incoming == [] && r.incoming == [] && FitsInt16(dc) && dc != 0
    modifies w`outgoing, r`incoming
    ensures c.Some? ==> s.Served? && s.dc == dc && c.value.raw == w && s.conn.raw == r
    ensures c.Some? ==> Paired(c.value, s.conn)
    ensures c.Some? ==> fresh({c.value.sendCipher, c.value.recvCipher, s.conn.sendCipher, s.conn.recvCipher})
  {
    s := Refused;
    var from := |w.outgoing|;
    c := SendHandshake(ks, hash, secret, w, Stamped(random, dc));
    if c.Some? {
      HandshakeRoundTrip(ks, hash, secret, random, dc);
      Carry(w, from, r);
      assert r.incoming == WireFrame(ks, hash, secret, Stamped(random, dc));
      assert r.incoming[..64] == r.incoming;
      s := ReadHandshake(ks, hash, secret, r);
    }
  }

  /** Writes of any chunks; on success the network has the masked stream. */
  method Send(c: Conn, chunks: seq<Bytes>) returns (ok: bool)
    requires c.sendCipher != c.recvCipher
    modifies c.sendCipher, c.raw`outgoing
    ensures ok ==> c.raw.outgoing == old(c.raw.outgoing) + Masked(c.sendCipher.ks, old(c.sendCipher.at), Concat(chunks))
    ensures ok ==> c.sendCipher.at == Advance(old(c.sendCipher.at), |Concat(chunks)|)
  {
    ghost var ks, at, out := c.sendCipher.ks, c.sendCipher.at, c.raw.outgoing;
    for i := 0 to |chunks|
      invariant c.raw.outgoing + Masked(ks, c.sendCipher.at, Concat(chunks[i..])) == out + Masked(ks, at, Concat(chunks))
      invariant Advance(c.sendCipher.at, |Concat(chunks[i..])|) == Advance(at, |Concat(chunks)|)
    {
      var p := new byte[|chunks[i]|](k requires 0 <= k < |chunks[i]| => chunks[i][k]);
      assert p[..] == chunks[i];
      assert chunks[i..][0] == chunks[i] && chunks[i..][1..] == chunks[i + 1..];
      MaskAppend(ks, c.sendCipher.at, chunks[i], Concat(chunks[i + 1..]));
      ghost var before := c.raw.outgoing;
      ok := c.Write(p);
      if !ok {
        return;
      }
      Regroup(before, p[..], Masked(ks, c.sendCipher.at, Concat(chunks[i + 1..])));
    }
    assert chunks[|chunks|..] == [];
    ok := true;
  }

  /** Reads with buffers of any sizes until nothing is left. */
  method Receive(d: Conn, sizes: nat -> nat) returns (got: Bytes)
    requires d.sendCipher != d.recvCipher && forall i :: sizes(i) > 0
    modifies d.recvCipher, d.raw`incoming
    ensures got == old(d.Plain()) && d.raw.incoming == []
    ensures d.recvCipher.at == Advance(old(d.recvCipher.at), |got|)
  {
    got := [];
    var i := 0;
    while true
      invariant got + d.Plain() == old(d.Plain())
      invariant d.recvCipher.at == Advance(old(d.recvCipher.at), |got|)
      decreases |d.raw.incoming|
    {
      var p := new byte[sizes(i)](k => 0);
      ghost var before := d.Plain();
      var n := d.Read(p);
      if n.None? {
        assert before == [];
        return;
      }
      Regroup(got, p[..n.value], d.Plain());
      got := got + p[..n.value];
      i := i + 1;
    }
  }

  /** What one end writes in any chunks, the other end reads with any buffers; the ends stay paired. */
  method Converse(c: Conn, d: Conn, chunks: seq<Bytes>, sizes: nat -> nat) returns (ok: bool, got: Bytes)
    requires Paired(c, d) && forall i :: sizes(i) > 0
    modifies c.sendCipher, c.raw`outgoing, d.recvCipher, d.raw`incoming
    ensures ok ==> got == Concat(chunks) && Paired(c, d)
  {
    got := [];
    var from := |c.raw.outgoing|;
    ok := Send(c, chunks);
    if ok {
      Carry(c.raw, from, d.raw);
      assert d.raw.incoming == Masked(c.sendCipher.ks, d.recvCipher.at, Concat(chunks));
      MaskTwice(d.recvCipher.ks, d.recvCipher.at, Concat(chunks));
      got := Receive(d, sizes);
    }
  }

  /** Who speaks, and in which chunks. */
  datatype Turn = Turn(fromClient: bool, chunks: seq<Bytes>)

  /** A whole connection: a handshake for any non-zero int16 DC, then any turns in both directions. The DC arrives, and
      of every turn exactly the bytes that were written. */
  method Conversation(ks: Keystream, hash: Hash, secret: Option<Bytes>, w: RawConn, r: RawConn, random: Frame, dc: int,
                      turns: seq<Turn>, sizes: nat -> nat) returns (ok: bool, asked: int, heard: seq<Bytes>)
    requires w != r && w.incoming == [] && r.incoming == [] && FitsInt16(dc) && dc != 0
    requires forall i :: sizes(i) > 0
    modifies w, r
    ensures ok ==> asked == dc && |heard| == |turns|
    ensures ok ==> forall i :: 0 <= i < |turns| ==> heard[i] == Concat(turns[i].chunks)
  {
    ok, asked, heard := false, 0, [];
    var c, s := Introduce(ks, hash, secret, w, r, random, dc);
    if c.None? {
      return;
    }
    asked := s.dc;
    for i := 0 to |turns|
      invariant Paired(c.value, s.conn) && |heard| == i
      invariant forall k :: 0 <= k < i ==> heard[k] == Concat(turns[k].chunks)
    {
      var got;
      if turns[i].fromClient {
        ok, got := Converse(c.value, s.conn, turns[i].chunks, sizes);
      } else {
        ok, got := Converse(s.conn, c.value, turns[i].chunks, sizes);
      }
      if !ok {
        return;
      }
      heard := heard + [got];
    }
    ok := true;
  }
}
