/** The RPC transport frame of mtglib/internal/middleproxy/frame.go:
    length, sequence number, message, CRC32, then padding words up to a cipher block. */
module FrameCodec {
  import opened ByteCodec
  import opened RawStream
  import opened CbcStream

  const FRAME_MIN := 12
  const FRAME_MAX := 16777216
  const PADDING: Bytes := [4, 0, 0, 0]

  /** Go's int32, whose increment wraps. */
  type SeqNo = s: int | -0x8000_0000 <= s < 0x8000_0000

  /** CRC32 is any function from bytes to a 32-bit word. */
  type Word = w: int | 0 <= w < 0x1_0000_0000
  type Checksum = Bytes -> Word

  function NextSeq(s: SeqNo): SeqNo {
    if s == 0x7fff_ffff then -0x8000_0000 else s + 1
  }

  function SeqWord(s: SeqNo): Word {
    if s < 0 then s + 0x1_0000_0000 else s
  }

  function SeqOfWord(w: Word): SeqNo {
    if w >= 0x8000_0000 then w - 0x1_0000_0000 else w
  }

  function SeqAfter(s: SeqNo, n: nat): SeqNo
    decreases n
  {
    if n == 0 then s else SeqAfter(NextSeq(s), n - 1)
  }

  function PaddingWords(k: nat): (r: Bytes)
    ensures |r| == 4 * k
  {
    if k == 0 then [] else PADDING + PaddingWords(k - 1)
  }

  function PaddingLength(messageLength: nat): nat {
    (16 - messageLength % 16) % 16
  }

  /** The bytes covered by the checksum. The length word keeps only 32 bits. */
  function FrameHead(s: SeqNo, msg: Bytes): (r: Bytes)
    ensures |r| == 8 + |msg|
  {
    LE(12 + |msg|, 4) + LE(SeqWord(s), 4) + msg
  }

  function EncodeFrame(crc: Checksum, s: SeqNo, msg: Bytes): (r: Bytes)
    ensures |r| == 12 + |msg| + 4 * (PaddingLength(12 + |msg|) / 4)
  {
    var head := FrameHead(s, msg);
    head + LE(crc(head), 4) + PaddingWords(PaddingLength(12 + |msg|) / 4)
  }

  datatype FrameError = ShortLength | BadLength | ShortBody | BadSeqNo | BadChecksum

  /** What one readPacket does to the plaintext in front of it. */
  datatype FrameRead = Frame(msg: Bytes, rest: Bytes) | Bad(error: FrameError, rest: Bytes)

  predicate LengthOk(n: nat) {
    n % 4 == 0 && FRAME_MIN <= n <= FRAME_MAX
  }

  function WordValue(b: Bytes): Word
    requires |b| == 4
  {
    Pow256Values();
    FromLE(b)
  }

  function DecodeFrame(crc: Checksum, s: SeqNo, plain: Bytes): (r: FrameRead)
    ensures r.Frame? ==> |r.rest| < |plain|
    ensures r.Frame? ==> |r.msg| % 4 == 0 && |r.msg| <= FRAME_MAX - 12
    decreases |plain|
  {
    if |plain| < 4 then Bad(ShortLength, [])
    else if plain[..4] == PADDING then DecodeFrame(crc, s, plain[4..])
    else DecodeBody(crc, s, plain[..4], plain[4..])
  }

  /** The part of readPacket after the length word. */
  function DecodeBody(crc: Checksum, s: SeqNo, lenWord: Bytes, after: Bytes): (r: FrameRead)
    requires |lenWord| == 4
    ensures r.Frame? ==> |r.rest| < |after|
    ensures r.Frame? ==> |r.msg| % 4 == 0 && |r.msg| <= FRAME_MAX - 12
  {
    var n := WordValue(lenWord);
    if !LengthOk(n) then Bad(BadLength, after)
    else if |after| < n - 4 then Bad(ShortBody, [])
    else CheckBody(crc, s, lenWord, after[..n - 4], after[n - 4..])
  }

  function CheckBody(crc: Checksum, s: SeqNo, lenWord: Bytes, body: Bytes, rest: Bytes): (r: FrameRead)
    requires |lenWord| == 4 && |body| >= 8
    ensures r.Frame? ==> |r.msg| == |body| - 8 && r.rest == rest
  {
    var covered := body[..|body| - 4];
    if SeqOfWord(WordValue(body[..4])) != s then Bad(BadSeqNo, rest)
    else if crc(lenWord + covered) != WordValue(body[|body| - 4..]) then Bad(BadChecksum, rest)
    else Frame(covered[4..], rest)
  }

  /** The messages the frame layer is made for. */
  ghost predicate Sendable(msg: Bytes) {
    |msg| % 4 == 0 && |msg| <= FRAME_MAX - 12
  }

  lemma PaddingFillsBlock(n: nat)
    ensures (n + PaddingLength(n)) % 16 == 0
  {
    var q := n / 16;
    assert n + PaddingLength(n) == 16 * q || n + PaddingLength(n) == 16 * (q + 1);
  }

  lemma PaddingIsWords(n: nat)
    requires n % 4 == 0
    ensures 4 * (PaddingLength(n) / 4) == PaddingLength(n)
  {
    PaddingFillsBlock(n);
  }

  lemma WordsKeepRemainder(n: nat, k: nat)
    ensures (n + 4 * k) % 4 == n % 4
  {
  }

  lemma PaddedLength(n: nat)
    ensures (n + 4 * (PaddingLength(n) / 4)) % 16 == 0 <==> n % 4 == 0
  {
    var k := PaddingLength(n) / 4;
    if n % 4 == 0 {
      PaddingIsWords(n);
      PaddingFillsBlock(n);
    } else {
      WordsKeepRemainder(n, k);
      if (n + 4 * k) % 16 == 0 {
        BlocksAreWords(n + 4 * k);
      }
    }
  }

  lemma BlocksAreWords(m: nat)
    requires m % 16 == 0
    ensures m % 4 == 0
  {
    assert m == 4 * (4 * (m / 16));
  }

  /** A frame fills whole cipher blocks exactly when its message is a whole number of words. */
  lemma FrameAlignment(crc: Checksum, s: SeqNo, msg: Bytes)
    ensures Aligned(EncodeFrame(crc, s, msg)) <==> |msg| % 4 == 0
  {
    var n := 12 + |msg|;
    PaddedLength(n);
    WordsKeepRemainder(|msg|, 3);
    assert n % 4 == |msg| % 4;
    assert |EncodeFrame(crc, s, msg)| == n + 4 * (PaddingLength(n) / 4);
  }

  lemma WordOfLE(w: Word)
    ensures WordValue(LE(w, 4)) == w
  {
    Pow256Values();
    LERoundTrip(w, 4);
  }

  lemma SeqWordRoundTrip(s: SeqNo)
    ensures SeqOfWord(WordValue(LE(SeqWord(s), 4))) == s
  {
    WordOfLE(SeqWord(s));
  }

  /** No length word of a real frame looks like padding. */
  lemma LengthIsNotPadding(n: Word)
    ensures LE(n, 4) == PADDING <==> n == 4
  {
    WordOfLE(n);
    var tail := LE(4 / 256, 3);
    assert LE(4, 4) == [4] + tail;
    assert tail == [0] + LE(0, 2);
    assert LE(0, 2) == [0] + LE(0, 1);
    assert LE(0, 1) == [0] + LE(0, 0);
    assert LE(4, 4) == PADDING;
    WordOfLE(4);
  }

  lemma {:induction false} SkipPadding(crc: Checksum, s: SeqNo, k: nat, rest: Bytes)
    ensures DecodeFrame(crc, s, PaddingWords(k) + rest) == DecodeFrame(crc, s, rest)
  {
    if k == 0 {
      assert PaddingWords(0) + rest == rest;
    } else {
      var all := PaddingWords(k) + rest;
      assert all[..4] == PADDING;
      assert all[4..] == PaddingWords(k - 1) + rest;
      SkipPadding(crc, s, k - 1, rest);
    }
  }

  /** The bytes of a frame: length, sequence number, message, the checksum of all these, and then padding words up to
      the next block. */
  lemma FrameLayout(crc: Checksum, s: SeqNo, msg: Bytes, j: nat)
    ensures var f, n := EncodeFrame(crc, s, msg), |msg|;
            && f[..4] == LE(12 + n, 4) && f[4..8] == LE(SeqWord(s), 4) && f[8..8 + n] == msg
            && f[8 + n..12 + n] == LE(crc(f[..8 + n]), 4)
            && 12 + n <= |f| < 12 + n + 16
            && (12 + n + 4 * j + 4 <= |f| ==> f[12 + n + 4 * j..12 + n + 4 * j + 4] == [4, 0, 0, 0])
  {
    var f, n, head := EncodeFrame(crc, s, msg), |msg|, FrameHead(s, msg);
    assert f[..8 + n] == head;
    assert f[12 + n..] == PaddingWords(PaddingLength(12 + n) / 4);
    if 12 + n + 4 * j + 4 <= |f| {
      PaddingWordAt(PaddingLength(12 + n) / 4, j);
    }
  }

  lemma {:induction false} PaddingWordAt(k: nat, j: nat)
    requires j < k
    ensures PaddingWords(k)[4 * j..4 * j + 4] == [4, 0, 0, 0]
    decreases j
  {
    if j > 0 {
      PaddingWordAt(k - 1, j - 1);
      assert PaddingWords(k)[4..] == PaddingWords(k - 1);
    }
  }

  /** The sequence number on the wire counts the frames, modulo 2^32. */
  lemma {:induction false} SeqCounts(s: SeqNo, n: nat)
    ensures SeqWord(SeqAfter(s, n)) == (SeqWord(s) + n) % 0x1_0000_0000
    decreases n
  {
    if n > 0 {
      SeqCounts(NextSeq(s), n - 1);
      assert SeqWord(NextSeq(s)) == (SeqWord(s) + 1) % 0x1_0000_0000;
    }
  }

  /** The i-th message is the i-th frame, with the i-th sequence number. */
  lemma {:induction false} FrameAt(crc: Checksum, s: SeqNo, msgs: seq<Bytes>, i: nat)
    requires i < |msgs|
    ensures var all, from, n := EncodeAll(crc, s, msgs), |EncodeAll(crc, s, msgs[..i])|, |msgs[i]|;
            && from + 12 + n <= |all|
            && all[from..from + 4] == LE(12 + n, 4)
            && all[from + 4..from + 8] == LE((SeqWord(s) + i) % 0x1_0000_0000, 4)
            && all[from + 8..from + 8 + n] == msgs[i]
  {
    var front, back := msgs[..i], msgs[i..];
    assert msgs == front + back;
    EncodeAllAppend(crc, s, front, back);
    var t := SeqAfter(s, i);
    FrameLayout(crc, t, msgs[i], 0);
    SeqCounts(s, i);
    var frame := EncodeFrame(crc, t, msgs[i]);
    assert EncodeAll(crc, t, back) == frame + EncodeAll(crc, NextSeq(t), back[1..]);
    var a, b := EncodeAll(crc, s, front), EncodeAll(crc, NextSeq(t), back[1..]);
    Inside(a, frame, b, 0, 4);
    Inside(a, frame, b, 4, 8);
    Inside(a, frame, b, 8, 8 + |msgs[i]|);
    assert EncodeAll(crc, s, msgs) == a + (frame + b);
    assert frame[0..4] == frame[..4];
  }

  lemma Inside(a: Bytes, f: Bytes, b: Bytes, i: nat, j: nat)
    requires i <= j <= |f|
    ensures (a + (f + b))[|a| + i..|a| + j] == f[i..j]
  {
  }

  /** What the reader at sequence number s makes of any frame with a sequence number and a checksum of its own. */
  lemma ReadAnyFrame(crc: Checksum, s: SeqNo, t: SeqNo, msg: Bytes, sum: Word, rest: Bytes)
    requires Sendable(msg)
    ensures DecodeFrame(crc, s, LE(12 + |msg|, 4) + LE(SeqWord(t), 4) + msg + LE(sum, 4) + rest)
         == if t != s then Bad(BadSeqNo, rest)
            else if sum != crc(LE(12 + |msg|, 4) + LE(SeqWord(t), 4) + msg) then Bad(BadChecksum, rest)
            else Frame(msg, rest)
  {
    var n, head := 12 + |msg|, FrameHead(t, msg);
    var all := head + LE(sum, 4) + rest;
    assert all[..4] == LE(n, 4) == head[..4];
    LengthIsNotPadding(n);
    WordOfLE(n);
    var body := head[4..] + LE(sum, 4);
    assert all[4..][..n - 4] == body && all[4..][n - 4..] == rest;
    AnyBody(crc, s, t, msg, sum, rest);
  }

  lemma AnyBody(crc: Checksum, s: SeqNo, t: SeqNo, msg: Bytes, sum: Word, rest: Bytes)
    ensures var head := FrameHead(t, msg);
            CheckBody(crc, s, head[..4], head[4..] + LE(sum, 4), rest)
            == if t != s then Bad(BadSeqNo, rest) else if sum != crc(head) then Bad(BadChecksum, rest) else Frame(msg, rest)
  {
    var head := FrameHead(t, msg);
    var body := head[4..] + LE(sum, 4);
    assert body[..|body| - 4] == head[4..] && body[|body| - 4..] == LE(sum, 4);
    assert body[..4] == LE(SeqWord(t), 4);
    assert head[..4] + head[4..] == head && head[4..][4..] == msg;
    SeqWordRoundTrip(t);
    WordOfLE(sum);
  }

  /** And of any other length word. */
  lemma ReadAnyLength(crc: Checksum, s: SeqNo, w: Word, rest: Bytes)
    ensures w == 4 ==> DecodeFrame(crc, s, LE(w, 4) + rest) == DecodeFrame(crc, s, rest)
    ensures w != 4 && (w % 4 != 0 || w < 12 || w > 16777216) ==>
            DecodeFrame(crc, s, LE(w, 4) + rest) == Bad(BadLength, rest)
    ensures w % 4 == 0 && 12 <= w <= 16777216 && |rest| < w - 4 ==>
            DecodeFrame(crc, s, LE(w, 4) + rest) == Bad(ShortBody, [])
  {
    var all := LE(w, 4) + rest;
    assert all[..4] == LE(w, 4) && all[4..] == rest;
    LengthIsNotPadding(w);
    WordOfLE(w);
  }

  /** Reading a written frame returns its message and leaves exactly its padding behind. */
  lemma DecodeEncode(crc: Checksum, s: SeqNo, msg: Bytes, rest: Bytes)
    requires Sendable(msg)
    ensures DecodeFrame(crc, s, EncodeFrame(crc, s, msg) + rest)
         == Frame(msg, PaddingWords(PaddingLength(12 + |msg|) / 4) + rest)
  {
    var n := 12 + |msg|;
    var head := FrameHead(s, msg);
    var sum := LE(crc(head), 4);
    var tail := PaddingWords(PaddingLength(n) / 4) + rest;
    var all := EncodeFrame(crc, s, msg) + rest;
    assert all == head + sum + tail;
    assert all[..4] == LE(n, 4) == head[..4];
    LengthIsNotPadding(n);
    WordOfLE(n);
    var after := all[4..];
    assert after == (head[4..] + sum) + tail;
    assert after[..n - 4] == head[4..] + sum;
    assert after[n - 4..] == tail;
    AnyBody(crc, s, s, msg, crc(head), tail);
  }

  /** A single message survives the trip exactly when it is a whole number of words and not too long. */
  lemma RoundTripIff(crc: Checksum, s: SeqNo, msg: Bytes)
    ensures (Aligned(EncodeFrame(crc, s, msg))
             && DecodeFrame(crc, s, EncodeFrame(crc, s, msg)).Frame?
             && DecodeFrame(crc, s, EncodeFrame(crc, s, msg)).msg == msg)
       <==> |msg| % 4 == 0 && |msg| <= 16777204
  {
    FrameAlignment(crc, s, msg);
    if Sendable(msg) {
      DecodeEncode(crc, s, msg, []);
      assert EncodeFrame(crc, s, msg) + [] == EncodeFrame(crc, s, msg);
    }
  }

  function EncodeAll(crc: Checksum, s: SeqNo, msgs: seq<Bytes>): Bytes
    decreases |msgs|
  {
    if msgs == [] then [] else EncodeFrame(crc, s, msgs[0]) + EncodeAll(crc, NextSeq(s), msgs[1..])
  }

  /** All messages a reader obtains before its first error, and that error. */
  datatype Drained = Drained(msgs: seq<Bytes>, end: FrameError)

  function DecodeAll(crc: Checksum, s: SeqNo, plain: Bytes): Drained
    decreases |plain|
  {
    match DecodeFrame(crc, s, plain)
    case Bad(e, _) => Drained([], e)
    case Frame(msg, rest) =>
      var more := DecodeAll(crc, NextSeq(s), rest);
      Drained([msg] + more.msgs, more.end)
  }

  lemma SkipPaddingAll(crc: Checksum, s: SeqNo, k: nat, rest: Bytes)
    ensures DecodeAll(crc, s, PaddingWords(k) + rest) == DecodeAll(crc, s, rest)
  {
    SkipPadding(crc, s, k, rest);
  }

  ghost predicate AllSendable(msgs: seq<Bytes>) {
    forall i :: 0 <= i < |msgs| ==> Sendable(msgs[i])
  }

  ghost predicate AllWords(msgs: seq<Bytes>) {
    forall i :: 0 <= i < |msgs| ==> |msgs[i]| % 4 == 0
  }

  lemma {:induction false} AllAligned(crc: Checksum, s: SeqNo, msgs: seq<Bytes>)
    requires AllWords(msgs)
    ensures Aligned(EncodeAll(crc, s, msgs))
    decreases |msgs|
  {
    if msgs != [] {
      FrameAlignment(crc, s, msgs[0]);
      AllAligned(crc, NextSeq(s), msgs[1..]);
      AlignedAppend(EncodeFrame(crc, s, msgs[0]), EncodeAll(crc, NextSeq(s), msgs[1..]));
    }
  }

  /** One written frame in front of anything adds exactly its message to what is drained. */
  lemma DrainOne(crc: Checksum, s: SeqNo, msg: Bytes, rest: Bytes)
    requires Sendable(msg)
    ensures var more := DecodeAll(crc, NextSeq(s), rest);
            DecodeAll(crc, s, EncodeFrame(crc, s, msg) + rest) == Drained([msg] + more.msgs, more.end)
  {
    DecodeEncode(crc, s, msg, rest);
    SkipPaddingAll(crc, NextSeq(s), PaddingLength(12 + |msg|) / 4, rest);
  }

  /** A peer that starts at the same sequence number drains exactly the messages written, in order,
      and then waits for more: no padding word is ever taken for a frame. */
  lemma {:induction false} AllRoundTrip(crc: Checksum, s: SeqNo, msgs: seq<Bytes>)
    requires AllSendable(msgs)
    ensures DecodeAll(crc, s, EncodeAll(crc, s, msgs)) == Drained(msgs, ShortLength)
    decreases |msgs|
  {
    if msgs != [] {
      AllRoundTrip(crc, NextSeq(s), msgs[1..]);
      DrainOne(crc, s, msgs[0], EncodeAll(crc, NextSeq(s), msgs[1..]));
      assert msgs == [msgs[0]] + msgs[1..];
    }
  }

  /** A frame whose message is too long is sent, and ends the reading. */
  lemma OversizeRefused(crc: Checksum, s: SeqNo, msg: Bytes, rest: Bytes)
    requires FRAME_MAX < 12 + |msg| < 0x1_0000_0000
    ensures DecodeFrame(crc, s, EncodeFrame(crc, s, msg) + rest).Bad?
    ensures DecodeFrame(crc, s, EncodeFrame(crc, s, msg) + rest).error == BadLength
  {
    var n := 12 + |msg|;
    var all := EncodeFrame(crc, s, msg) + rest;
    assert all[..4] == LE(n, 4);
    LengthIsNotPadding(n);
    WordOfLE(n);
  }

  /** Messages that are too long included: a peer drains exactly those before the first of these, and refuses it. */
  lemma {:induction false} DrainsUpToOversize(crc: Checksum, s: SeqNo, msgs: seq<Bytes>, i: nat)
    requires i < |msgs| && AllSendable(msgs[..i]) && FRAME_MAX < 12 + |msgs[i]| < 0x1_0000_0000
    ensures DecodeAll(crc, s, EncodeAll(crc, s, msgs)) == Drained(msgs[..i], BadLength)
    decreases i
  {
    var rest := EncodeAll(crc, NextSeq(s), msgs[1..]);
    if i == 0 {
      OversizeRefused(crc, s, msgs[0], rest);
    } else {
      assert msgs[1..][..i - 1] == msgs[..i][1..];
      DrainsUpToOversize(crc, NextSeq(s), msgs[1..], i - 1);
      assert msgs[..i][0] == msgs[0];
      DrainOne(crc, s, msgs[0], rest);
      assert msgs[..i] == [msgs[0]] + msgs[1..][..i - 1];
    }
  }

  lemma {:induction false} EncodeAllAppend(crc: Checksum, s: SeqNo, a: seq<Bytes>, b: seq<Bytes>)
    ensures EncodeAll(crc, s, a + b) == EncodeAll(crc, s, a) + EncodeAll(crc, SeqAfter(s, |a|), b)
    decreases |a|
  {
    if a == [] {
      assert a + b == b;
    } else {
      assert (a + b)[1..] == a[1..] + b;
      EncodeAllAppend(crc, NextSeq(s), a[1..], b);
    }
  }

  /** The same, through the cipher: the reader's plaintext is what the writer framed. */
  lemma CipheredRoundTrip(enc: BlockMap, dec: BlockMap, iv: Block, crc: Checksum, s: SeqNo, msgs: seq<Bytes>)
    requires Inverse(enc, dec) && AllSendable(msgs)
    ensures Aligned(EncodeAll(crc, s, msgs))
    ensures var wire := Encrypt(enc, iv, EncodeAll(crc, s, msgs));
            DecodeAll(crc, s, Decrypt(dec, iv, WholeBlocks(wire))) == Drained(msgs, ShortLength)
  {
    AllAligned(crc, s, msgs);
    AllRoundTrip(crc, s, msgs);
    var plain := EncodeAll(crc, s, msgs);
    var wire := Encrypt(enc, iv, plain);
    assert WholeBlocks(wire) == wire;
    DecryptEncrypt(enc, dec, iv, plain);
  }

  /** Where a writer stands after framing and encrypting msgs from a given starting point. */
  ghost predicate Wrote(enc: BlockMap, crc: Checksum, iv0: Block, s0: SeqNo, out0: Bytes, msgs: seq<Bytes>,
                        iv: Block, s: SeqNo, out: Bytes)
  {
    && AllWords(msgs)
    && Aligned(EncodeAll(crc, s0, msgs))
    && out == out0 + Encrypt(enc, iv0, EncodeAll(crc, s0, msgs))
    && iv == LastBlock(iv0, Encrypt(enc, iv0, EncodeAll(crc, s0, msgs)))
    && s == SeqAfter(s0, |msgs|)
  }

  lemma {:induction false} SeqAfterNext(s: SeqNo, n: nat)
    ensures SeqAfter(s, n + 1) == NextSeq(SeqAfter(s, n))
    decreases n
  {
    if n > 0 {
      SeqAfterNext(NextSeq(s), n - 1);
    }
  }

  lemma EncodeAllSnoc(crc: Checksum, s: SeqNo, msgs: seq<Bytes>, msg: Bytes)
    ensures EncodeAll(crc, s, msgs + [msg]) == EncodeAll(crc, s, msgs) + EncodeFrame(crc, SeqAfter(s, |msgs|), msg)
  {
    EncodeAllAppend(crc, s, msgs, [msg]);
    var t := SeqAfter(s, |msgs|);
    assert EncodeAll(crc, t, [msg]) == EncodeFrame(crc, t, msg) + EncodeAll(crc, NextSeq(t), [msg][1..]);
    assert EncodeAll(crc, t, [msg]) == EncodeFrame(crc, t, msg);
  }

  lemma WroteOneMore(enc: BlockMap, crc: Checksum, iv0: Block, s0: SeqNo, out0: Bytes, msgs: seq<Bytes>,
                     iv: Block, s: SeqNo, out: Bytes, msg: Bytes)
    requires Wrote(enc, crc, iv0, s0, out0, msgs, iv, s, out)
    requires |msg| % 4 == 0
    ensures Aligned(EncodeFrame(crc, s, msg))
    ensures var more := Encrypt(enc, iv, EncodeFrame(crc, s, msg));
            Wrote(enc, crc, iv0, s0, out0, msgs + [msg], LastBlock(iv, more), NextSeq(s), out + more)
  {
    FrameAlignment(crc, s, msg);
    EncodeAllSnoc(crc, s0, msgs, msg);
    SeqAfterNext(s0, |msgs|);
    EncryptMore(enc, iv0, out0, EncodeAll(crc, s0, msgs), EncodeFrame(crc, s, msg));
  }

  /** Encrypting one more aligned piece, from where the encryption of `plain` stands. */
  lemma EncryptMore(enc: BlockMap, iv0: Block, out0: Bytes, plain: Bytes, more: Bytes)
    requires Aligned(plain) && Aligned(more)
    ensures Aligned(plain + more)
    ensures var v := Encrypt(enc, iv0, plain);
            var w := Encrypt(enc, LastBlock(iv0, v), more);
            && (out0 + v) + w == out0 + Encrypt(enc, iv0, plain + more)
            && LastBlock(LastBlock(iv0, v), w) == LastBlock(iv0, Encrypt(enc, iv0, plain + more))
  {
    EncryptAppend(enc, iv0, plain, more);
    var v := Encrypt(enc, iv0, plain);
    var w := Encrypt(enc, LastBlock(iv0, v), more);
    LastBlockAppend(iv0, v, w);
    assert (out0 + v) + w == out0 + (v + w);
  }

  lemma {:induction false} SeqAfterAdd(s: SeqNo, m: nat, n: nat)
    ensures SeqAfter(SeqAfter(s, m), n) == SeqAfter(s, m + n)
    decreases m
  {
    if m > 0 {
      SeqAfterAdd(NextSeq(s), m - 1, n);
    }
  }

  /** Two stretches of writing are one longer stretch. */
  lemma WroteThen(enc: BlockMap, crc: Checksum, iv0: Block, s0: SeqNo, out0: Bytes, a: seq<Bytes>,
                  iv1: Block, s1: SeqNo, out1: Bytes, b: seq<Bytes>, iv2: Block, s2: SeqNo, out2: Bytes)
    requires Wrote(enc, crc, iv0, s0, out0, a, iv1, s1, out1)
    requires Wrote(enc, crc, iv1, s1, out1, b, iv2, s2, out2)
    ensures Wrote(enc, crc, iv0, s0, out0, a + b, iv2, s2, out2)
  {
    EncodeAllAppend(crc, s0, a, b);
    SeqAfterAdd(s0, |a|, |b|);
    EncryptMore(enc, iv0, out0, EncodeAll(crc, s0, a), EncodeAll(crc, s1, b));
  }

  /** Where a writer stands after the raw write of msg failed part way: the messages before it are whole on the
      wire, of its own frame any part is, and cipher and sequence number have moved past it. */
  ghost predicate Interrupted(enc: BlockMap, crc: Checksum, iv0: Block, s0: SeqNo, out0: Bytes, msgs: seq<Bytes>,
                              msg: Bytes, iv: Block, s: SeqNo, out: Bytes)
  {
    && AllWords(msgs + [msg])
    && Aligned(EncodeAll(crc, s0, msgs)) && Aligned(EncodeAll(crc, s0, msgs + [msg]))
    && out0 + Encrypt(enc, iv0, EncodeAll(crc, s0, msgs)) <= out
    && out <= out0 + Encrypt(enc, iv0, EncodeAll(crc, s0, msgs + [msg]))
    && iv == LastBlock(iv0, Encrypt(enc, iv0, EncodeAll(crc, s0, msgs + [msg])))
    && s == SeqAfter(s0, |msgs| + 1)
  }

  /** The same between the two places where the writer stood before and would have stood after msg. */
  lemma InterruptedBetween(enc: BlockMap, crc: Checksum, iv0: Block, s0: SeqNo, out0: Bytes, msgs: seq<Bytes>,
                           msg: Bytes, iv1: Block, s1: SeqNo, out1: Bytes, iv2: Block, s2: SeqNo, out2: Bytes, out: Bytes)
    requires Wrote(enc, crc, iv0, s0, out0, msgs, iv1, s1, out1)
    requires Wrote(enc, crc, iv0, s0, out0, msgs + [msg], iv2, s2, out2)
    requires out1 <= out <= out2
    ensures Interrupted(enc, crc, iv0, s0, out0, msgs, msg, iv2, s2, out)
  {
  }

  lemma WroteThenInterrupted(enc: BlockMap, crc: Checksum, iv0: Block, s0: SeqNo, out0: Bytes, a: seq<Bytes>,
                             iv1: Block, s1: SeqNo, out1: Bytes, b: seq<Bytes>, msg: Bytes,
                             iv2: Block, s2: SeqNo, out2: Bytes)
    requires Wrote(enc, crc, iv0, s0, out0, a, iv1, s1, out1)
    requires Interrupted(enc, crc, iv1, s1, out1, b, msg, iv2, s2, out2)
    ensures Interrupted(enc, crc, iv0, s0, out0, a + b, msg, iv2, s2, out2)
  {
    var v, w := Encrypt(enc, iv1, EncodeAll(crc, s1, b)), Encrypt(enc, iv1, EncodeAll(crc, s1, b + [msg]));
    assert forall i :: 0 <= i < |b| ==> b[i] == (b + [msg])[i];
    WroteThen(enc, crc, iv0, s0, out0, a, iv1, s1, out1, b, LastBlock(iv1, v), SeqAfter(s1, |b|), out1 + v);
    WroteThen(enc, crc, iv0, s0, out0, a, iv1, s1, out1, b + [msg], iv2, s2, out1 + w);
    assert a + (b + [msg]) == a + b + [msg];
    InterruptedBetween(enc, crc, iv0, s0, out0, a + b, msg, LastBlock(iv1, v), SeqAfter(s1, |b|), out1 + v,
                       iv2, s2, out1 + w, out2);
  }

  datatype PacketRead = Packet(msg: Bytes) | Failed(error: FrameError)

  class FrameConn {
    const crc: Checksum
    const conn: CbcConn
    var readSeqNo: SeqNo
    var writeSeqNo: SeqNo

    constructor (conn: CbcConn, crc: Checksum, seqNo: SeqNo)
      ensures this.conn == conn && this.crc == crc
      ensures readSeqNo == seqNo && writeSeqNo == seqNo
    {
      this.conn, this.crc := conn, crc;
      readSeqNo, writeSeqNo := seqNo, seqNo;
    }

    /** The sequence number advances before the write, so it advances on failures too. */
    method WritePacket(msg: Bytes) returns (r: WriteOutcome)
      modifies this`writeSeqNo, conn`encIv, conn.raw`outgoing
      ensures writeSeqNo == NextSeq(old(writeSeqNo))
      ensures r.Misaligned? <==> |msg| % 4 != 0
      ensures r.Misaligned? ==> conn.encIv == old(conn.encIv) && conn.raw.outgoing == old(conn.raw.outgoing)
      ensures !r.Misaligned? ==> Aligned(EncodeFrame(crc, old(writeSeqNo), msg))
      ensures !r.Misaligned? ==>
        var wire := Encrypt(conn.enc, old(conn.encIv), EncodeFrame(crc, old(writeSeqNo), msg));
        && conn.encIv == LastBlock(old(conn.encIv), wire)
        && old(conn.raw.outgoing) <= conn.raw.outgoing <= old(conn.raw.outgoing) + wire
        && (r.Sent? ==> conn.raw.outgoing == old(conn.raw.outgoing) + wire)
    {
      FrameAlignment(crc, writeSeqNo, msg);
      var messageLength := 4 + 4 + |msg| + 4;
      var paddingLength := (16 - messageLength % 16) % 16;
      var buf := LE(messageLength, 4) + LE(SeqWord(writeSeqNo), 4) + msg;
      var checksum := crc(buf);
      buf := buf + LE(checksum, 4) + PaddingWords(paddingLength / 4);
      writeSeqNo := NextSeq(writeSeqNo);
      r := conn.Write(buf);
    }

    /** WritePacket for a writer that has already sent msgs: the wire grows by exactly one more frame. */
    method WriteNext(ghost iv0: Block, ghost s0: SeqNo, ghost out0: Bytes, ghost msgs: seq<Bytes>, msg: Bytes)
      returns (r: WriteOutcome)
      requires Wrote(conn.enc, crc, iv0, s0, out0, msgs, conn.encIv, writeSeqNo, conn.raw.outgoing)
      requires |msg| % 4 == 0
      modifies this`writeSeqNo, conn`encIv, conn.raw`outgoing
      ensures writeSeqNo == NextSeq(old(writeSeqNo))
      ensures !r.Misaligned?
      ensures r.Sent? ==>
        Wrote(conn.enc, crc, iv0, s0, out0, msgs + [msg], conn.encIv, writeSeqNo, conn.raw.outgoing)
      ensures r.RawFailed? ==>
        Interrupted(conn.enc, crc, iv0, s0, out0, msgs, msg, conn.encIv, writeSeqNo, conn.raw.outgoing)
    {
      WroteOneMore(conn.enc, crc, iv0, s0, out0, msgs, conn.encIv, writeSeqNo, conn.raw.outgoing, msg);
      ghost var iv1, s1, out1 := conn.encIv, writeSeqNo, conn.raw.outgoing;
      ghost var full := out1 + Encrypt(conn.enc, iv1, EncodeFrame(crc, s1, msg));
      r := WritePacket(msg);
      if r.RawFailed? {
        InterruptedBetween(conn.enc, crc, iv0, s0, out0, msgs, msg, iv1, s1, out1,
                           conn.encIv, writeSeqNo, full, conn.raw.outgoing);
      }
    }

    method ReadPacket() returns (r: PacketRead)
      modifies this`readSeqNo, conn`buf, conn`decIv, conn.raw`incoming
      ensures match DecodeFrame(crc, old(readSeqNo), old(conn.Plain()))
              case Frame(msg, rest) =>
                r == Packet(msg) && conn.Plain() == rest && readSeqNo == NextSeq(old(readSeqNo))
              case Bad(e, rest) =>
                r == Failed(e) && conn.Plain() == rest && readSeqNo == old(readSeqNo)
      ensures conn.End() == old(conn.End())
      ensures r == Failed(ShortLength) ==> conn.Idle()
    {
      var lenBuf := NextLength();
      if lenBuf.None? {
        return Failed(ShortLength);
      }
      r := ReadBody(lenBuf.value);
    }

    /** The loop over padding words: the first word that is none. */
    method NextLength() returns (lenBuf: Option<Bytes>)
      modifies conn`buf, conn`decIv, conn.raw`incoming
      ensures lenBuf.None? ==> DecodeFrame(crc, readSeqNo, old(conn.Plain())) == Bad(ShortLength, conn.Plain())
      ensures lenBuf.None? ==> conn.Idle()
      ensures lenBuf.Some? ==> |lenBuf.value| == 4
      ensures lenBuf.Some? ==>
        DecodeFrame(crc, readSeqNo, old(conn.Plain())) == DecodeBody(crc, readSeqNo, lenBuf.value, conn.Plain())
      ensures conn.End() == old(conn.End())
    {
      while true
        invariant DecodeFrame(crc, readSeqNo, conn.Plain()) == DecodeFrame(crc, readSeqNo, old(conn.Plain()))
        invariant conn.End() == old(conn.End())
        decreases |conn.Plain()|
      {
        var word := conn.ReadFull(4);
        if word.Short? {
          return None;
        }
        if word.bytes != PADDING {
          return Some(word.bytes);
        }
      }
    }

    /** The rest of readPacket. */
    method ReadBody(lenBuf: Bytes) returns (r: PacketRead)
      requires |lenBuf| == 4
      modifies this`readSeqNo, conn`buf, conn`decIv, conn.raw`incoming
      ensures match DecodeBody(crc, old(readSeqNo), lenBuf, old(conn.Plain()))
              case Frame(msg, rest) =>
                r == Packet(msg) && conn.Plain() == rest && readSeqNo == NextSeq(old(readSeqNo))
              case Bad(e, rest) =>
                r == Failed(e) && conn.Plain() == rest && readSeqNo == old(readSeqNo)
      ensures conn.End() == old(conn.End()) && r != Failed(ShortLength)
    {
      var messageLength := WordValue(lenBuf);
      if messageLength % 4 != 0 || messageLength < FRAME_MIN || messageLength > FRAME_MAX {
        return Failed(BadLength);
      }
      var body := conn.ReadFull(messageLength - 4);
      if body.Short? {
        return Failed(ShortBody);
      }
      var rest := body.bytes;
      if SeqOfWord(WordValue(rest[..4])) != readSeqNo {
        return Failed(BadSeqNo);
      }
      var covered := rest[..|rest| - 4];
      if crc(lenBuf + covered) != WordValue(rest[|rest| - 4..]) {
        return Failed(BadChecksum);
      }
      readSeqNo := NextSeq(readSeqNo);
      r := Packet(covered[4..]);
    }

    /** A run of WritePacket calls, up to the first failure of the connection. */
    method SendAll(msgs: seq<Bytes>) returns (ok: bool, ghost sent: nat)
      requires AllSendable(msgs)
      modifies this`writeSeqNo, conn`encIv, conn.raw`outgoing
      ensures ok ==> Wrote(conn.enc, crc, old(conn.encIv), old(writeSeqNo), old(conn.raw.outgoing), msgs,
                           conn.encIv, writeSeqNo, conn.raw.outgoing)
      ensures !ok ==> sent < |msgs|
      ensures !ok ==>
        Interrupted(conn.enc, crc, old(conn.encIv), old(writeSeqNo), old(conn.raw.outgoing), msgs[..sent],
                    msgs[sent], conn.encIv, writeSeqNo, conn.raw.outgoing)
    {
      assert Encrypt(conn.enc, conn.encIv, []) == [];
      for i := 0 to |msgs|
        invariant Wrote(conn.enc, crc, old(conn.encIv), old(writeSeqNo), old(conn.raw.outgoing), msgs[..i],
                        conn.encIv, writeSeqNo, conn.raw.outgoing)
      {
        var r := WriteNext(old(conn.encIv), old(writeSeqNo), old(conn.raw.outgoing), msgs[..i], msgs[i]);
        if r != Sent {
          return false, i;
        }
        assert msgs[..i + 1] == msgs[..i] + [msgs[i]];
      }
      assert msgs[..|msgs|] == msgs;
      ok, sent := true, |msgs|;
    }

    /** A run of ReadPacket calls up to the first error. */
    method Drain() returns (msgs: seq<Bytes>, end: FrameError)
      modifies this`readSeqNo, conn`buf, conn`decIv, conn.raw`incoming
      ensures Drained(msgs, end) == DecodeAll(crc, old(readSeqNo), old(conn.Plain()))
      ensures readSeqNo == SeqAfter(old(readSeqNo), |msgs|) && conn.End() == old(conn.End())
      ensures end == ShortLength ==> conn.Idle()
    {
      msgs := [];
      ghost var all := DecodeAll(crc, readSeqNo, conn.Plain());
      assert [] + all.msgs == all.msgs;
      while true
        invariant all == Before(msgs, DecodeAll(crc, readSeqNo, conn.Plain()))
        invariant readSeqNo == SeqAfter(old(readSeqNo), |msgs|) && conn.End() == old(conn.End())
        decreases |conn.Plain()|
      {
        ghost var more := DecodeAll(crc, readSeqNo, conn.Plain());
        var r := ReadPacket();
        if r.Failed? {
          return msgs, r.error;
        }
        SeqAfterNext(old(readSeqNo), |msgs|);
        BeforeTwice(msgs, [r.msg], DecodeAll(crc, readSeqNo, conn.Plain()));
        msgs := msgs + [r.msg];
      }
    }
  }

  function Before(msgs: seq<Bytes>, d: Drained): Drained {
    Drained(msgs + d.msgs, d.end)
  }

  lemma BeforeTwice(a: seq<Bytes>, b: seq<Bytes>, d: Drained)
    ensures Before(a, Before(b, d)) == Before(a + b, d)
  {
    assert a + (b + d.msgs) == a + b + d.msgs;
  }

  /** What a reader that stood where the writer began finds in the bytes since. */
  lemma WroteIsRead(enc: BlockMap, dec: BlockMap, crc: Checksum, iv0: Block, s0: SeqNo, out0: Bytes,
                    msgs: seq<Bytes>, iv: Block, s: SeqNo, out: Bytes, k: nat)
    requires Inverse(enc, dec) && AllSendable(msgs) && Wrote(enc, crc, iv0, s0, out0, msgs, iv, s, out)
    ensures |out0| <= |out|
    ensures DecodeAll(crc, s0, PaddingWords(k) + Decrypt(dec, iv0, WholeBlocks([] + out[|out0|..])))
         == Drained(msgs, ShortLength)
    ensures LastBlock(iv0, WholeBlocks([] + out[|out0|..])) == iv
  {
    CipheredRoundTrip(enc, dec, iv0, crc, s0, msgs);
    var wire := Encrypt(enc, iv0, EncodeAll(crc, s0, msgs));
    assert [] + out[|out0|..] == wire;
    assert WholeBlocks(wire) == wire;
    SkipPaddingAll(crc, s0, k, Decrypt(dec, iv0, WholeBlocks(wire)));
  }

  /** Nothing is left to read but padding behind the last frame. */
  ghost predicate OnlyPadding(c: CbcConn)
    reads c, c.raw
  {
    c.raw.incoming == [] && exists k: nat :: c.buf == PaddingWords(k)
  }

  lemma IdleIsOnlyPadding(c: CbcConn)
    requires c.Idle()
    ensures OnlyPadding(c) && c.End() == c.decIv
  {
    assert c.buf == PaddingWords(0);
  }

  /** r is where w is: the same checksum, keys that match, the same chaining value and sequence number, and nothing on
      the way from w to r. */
  ghost predicate InStep(w: FrameConn, r: FrameConn)
    reads w, w.conn, r, r.conn, r.conn.raw
  {
    && w != r && w.conn != r.conn && w.conn.raw != r.conn.raw
    && w.crc == r.crc && Inverse(w.conn.enc, r.conn.dec)
    && w.conn.encIv == r.conn.decIv && w.writeSeqNo == r.readSeqNo
    && OnlyPadding(r.conn)
  }

  /** What w has sent since its output was out0, the frames of msgs, arrives at r. */
  method Arrive(w: FrameConn, r: FrameConn, out0: Bytes, ghost msgs: seq<Bytes>)
    requires w != r && w.conn != r.conn && w.conn.raw != r.conn.raw
    requires w.crc == r.crc && Inverse(w.conn.enc, r.conn.dec) && OnlyPadding(r.conn) && AllSendable(msgs)
    requires Wrote(w.conn.enc, w.crc, r.conn.decIv, r.readSeqNo, out0, msgs, w.conn.encIv, w.writeSeqNo,
                   w.conn.raw.outgoing)
    modifies r.conn.raw`incoming
    ensures DecodeAll(r.crc, r.readSeqNo, r.conn.Plain()) == Drained(msgs, ShortLength)
    ensures r.conn.End() == w.conn.encIv
  {
    ghost var k: nat :| r.conn.buf == PaddingWords(k);
    WroteIsRead(w.conn.enc, r.conn.dec, w.crc, r.conn.decIv, r.readSeqNo, out0, msgs, w.conn.encIv, w.writeSeqNo,
                w.conn.raw.outgoing, k);
    Carry(w.conn.raw, |out0|, r.conn.raw);
  }

  /** The reader's part: w has sent the frames of msgs since its output was out0. */
  method Collect(w: FrameConn, r: FrameConn, out0: Bytes, ghost msgs: seq<Bytes>)
    returns (got: seq<Bytes>, end: FrameError)
    requires w != r && w.conn != r.conn && w.conn.raw != r.conn.raw
    requires w.crc == r.crc && Inverse(w.conn.enc, r.conn.dec) && OnlyPadding(r.conn) && AllSendable(msgs)
    requires Wrote(w.conn.enc, w.crc, r.conn.decIv, r.readSeqNo, out0, msgs, w.conn.encIv, w.writeSeqNo,
                   w.conn.raw.outgoing)
    modifies r`readSeqNo, r.conn`buf, r.conn`decIv, r.conn.raw`incoming
    ensures got == msgs && end == ShortLength && InStep(w, r)
  {
    Arrive(w, r, out0, msgs);
    got, end := r.Drain();
    IdleIsOnlyPadding(r.conn);
  }

  /** Two connections in step: what one writes, however the network cuts it, the other reads back, message for
      message, and they are in step again. */
  method Exchange(w: FrameConn, r: FrameConn, msgs: seq<Bytes>) returns (ok: bool, got: seq<Bytes>, end: FrameError)
    requires InStep(w, r) && AllSendable(msgs)
    modifies w`writeSeqNo, w.conn`encIv, w.conn.raw`outgoing
    modifies r`readSeqNo, r.conn`buf, r.conn`decIv, r.conn.raw`incoming
    ensures ok ==> got == msgs && end == ShortLength && InStep(w, r)
  {
    var out0 := w.conn.raw.outgoing;
    ghost var sent;
    ok, sent := w.SendAll(msgs);
    got, end := [], ShortLength;
    if ok {
      got, end := Collect(w, r, out0, msgs);
    }
  }

  /** Who speaks, and the messages. */
  datatype Turn = Turn(forth: bool, msgs: seq<Bytes>)

  /** Any turns in both directions, each direction with a key, a chaining value and sequence numbers of its own. */
  method Dialogue(a: FrameConn, b: FrameConn, turns: seq<Turn>) returns (ok: bool, heard: seq<seq<Bytes>>)
    requires InStep(a, b) && InStep(b, a)
    requires forall i :: 0 <= i < |turns| ==> AllSendable(turns[i].msgs)
    modifies a, a.conn, a.conn.raw, b, b.conn, b.conn.raw
    ensures ok ==> InStep(a, b) && InStep(b, a)
    ensures ok ==> |heard| == |turns| && forall i :: 0 <= i < |turns| ==> heard[i] == turns[i].msgs
  {
    heard := [];
    for i := 0 to |turns|
      invariant InStep(a, b) && InStep(b, a) && |heard| == i
      invariant forall k :: 0 <= k < i ==> heard[k] == turns[k].msgs
    {
      var got, end;
      if turns[i].forth {
        ok, got, end := Exchange(a, b, turns[i].msgs);
      } else {
        ok, got, end := Exchange(b, a, turns[i].msgs);
      }
      if !ok {
        return;
      }
      heard := heard + [got];
    }
    ok := true;
  }
}
