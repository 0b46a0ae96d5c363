/** AES-CBC as mtglib/internal/middleproxy/frame.go uses it: an abstract block permutation chained on
    the previous ciphertext block, written in whole blocks and read back one block at a time. */
module CbcStream {
  import opened ByteCodec
  import opened RawStream

  const BLOCK_SIZE := 16

  type Block = b: Bytes | |b| == BLOCK_SIZE witness seq(16, i => 0)

  /** What a key does to a block. A connection has one key to encrypt and another to decrypt. */
  type BlockMap = Block -> Block

  /** The reader's map undoes the writer's: they hold the two ends of one key. */
  ghost predicate Inverse(enc: BlockMap, dec: BlockMap) {
    forall b: Block :: dec(enc(b)) == b
  }

  ghost predicate Aligned(p: Bytes) {
    |p| % BLOCK_SIZE == 0
  }

  function Encrypt(enc: BlockMap, iv: Block, p: Bytes): (r: Bytes)
    requires Aligned(p)
    ensures |r| == |p|
    decreases |p|
  {
    if p == [] then [] else
      var block: Block := enc(XorBytes(p[..16], iv));
      block + Encrypt(enc, block, p[16..])
  }

  function Decrypt(dec: BlockMap, iv: Block, w: Bytes): (r: Bytes)
    requires Aligned(w)
    ensures |r| == |w|
    decreases |w|
  {
    if w == [] then [] else
      XorBytes(dec(w[..16]), iv) + Decrypt(dec, w[..16], w[16..])
  }

  /** The chaining value after w has gone through either direction. */
  function LastBlock(iv: Block, w: Bytes): Block
    requires Aligned(w)
  {
    if w == [] then iv else w[|w| - 16..]
  }

  lemma AlignedAppend(p: Bytes, q: Bytes)
    requires Aligned(p) && Aligned(q)
    ensures Aligned(p + q)
  {
  }

  function FirstBlock(enc: BlockMap, iv: Block, p: Bytes): Block
    requires |p| >= 16
  {
    enc(XorBytes(p[..16], iv))
  }

  lemma EncryptFront(enc: BlockMap, iv: Block, p: Bytes, q: Bytes)
    requires Aligned(p) && Aligned(q) && p != []
    ensures Aligned(p[16..] + q) && Aligned(p + q)
    ensures Encrypt(enc, iv, p + q) == FirstBlock(enc, iv, p) + Encrypt(enc, FirstBlock(enc, iv, p), p[16..] + q)
  {
    AlignedAppend(p, q);
    assert (p + q)[..16] == p[..16];
    assert (p + q)[16..] == p[16..] + q;
  }

  lemma LastBlockAppend(iv: Block, v: Bytes, w: Bytes)
    requires Aligned(v) && Aligned(w)
    ensures Aligned(v + w)
    ensures LastBlock(iv, v + w) == LastBlock(LastBlock(iv, v), w)
  {
    AlignedAppend(v, w);
    if w == [] {
      assert v + w == v;
    } else {
      assert (v + w)[|v| + |w| - 16..] == w[|w| - 16..];
    }
  }

  lemma {:induction false} EncryptAppend(enc: BlockMap, iv: Block, p: Bytes, q: Bytes)
    requires Aligned(p) && Aligned(q)
    ensures Aligned(p + q)
    ensures Encrypt(enc, iv, p + q) == Encrypt(enc, iv, p) + Encrypt(enc, LastBlock(iv, Encrypt(enc, iv, p)), q)
    decreases |p|
  {
    if p == [] {
      assert p + q == q;
    } else {
      var block := FirstBlock(enc, iv, p);
      EncryptFront(enc, iv, p, q);
      EncryptAppend(enc, block, p[16..], q);
      var tail := Encrypt(enc, block, p[16..]);
      assert Encrypt(enc, iv, p) == block + tail;
      LastBlockAppend(iv, block, tail);
      assert LastBlock(iv, block) == block;
    }
  }

  /** Decrypting what was encrypted under the same chaining value gives the plaintext back. */
  lemma {:induction false} DecryptEncrypt(enc: BlockMap, dec: BlockMap, iv: Block, p: Bytes)
    requires Inverse(enc, dec) && Aligned(p)
    ensures Decrypt(dec, iv, Encrypt(enc, iv, p)) == p
    decreases |p|
  {
    if p != [] {
      var x: Block := XorBytes(p[..16], iv);
      var block: Block := enc(x);
      var w := Encrypt(enc, iv, p);
      assert w[..16] == block;
      assert w[16..] == Encrypt(enc, block, p[16..]);
      DecryptEncrypt(enc, dec, block, p[16..]);
      XorBytesCancels(p[..16], iv);
      assert dec(block) == x;
      assert p == p[..16] + p[16..];
    }
  }

  /** Block i of a byte string. */
  function BlockOf(p: Bytes, i: nat): Block
    requires 16 * (i + 1) <= |p|
  {
    p[16 * i..16 * (i + 1)]
  }

  /** Cipher block chaining: every block is mixed with the ciphertext block before it, the first one with the IV,
      before it goes through the key. */
  lemma {:induction false} EncryptBlock(enc: BlockMap, iv: Block, p: Bytes, i: nat)
    requires Aligned(p) && 16 * (i + 1) <= |p|
    ensures var w := Encrypt(enc, iv, p);
            BlockOf(w, i) == enc(XorBytes(BlockOf(p, i), if i == 0 then iv else BlockOf(w, i - 1)))
    decreases i
  {
    var block: Block := enc(XorBytes(p[..16], iv));
    var w := Encrypt(enc, iv, p);
    assert w == block + Encrypt(enc, block, p[16..]);
    if i == 0 {
      assert BlockOf(w, 0) == block && BlockOf(p, 0) == p[..16];
    } else {
      EncryptBlock(enc, block, p[16..], i - 1);
      ShiftBlock(w, i);
      ShiftBlock(p, i);
      if i > 1 {
        ShiftBlock(w, i - 1);
      } else {
        assert BlockOf(w, 0) == block;
      }
      assert w[16..] == Encrypt(enc, block, p[16..]);
    }
  }

  lemma ShiftBlock(p: Bytes, i: nat)
    requires i > 0 && 16 * (i + 1) <= |p|
    ensures BlockOf(p, i) == BlockOf(p[16..], i - 1)
  {
  }

  lemma {:induction false} DecryptBlock(dec: BlockMap, iv: Block, w: Bytes, i: nat)
    requires Aligned(w) && 16 * (i + 1) <= |w|
    ensures BlockOf(Decrypt(dec, iv, w), i)
         == XorBytes(dec(BlockOf(w, i)), if i == 0 then iv else BlockOf(w, i - 1))
    decreases i
  {
    var p := Decrypt(dec, iv, w);
    assert p == XorBytes(dec(w[..16]), iv) + Decrypt(dec, w[..16], w[16..]);
    if i == 0 {
      assert BlockOf(w, 0) == w[..16];
    } else {
      DecryptBlock(dec, w[..16], w[16..], i - 1);
      ShiftBlock(w, i);
      ShiftBlock(p, i);
      if i > 1 {
        ShiftBlock(w, i - 1);
      } else {
        assert BlockOf(w, 0) == w[..16];
      }
      assert p[16..] == Decrypt(dec, w[..16], w[16..]);
    }
  }

  /** The whole blocks at the front of a raw stream; a torn last block can never be decrypted. */
  function WholeBlocks(w: Bytes): (r: Bytes)
    ensures Aligned(r)
  {
    w[..|w| - |w| % 16]
  }

  class CbcConn {
    const enc: BlockMap
    const dec: BlockMap
    const raw: RawConn
    var encIv: Block
    var decIv: Block
    var buf: Bytes

    constructor (raw: RawConn, enc: BlockMap, dec: BlockMap, encIv: Block, decIv: Block)
      ensures this.raw == raw && this.enc == enc && this.dec == dec
      ensures this.encIv == encIv && this.decIv == decIv && buf == []
    {
      this.raw, this.enc, this.dec := raw, enc, dec;
      this.encIv, this.decIv, this.buf := encIv, decIv, [];
    }

    /** Every plaintext byte the reader can still obtain. */
    ghost function Plain(): Bytes
      reads this, raw
    {
      buf + Decrypt(dec, decIv, WholeBlocks(raw.incoming))
    }

    /** The chaining value behind everything that has arrived. */
    ghost function End(): Block
      reads this, raw
    {
      LastBlock(decIv, WholeBlocks(raw.incoming))
    }

    /** Nothing has arrived that was not read. */
    ghost predicate Idle()
      reads this, raw
    {
      buf == [] && raw.incoming == []
    }

    /** Decrypts the next raw block into the empty buffer. */
    method Refill() returns (ok: bool)
      requires buf == []
      modifies this`buf, this`decIv, raw`incoming
      ensures ok <==> old(Plain()) != []
      ensures Plain() == old(Plain()) && End() == old(End())
      ensures if ok then |buf| == 16 else Idle()
    {
      ghost var before := raw.incoming;
      NoWholeBlock(before);
      var block := raw.ReadFull(16);
      if block.Short? {
        assert WholeBlocks(raw.incoming) == [];
        return false;
      }
      UnrollDecrypt(dec, decIv, before);
      UnrollLastBlock(decIv, before);
      buf := XorBytes(dec(block.bytes), decIv);
      decIv := block.bytes;
      ok := true;
    }

    /** Serves from one decrypted block at a time; None is a short raw stream. */
    method Read(n: nat) returns (r: Option<Bytes>)
      modifies this`buf, this`decIv, raw`incoming
      ensures r.None? <==> old(Plain()) == []
      ensures r.None? ==> Plain() == [] && Idle()
      ensures r.Some? ==> old(Plain()) == r.value + Plain()
      ensures End() == old(End())
      ensures r.Some? ==> |r.value| <= n && (n > 0 ==> |r.value| > 0)
    {
      if buf == [] {
        var ok := Refill();
        if !ok {
          return None;
        }
      }
      var k := Min(n, |buf|);
      r := Some(buf[..k]);
      ghost var rest := Decrypt(dec, decIv, WholeBlocks(raw.incoming));
      assert buf + rest == buf[..k] + (buf[k..] + rest);
      buf := buf[k..];
    }

    /** io.ReadFull over Read: block-at-a-time buffering cannot be seen by the caller. */
    method ReadFull(n: nat) returns (r: FullRead)
      modifies this`buf, this`decIv, raw`incoming
      ensures n <= |old(Plain())| ==> r == Data(old(Plain())[..n]) && Plain() == old(Plain())[n..]
      ensures n > |old(Plain())| ==> r == Short && Plain() == [] && Idle()
      ensures End() == old(End())
    {
      var got: Bytes := [];
      while |got| < n
        invariant |got| <= n
        invariant got + Plain() == old(Plain()) && End() == old(End())
      {
        ghost var before := Plain();
        var chunk := Read(n - |got|);
        if chunk.None? {
          return Short;
        }
        assert got + before == got + chunk.value + Plain();
        got := got + chunk.value;
      }
      r := Data(got);
    }

    /** Refuses a length that is not a whole number of blocks before anything is sent. */
    method Write(p: Bytes) returns (r: WriteOutcome)
      modifies this`encIv, raw`outgoing
      ensures r.Misaligned? <==> !Aligned(p)
      ensures r.Misaligned? ==> encIv == old(encIv) && raw.outgoing == old(raw.outgoing)
      ensures r.Sent? ==> raw.outgoing == old(raw.outgoing) + Encrypt(enc, old(encIv), p)
      ensures !r.Misaligned? ==> encIv == LastBlock(old(encIv), Encrypt(enc, old(encIv), p))
      ensures r.RawFailed? ==>
        old(raw.outgoing) <= raw.outgoing <= old(raw.outgoing) + Encrypt(enc, old(encIv), p)
    {
      if |p| % 16 != 0 {
        return Misaligned;
      }
      var encrypted := Encrypt(enc, encIv, p);
      encIv := LastBlock(encIv, encrypted);
      var ok := raw.Write(encrypted);
      r := if ok then Sent else RawFailed;
    }
  }

  datatype WriteOutcome = Sent | Misaligned | RawFailed

  lemma UnrollDecrypt(dec: BlockMap, iv: Block, w: Bytes)
    requires |w| >= 16
    ensures Decrypt(dec, iv, WholeBlocks(w))
         == XorBytes(dec(w[..16]), iv) + Decrypt(dec, w[..16], WholeBlocks(w[16..]))
  {
    var b := WholeBlocks(w);
    assert b[..16] == w[..16];
    assert b[16..] == WholeBlocks(w[16..]);
  }

  lemma NoWholeBlock(w: Bytes)
    ensures WholeBlocks(w) == [] <==> |w| < 16
  {
  }

  lemma UnrollLastBlock(iv: Block, w: Bytes)
    requires |w| >= 16
    ensures LastBlock(iv, WholeBlocks(w)) == LastBlock(w[..16], WholeBlocks(w[16..]))
  {
    var b := WholeBlocks(w);
    assert b == w[..16] + WholeBlocks(w[16..]);
    LastBlockAppend(iv, w[..16], WholeBlocks(w[16..]));
  }
}
