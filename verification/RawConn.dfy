/** The byte pipe under every layer: reads may be short, writes may fail part way. */
module RawStream {
  import opened ByteCodec

  /** Outcome of reading an exact number of bytes; `Short` is io.EOF or io.ErrUnexpectedEOF. */
  datatype FullRead = Data(bytes: Bytes) | Short

  class RawConn {
    /** Bytes the peer has sent or will send before it closes. */
    var incoming: Bytes
    /** Bytes handed to the peer so far. */
    var outgoing: Bytes

    constructor (fromPeer: Bytes)
      ensures incoming == fromPeer && outgoing == []
    {
      incoming, outgoing := fromPeer, [];
    }

    /** One Read call: any non-empty prefix of what is left, or None at the end. */
    method Read(n: nat) returns (r: Option<Bytes>)
      modifies this`incoming
      ensures n == 0 ==> r == Some([])
      ensures n > 0 ==> (r.None? <==> old(incoming) == [])
      ensures n > 0 && r.Some? ==> 0 < |r.value| <= n
      ensures r.Some? ==> old(incoming) == r.value + incoming
      ensures r.None? ==> incoming == []
    {
      if n == 0 {
        return Some([]);
      }
      if incoming == [] {
        return None;
      }
      var k: nat :| 0 < k <= n && k <= |incoming|;
      r := Some(incoming[..k]);
      incoming := incoming[k..];
    }

    /** io.ReadFull: however the reads are cut, the next n bytes or a short stream. */
    method ReadFull(n: nat) returns (r: FullRead)
      modifies this`incoming
      ensures n <= |old(incoming)| ==> r == Data(old(incoming)[..n]) && incoming == old(incoming)[n..]
      ensures n > |old(incoming)| ==> r == Short && incoming == []
    {
      var got: Bytes := [];
      while |got| < n
        invariant |got| <= n
        invariant got + incoming == old(incoming)
      {
        var chunk := Read(n - |got|);
        if chunk.None? {
          return Short;
        }
        assert got + chunk.value + incoming == old(incoming);
        got := got + chunk.value;
      }
      r := Data(got);
    }

    /** io.CopyN into a buffer: the next n bytes, or all there are. */
    method CopyN(n: nat) returns (got: Bytes)
      modifies this`incoming
      ensures got == old(incoming)[..Min(n, |old(incoming)|)]
      ensures incoming == old(incoming)[Min(n, |old(incoming)|)..]
    {
      got := [];
      while |got| < n
        invariant |got| <= n
        invariant got + incoming == old(incoming)
      {
        var chunk := Read(n - |got|);
        if chunk.None? {
          return;
        }
        assert got + chunk.value + incoming == old(incoming);
        got := got + chunk.value;
      }
    }

    /** One Write call; a failure may have delivered any part of p. */
    method Write(p: Bytes) returns (ok: bool)
      modifies this`outgoing
      ensures ok ==> outgoing == old(outgoing) + p
      ensures !ok ==> old(outgoing) <= outgoing <= old(outgoing) + p
    {
      if * {
        outgoing := outgoing + p;
        return true;
      }
      var k: nat :| k <= |p|;
      outgoing := outgoing + p[..k];
      ok := false;
    }
  }

  /** The network between two connections: what the source has sent after its first `from` bytes arrives. */
  method Carry(source: RawConn, from: nat, target: RawConn)
    requires from <= |source.outgoing|
    modifies target`incoming
    ensures target.incoming == old(target.incoming) + source.outgoing[from..]
  {
    target.incoming := target.incoming + source.outgoing[from..];
  }
}
