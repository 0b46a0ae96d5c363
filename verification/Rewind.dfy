/** connRewind of mtglib/conns.go: everything read before Rewind is recorded and replayed after it. */
module RewindConn {
  import opened ByteCodec
  import opened RawStream

  class ConnRewind {
    const raw: RawConn
    var buf: Bytes
    var rewound: bool

    constructor (raw: RawConn)
      ensures this.raw == raw && buf == [] && !rewound
    {
      this.raw, buf, rewound := raw, [], false;
    }

    /** The client's stream as far as it has not been handed out for good. */
    ghost function Stream(): Bytes
      reads this, raw
    {
      buf + raw.incoming
    }

    /** What the next reads will return. */
    ghost function Ahead(): Bytes
      reads this, raw
    {
      if rewound then Stream() else raw.incoming
    }

    /** Before Rewind a tee into buf; after it, buf first and then the connection. */
    method Read(n: nat) returns (r: Option<Bytes>)
      modifies this`buf, raw`incoming
      ensures r.None? ==> old(Ahead()) == [] && Ahead() == []
      ensures r.None? ==> n > 0
      ensures r.Some? ==> |r.value| <= n && (n > 0 ==> |r.value| > 0)
      ensures r.Some? ==> old(Ahead()) == r.value + Ahead()
      ensures !rewound ==> Stream() == old(Stream())
    {
      if rewound && buf != [] {
        var k := Min(n, |buf|);
        r := Some(buf[..k]);
        assert buf + raw.incoming == buf[..k] + (buf[k..] + raw.incoming);
        buf := buf[k..];
        return;
      }
      r := raw.Read(n);
      if !rewound && r.Some? {
        ghost var before := buf;
        buf := buf + r.value;
        assert before + (r.value + raw.incoming) == buf + raw.incoming;
      }
    }

    method ReadFull(n: nat) returns (r: FullRead)
      modifies this`buf, raw`incoming
      ensures n <= |old(Ahead())| ==> r == Data(old(Ahead())[..n]) && Ahead() == old(Ahead())[n..]
      ensures n > |old(Ahead())| ==> r == Short && Ahead() == []
      ensures !rewound ==> Stream() == old(Stream())
    {
      var got: Bytes := [];
      while |got| < n
        invariant |got| <= n
        invariant got + Ahead() == old(Ahead())
        invariant !rewound ==> Stream() == old(Stream())
      {
        ghost var before := Ahead();
        var chunk := Read(n - |got|);
        if chunk.None? {
          return Short;
        }
        assert got + before == got + chunk.value + Ahead();
        got := got + chunk.value;
      }
      r := Data(got);
    }

    /** From here on the stream is read from its first byte again. */
    method Rewind()
      modifies this`rewound
      ensures rewound && Ahead() == old(Stream())
    {
      rewound := true;
    }
  }
}
