/** The TLS record layer of mtglib/internal/tls (section 5.1 of RFC 8446): records written in place, and a
    reader that keeps application data and drops every other record. */
module TlsRecords {
  import opened ByteCodec
  import opened RawStream

  const SIZE_HEADER := 5
  const MAX_RECORD_SIZE := 16384
  const MAX_PAYLOAD := MAX_RECORD_SIZE - SIZE_HEADER
  const TYPE_APPLICATION_DATA := 0x17

  datatype RecordError = ShortHeader | BadVersion | ShortPayload

  /** One record; or an error, with what has arrived of the payload and what is left of the stream. */
  datatype RecordRead =
    | Record(kind: byte, payload: Bytes, rest: Bytes)
    | BadRecord(error: RecordError, torn: Bytes, rest: Bytes)

  function NextRecord(src: Bytes): (r: RecordRead)
    ensures r.Record? ==> |r.rest| < |src|
  {
    if |src| < 5 then BadRecord(ShortHeader, [], [])
    else if src[1] != 3 || src[2] != 3 then BadRecord(BadVersion, [], src[5..])
    else
      var n := FromBE(src[3..5]);
      if |src| - 5 < n then BadRecord(ShortPayload, src[5..], []) else Record(src[0], src[5..5 + n], src[5 + n..])
  }

  /** Exactly what is a record: type, version 3.3, a length with its high byte first, and the payload. */
  lemma RecordExactly(src: Bytes)
    ensures |src| < 5 ==> NextRecord(src) == BadRecord(ShortHeader, [], [])
    ensures |src| >= 5 ==>
      var n := Digits(src[3], src[4]);
      NextRecord(src) ==
        if src[1] != 3 || src[2] != 3 then BadRecord(BadVersion, [], src[5..])
        else if |src| < 5 + n then BadRecord(ShortPayload, src[5..], [])
        else Record(src[0], src[5..5 + n], src[5 + n..])
  {
    if |src| >= 5 {
      BEValue(src[3..5]);
    }
  }

  /** Everything a reader gets out of a stream, why it ends, and what then lies in its buffer and in the stream. */
  datatype Deframed = Deframed(bytes: Bytes, end: RecordError, torn: Bytes, rest: Bytes)

  /** One record in front of what follows it. */
  function Keep(kind: byte, payload: Bytes, later: Deframed): Deframed {
    if kind == TYPE_APPLICATION_DATA then later.(bytes := payload + later.bytes) else later
  }

  function Deframe(src: Bytes): Deframed
    decreases |src|
  {
    match NextRecord(src)
    case BadRecord(e, torn, rest) => Deframed([], e, torn, rest)
    case Record(kind, payload, rest) => Keep(kind, payload, Deframe(rest))
  }

  function RecordWire(kind: byte, payload: Bytes): (r: Bytes)
    ensures |r| == 5 + |payload|
  {
    [kind, 3, 3] + BE(|payload|, 2) + payload
  }

  lemma ReadWritten(kind: byte, payload: Bytes, rest: Bytes)
    requires |payload| < 65536
    ensures NextRecord(RecordWire(kind, payload) + rest) == Record(kind, payload, rest)
  {
    var src := RecordWire(kind, payload) + rest;
    assert src[3..5] == BE(|payload|, 2);
    Pow256Values();
    BERoundTrip(|payload|, 2);
    assert src[5..5 + |payload|] == payload;
    assert src[5 + |payload|..] == rest;
  }

  /** A record on the wire. */
  datatype Tagged = Tagged(kind: byte, payload: Bytes)

  function Wire(rs: seq<Tagged>): Bytes {
    if rs == [] then [] else RecordWire(rs[0].kind, rs[0].payload) + Wire(rs[1..])
  }

  /** The payloads of the application-data records, in order. */
  function ApplicationData(rs: seq<Tagged>): Bytes {
    if rs == [] then []
    else (if rs[0].kind == 0x17 then rs[0].payload else []) + ApplicationData(rs[1..])
  }

  /** A reader recovers exactly the application data, whatever other records lie between. */
  lemma {:induction false} DeframeWire(rs: seq<Tagged>)
    requires forall i :: 0 <= i < |rs| ==> |rs[i].payload| < 65536
    ensures Deframe(Wire(rs)) == Deframed(ApplicationData(rs), ShortHeader, [], [])
    decreases |rs|
  {
    if rs != [] {
      DeframeWire(rs[1..]);
      ReadWritten(rs[0].kind, rs[0].payload, Wire(rs[1..]));
    }
  }

  /** Whole records in front of any stream add exactly their application data. */
  lemma {:induction false} DeframeFront(rs: seq<Tagged>, x: Bytes)
    requires forall i :: 0 <= i < |rs| ==> |rs[i].payload| < 65536
    ensures Deframe(Wire(rs) + x) == Deframe(x).(bytes := ApplicationData(rs) + Deframe(x).bytes)
    decreases |rs|
  {
    if rs == [] {
      assert Wire(rs) + x == x;
      assert [] + Deframe(x).bytes == Deframe(x).bytes;
    } else {
      DeframeFront(rs[1..], x);
      Regroup(RecordWire(rs[0].kind, rs[0].payload), Wire(rs[1..]), x);
      ReadWritten(rs[0].kind, rs[0].payload, Wire(rs[1..]) + x);
      var own: Bytes := if rs[0].kind == TYPE_APPLICATION_DATA then rs[0].payload else [];
      Regroup(own, ApplicationData(rs[1..]), Deframe(x).bytes);
    }
  }

  lemma CutRecord(kind: byte, payload: Bytes, m: nat)
    requires m < 5 + |payload| && |payload| < 65536
    ensures NextRecord(RecordWire(kind, payload)[..m])
         == if m < 5 then BadRecord(ShortHeader, [], []) else BadRecord(ShortPayload, payload[..m - 5], [])
  {
    var wire := RecordWire(kind, payload);
    if m >= 5 {
      var cut := wire[..m];
      assert cut[3..5] == wire[3..5] == BE(|payload|, 2);
      Pow256Values();
      BERoundTrip(|payload|, 2);
      assert cut[5..] == payload[..m - 5];
    }
  }

  /** A stream of records cut off k bytes into record i: the reader gets the application data of the records before
      it, and the payload bytes of record i that have arrived, of whatever kind it is, stay in the reader's buffer:
      some exactly when more than the header has arrived. */
  lemma AnyCut(rs: seq<Tagged>, i: nat, k: nat)
    requires forall j :: 0 <= j < |rs| ==> |rs[j].payload| < 65536
    requires i < |rs| && k < 5 + |rs[i].payload|
    ensures |Wire(rs[..i])| + k < |Wire(rs)|
    ensures var r := Deframe(Wire(rs)[..|Wire(rs[..i])| + k]);
            && r == Deframed(ApplicationData(rs[..i]), if k < 5 then ShortHeader else ShortPayload,
                             if k < 5 then [] else rs[i].payload[..k - 5], [])
            && (r.torn != [] <==> k > 5)
  {
    var first := RecordWire(rs[i].kind, rs[i].payload);
    WireSplit(rs, i);
    var cut := first[..k];
    assert Wire(rs)[..|Wire(rs[..i])| + k] == Wire(rs[..i]) + cut;
    DeframeFront(rs[..i], cut);
    CutRecord(rs[i].kind, rs[i].payload, k);
    assert ApplicationData(rs[..i]) + [] == ApplicationData(rs[..i]);
  }

  lemma {:induction false} WireSplit(rs: seq<Tagged>, i: nat)
    requires i < |rs|
    ensures Wire(rs) == Wire(rs[..i]) + (RecordWire(rs[i].kind, rs[i].payload) + Wire(rs[i + 1..]))
    decreases i
  {
    if i > 0 {
      WireSplit(rs[1..], i - 1);
      assert rs[..i][1..] == rs[1..][..i - 1] && rs[1..][i..] == rs[i + 1..];
      Regroup(RecordWire(rs[0].kind, rs[0].payload), Wire(rs[1..][..i - 1]),
              RecordWire(rs[i].kind, rs[i].payload) + Wire(rs[i + 1..]));
    }
  }

  /** Every cut is one of these. */
  lemma {:induction false} EveryCut(rs: seq<Tagged>, m: nat) returns (i: nat, k: nat)
    requires m < |Wire(rs)|
    ensures i < |rs| && k < 5 + |rs[i].payload| && m == |Wire(rs[..i])| + k
    decreases |rs|
  {
    var first := RecordWire(rs[0].kind, rs[0].payload);
    if m < |first| {
      i, k := 0, m;
    } else {
      i, k := EveryCut(rs[1..], m - |first|);
      assert rs[..i + 1][1..] == rs[1..][..i];
      i := i + 1;
    }
  }

  lemma {:induction false} WireSnoc(rs: seq<Tagged>, r: Tagged)
    ensures Wire(rs + [r]) == Wire(rs) + RecordWire(r.kind, r.payload)
    decreases |rs|
  {
    if rs == [] {
      assert rs + [r] == [r];
      assert Wire([r]) == RecordWire(r.kind, r.payload) + Wire([r][1..]);
    } else {
      assert (rs + [r])[1..] == rs[1..] + [r];
      WireSnoc(rs[1..], r);
    }
  }

  // ---------------------------------------------------------------- writing

  datatype WriteResult = Written | TooLong | RawFailed

  /** Writes the header into the first five bytes of buf, in front of a payload that is already there. */
  method WriteRecordInPlace(w: RawConn, buf: array<byte>, payloadLen: nat) returns (r: WriteResult)
    requires payloadLen <= MAX_PAYLOAD ==> SIZE_HEADER + payloadLen <= buf.Length
    modifies buf, w`outgoing
    ensures r.TooLong? <==> payloadLen > MAX_PAYLOAD
    ensures r.TooLong? ==> buf[..] == old(buf[..]) && w.outgoing == old(w.outgoing)
    ensures r.Written? ==>
      w.outgoing == old(w.outgoing) + RecordWire(TYPE_APPLICATION_DATA, old(buf[SIZE_HEADER..SIZE_HEADER + payloadLen]))
    ensures r.RawFailed? ==>
      var wire := RecordWire(TYPE_APPLICATION_DATA, old(buf[SIZE_HEADER..SIZE_HEADER + payloadLen]));
      old(w.outgoing) <= w.outgoing <= old(w.outgoing) + wire
    ensures payloadLen <= MAX_PAYLOAD ==> buf[SIZE_HEADER..] == old(buf[SIZE_HEADER..])
  {
    if payloadLen > MAX_PAYLOAD {
      return TooLong;
    }
    var size := BE(payloadLen, 2);
    buf[0] := TYPE_APPLICATION_DATA;
    buf[1], buf[2] := 3, 3;
    buf[3], buf[4] := size[0], size[1];
    ghost var payload := old(buf[SIZE_HEADER..SIZE_HEADER + payloadLen]);
    assert buf[..SIZE_HEADER + payloadLen] == [TYPE_APPLICATION_DATA, 3, 3] + size + payload;
    var ok := w.Write(buf[..SIZE_HEADER + payloadLen]);
    r := if ok then Written else RawFailed;
  }

  /** A payload too long for one record is refused, not cut. */
  method WriteRecord(w: RawConn, payload: Bytes) returns (r: WriteResult)
    modifies w`outgoing
    ensures r.TooLong? <==> |payload| > MAX_PAYLOAD
    ensures r.Written? ==> w.outgoing == old(w.outgoing) + RecordWire(TYPE_APPLICATION_DATA, payload)
    ensures r.TooLong? ==> w.outgoing == old(w.outgoing)
    ensures r.RawFailed? ==>
      old(w.outgoing) <= w.outgoing <= old(w.outgoing) + RecordWire(TYPE_APPLICATION_DATA, payload)
  {
    var buf := new byte[MAX_RECORD_SIZE](i => 0);
    var k := Min(|payload|, MAX_PAYLOAD);
    forall i | 0 <= i < k {
      buf[SIZE_HEADER + i] := payload[i];
    }
    if |payload| <= MAX_PAYLOAD {
      assert buf[SIZE_HEADER..SIZE_HEADER + |payload|] == payload;
    }
    r := WriteRecordInPlace(w, buf, |payload|);
  }

  // ---------------------------------------------------------------- reading

  datatype TlsRead = Chunk(bytes: Bytes) | Ended(end: RecordError)

  datatype RecordOutcome = Got(kind: byte, payload: Bytes) | Lost(error: RecordError, torn: Bytes)

  class TlsConn {
    const raw: RawConn
    var readBuf: Bytes

    constructor (raw: RawConn)
      ensures this.raw == raw && readBuf == []
    {
      this.raw, readBuf := raw, [];
    }

    /** Everything this connection can still return. */
    ghost function Owed(): Deframed
      reads this, raw
    {
      var later := Deframe(raw.incoming);
      later.(bytes := readBuf + later.bytes)
    }

    /** `torn` is what io.CopyN has already copied when the stream ends. */
    method ReadRecord() returns (r: RecordOutcome)
      modifies raw`incoming
      ensures match NextRecord(old(raw.incoming))
              case BadRecord(e, torn, rest) => r == Lost(e, torn) && raw.incoming == rest
              case Record(kind, payload, rest) => r == Got(kind, payload) && raw.incoming == rest
    {
      ghost var all := raw.incoming;
      var header := raw.ReadFull(5);
      if header.Short? {
        return Lost(ShortHeader, []);
      }
      var h := header.bytes;
      if h[1] != 3 || h[2] != 3 {
        return Lost(BadVersion, []);
      }
      assert h[3..] == all[3..5];
      var n := FromBE(h[3..]);
      var payload := raw.CopyN(n);
      if |payload| < n {
        return Lost(ShortPayload, payload);
      }
      assert payload == all[5..5 + n] && raw.incoming == all[5 + n..];
      r := Got(h[0], payload);
    }

    /** One pass of the Read loop with an empty buffer. */
    method Refill() returns (error: Option<RecordError>)
      requires readBuf == []
      modifies this`readBuf, raw`incoming
      ensures error.Some? ==> old(Owed()) == Deframed([], error.value, readBuf, raw.incoming)
      ensures error.None? ==> Owed() == old(Owed()) && |raw.incoming| < |old(raw.incoming)|
    {
      var r := ReadRecord();
      if r.Lost? {
        readBuf := r.torn;
        return Some(r.error);
      }
      if r.kind == TYPE_APPLICATION_DATA {
        readBuf := r.payload;
      }
      error := None;
    }

    /** Each read returns the next application bytes; an end is reported only when none are left. What a torn record
        has left in the buffer is returned by the reads after that. */
    method Read(n: nat) returns (r: TlsRead)
      modifies this`readBuf, raw`incoming
      ensures r.Ended? <==> n > 0 && old(Owed()).bytes == []
      ensures r.Ended? ==> old(Owed()) == Deframed([], r.end, readBuf, raw.incoming)
      ensures r.Chunk? ==> old(Owed()) == Owed().(bytes := r.bytes + Owed().bytes)
      ensures r.Chunk? ==> |r.bytes| <= n && (n > 0 ==> |r.bytes| > 0)
    {
      if n == 0 {
        assert [] + Owed().bytes == Owed().bytes;
        return Chunk([]);
      }
      while readBuf == []
        invariant Owed() == old(Owed())
        decreases readBuf == [], |raw.incoming|
      {
        var error := Refill();
        if error.Some? {
          return Ended(error.value);
        }
      }
      var k := Min(n, |readBuf|);
      r := Chunk(readBuf[..k]);
      ghost var later := Deframe(raw.incoming).bytes;
      assert readBuf + later == readBuf[..k] + (readBuf[k..] + later);
      readBuf := readBuf[k..];
    }
  }
}
