/** The doppelganger re-segmenter of mtglib/internal/doppel: writes are buffered and a timer loop cuts the buffer
    into TLS records of its own sizes. */
module Doppelganger {
  import opened ByteCodec
  import opened RawStream
  import opened TlsRecords

  const SIZE_START := 1450
  const SIZE_ACCEL := 4096
  const ACCEL_AFTER := 40
  const MAX_AFTER := 60
  const NOISE := 100
  const RESET_AFTER := 1_000_000_000

  /** Dynamic record sizing; instants are nanoseconds, and there is none before the first request. */
  datatype Sizing = Sizing(drs: bool, counter: nat, lastRequested: Option<int>)

  type Noise = n: int | 0 <= n < NOISE

  /** Nothing was requested before, or too long ago. */
  predicate Rested(s: Sizing, now: int) {
    s.lastRequested.Some? ==> now - s.lastRequested.value > RESET_AFTER
  }

  function SizeStep(s: Sizing, now: int): Sizing {
    var reset := if Rested(s, now) then s.(counter := 0) else s;
    if s.drs then reset.(lastRequested := Some(now), counter := reset.counter + 1) else reset
  }

  function Size(s: Sizing, now: int, noise: Noise): (n: nat)
    ensures 0 < n <= MAX_PAYLOAD
  {
    var after := SizeStep(s, now);
    if !s.drs then MAX_PAYLOAD
    else if after.counter <= ACCEL_AFTER then SIZE_START - noise
    else if after.counter <= MAX_AFTER then SIZE_ACCEL - noise
    else MAX_PAYLOAD
  }

  /** Without dynamic sizing every record may be as large as a record can be. */
  lemma FixedSize(s: Sizing, now: int, noise: Noise)
    requires !s.drs
    ensures Size(s, now, noise) == 16379 && !SizeStep(s, now).drs
  {
  }

  function NewSizing(drs: bool): Sizing {
    Sizing(drs, 0, None)
  }

  /** After requests at the given times. */
  function SizeSteps(s: Sizing, times: seq<int>): Sizing {
    if times == [] then s else SizeStep(SizeSteps(s, times[..|times| - 1]), times[|times| - 1])
  }

  /** Each request follows the one before within a second; the first may come at any time. */
  predicate Busy(times: seq<int>) {
    forall i :: 0 < i < |times| ==> times[i] - times[i - 1] <= RESET_AFTER
  }

  lemma {:induction false} CounterCounts(s: Sizing, times: seq<int>)
    requires s.drs && times != [] && Busy(times) && Rested(s, times[0])
    ensures SizeSteps(s, times) == Sizing(true, |times|, Some(times[|times| - 1]))
  {
    var front := times[..|times| - 1];
    if front != [] {
      CounterCounts(s, front);
    }
  }

  lemma {:induction false} LastTime(s: Sizing, times: seq<int>)
    requires s.drs
    ensures SizeSteps(s, times).drs
    ensures times != [] ==> SizeSteps(s, times).lastRequested == Some(times[|times| - 1])
  {
    if times != [] {
      LastTime(s, times[..|times| - 1]);
    }
  }

  /** After any history of a connection and a pause of more than a second, or at its beginning: while requests keep
      coming within a second of each other, the first 40 records are about one packet, the next 20 about 4 KiB, and
      all later ones as large as a record can be. */
  lemma Ramp(history: seq<int>, times: seq<int>, i: nat, noise: Noise)
    requires i < |times| && Busy(times)
    requires history != [] ==> times[0] - history[|history| - 1] > RESET_AFTER
    ensures var size := Size(SizeSteps(SizeSteps(NewSizing(true), history), times[..i]), times[i], noise);
            && (i < 40 ==> 1350 < size <= 1450)
            && (40 <= i < 60 ==> 3996 < size <= 4096)
            && (i >= 60 ==> size == 16379)
  {
    var s := SizeSteps(NewSizing(true), history);
    LastTime(NewSizing(true), history);
    if i > 0 {
      CounterCounts(s, times[..i]);
    }
  }

  // ---------------------------------------------------------------- the machine

  /** Why the context ended; the first reason stays. */
  datatype Cause = Running | Canceled | WriteError

  function Because(known: Cause, cause: Cause): Cause {
    if known == Running then cause else known
  }

  /** `written` is everything accepted by Write; `pending` is the size of a tick still waiting for data; `lost` is the
      record whose write failed; `gone` says that the loop has returned. */
  datatype State = State(written: Bytes, buffer: Bytes, emitted: seq<Bytes>, pending: Option<nat>, sizing: Sizing,
                         done: bool, cause: Cause, failed: bool, lost: Bytes, gone: bool)

  datatype Event =
    | Write(p: Bytes)
    | Tick(now: int, noise: Noise)
    | Emit
    | EmitFails
    | Cancel                        // the first statement of Stop, or the end of the parent context
    | Stop                          // the mutex section of Stop
    | Exit                          // the loop sees that the context has ended

  predicate Enabled(s: State, e: Event) {
    match e
    case Write(_) => true
    case Cancel => true
    case Stop => s.cause != Running
    case Tick(_, _) => s.pending.None? && !s.gone
    case Emit => s.pending.Some? && (s.buffer != [] || s.done)
    case EmitFails => s.pending.Some? && s.buffer != []
    case Exit => s.pending.None? && !s.gone && s.cause != Running
  }

  function Step(s: State, e: Event): State
    requires Enabled(s, e)
  {
    match e
    case Write(p) => s.(written := s.written + p, buffer := s.buffer + p)
    case Tick(now, noise) =>
      s.(pending := Some(Size(s.sizing, now, noise)), sizing := SizeStep(s.sizing, now))
    case Emit =>
      var n := Min(s.pending.value, |s.buffer|);
      if n == 0 then s.(pending := None)
      else s.(pending := None, buffer := s.buffer[n..], emitted := s.emitted + [s.buffer[..n]])
    case EmitFails =>
      var n := Min(s.pending.value, |s.buffer|);
      s.(pending := None, buffer := s.buffer[n..], lost := s.buffer[..n], failed := true, gone := true,
         cause := Because(s.cause, WriteError))
    case Cancel => s.(cause := Because(s.cause, Canceled))
    case Stop => s.(done := true)
    case Exit => s.(gone := true)
  }

  function Start(drs: bool): State {
    State([], [], [], None, NewSizing(drs), false, Running, false, [], false)
  }

  predicate IsRun(s: State, es: seq<Event>)
    decreases |es|
  {
    es == [] || (Enabled(s, es[0]) && IsRun(Step(s, es[0]), es[1..]))
  }

  function After(s: State, es: seq<Event>): State
    requires IsRun(s, es)
    decreases |es|
  {
    if es == [] then s else After(Step(s, es[0]), es[1..])
  }

  /** Nothing is lost, duplicated or reordered; every record is non-empty and fits; a size in waiting fits. */
  ghost predicate Inv(s: State) {
    && Concat(s.emitted) + s.lost + s.buffer == s.written
    && (!s.failed ==> s.lost == []) && |s.lost| <= MAX_PAYLOAD
    && (s.failed ==> s.gone)
    && (s.gone ==> s.pending.None?)
    && (s.gone || s.done ==> s.cause != Running)
    && (forall i :: 0 <= i < |s.emitted| ==> 0 < |s.emitted[i]| <= MAX_PAYLOAD)
    && (s.pending.Some? ==> 0 < s.pending.value <= MAX_PAYLOAD)
  }

  lemma ConcatSnoc(parts: seq<Bytes>, last: Bytes)
    ensures Concat(parts + [last]) == Concat(parts) + last
  {
    ConcatAppend(parts, [last]);
    assert Concat([last]) == last + Concat([last][1..]);
    assert Concat([last]) == last;
  }

  lemma WriteKeepsInv(s: State, p: Bytes)
    requires Inv(s)
    ensures Inv(Step(s, Write(p)))
  {
    var front := Concat(s.emitted) + s.lost;
    assert front + (s.buffer + p) == front + s.buffer + p;
  }

  lemma CutBuffer(c: Bytes, buffer: Bytes, n: nat)
    requires n <= |buffer|
    ensures c + buffer[..n] + buffer[n..] == c + buffer
  {
  }

  lemma EmitKeepsInv(s: State)
    requires Inv(s) && s.pending.Some? && s.buffer != []
    ensures Inv(Step(s, Emit))
  {
    var n := Min(s.pending.value, |s.buffer|);
    ConcatSnoc(s.emitted, s.buffer[..n]);
    Recut(Concat(s.emitted), s.buffer, n);
  }

  lemma FailKeepsInv(s: State)
    requires Inv(s) && s.pending.Some? && s.buffer != []
    ensures Inv(Step(s, EmitFails))
  {
    Recut(Concat(s.emitted), s.buffer, Min(s.pending.value, |s.buffer|));
  }

  lemma Recut(c: Bytes, buffer: Bytes, n: nat)
    requires n <= |buffer|
    ensures c + buffer[..n] + buffer[n..] == c + [] + buffer
    ensures (c + buffer[..n]) + [] + buffer[n..] == c + [] + buffer
  {
    CutBuffer(c, buffer, n);
    assert c + [] == c && (c + buffer[..n]) + [] == c + buffer[..n];
  }

  lemma StepKeepsInv(s: State, e: Event)
    requires Inv(s) && Enabled(s, e)
    ensures Inv(Step(s, e))
  {
    match e
    case Write(p) => WriteKeepsInv(s, p);
    case Emit =>
      if s.buffer != [] {
        EmitKeepsInv(s);
      }
    case EmitFails => FailKeepsInv(s);
    case _ =>
  }

  lemma {:induction false} InvFrom(s: State, es: seq<Event>)
    requires Inv(s) && IsRun(s, es)
    ensures Inv(After(s, es))
    decreases |es|
  {
    if es != [] {
      StepKeepsInv(s, es[0]);
      InvFrom(Step(s, es[0]), es[1..]);
    }
  }

  function WriteOf(e: Event): Bytes {
    if e.Write? then e.p else []
  }

  function AllWrites(es: seq<Event>): Bytes {
    if es == [] then [] else WriteOf(es[0]) + AllWrites(es[1..])
  }

  lemma StepWrites(s: State, e: Event)
    requires Enabled(s, e)
    ensures Step(s, e).written == s.written + WriteOf(e)
  {
    assert s.written + [] == s.written;
  }

  lemma {:induction false} WrittenIsAllWrites(s: State, es: seq<Event>)
    requires IsRun(s, es)
    ensures After(s, es).written == s.written + AllWrites(es)
    decreases |es|
  {
    if es == [] {
      assert s.written + [] == s.written;
    } else {
      StepWrites(s, es[0]);
      WrittenIsAllWrites(Step(s, es[0]), es[1..]);
      Regroup(s.written, WriteOf(es[0]), AllWrites(es[1..]));
    }
  }

  function AsRecords(payloads: seq<Bytes>): (r: seq<Tagged>)
    ensures |r| == |payloads|
    ensures forall i :: 0 <= i < |r| ==> r[i] == Tagged(TYPE_APPLICATION_DATA, payloads[i])
  {
    seq(|payloads|, i requires 0 <= i < |payloads| => Tagged(TYPE_APPLICATION_DATA, payloads[i]))
  }

  lemma {:induction false} RecordsCarry(payloads: seq<Bytes>)
    ensures ApplicationData(AsRecords(payloads)) == Concat(payloads)
    decreases |payloads|
  {
    if payloads != [] {
      assert AsRecords(payloads)[1..] == AsRecords(payloads[1..]);
      RecordsCarry(payloads[1..]);
    }
  }

  /** What a connection has sent: the emitted records, and of one that failed some part. */
  ghost predicate OnWire(base: Bytes, emitted: seq<Bytes>, lost: Bytes, failed: bool, out: Bytes) {
    if failed then base + Wire(AsRecords(emitted)) <= out <= base + Wire(AsRecords(emitted + [lost]))
    else out == base + Wire(AsRecords(emitted))
  }

  /** A reader of such a wire gets the emitted bytes, and the failed record's only if all of it has arrived. */
  lemma ReaderOfWire(base: Bytes, emitted: seq<Bytes>, lost: Bytes, failed: bool, out: Bytes)
    requires forall i :: 0 <= i < |emitted| ==> |emitted[i]| < 65536
    requires |lost| < 65536 && OnWire(base, emitted, lost, failed, out)
    ensures |base| <= |out|
    ensures var whole := failed && out == base + Wire(AsRecords(emitted + [lost]));
            Deframe(out[|base|..]).bytes == Concat(emitted) + if whole then lost else []
  {
    var sent := Wire(AsRecords(emitted));
    var last := RecordWire(TYPE_APPLICATION_DATA, lost);
    EmittedSnoc(emitted, lost);
    Regroup(base, sent, last);
    RecordsCarry(emitted);
    if failed {
      var x := out[|base| + |sent|..];
      assert out == (base + sent) + x && x == last[..|x|];
      assert out[|base|..] == sent + x;
      DeframeFront(AsRecords(emitted), x);
      if x == last {
        WholeRecord(lost);
      } else {
        CutRecord(TYPE_APPLICATION_DATA, lost, |x|);
      }
    } else {
      assert out[|base|..] == sent;
      DeframeWire(AsRecords(emitted));
    }
  }

  lemma WholeRecord(payload: Bytes)
    requires |payload| < 65536
    ensures Deframe(RecordWire(TYPE_APPLICATION_DATA, payload)).bytes == payload
  {
    var wire := RecordWire(TYPE_APPLICATION_DATA, payload);
    ReadWritten(TYPE_APPLICATION_DATA, payload, []);
    assert wire + [] == wire && payload + [] == payload;
  }

  /** In every interleaving of writes, ticks, emissions, stops and a failing connection: the records sent carry
      exactly the first bytes written, in order; what is missing is still buffered or was in the one record whose
      write failed; and a TLS reader of whatever is then on the wire recovers that prefix, and the failed record's
      bytes only if all of it has arrived. */
  lemma EveryRun(drs: bool, es: seq<Event>, base: Bytes, out: Bytes)
    requires IsRun(Start(drs), es)
    requires var s := After(Start(drs), es); OnWire(base, s.emitted, s.lost, s.failed, out)
    ensures var s := After(Start(drs), es);
            && Concat(s.emitted) + s.lost + s.buffer == AllWrites(es)
            && (!s.failed ==> s.lost == [])
            && (forall i :: 0 <= i < |s.emitted| ==> 0 < |s.emitted[i]| <= 16379)
            && |base| <= |out|
            && Deframe(out[|base|..]).bytes
               == Concat(s.emitted) + if out == base + Wire(AsRecords(s.emitted + [s.lost])) then s.lost else []
  {
    InvFrom(Start(drs), es);
    WrittenIsAllWrites(Start(drs), es);
    var s := After(Start(drs), es);
    ReaderOfWire(base, s.emitted, s.lost, s.failed, out);
    EmittedSnoc(s.emitted, s.lost);
  }

  lemma RunCons(s: State, e: Event, more: seq<Event>)
    requires Enabled(s, e) && IsRun(Step(s, e), more)
    ensures IsRun(s, [e] + more) && After(s, [e] + more) == After(Step(s, e), more)
  {
    assert ([e] + more)[1..] == more;
  }

  lemma NothingLeft(s: State)
    requires Inv(s) && !s.gone && s.buffer == []
    ensures Concat(s.emitted) == s.written
  {
    assert s.lost == [] && Concat(s.emitted) + [] + [] == Concat(s.emitted);
  }

  /** As long as the loop has not returned it can send everything that was accepted, whether it waits for its timer
      or for data. */
  lemma {:induction false} CanDrain(s: State) returns (es: seq<Event>)
    requires Inv(s) && !s.gone
    ensures IsRun(s, es) && forall i :: 0 <= i < |es| ==> es[i].Tick? || es[i].Emit?
    ensures After(s, es).buffer == [] && Concat(After(s, es).emitted) == s.written
    decreases |s.buffer|, s.pending.None?
  {
    if s.buffer == [] {
      es := [];
      NothingLeft(s);
    } else {
      var e := if s.pending.Some? then Emit else Tick(0, 0);
      var next := Step(s, e);
      StepKeepsInv(s, e);
      assert next.written == s.written && !next.gone;
      var more := CanDrain(next);
      RunCons(s, e, more);
      es := [e] + more;
    }
  }

  /** One record: the size of the last tick, or all there is if that is less, off the front of the buffer. */
  lemma EmitExactly(s: State, now: int, noise: Noise, e: Event)
    requires Inv(s) && Enabled(s, Tick(now, noise)) && (e == Emit || e == EmitFails) && s.buffer != []
    ensures var t := Step(s, Tick(now, noise));
            var size := Size(s.sizing, now, noise);
            var record := s.buffer[..if size < |s.buffer| then size else |s.buffer|];
            && Enabled(t, e) && t.sizing == SizeStep(s.sizing, now)
            && Step(t, e).buffer == s.buffer[|record|..]
            && Step(t, e).emitted == (if e == Emit then s.emitted + [record] else s.emitted)
            && Step(t, e).lost == (if e == Emit then s.lost else record)
            && (Step(t, e).failed <==> e == EmitFails) && (Step(t, e).gone <==> e == EmitFails)
  {
  }

  /** The first reason for the end of the context stays, and it is the right one. */
  lemma {:induction false} FirstCauseStays(s: State, es: seq<Event>)
    requires IsRun(s, es) && s.cause != Running
    ensures After(s, es).cause == s.cause
    decreases |es|
  {
    if es != [] {
      FirstCauseStays(Step(s, es[0]), es[1..]);
    }
  }

  lemma CauseChanges(s: State, e: Event)
    requires Enabled(s, e) && s.cause == Running
    ensures Step(s, e).cause == if e == Cancel then Canceled else if e == EmitFails then WriteError else Running
    ensures Step(s, e).done <==> s.done || e == Event.Stop
  {
  }

  /** The wait at the end of Stop can always end: whatever the loop is doing, at most two of its own steps let it
      return. */
  lemma StopReturns(s: State) returns (es: seq<Event>)
    requires Inv(s) && s.done
    ensures IsRun(s, es) && |es| <= 2 && forall i :: 0 <= i < |es| ==> es[i].Emit? || es[i].Exit?
    ensures After(s, es).gone
  {
    if s.gone {
      es := [];
    } else if s.pending.None? {
      es := [Exit];
      assert After(s, es) == After(Step(s, Exit), []);
    } else {
      var next := Step(s, Emit);
      es := [Emit, Exit];
      assert es[1..] == [Exit];
      assert After(next, [Exit]) == After(Step(next, Exit), []);
    }
  }

  /** After that nothing is sent any more, whatever is still written. */
  lemma {:induction false} SilentAfterStop(s: State, es: seq<Event>)
    requires Inv(s) && s.gone && IsRun(s, es)
    ensures After(s, es).emitted == s.emitted && After(s, es).lost == s.lost && After(s, es).gone
    ensures After(s, es).buffer == s.buffer + AllWrites(es)
    decreases |es|
  {
    if es == [] {
      assert s.buffer + [] == s.buffer;
    } else {
      StepKeepsInv(s, es[0]);
      SilentAfterStop(Step(s, es[0]), es[1..]);
      Regroup(s.buffer, WriteOf(es[0]), AllWrites(es[1..]));
      assert s.buffer + [] == s.buffer;
    }
  }

  // ---------------------------------------------------------------- the connection object

  /** The shared part of doppel.Conn and the pooled buffer of its loop. `base` is what the connection had sent before,
      such as the server hello. */
  class DoppelConn {
    const raw: RawConn
    const buf: array<byte>
    var writeStream: Bytes
    var sizing: Sizing
    var done: bool
    var cause: Cause
    ghost const base: Bytes
    ghost var written: Bytes
    ghost var emitted: seq<Bytes>
    ghost var failed: bool
    ghost var lost: Bytes
    ghost var gone: bool

    constructor (raw: RawConn, drs: bool)
      ensures this.raw == raw && fresh(buf) && base == raw.outgoing
      ensures View(None) == Start(drs) && Valid()
    {
      this.raw := raw;
      buf := new byte[MAX_RECORD_SIZE](i => 0);
      writeStream, sizing, done, cause := [], NewSizing(drs), false, Running;
      base := raw.outgoing;
      written, emitted, failed, lost, gone := [], [], false, [], false;
      new;
      assert AsRecords([]) == [];
    }

    /** The machine state, given the size the loop is holding. */
    ghost function View(pending: Option<nat>): State
      reads this
    {
      State(written, writeStream, emitted, pending, sizing, done, cause, failed, lost, gone)
    }

    /** The peer has been sent exactly the emitted records, and of a record that failed some part. */
    ghost predicate Valid()
      reads this, raw
    {
      && buf.Length == MAX_RECORD_SIZE
      && OnWire(base, emitted, lost, failed, raw.outgoing)
    }

    /** Everything is accepted; the reason why the context ended, if it has, comes back as the error. */
    method Write(p: Bytes) returns (n: nat, err: Cause)
      requires Valid()
      modifies this
      ensures Valid() && n == |p| && err == old(cause)
      ensures forall pending :: View(pending) == Step(old(View(pending)), Event.Write(p))
    {
      if |p| == 0 {
        assert written + p == written && writeStream + p == writeStream;
        return 0, cause;
      }
      written := written + p;
      writeStream := writeStream + p;
      return |p|, cause;
    }

    /** The tick at the start of a loop pass. */
    method NextSize(now: int, noise: Noise) returns (size: nat)
      requires Valid() && !gone
      modifies this
      ensures Valid()
      ensures View(Some(size)) == Step(old(View(None)), Tick(now, noise))
    {
      size := Size(sizing, now, noise);
      sizing := SizeStep(sizing, now);
    }

    /** The rest of one loop pass, once there is data or the connection is done. */
    method EmitRecord(size: nat) returns (ok: bool)
      requires Valid() && Inv(View(Some(size)))
      requires writeStream != [] || done
      modifies this, buf, raw`outgoing
      ensures Valid()
      ensures ok ==> View(None) == Step(old(View(Some(size))), Emit)
      ensures !ok ==> old(writeStream) != [] && View(None) == Step(old(View(Some(size))), EmitFails)
    {
      var n := Min(size, |writeStream|);
      var chunk := writeStream[..n];
      writeStream := writeStream[n..];
      if n == 0 {
        return true;
      }
      ok := WriteChunk(chunk);
      Account(chunk, ok);
    }

    /** The bookkeeping after a record was written, or failed to be. */
    method Account(chunk: Bytes, ok: bool)
      requires !failed
      requires OnWire(base, if ok then emitted + [chunk] else emitted, if ok then lost else chunk, !ok, raw.outgoing)
      modifies this`emitted, this`cause, this`failed, this`lost, this`gone
      ensures OnWire(base, emitted, lost, failed, raw.outgoing)
      ensures ok ==> emitted == old(emitted) + [chunk] && cause == old(cause) && !failed && lost == old(lost)
      ensures ok ==> gone == old(gone)
      ensures !ok ==> emitted == old(emitted) && cause == Because(old(cause), WriteError) && failed && lost == chunk
      ensures !ok ==> gone
    {
      if ok {
        emitted := emitted + [chunk];
      } else {
        cause := Because(cause, WriteError);
        failed, lost, gone := true, chunk, true;
      }
    }

    /** The chunk through the pooled buffer onto the wire, as one record. */
    method WriteChunk(chunk: Bytes) returns (ok: bool)
      requires buf.Length == MAX_RECORD_SIZE && |chunk| <= MAX_PAYLOAD
      requires OnWire(base, emitted, lost, false, raw.outgoing)
      modifies buf, raw`outgoing
      ensures ok ==> OnWire(base, emitted + [chunk], lost, false, raw.outgoing)
      ensures !ok ==> OnWire(base, emitted, chunk, true, raw.outgoing)
    {
      forall i | 0 <= i < |chunk| {
        buf[SIZE_HEADER + i] := chunk[i];
      }
      assert buf[SIZE_HEADER..SIZE_HEADER + |chunk|] == chunk;
      EmittedSnoc(emitted, chunk);
      Regroup(base, Wire(AsRecords(emitted)), RecordWire(TYPE_APPLICATION_DATA, chunk));
      var r := WriteRecordInPlace(raw, buf, |chunk|);
      ok := r == Written;
    }

    /** The return of the loop when its select finds the context ended. */
    ghost method Leave()
      requires Valid() && !gone && cause != Running
      modifies this
      ensures Valid()
      ensures View(None) == Step(old(View(None)), Exit)
    {
      gone := true;
    }

    /** Stop up to its wait for the loop: the context first, then done. */
    method Stop()
      requires Valid()
      modifies this
      ensures Valid() && cause != Running
      ensures forall pending :: View(pending) == Step(Step(old(View(pending)), Cancel), Event.Stop)
    {
      cause := Because(cause, Canceled);
      done := true;
    }
  }

  lemma EmittedSnoc(emitted: seq<Bytes>, chunk: Bytes)
    ensures Wire(AsRecords(emitted + [chunk]))
         == Wire(AsRecords(emitted)) + RecordWire(TYPE_APPLICATION_DATA, chunk)
  {
    assert AsRecords(emitted + [chunk]) == AsRecords(emitted) + [Tagged(TYPE_APPLICATION_DATA, chunk)];
    WireSnoc(AsRecords(emitted), Tagged(TYPE_APPLICATION_DATA, chunk));
  }
}
