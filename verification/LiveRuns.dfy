/** Handshakes, registrations and swaps of mtglib/proxy.go interleaved: the snapshot reference is swapped, stale and
    denied streams are collected under liveMu and closed outside it, each a step of its own. */
module LiveRuns {
  import opened ByteCodec
  import opened SecretText
  import opened SecretSets
  import opened LiveConns
  import Quota

  type KeyMap = map<Bytes, SecretKey>

  /** Where the one running swap is; reloadMu admits no second. */
  datatype Phase = Idle | Swapped(before: KeyMap) | StaleDone | DeniedDone

  /** fit remembers the streams whose key was current when they registered. */
  datatype State = State(
    keys: KeyMap, limits: map<Bytes, Limits>, phase: Phase,
    seen: set<Stream>, matched: set<Stream>, registered: set<Stream>,
    doomed: set<Stream>, closed: set<Stream>, fit: set<Stream>)

  datatype Event =
    | Match(s: Stream)
    | Register(s: Stream)
    | Unregister(s: Stream)
    | Swap(keys: KeyMap, limits: map<Bytes, Limits>)
    | CollectStale
    | CollectDenied(clock: Bytes -> Clock)
    | Close(s: Stream)
    | EndSwap

  ghost predicate Enabled(st: State, e: Event) {
    match e
    case Match(s) => s !in st.seen && Matches(st.keys, s)
    case Register(s) => s in st.matched
    case Unregister(s) => s in st.registered
    case Swap(_, _) => st.phase == Idle
    case CollectStale => st.phase.Swapped?
    case CollectDenied(_) => st.phase == StaleDone && st.doomed == {}
    case Close(s) => s in st.doomed
    case EndSwap => st.phase == DeniedDone && st.doomed == {}
  }

  /** The streams a collecting step takes. */
  ghost predicate Takes(st: State, e: Event, s: Stream) {
    && s in st.registered
    && match e
       case CollectStale => st.phase.Swapped? && Stale(st.phase.before, st.keys, s.name)
       case CollectDenied(clock) => BannedUser(st.limits, s.name, clock)
       case _ => false
  }

  ghost function Step(st: State, e: Event): State
    requires Enabled(st, e)
  {
    match e
    case Match(s) => st.(seen := st.seen + {s}, matched := st.matched + {s})
    case Register(s) =>
      st.(matched := st.matched - {s}, registered := st.registered + {s},
          fit := if Matches(st.keys, s) then st.fit + {s} else st.fit - {s})
    case Unregister(s) => st.(registered := st.registered - {s})
    case Swap(keys, limits) => st.(keys := keys, limits := limits, phase := Swapped(st.keys))
    case CollectStale => st.(phase := StaleDone, doomed := st.doomed + Taken(st, e))
    case CollectDenied(_) => st.(phase := DeniedDone, doomed := st.doomed + Taken(st, e))
    case Close(s) => st.(doomed := st.doomed - {s}, closed := st.closed + {s})
    case EndSwap => st.(phase := Idle)
  }

  ghost function Taken(st: State, e: Event): set<Stream> {
    set s | s in st.registered && Takes(st, e, s)
  }

  ghost predicate Start(st: State) {
    && st.phase == Idle
    && st.seen == st.matched == st.registered == st.doomed == st.closed == st.fit == {}
  }

  /** A run: the states before, between and after the events. */
  ghost predicate IsRun(states: seq<State>, events: seq<Event>) {
    && |states| == |events| + 1
    && forall i :: 0 <= i < |events| ==> Enabled(states[i], events[i]) && states[i + 1] == Step(states[i], events[i])
  }

  /** Registered and neither closed nor about to be. */
  predicate Alive(st: State, s: Stream) {
    s in st.registered && s !in st.closed && s !in st.doomed
  }

  // ---------------------------------------------------------------- live streams have current keys

  predicate Honest(st: State, s: Stream) {
    || (s in st.fit <==> Matches(st.keys, s))
    || (st.phase.Swapped? && Stale(st.phase.before, st.keys, s.name))
  }

  ghost predicate Inv(st: State) {
    && (st.phase.Idle? || st.phase.Swapped? ==> st.doomed == {})
    && st.matched <= st.seen && st.registered <= st.seen && st.closed <= st.seen && st.doomed <= st.seen
    && st.matched !! st.registered && st.matched !! st.closed && st.matched !! st.doomed
    && forall s :: Alive(st, s) ==> Honest(st, s)
  }

  lemma StepKeepsInv(st: State, e: Event)
    requires Inv(st) && Enabled(st, e)
    ensures Inv(Step(st, e))
  {
    var n := Step(st, e);
    forall s | Alive(n, s)
      ensures Honest(n, s)
    {
      if e != Register(s) {
        assert Alive(st, s) && Honest(st, s);
      }
    }
  }

  lemma {:induction false} EveryRunKeepsInv(states: seq<State>, events: seq<Event>, i: nat)
    requires IsRun(states, events) && Start(states[0]) && i < |states|
    ensures Inv(states[i])
  {
    if i > 0 {
      EveryRunKeepsInv(states, events, i - 1);
      StepKeepsInv(states[i - 1], events[i - 1]);
    }
  }

  /** Whenever no swap is under way, a live stream has the current key of its name if and only if it had it when
      it registered: swaps never leave a stream behind, and never repair one. */
  lemma LiveKeyIffFit(states: seq<State>, events: seq<Event>, i: nat, s: Stream)
    requires IsRun(states, events) && Start(states[0]) && i < |states|
    requires states[i].phase == Idle && s in states[i].registered && s !in states[i].closed
    ensures Matches(states[i].keys, s) <==> s in states[i].fit
  {
    EveryRunKeepsInv(states, events, i);
    assert Alive(states[i], s);
  }

  // ---------------------------------------------------------------- one snapshot for match and registration

  lemma {:induction false} KeysKept(states: seq<State>, events: seq<Event>, j: nat, k: nat)
    requires IsRun(states, events) && j <= k < |states|
    requires forall i :: j <= i < k ==> !events[i].Swap?
    ensures states[k].keys == states[j].keys
  {
    if j < k {
      KeysKept(states, events, j, k - 1);
    }
  }

  /** fit is decided at the registration, once. */
  lemma {:induction false} FitKept(states: seq<State>, events: seq<Event>, k: nat, i: nat, s: Stream)
    requires IsRun(states, events) && Start(states[0]) && k < i < |states| && events[k] == Register(s)
    ensures s in states[i].fit <==> Matches(states[k].keys, s)
    ensures s in states[i].seen && s !in states[i].matched
  {
    EveryRunKeepsInv(states, events, i - 1);
    if i > k + 1 {
      FitKept(states, events, k, i - 1, s);
    }
  }

  /** If no swap came between match and registration, a live stream always has the current key. */
  lemma OneSnapshot(states: seq<State>, events: seq<Event>, j: nat, k: nat, i: nat, s: Stream)
    requires IsRun(states, events) && Start(states[0]) && j < k < i < |states|
    requires events[j] == Match(s) && events[k] == Register(s)
    requires forall m :: j < m < k ==> !events[m].Swap?
    requires states[i].phase == Idle && s in states[i].registered && s !in states[i].closed
    ensures Matches(states[i].keys, s)
  {
    KeysKept(states, events, j + 1, k);
    assert states[j + 1].keys == states[j].keys;
    FitKept(states, events, k, i, s);
    LiveKeyIffFit(states, events, i, s);
  }

  /** With a swap in between, the stream can outlive its key. */
  lemma RaceOutlivesKey(st: State, s: Stream, keys: KeyMap) returns (states: seq<State>, events: seq<Event>)
    requires Start(st) && Matches(st.keys, s) && !Matches(keys, s)
    ensures IsRun(states, events) && states[0] == st
    ensures var end := states[|states| - 1];
            end.phase == Idle && s in end.registered && s !in end.closed && end.keys == keys && !Matches(end.keys, s)
  {
    var clock := (n: Bytes) => Clock(0, 0);
    events := [Match(s), Swap(keys, map n | n in keys :: NO_LIMITS), CollectStale, CollectDenied(clock), EndSwap, Register(s)];
    var s1 := Step(st, events[0]);
    var s2 := Step(s1, events[1]);
    var s3 := Step(s2, events[2]);
    assert s3.doomed == {};
    var s4 := Step(s3, events[3]);
    assert s4.doomed == {};
    var s5 := Step(s4, events[4]);
    var s6 := Step(s5, events[5]);
    states := [st, s1, s2, s3, s4, s5, s6];
  }

  // ---------------------------------------------------------------- closed exactly when collected

  ghost predicate TakenAt(states: seq<State>, events: seq<Event>, i: nat, s: Stream)
    requires IsRun(states, events)
  {
    i < |events| && Takes(states[i], events[i], s)
  }

  lemma DoomedStep(st: State, e: Event, s: Stream)
    requires Enabled(st, e)
    ensures var n := Step(st, e);
            s in n.doomed + n.closed <==> s in st.doomed + st.closed || Takes(st, e, s)
  {
  }

  /** A stream is closed, or waits to be, exactly if some swap found it registered and stale, disabled or
      expired. */
  lemma {:induction false} ClosedIffCollected(states: seq<State>, events: seq<Event>, i: nat, s: Stream)
    requires IsRun(states, events) && Start(states[0]) && i < |states|
    ensures s in states[i].doomed + states[i].closed <==> exists j :: 0 <= j < i && TakenAt(states, events, j, s)
  {
    if i > 0 {
      ClosedIffCollected(states, events, i - 1, s);
      DoomedStep(states[i - 1], events[i - 1], s);
      assert TakenAt(states, events, i - 1, s) <==> Takes(states[i - 1], events[i - 1], s);
    }
  }

  // ---------------------------------------------------------------- the proxy object takes these steps

  /** What the proxy object does not keep itself. */
  datatype History = History(seen: set<Stream>, matched: set<Stream>, fit: set<Stream>)

  ghost function ViewIn(p: Proxy, h: History, phase: Phase): State
    reads p
  {
    State(Keys(p.table), AllLimits(p.table), phase, h.seen, h.matched, p.Live(), {}, p.closed, h.fit)
  }

  ghost predicate Leads(states: seq<State>, events: seq<Event>, from: State, to: State) {
    IsRun(states, events) && states[0] == from && states[|states| - 1] == to
  }

  lemma OneEvent(st: State, e: Event)
    requires Enabled(st, e)
    ensures Leads([st, Step(st, e)], [e], st, Step(st, e))
  {
  }

  lemma Join(s1: seq<State>, e1: seq<Event>, s2: seq<State>, e2: seq<Event>, from: State, mid: State, to: State)
    requires Leads(s1, e1, from, mid) && Leads(s2, e2, mid, to)
    ensures Leads(s1 + s2[1..], e1 + e2, from, to)
  {
    var states, events := s1 + s2[1..], e1 + e2;
    forall i | 0 <= i < |events|
      ensures Enabled(states[i], events[i]) && states[i + 1] == Step(states[i], events[i])
    {
      if i >= |e1| {
        assert states[i] == s2[i - |e1|] && states[i + 1] == s2[i - |e1| + 1];
      }
    }
  }

  /** The loop that closes what was collected. */
  lemma {:induction false} CloseAll(st: State) returns (states: seq<State>, events: seq<Event>)
    ensures Leads(states, events, st, st.(doomed := {}, closed := st.closed + st.doomed))
    decreases st.doomed
  {
    if st.doomed == {} {
      states, events := [st], [];
      assert st.closed + {} == st.closed;
    } else {
      var s :| s in st.doomed;
      var next := Step(st, Close(s));
      OneEvent(st, Close(s));
      var more, rest := CloseAll(next);
      assert next.closed + next.doomed == st.closed + st.doomed;
      Join([st, next], [Close(s)], more, rest, st, next, st.(doomed := {}, closed := st.closed + st.doomed));
      states, events := [st, next] + more[1..], [Close(s)] + rest;
    }
  }

  /** A collecting step and the closing of all it took. */
  lemma CollectAndClose(st: State, e: Event) returns (states: seq<State>, events: seq<Event>)
    requires Enabled(st, e) && (e.CollectStale? || e.CollectDenied?) && st.doomed == {}
    ensures Leads(states, events, st, Step(st, e).(doomed := {}, closed := st.closed + Taken(st, e)))
  {
    var next := Step(st, e);
    OneEvent(st, e);
    assert next.doomed == Taken(st, e);
    var more, rest := CloseAll(next);
    Join([st, next], [e], more, rest, st, next, next.(doomed := {}, closed := st.closed + Taken(st, e)));
    states, events := [st, next] + more[1..], [e] + rest;
  }

  /** A handshake that matches secret i of the snapshot it has loaded. */
  method MatchAsStep(p: Proxy, id: nat, i: nat, ghost h: History) returns (s: Stream, ghost h': History)
    requires p.Valid() && i < |p.secrets.names|
    requires forall x :: x in h.seen ==> x.id != id
    ensures Enabled(ViewIn(p, h, Idle), Match(s)) && ViewIn(p, h', Idle) == Step(ViewIn(p, h, Idle), Match(s))
  {
    assert UserAt(p.secrets, i) == p.table.users[p.secrets.names[i]];
    s := Stream(id, p.secrets.names[i], p.secrets.secrets[i].key);
    h' := h.(seen := h.seen + {s}, matched := h.matched + {s});
  }

  method RegisterAsStep(p: Proxy, s: Stream, ghost h: History, ghost phase: Phase) returns (ghost h': History)
    requires p.Valid() && s in h.matched
    modifies p`liveConns
    ensures p.Valid() && Enabled(old(ViewIn(p, h, phase)), Register(s))
    ensures ViewIn(p, h', phase) == Step(old(ViewIn(p, h, phase)), Register(s))
  {
    h' := h.(matched := h.matched - {s}, fit := if Matches(Keys(p.table), s) then h.fit + {s} else h.fit - {s});
    p.RegisterConn(s);
  }

  method UnregisterAsStep(p: Proxy, s: Stream, ghost h: History, ghost phase: Phase)
    requires p.Valid() && s in p.Live()
    modifies p`liveConns
    ensures p.Valid() && Enabled(old(ViewIn(p, h, phase)), Unregister(s))
    ensures ViewIn(p, h, phase) == Step(old(ViewIn(p, h, phase)), Unregister(s))
  {
    p.UnregisterConn(s);
  }

  /** closeStaleConns, right after the snapshot was swapped. */
  method StaleAsRun(p: Proxy, oldSet: SecretSet, ghost before: Table, ghost h: History)
    returns (ghost states: seq<State>, ghost events: seq<Event>)
    requires p.Valid() && Shows(oldSet, before)
    modifies p`closed
    ensures p.Valid()
    ensures Leads(states, events, old(ViewIn(p, h, Swapped(Keys(before)))), ViewIn(p, h, StaleDone))
  {
    ghost var st := ViewIn(p, h, Swapped(Keys(before)));
    states, events := CollectAndClose(st, CollectStale);
    p.CloseStaleConns(oldSet, p.secrets, before, p.table);
    assert Taken(st, CollectStale) == set s | s in p.Live() && Stale(Keys(before), Keys(p.table), s.name);
  }

  /** closeDeniedConns. */
  method DeniedAsRun(p: Proxy, clock: Bytes -> Clock, month: Quota.Calendar, ghost h: History)
    returns (ghost states: seq<State>, ghost events: seq<Event>)
    requires p.Valid()
    modifies p`closed, p`stats
    ensures p.Valid()
    ensures Leads(states, events, old(ViewIn(p, h, StaleDone)), ViewIn(p, h, DeniedDone))
  {
    ghost var st := ViewIn(p, h, StaleDone);
    states, events := CollectAndClose(st, CollectDenied(clock));
    p.CloseDeniedConns(clock, month);
    assert Taken(st, CollectDenied(clock)) == set s | s in p.Live() && BannedUser(AllLimits(p.table), s.name, clock);
  }

  /** A swap that nothing interrupts. */
  lemma WholeSwap(st: State, keys: KeyMap, limits: map<Bytes, Limits>, clock: Bytes -> Clock)
    returns (states: seq<State>, events: seq<Event>)
    requires st.phase == Idle && st.doomed == {}
    ensures var gone := set s | s in st.registered && (Stale(st.keys, keys, s.name) || BannedUser(limits, s.name, clock));
            Leads(states, events, st, st.(keys := keys, limits := limits, closed := st.closed + gone))
  {
    var s1 := Step(st, Swap(keys, limits));
    OneEvent(st, Swap(keys, limits));
    var more, rest := CollectAndClose(s1, CollectStale);
    var s2 := Step(s1, CollectStale).(doomed := {}, closed := s1.closed + Taken(s1, CollectStale));
    Join([st, s1], [Swap(keys, limits)], more, rest, st, s1, s2);
    states, events := [st, s1] + more[1..], [Swap(keys, limits)] + rest;
    more, rest := CollectAndClose(s2, CollectDenied(clock));
    var s3 := Step(s2, CollectDenied(clock)).(doomed := {}, closed := s2.closed + Taken(s2, CollectDenied(clock)));
    Join(states, events, more, rest, st, s2, s3);
    states, events := states + more[1..], events + rest;
    var s4 := Step(s3, EndSwap);
    OneEvent(s3, EndSwap);
    Join(states, events, [s3, s4], [EndSwap], st, s3, s4);
    states, events := states + [s3, s4][1..], events + [EndSwap];
    var gone := set s | s in st.registered && (Stale(st.keys, keys, s.name) || BannedUser(limits, s.name, clock));
    assert s4.closed == st.closed + gone;
  }

  /** Every operation of the management API that succeeds is such a swap. */
  method PerformAsRun(p: Proxy, op: Op, clock: Bytes -> Clock, month: Quota.Calendar, ghost h: History)
    returns (r: Outcome, ghost states: seq<State>, ghost events: seq<Event>)
    requires p.Valid()
    modifies p
    ensures p.Valid() && (p.table, r) == Apply(old(p.table), op)
    ensures r == Done ==> Leads(states, events, old(ViewIn(p, h, Idle)), ViewIn(p, h, Idle))
  {
    ghost var st := ViewIn(p, h, Idle);
    ghost var before := p.table;
    r := p.Perform(op, clock, month);
    states, events := WholeSwap(st, Keys(p.table), AllLimits(p.table), clock);
    if r == Done {
      DoomedParts(p.Live(), before, p.table, clock);
    }
  }
}
