/** The dial circuit breaker of network/circuit_breaker.go as a machine of atomic steps: each mutex section is
    one step, the lock-free state load and the half-open compare-and-swap are steps of their own. */
module CircuitBreaker {
  import opened ByteCodec

  datatype Phase = Closed | HalfOpened | Opened

  /** halfOpenTimer (whose callback is tryHalfOpen) and failuresCleanupTimer (resetFailures). */
  datatype TimerKind = WakeUp | Cleanup

  /** A started timer. When `due`, it has fired and its callback is waiting for the mutex; stopping it then
      no longer helps. */
  datatype Timer = Timer(kind: TimerKind, due: bool)

  type Counter = n: int | 0 <= n < 0x1_0000_0000

  /** `timers` holds every timer that still runs or whose callback is still to come. The last three fields
      count dials that have loaded HalfOpened, dials on the closed path, and half-open probes in flight. */
  datatype Breaker = Breaker(
    phase: Phase, attempts: Counter, failures: Counter,
    wakeUp: Option<nat>, cleanup: Option<nat>,
    timers: map<nat, Timer>, nextTimer: nat,
    loaded: nat, closedDials: nat, probes: nat)

  function Ref(b: Breaker, kind: TimerKind): Option<nat> {
    if kind == WakeUp then b.wakeUp else b.cleanup
  }

  function SetRef(b: Breaker, kind: TimerKind, ref: Option<nat>): Breaker {
    if kind == WakeUp then b.(wakeUp := ref) else b.(cleanup := ref)
  }

  predicate CanStop(timers: map<nat, Timer>, id: nat) {
    id in timers && !timers[id].due
  }

  /** A timer that has already fired stays: its callback will run late. */
  function StopTimer(b: Breaker, kind: TimerKind): Breaker {
    match Ref(b, kind)
    case None => b
    case Some(id) =>
      SetRef(b.(timers := if CanStop(b.timers, id) then b.timers - {id} else b.timers), kind, None)
  }

  function EnsureTimer(b: Breaker, kind: TimerKind): Breaker {
    if Ref(b, kind).Some? then b
    else SetRef(b.(timers := b.timers[b.nextTimer := Timer(kind, false)], nextTimer := b.nextTimer + 1),
                kind, Some(b.nextTimer))
  }

  function SwitchState(b: Breaker, phase: Phase): Breaker {
    var armed :=
      match phase
      case Closed => EnsureTimer(StopTimer(b, WakeUp), Cleanup)
      case HalfOpened => StopTimer(StopTimer(b, Cleanup), WakeUp)
      case Opened => EnsureTimer(StopTimer(b, Cleanup), WakeUp);
    armed.(failures := 0, attempts := 0, phase := phase)
  }

  function ResetFailures(b: Breaker): Breaker {
    var stopped := StopTimer(b, Cleanup);
    if stopped.phase == Closed then SwitchState(stopped, Closed) else stopped
  }

  function TryHalfOpen(b: Breaker): Breaker {
    if b.phase == Opened then SwitchState(b, HalfOpened) else b
  }

  function RecordFailure(b: Breaker, threshold: Counter): Breaker {
    var counted := b.(failures := (b.failures + 1) % 0x1_0000_0000);
    if counted.phase == Closed && counted.failures >= threshold then SwitchState(counted, Opened) else counted
  }

  function ProbeDone(b: Breaker, ok: bool): Breaker {
    if b.phase != HalfOpened then b
    else SwitchState(b, if ok then Closed else Opened)
  }

  datatype Event =
    | Load                          // DialContext reads the state
    | Swap                          // doHalfOpened tries to take the only probe
    | CancelClosed | CancelProbe    // the context ends before the mutex is taken
    | FinishClosed(ok: bool)        // doClosed reports its dial
    | FinishProbe(ok: bool)         // doHalfOpened reports its dial
    | Expire(id: nat)               // a running timer fires
    | Callback(id: nat)             // a fired timer's callback gets the mutex

  predicate Enabled(b: Breaker, e: Event) {
    match e
    case Load => true
    case Swap => b.loaded > 0
    case CancelClosed => b.closedDials > 0
    case CancelProbe => b.probes > 0
    case FinishClosed(_) => b.closedDials > 0
    case FinishProbe(_) => b.probes > 0
    case Expire(id) => CanStop(b.timers, id)
    case Callback(id) => id in b.timers && b.timers[id].due
  }

  function Step(threshold: Counter, b: Breaker, e: Event): Breaker
    requires Enabled(b, e)
  {
    match e
    case Load =>
      (match b.phase
       case Closed => b.(closedDials := b.closedDials + 1)
       case HalfOpened => b.(loaded := b.loaded + 1)
       case Opened => b)
    case Swap =>
      var left := b.(loaded := b.loaded - 1);
      if left.attempts == 0 then left.(attempts := 1, probes := left.probes + 1) else left
    case CancelClosed => b.(closedDials := b.closedDials - 1)
    case CancelProbe => b.(probes := b.probes - 1)
    case FinishClosed(ok) =>
      var left := b.(closedDials := b.closedDials - 1);
      if ok then SwitchState(left, Closed) else RecordFailure(left, threshold)
    case FinishProbe(ok) => ProbeDone(b.(probes := b.probes - 1), ok)
    case Expire(id) => b.(timers := b.timers[id := b.timers[id].(due := true)])
    case Callback(id) =>
      var taken := b.(timers := b.timers - {id});
      if b.timers[id].kind == Cleanup then ResetFailures(taken) else TryHalfOpen(taken)
  }

  function Init(): Breaker {
    SwitchState(Breaker(Closed, 0, 0, None, None, map[], 0, 0, 0, 0), Closed)
  }

  // ---------------------------------------------------------------- invariants of every run

  /** A set reference names a timer of its own kind that still runs or whose callback is pending. */
  predicate Armed(b: Breaker, kind: TimerKind) {
    Ref(b, kind).Some? ==> Ref(b, kind).value in b.timers && b.timers[Ref(b, kind).value].kind == kind
  }

  /** A timer nobody refers to can only be a late callback. */
  predicate StoppedAreDue(b: Breaker) {
    forall id :: id in b.timers ==>
      id < b.nextTimer && (b.timers[id].due || b.wakeUp == Some(id) || b.cleanup == Some(id))
  }

  predicate TimersMatchPhase(b: Breaker) {
    && (b.cleanup.Some? <==> b.phase == Closed)
    && (b.wakeUp.Some? <==> b.phase == Opened)
  }

  /** openThreshold 0 behaves as 1: the first failure opens. */
  function Limit(threshold: Counter): Counter {
    if threshold == 0 then 1 else threshold
  }

  predicate Inv(threshold: Counter, b: Breaker) {
    && TimersMatchPhase(b)
    && Armed(b, WakeUp) && Armed(b, Cleanup)
    && StoppedAreDue(b)
    && b.attempts <= 1
    && (b.phase == Closed ==> b.failures < Limit(threshold))
  }

  /** What switchState needs: references are armed, except that the one whose callback is running may not be. */
  predicate Loose(b: Breaker) {
    && StoppedAreDue(b)
    && (forall id :: b.wakeUp == Some(id) && id in b.timers ==> b.timers[id].kind == WakeUp)
    && (forall id :: b.cleanup == Some(id) && id in b.timers ==> b.timers[id].kind == Cleanup)
    && (b.wakeUp.Some? ==> b.wakeUp.value < b.nextTimer)
    && (b.cleanup.Some? ==> b.cleanup.value < b.nextTimer)
  }

  lemma StopTimerLoose(b: Breaker, kind: TimerKind)
    requires Loose(b)
    ensures Loose(StopTimer(b, kind)) && Ref(StopTimer(b, kind), kind) == None
    ensures forall other :: other != kind ==> Ref(StopTimer(b, kind), other) == Ref(b, other)
    ensures forall other :: other != kind && Armed(b, other) ==> Armed(StopTimer(b, kind), other)
  {
  }

  lemma EnsureTimerArms(b: Breaker, kind: TimerKind)
    requires Loose(b) && Armed(b, kind)
    ensures Loose(EnsureTimer(b, kind)) && Ref(EnsureTimer(b, kind), kind).Some? && Armed(EnsureTimer(b, kind), kind)
    ensures forall other :: other != kind ==> Ref(EnsureTimer(b, kind), other) == Ref(b, other)
  {
  }

  /** From any state whose kept timer is armed, switching state re-establishes everything. */
  lemma SwitchEstablishes(threshold: Counter, b: Breaker, phase: Phase)
    requires Loose(b)
    requires phase == Closed ==> Armed(b, Cleanup)
    requires phase == Opened ==> Armed(b, WakeUp)
    ensures Inv(threshold, SwitchState(b, phase)) && SwitchState(b, phase).phase == phase
  {
    match phase
    case Closed =>
      StopTimerLoose(b, WakeUp);
      EnsureTimerArms(StopTimer(b, WakeUp), Cleanup);
    case HalfOpened =>
      StopTimerLoose(b, Cleanup);
      StopTimerLoose(StopTimer(b, Cleanup), WakeUp);
    case Opened =>
      StopTimerLoose(b, Cleanup);
      EnsureTimerArms(StopTimer(b, Cleanup), WakeUp);
  }

  lemma CallbackKeepsInv(threshold: Counter, b: Breaker, id: nat)
    requires Inv(threshold, b) && Enabled(b, Callback(id))
    ensures Inv(threshold, Step(threshold, b, Callback(id)))
  {
    var taken := b.(timers := b.timers - {id});
    assert Loose(taken);
    if b.timers[id].kind == Cleanup {
      StopTimerLoose(taken, Cleanup);
      if b.phase == Closed {
        SwitchEstablishes(threshold, StopTimer(taken, Cleanup), Closed);
      }
    } else if b.phase == Opened {
      SwitchEstablishes(threshold, taken, HalfOpened);
    }
  }

  lemma StepKeepsInv(threshold: Counter, b: Breaker, e: Event)
    requires Inv(threshold, b) && Enabled(b, e)
    ensures Inv(threshold, Step(threshold, b, e))
  {
    assert Loose(b);
    match e
    case FinishClosed(ok) =>
      var left := b.(closedDials := b.closedDials - 1);
      if ok {
        SwitchEstablishes(threshold, left, Closed);
      } else {
        var counted := left.(failures := (left.failures + 1) % 0x1_0000_0000);
        if counted.phase == Closed && counted.failures >= threshold {
          SwitchEstablishes(threshold, counted, Opened);
        }
      }
    case FinishProbe(ok) =>
      SwitchEstablishes(threshold, b.(probes := b.probes - 1), if ok then Closed else Opened);
    case Callback(id) =>
      CallbackKeepsInv(threshold, b, id);
    case _ =>
  }

  /** A run: every event is enabled when it happens. */
  predicate IsRun(threshold: Counter, b: Breaker, es: seq<Event>)
    decreases |es|
  {
    es == [] || (Enabled(b, es[0]) && IsRun(threshold, Step(threshold, b, es[0]), es[1..]))
  }

  function After(threshold: Counter, b: Breaker, es: seq<Event>): Breaker
    requires IsRun(threshold, b, es)
    decreases |es|
  {
    if es == [] then b else After(threshold, Step(threshold, b, es[0]), es[1..])
  }

  lemma {:induction false} InvFrom(threshold: Counter, b: Breaker, es: seq<Event>)
    requires Inv(threshold, b) && IsRun(threshold, b, es)
    ensures Inv(threshold, After(threshold, b, es))
    decreases |es|
  {
    if es != [] {
      StepKeepsInv(threshold, b, es[0]);
      InvFrom(threshold, Step(threshold, b, es[0]), es[1..]);
    }
  }

  lemma InitInv(threshold: Counter)
    ensures Inv(threshold, Init())
  {
    SwitchEstablishes(threshold, Breaker(Closed, 0, 0, None, None, map[], 0, 0, 0, 0), Closed);
  }

  /** In every interleaving, late callbacks included: Closed iff the cleanup timer is set, Opened iff the
      half-open timer is set, each set timer still running or about to call back, every unset one only due,
      and Closed with fewer failures than the threshold. */
  lemma EveryRunKeepsInv(threshold: Counter, es: seq<Event>)
    requires IsRun(threshold, Init(), es)
    ensures Inv(threshold, After(threshold, Init(), es))
  {
    InitInv(threshold);
    InvFrom(threshold, Init(), es);
  }

  /** Opened always has a wake-up: its own timer, run to its callback, leads to HalfOpened with a free probe. */
  lemma OpenedWakesUp(threshold: Counter, b: Breaker) returns (es: seq<Event>)
    requires Inv(threshold, b) && b.phase == Opened
    ensures IsRun(threshold, b, es) && |es| <= 2
    ensures forall i :: 0 <= i < |es| ==> es[i].Expire? || es[i].Callback?
    ensures After(threshold, b, es).phase == HalfOpened && After(threshold, b, es).attempts == 0
  {
    var id := b.wakeUp.value;
    if b.timers[id].due {
      es := [Callback(id)];
      assert After(threshold, b, es) == After(threshold, Step(threshold, b, Callback(id)), []);
    } else {
      var fired := Step(threshold, b, Expire(id));
      es := [Expire(id), Callback(id)];
      assert es[1..] == [Callback(id)];
      assert After(threshold, b, es) == After(threshold, fired, [Callback(id)]);
      assert After(threshold, fired, [Callback(id)]) == After(threshold, Step(threshold, fired, Callback(id)), []);
    }
  }

  // ---------------------------------------------------------------- how phases change

  /** The phase after every event, and so exactly which events change it: a successful dial that was let through in
      Closed closes from every phase; a failed one opens a Closed breaker that it brings to its limit; a probe decides
      HalfOpened; the wake-up half-opens Opened. */
  lemma PhaseChanges(threshold: Counter, b: Breaker, e: Event)
    requires Inv(threshold, b) && Enabled(b, e)
    ensures Step(threshold, b, e).phase ==
            match e
            case FinishClosed(true) => Closed
            case FinishClosed(false) => if b.phase == Closed && b.failures + 1 >= Limit(threshold) then Opened else b.phase
            case FinishProbe(true) => if b.phase == HalfOpened then Closed else b.phase
            case FinishProbe(false) => if b.phase == HalfOpened then Opened else b.phase
            case Callback(id) => if b.phase == Opened && b.timers[id].kind == WakeUp then HalfOpened else b.phase
            case _ => b.phase
  {
  }

  /** What clears both counters: a change of phase, a success on the closed path, and a cleanup of a Closed breaker.
      Otherwise a failure on the closed path counts one, modulo 2^32, and the probe that is let through takes the
      attempt. */
  lemma CounterChanges(threshold: Counter, b: Breaker, e: Event)
    requires Inv(threshold, b) && Enabled(b, e)
    ensures var n := Step(threshold, b, e);
            if n.phase != b.phase || e == FinishClosed(true) || (b.phase == Closed && IsCleanup(b, e)) then
              n.failures == 0 && n.attempts == 0
            else
              && n.failures == (if e == FinishClosed(false) then (b.failures + 1) % 0x1_0000_0000 else b.failures)
              && n.attempts == (if e == Swap then 1 else b.attempts)
  {
  }

  /** How many dials are where: the state that was loaded decides the path, and only a free attempt lets a probe in. */
  lemma DialChanges(threshold: Counter, b: Breaker, e: Event)
    requires Enabled(b, e)
    ensures var n := Step(threshold, b, e);
            && n.loaded == b.loaded + (if e == Load && b.phase == HalfOpened then 1 else if e == Swap then -1 else 0)
            && n.closedDials == b.closedDials + (if e == Load && b.phase == Closed then 1
                                                 else if e.CancelClosed? || e.FinishClosed? then -1 else 0)
            && n.probes == b.probes + (if e == Swap && b.attempts == 0 then 1
                                       else if e.CancelProbe? || e.FinishProbe? then -1 else 0)
  {
  }

  /** The timer a phase has. */
  function TimerOf(phase: Phase): Option<TimerKind> {
    match phase
    case Closed => Some(Cleanup)
    case HalfOpened => None
    case Opened => Some(WakeUp)
  }

  /** A switch stops the running timers of other phases, leaves the callbacks that are due and a running timer of the
      new phase alone, and starts one exactly if the new phase has none. */
  lemma SwitchTimers(threshold: Counter, b: Breaker, phase: Phase, id: nat)
    requires Inv(threshold, b)
    ensures var n, kind := SwitchState(b, phase), TimerOf(phase);
            var starts := kind.Some? && Ref(b, kind.value).None?;
            && (id in n.timers <==> (id in b.timers && (b.timers[id].due || kind == Some(b.timers[id].kind)))
                                    || (starts && id == b.nextTimer))
            && (id in n.timers && id in b.timers ==> n.timers[id] == b.timers[id])
            && (starts ==> n.timers[b.nextTimer] == Timer(kind.value, false) && Ref(n, kind.value) == Some(b.nextTimer))
            && (kind.Some? && !starts ==> Ref(n, kind.value) == Ref(b, kind.value))
  {
  }

  /** A probe that finishes outside HalfOpened changes nothing but its own end. */
  lemma StrayProbe(threshold: Counter, b: Breaker, ok: bool)
    requires b.probes > 0
    ensures Step(threshold, b, FinishProbe(ok)) == b.(probes := b.probes - 1) <==> b.phase != HalfOpened
  {
    assert SwitchState(b.(probes := b.probes - 1), if ok then Closed else Opened).phase != HalfOpened;
  }

  predicate IsCleanup(b: Breaker, e: Event) {
    e.Callback? && e.id in b.timers && b.timers[e.id].kind == Cleanup
  }

  /** From index j on, the breaker was Closed before every event, and no event was a success or a cleanup. */
  ghost predicate Quiet(threshold: Counter, b: Breaker, es: seq<Event>, j: nat)
    requires IsRun(threshold, b, es)
  {
    forall i :: j <= i < |es| ==>
      IsRun(threshold, b, es[..i])
      && After(threshold, b, es[..i]).phase == Closed
      && es[i] != FinishClosed(true)
      && !IsCleanup(After(threshold, b, es[..i]), es[i])
  }

  function Failures(es: seq<Event>): nat {
    if es == [] then 0
    else Failures(es[..|es| - 1]) + (if es[|es| - 1] == FinishClosed(false) then 1 else 0)
  }

  lemma {:induction false} RunSnoc(threshold: Counter, b: Breaker, es: seq<Event>, e: Event)
    ensures IsRun(threshold, b, es + [e]) <==>
            IsRun(threshold, b, es) && Enabled(After(threshold, b, es), e)
    ensures IsRun(threshold, b, es + [e]) ==>
            After(threshold, b, es + [e]) == Step(threshold, After(threshold, b, es), e)
    decreases |es|
  {
    if es == [] {
      assert es + [e] == [e];
      if Enabled(b, e) {
        assert IsRun(threshold, Step(threshold, b, e), [e][1..]);
        assert After(threshold, b, [e]) == After(threshold, Step(threshold, b, e), [e][1..]);
      }
    } else {
      assert (es + [e])[1..] == es[1..] + [e];
      assert (es + [e])[0] == es[0];
      if Enabled(b, es[0]) {
        RunSnoc(threshold, Step(threshold, b, es[0]), es[1..], e);
      }
    }
  }

  /** Within Closed, an event that is neither a success nor a cleanup counts exactly its failure. */
  lemma ClosedCounts(threshold: Counter, b: Breaker, e: Event)
    requires Inv(threshold, b) && Enabled(b, e) && b.phase == Closed
    requires Step(threshold, b, e).phase == Closed
    ensures e != FinishClosed(true) && !IsCleanup(b, e) ==>
      Step(threshold, b, e).failures == b.failures + (if e == FinishClosed(false) then 1 else 0)
    ensures e == FinishClosed(true) || IsCleanup(b, e) ==> Step(threshold, b, e).failures == 0
  {
  }

  lemma QuietExtend(threshold: Counter, b: Breaker, es: seq<Event>, e: Event, j: nat)
    requires j <= |es|
    requires IsRun(threshold, b, es) && IsRun(threshold, b, es + [e])
    requires Quiet(threshold, b, es, j)
    requires After(threshold, b, es).phase == Closed
    requires e != FinishClosed(true) && !IsCleanup(After(threshold, b, es), e)
    ensures Quiet(threshold, b, es + [e], j)
  {
    forall i | j <= i < |es| + 1
      ensures IsRun(threshold, b, (es + [e])[..i])
      ensures After(threshold, b, (es + [e])[..i]).phase == Closed
      ensures (es + [e])[i] != FinishClosed(true)
      ensures !IsCleanup(After(threshold, b, (es + [e])[..i]), (es + [e])[i])
    {
      if i < |es| {
        assert (es + [e])[..i] == es[..i];
      } else {
        assert (es + [e])[..i] == es;
      }
    }
  }

  /** The event ends whatever failures were counted before: the breaker was not Closed, or it is a success or a
      cleanup. */
  predicate Restarts(b: Breaker, e: Event) {
    b.phase != Closed || e == FinishClosed(true) || IsCleanup(b, e)
  }

  /** j is where the current streak begins: nothing restarts it from there on, and it is at the beginning of the run
      or right behind a restart. */
  ghost predicate StreakStart(threshold: Counter, b: Breaker, es: seq<Event>, j: nat)
    requires IsRun(threshold, b, es)
  {
    && j <= |es|
    && Quiet(threshold, b, es, j)
    && (j > 0 ==> IsRun(threshold, b, es[..j - 1]) && Restarts(After(threshold, b, es[..j - 1]), es[j - 1]))
  }

  /** A streak begins in one place only. */
  lemma StreakStartUnique(threshold: Counter, b: Breaker, es: seq<Event>, j: nat, k: nat)
    requires IsRun(threshold, b, es) && StreakStart(threshold, b, es, j) && StreakStart(threshold, b, es, k)
    ensures j == k
  {
  }

  lemma StreakExtend(threshold: Counter, b: Breaker, es: seq<Event>, e: Event, j: nat)
    requires IsRun(threshold, b, es) && IsRun(threshold, b, es + [e]) && StreakStart(threshold, b, es, j)
    requires !Restarts(After(threshold, b, es), e)
    ensures StreakStart(threshold, b, es + [e], j)
  {
    QuietExtend(threshold, b, es, e, j);
    if j > 0 {
      assert (es + [e])[..j - 1] == es[..j - 1];
    }
  }

  /** Where the streak of a Closed breaker begins, and that its failure counter is the number of failures since. */
  lemma {:induction false} FindStreak(threshold: Counter, es: seq<Event>) returns (j: nat)
    requires IsRun(threshold, Init(), es) && After(threshold, Init(), es).phase == Closed
    ensures StreakStart(threshold, Init(), es, j)
    ensures Failures(es[j..]) == After(threshold, Init(), es).failures
    decreases |es|
  {
    if es == [] {
      return 0;
    }
    var front, e := es[..|es| - 1], es[|es| - 1];
    assert es == front + [e];
    RunSnoc(threshold, Init(), front, e);
    EveryRunKeepsInv(threshold, front);
    var b := After(threshold, Init(), front);
    if Restarts(b, e) {
      j := |es|;
      assert es[j..] == [];
      if b.phase == Closed {
        ClosedCounts(threshold, b, e);
      } else {
        PhaseChanges(threshold, b, e);
      }
    } else {
      j := FindStreak(threshold, front);
      StreakExtend(threshold, Init(), front, e, j);
      ClosedCounts(threshold, b, e);
      StreakSnoc(es, front, e, j);
    }
  }

  /** The failure counter of a Closed breaker is the number of failures since the last success, cleanup or other
      phase. */
  lemma FailureStreak(threshold: Counter, es: seq<Event>, j: nat)
    requires IsRun(threshold, Init(), es) && After(threshold, Init(), es).phase == Closed
    requires StreakStart(threshold, Init(), es, j)
    ensures After(threshold, Init(), es).failures == Failures(es[j..])
  {
    var k := FindStreak(threshold, es);
    StreakStartUnique(threshold, Init(), es, j, k);
  }

  lemma StreakSnoc(es: seq<Event>, front: seq<Event>, e: Event, j: nat)
    requires es == front + [e] && j <= |front|
    ensures Failures(es[j..]) == Failures(front[j..]) + (if e == FinishClosed(false) then 1 else 0)
  {
    var tail := es[j..];
    assert tail[..|tail| - 1] == front[j..];
    assert tail[|tail| - 1] == e;
  }

  /** A Closed breaker opens exactly on the failure that completes Limit(threshold) recorded failures since the last
      success, cleanup or other phase. */
  lemma OpensExactlyAtThreshold(threshold: Counter, es: seq<Event>, e: Event, j: nat)
    requires IsRun(threshold, Init(), es) && IsRun(threshold, Init(), es + [e])
    requires After(threshold, Init(), es).phase == Closed && StreakStart(threshold, Init(), es, j)
    ensures After(threshold, Init(), es + [e]).phase == Opened <==>
            e == FinishClosed(false) && Failures((es + [e])[j..]) == Limit(threshold)
    ensures e != FinishClosed(true) && !IsCleanup(After(threshold, Init(), es), e) ==>
            StreakStart(threshold, Init(), es + [e], j)
  {
    RunSnoc(threshold, Init(), es, e);
    EveryRunKeepsInv(threshold, es);
    var b := After(threshold, Init(), es);
    PhaseChanges(threshold, b, e);
    FailureStreak(threshold, es, j);
    StreakSnoc(es + [e], es, e, j);
    if e == FinishClosed(false) && b.failures + 1 == Limit(threshold) {
      FailureOpens(threshold, b, e);
    }
    if !Restarts(b, e) {
      StreakExtend(threshold, Init(), es, e, j);
    }
  }

  lemma FailureOpens(threshold: Counter, b: Breaker, e: Event)
    requires Inv(threshold, b) && Enabled(b, e) && b.phase == Closed
    requires e == FinishClosed(false) && b.failures + 1 == Limit(threshold)
    ensures Step(threshold, b, e).phase == Opened
  {
  }

  /** So it opens only after Limit(threshold) failures between which there was no success, no cleanup and no other
      phase. */
  lemma OpensOnlyAfterThreshold(threshold: Counter, es: seq<Event>, e: Event) returns (j: nat)
    requires IsRun(threshold, Init(), es) && IsRun(threshold, Init(), es + [e])
    requires After(threshold, Init(), es).phase == Closed
    requires After(threshold, Init(), es + [e]).phase == Opened
    ensures e == FinishClosed(false)
    ensures StreakStart(threshold, Init(), es + [e], j)
    ensures Failures((es + [e])[j..]) == Limit(threshold)
  {
    j := FindStreak(threshold, es);
    OpensExactlyAtThreshold(threshold, es, e, j);
  }

  // ---------------------------------------------------------------- leaving HalfOpened

  /** Probes that win the compare-and-swap during a run. */
  function Admitted(threshold: Counter, b: Breaker, es: seq<Event>): nat
    requires IsRun(threshold, b, es)
    decreases |es|
  {
    if es == [] then 0
    else (if es[0] == Swap && b.attempts == 0 then 1 else 0) + Admitted(threshold, Step(threshold, b, es[0]), es[1..])
  }

  /** The breaker is HalfOpened before and after every event of the run. */
  predicate StaysHalfOpened(threshold: Counter, b: Breaker, es: seq<Event>)
    requires IsRun(threshold, b, es)
    decreases |es|
  {
    b.phase == HalfOpened && (es == [] || StaysHalfOpened(threshold, Step(threshold, b, es[0]), es[1..]))
  }

  /** One half-open period admits at most one probe, however many dials race for it. */
  lemma {:induction false} OneProbePerPeriod(threshold: Counter, b: Breaker, es: seq<Event>)
    requires Inv(threshold, b) && IsRun(threshold, b, es) && StaysHalfOpened(threshold, b, es)
    ensures b.attempts + Admitted(threshold, b, es) == After(threshold, b, es).attempts <= 1
    decreases |es|
  {
    if es != [] {
      StepKeepsInv(threshold, b, es[0]);
      OneProbePerPeriod(threshold, Step(threshold, b, es[0]), es[1..]);
    }
  }

  /** A half-open breaker can still move: the probe is free, or some dial that passed its gate is in flight. */
  predicate CanMove(b: Breaker) {
    b.attempts == 0 || b.probes > 0 || b.closedDials > 0
  }

  /** Once the probe is taken and no dial is in flight, nothing ever changes the phase again: every later
      dial is refused. */
  lemma {:induction false} WedgedForever(threshold: Counter, b: Breaker, es: seq<Event>)
    requires Inv(threshold, b) && b.phase == HalfOpened && !CanMove(b)
    requires IsRun(threshold, b, es)
    ensures After(threshold, b, es).phase == HalfOpened && !CanMove(After(threshold, b, es))
    ensures Admitted(threshold, b, es) == 0
    decreases |es|
  {
    if es != [] {
      StepKeepsInv(threshold, b, es[0]);
      WedgedForever(threshold, Step(threshold, b, es[0]), es[1..]);
    }
  }

  lemma TwoSteps(threshold: Counter, b: Breaker, e: Event, f: Event)
    requires Enabled(b, e) && Enabled(Step(threshold, b, e), f)
    ensures IsRun(threshold, b, [e, f])
    ensures After(threshold, b, [e, f]) == Step(threshold, Step(threshold, b, e), f)
  {
    RunSnoc(threshold, b, [], e);
    assert [] + [e] == [e];
    RunSnoc(threshold, b, [e], f);
    assert [e] + [f] == [e, f];
  }

  lemma OneStep(threshold: Counter, b: Breaker, e: Event)
    requires Enabled(b, e)
    ensures IsRun(threshold, b, [e]) && After(threshold, b, [e]) == Step(threshold, b, e)
  {
    RunSnoc(threshold, b, [], e);
    assert [] + [e] == [e];
  }

  /** Otherwise a successful dial closes it. */
  lemma CanLeave(threshold: Counter, b: Breaker) returns (es: seq<Event>)
    requires b.phase == HalfOpened && CanMove(b)
    ensures IsRun(threshold, b, es) && After(threshold, b, es).phase == Closed
  {
    if b.probes > 0 {
      es := [FinishProbe(true)];
      OneStep(threshold, b, FinishProbe(true));
    } else if b.closedDials > 0 {
      es := [FinishClosed(true)];
      OneStep(threshold, b, FinishClosed(true));
    } else {
      TwoSteps(threshold, b, Load, Swap);
      var probing := After(threshold, b, [Load, Swap]);
      es := [Load, Swap] + [FinishProbe(true)];
      RunSnoc(threshold, b, [Load, Swap], FinishProbe(true));
      assert Enabled(probing, FinishProbe(true));
    }
  }

  /** Exactly when HalfOpened can be left. */
  lemma LeavesHalfOpenedIff(threshold: Counter, b: Breaker)
    requires Inv(threshold, b) && b.phase == HalfOpened
    ensures (exists es :: IsRun(threshold, b, es) && After(threshold, b, es).phase != HalfOpened) <==> CanMove(b)
  {
    if CanMove(b) {
      var es := CanLeave(threshold, b);
      assert IsRun(threshold, b, es);
    } else {
      forall es | IsRun(threshold, b, es)
        ensures After(threshold, b, es).phase == HalfOpened
      {
        WedgedForever(threshold, b, es);
      }
    }
  }

  /** The stuck state is reached: one failure opens, the wake-up fires, and the only probe is cancelled. */
  lemma CancelledProbeWedges() returns (es: seq<Event>)
    ensures IsRun(1, Init(), es)
    ensures After(1, Init(), es).phase == HalfOpened && !CanMove(After(1, Init(), es))
  {
    var b0 := Init();
    var b1 := Step(1, b0, Load);
    var b2 := Step(1, b1, FinishClosed(false));
    var b3 := Step(1, b2, Expire(1));
    var b4 := Step(1, b3, Callback(1));
    var b5 := Step(1, b4, Load);
    var b6 := Step(1, b5, Swap);
    var b7 := Step(1, b6, CancelProbe);
    es := [Load];
    OneStep(1, b0, Load);
    RunSnoc(1, b0, es, FinishClosed(false));
    es := es + [FinishClosed(false)];
    RunSnoc(1, b0, es, Expire(1));
    es := es + [Expire(1)];
    RunSnoc(1, b0, es, Callback(1));
    es := es + [Callback(1)];
    RunSnoc(1, b0, es, Load);
    es := es + [Load];
    RunSnoc(1, b0, es, Swap);
    es := es + [Swap];
    RunSnoc(1, b0, es, CancelProbe);
    es := es + [CancelProbe];
    assert After(1, b0, es) == b7;
  }

  // ---------------------------------------------------------------- the dialer object

  datatype Gate = OnClosedPath | OnHalfOpenPath | Refused

  /** circuitBreakerDialer; `timers` and `nextTimer` stand for the runtime's timer heap, the ghost fields for
      the dials in flight. Every method is one atomic step. */
  class Dialer {
    const openThreshold: Counter
    var state: Phase
    var halfOpenAttempts: Counter
    var failuresCount: Counter
    var halfOpenTimer: Option<nat>
    var failuresCleanupTimer: Option<nat>
    var timers: map<nat, Timer>
    var nextTimer: nat
    ghost var loaded: nat
    ghost var closedDials: nat
    ghost var probes: nat

    ghost function View(): Breaker
      reads this
    {
      Breaker(state, halfOpenAttempts, failuresCount, halfOpenTimer, failuresCleanupTimer, timers, nextTimer,
              loaded, closedDials, probes)
    }

    constructor (openThreshold: Counter)
      ensures View() == Init() && this.openThreshold == openThreshold
      ensures Inv(openThreshold, View())
    {
      this.openThreshold := openThreshold;
      state, halfOpenAttempts, failuresCount := Closed, 0, 0;
      halfOpenTimer, failuresCleanupTimer := None, None;
      timers, nextTimer := map[], 0;
      loaded, closedDials, probes := 0, 0, 0;
      new;
      DoSwitchState(Closed);
      InitInv(openThreshold);
    }

    method DoStopTimer(kind: TimerKind)
      modifies this
      ensures View() == StopTimer(old(View()), kind)
    {
      var timer := if kind == WakeUp then halfOpenTimer else failuresCleanupTimer;
      if timer == None {
        return;
      }
      if timer.value in timers && !timers[timer.value].due {
        timers := timers - {timer.value};
      }
      if kind == WakeUp {
        halfOpenTimer := None;
      } else {
        failuresCleanupTimer := None;
      }
    }

    method DoEnsureTimer(kind: TimerKind)
      modifies this
      ensures View() == EnsureTimer(old(View()), kind)
    {
      var timer := if kind == WakeUp then halfOpenTimer else failuresCleanupTimer;
      if timer == None {
        timers := timers[nextTimer := Timer(kind, false)];
        if kind == WakeUp {
          halfOpenTimer := Some(nextTimer);
        } else {
          failuresCleanupTimer := Some(nextTimer);
        }
        nextTimer := nextTimer + 1;
      }
    }

    method DoSwitchState(phase: Phase)
      modifies this
      ensures View() == SwitchState(old(View()), phase)
    {
      match phase {
        case Closed =>
          DoStopTimer(WakeUp);
          DoEnsureTimer(Cleanup);
        case HalfOpened =>
          DoStopTimer(Cleanup);
          DoStopTimer(WakeUp);
        case Opened =>
          DoStopTimer(Cleanup);
          DoEnsureTimer(WakeUp);
      }
      failuresCount := 0;
      halfOpenAttempts := 0;
      state := phase;
    }

    /** The state load at the start of DialContext. */
    method BeginDial() returns (gate: Gate)
      requires Inv(openThreshold, View())
      modifies this
      ensures View() == Step(openThreshold, old(View()), Load)
      ensures gate == match old(state) case Closed => OnClosedPath case HalfOpened => OnHalfOpenPath case Opened => Refused
      ensures Inv(openThreshold, View())
    {
      StepKeepsInv(openThreshold, View(), Load);
      match state
      case Closed =>
        gate, closedDials := OnClosedPath, closedDials + 1;
      case HalfOpened =>
        gate, loaded := OnHalfOpenPath, loaded + 1;
      case Opened =>
        gate := Refused;
    }

    /** The compare-and-swap at the start of doHalfOpened. */
    method TakeProbe() returns (won: bool)
      requires Inv(openThreshold, View()) && loaded > 0
      modifies this
      ensures View() == Step(openThreshold, old(View()), Swap)
      ensures won <==> old(halfOpenAttempts) == 0
      ensures Inv(openThreshold, View())
    {
      StepKeepsInv(openThreshold, View(), Swap);
      loaded := loaded - 1;
      won := halfOpenAttempts == 0;
      if won {
        halfOpenAttempts := 1;
        probes := probes + 1;
      }
    }

    /** The mutex section of doClosed. */
    method EndClosedDial(ok: bool)
      requires Inv(openThreshold, View()) && closedDials > 0
      modifies this
      ensures View() == Step(openThreshold, old(View()), FinishClosed(ok))
      ensures Inv(openThreshold, View())
    {
      StepKeepsInv(openThreshold, View(), FinishClosed(ok));
      closedDials := closedDials - 1;
      if ok {
        DoSwitchState(Closed);
        return;
      }
      failuresCount := (failuresCount + 1) % 0x1_0000_0000;
      if state == Closed && failuresCount >= openThreshold {
        DoSwitchState(Opened);
      }
    }

    /** The mutex section of doHalfOpened. */
    method EndProbe(ok: bool)
      requires Inv(openThreshold, View()) && probes > 0
      modifies this
      ensures View() == Step(openThreshold, old(View()), FinishProbe(ok))
      ensures Inv(openThreshold, View())
    {
      StepKeepsInv(openThreshold, View(), FinishProbe(ok));
      probes := probes - 1;
      if state != HalfOpened {
        return;
      }
      if ok {
        DoSwitchState(Closed);
      } else {
        DoSwitchState(Opened);
      }
    }

    /** The return of doClosed when the context ends before the mutex is taken: the dial is not recorded. */
    method CancelClosedDial()
      requires Inv(openThreshold, View()) && closedDials > 0
      modifies this
      ensures View() == Step(openThreshold, old(View()), CancelClosed)
      ensures Inv(openThreshold, View())
    {
      StepKeepsInv(openThreshold, View(), CancelClosed);
      closedDials := closedDials - 1;
    }

    /** The return of doHalfOpened when the context ends before the mutex is taken: the attempt stays taken. When no
        other dial is in flight, that leaves the breaker stuck. */
    method CancelProbeDial()
      requires Inv(openThreshold, View()) && probes > 0
      modifies this
      ensures View() == Step(openThreshold, old(View()), CancelProbe)
      ensures Inv(openThreshold, View()) && halfOpenAttempts == old(halfOpenAttempts)
      ensures state == HalfOpened && halfOpenAttempts == 1 && probes == 0 && closedDials == 0 ==> !CanMove(View())
    {
      StepKeepsInv(openThreshold, View(), CancelProbe);
      probes := probes - 1;
    }

    /** The callback of a timer that has fired: resetFailures or tryHalfOpen. */
    method RunCallback(id: nat)
      requires Inv(openThreshold, View())
      requires id in timers && timers[id].due
      modifies this
      ensures View() == Step(openThreshold, old(View()), Callback(id))
      ensures Inv(openThreshold, View())
    {
      StepKeepsInv(openThreshold, View(), Callback(id));
      var kind := timers[id].kind;
      timers := timers - {id};
      if kind == Cleanup {
        DoStopTimer(Cleanup);
        if state == Closed {
          DoSwitchState(Closed);
        }
      } else if state == Opened {
        DoSwitchState(HalfOpened);
      }
    }
  }
}
