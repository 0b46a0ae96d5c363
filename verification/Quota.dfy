/** rolloverIfNeeded of mtglib/proxy_stats.go under concurrency: every atomic load, compare-and-swap and store is
    a step of its own, interleaved with the bytes that relays keep counting. The calendar is a parameter. */
module Quota {
  import opened SecretSets

  type Calendar = int -> int

  /** secretStats; periodStart 0 means not started. */
  datatype UserStats = UserStats(connections: int, bytesIn: int, bytesOut: int, quotaUsed: int, periodStart: int)

  const NO_STATS := UserStats(0, 0, 0, 0, 0)

  /** A period that began in another month than the caller's. */
  predicate Due(month: Calendar, start: int, now: int) {
    start != 0 && month(start) != month(now)
  }

  /** One undisturbed call. */
  function Rolled(st: UserStats, reset: QuotaReset, now: int, month: Calendar): UserStats {
    if reset != ResetMonthly then st
    else if st.periodStart == 0 then st.(periodStart := now)
    else if Due(month, st.periodStart, now) then st.(periodStart := now, quotaUsed := 0)
    else st
  }

  // ---------------------------------------------------------------- the interleaved machine

  type Caller = nat

  datatype Pc = Ready | Loaded(start: int) | Won | Finished

  datatype State = State(periodStart: int, quotaUsed: int, pcs: map<Caller, Pc>)

  datatype Event = Load(c: Caller) | Cas(c: Caller) | Store(c: Caller) | Count(n: int)

  /** What the callers pass in: a policy and a clock reading each. */
  datatype Env = Env(month: Calendar, resets: map<Caller, QuotaReset>, clocks: map<Caller, int>)

  predicate WellFormed(env: Env, s: State) {
    env.resets.Keys == env.clocks.Keys == s.pcs.Keys
  }

  predicate Enabled(env: Env, s: State, e: Event) {
    && WellFormed(env, s)
    && match e
       case Load(c) => c in s.pcs && s.pcs[c] == Ready
       case Cas(c) => c in s.pcs && s.pcs[c].Loaded?
       case Store(c) => c in s.pcs && s.pcs[c] == Won
       case Count(_) => true
  }

  function Step(env: Env, s: State, e: Event): State
    requires Enabled(env, s, e)
  {
    match e
    case Load(c) =>
      s.(pcs := s.pcs[c := if env.resets[c] != ResetMonthly then Finished else Loaded(s.periodStart)])
    case Cas(c) =>
      var start, now := s.pcs[c].start, env.clocks[c];
      if start == 0 then
        s.(periodStart := if s.periodStart == 0 then now else s.periodStart, pcs := s.pcs[c := Finished])
      else if env.month(now) != env.month(start) && s.periodStart == start then
        s.(periodStart := now, pcs := s.pcs[c := Won])
      else
        s.(pcs := s.pcs[c := Finished])
    case Store(c) => s.(quotaUsed := 0, pcs := s.pcs[c := Finished])
    case Count(n) => s.(quotaUsed := s.quotaUsed + n)
  }

  predicate Runs(env: Env, s: State, run: seq<Event>, t: State)
    decreases |run|
  {
    if run == [] then s == t
    else Enabled(env, s, run[0]) && Runs(env, Step(env, s, run[0]), run[1..], t)
  }

  predicate Start(env: Env, s: State) {
    WellFormed(env, s) && forall c :: c in s.pcs ==> s.pcs[c] == Ready
  }

  function Stores(run: seq<Event>): nat {
    if run == [] then 0 else (if run[0].Store? then 1 else 0) + Stores(run[1..])
  }

  function Counted(run: seq<Event>): int {
    if run == [] then 0 else (if run[0].Count? then run[0].n else 0) + Counted(run[1..])
  }

  predicate NoWinner(s: State) {
    forall c :: c in s.pcs ==> s.pcs[c] != Won
  }

  predicate Winner(s: State, w: Caller) {
    w in s.pcs && s.pcs[w] == Won && forall c :: c in s.pcs && s.pcs[c] == Won ==> c == w
  }

  predicate AllFinished(s: State) {
    forall c :: c in s.pcs ==> s.pcs[c] == Finished
  }

  // ---------------------------------------------------------------- when callers leave a period alone

  function MonthOf(env: Env, c: Caller): int
    requires c in env.clocks
  {
    env.month(env.clocks[c])
  }

  function Monthly(env: Env): set<Caller> {
    set c | c in env.resets && env.resets[c] == ResetMonthly
  }

  /** No way to reset: every caller is of the month in which the period started; or it has not started, and
      whichever of them starts it (the instant 0 starts nothing), the others are of that caller's month. */
  predicate Calm(env: Env, callers: set<Caller>, start: int)
    requires callers <= env.clocks.Keys
  {
    if start == 0 then
      forall c, d :: c in callers && d in callers && c != d ==> env.clocks[c] == 0 || MonthOf(env, c) == MonthOf(env, d)
    else
      forall c :: c in callers ==> MonthOf(env, c) == env.month(start)
  }

  /** Whoever rolls the period over leaves it to the others in a month of their own. */
  predicate CalmAfter(env: Env, start: int)
    requires env.resets.Keys == env.clocks.Keys
  {
    forall c :: c in Monthly(env) && Due(env.month, start, env.clocks[c]) ==>
      Calm(env, Monthly(env) - {c}, env.clocks[c])
  }

  /** In terms of two callers, as no clock reads 0: no due caller meets one of another month. */
  lemma CalmAfterPairs(env: Env, start: int)
    requires env.resets.Keys == env.clocks.Keys
    requires forall c :: c in Monthly(env) ==> env.clocks[c] != 0
    ensures CalmAfter(env, start) <==>
            !exists c, d :: c in Monthly(env) && d in Monthly(env) && c != d
                            && Due(env.month, start, env.clocks[c]) && MonthOf(env, c) != MonthOf(env, d)
  {
  }

  /** Monthly callers of one month are calm about a period that has not started, and after every rollover. */
  lemma SharedMonth(env: Env, start: int)
    requires env.resets.Keys == env.clocks.Keys
    requires forall c, d :: c in Monthly(env) && d in Monthly(env) ==> MonthOf(env, c) == MonthOf(env, d)
    ensures Calm(env, Monthly(env), 0) && CalmAfter(env, start)
  {
  }

  /** Callers that have not got past their compare-and-swap. */
  function Active(env: Env, s: State): set<Caller>
    requires WellFormed(env, s)
  {
    set c | c in s.pcs && env.resets[c] == ResetMonthly && (s.pcs[c] == Ready || s.pcs[c].Loaded?)
  }

  predicate Sane(env: Env, s: State) {
    WellFormed(env, s) && forall c :: c in s.pcs && (s.pcs[c].Loaded? || s.pcs[c] == Won) ==> env.resets[c] == ResetMonthly
  }

  /** Nobody who is still on the way can win. */
  predicate Settled(env: Env, s: State) {
    Sane(env, s) && Calm(env, Active(env, s), s.periodStart)
  }

  lemma SettledStep(env: Env, s: State, e: Event)
    requires Settled(env, s) && Enabled(env, s, e)
    ensures Settled(env, Step(env, s, e))
    ensures NoWinner(s) ==> !e.Store? && NoWinner(Step(env, s, e))
    ensures forall w :: Winner(s, w) ==>
      if e.Store? then e.c == w && NoWinner(Step(env, s, e)) else Winner(Step(env, s, e), w)
  {
    var n := Step(env, s, e);
    assert Active(env, n) <= Active(env, s);
    if e.Cas? {
      assert e.c in Active(env, s) && e.c !in Active(env, n);
    }
  }

  lemma {:induction false} SettledNeverStores(env: Env, s: State, run: seq<Event>, t: State)
    requires Settled(env, s) && NoWinner(s) && Runs(env, s, run, t)
    ensures Stores(run) == 0 && t.quotaUsed == s.quotaUsed + Counted(run)
    decreases |run|
  {
    if run != [] {
      SettledStep(env, s, run[0]);
      SettledNeverStores(env, Step(env, s, run[0]), run[1..], t);
    }
  }

  /** The run has one store, and what counts at its end is what was relayed after that store. */
  ghost predicate ResetOnce(run: seq<Event>, used: int) {
    && Stores(run) == 1
    && exists i :: 0 <= i < |run| && run[i].Store? && used == Counted(run[i + 1..])
  }

  lemma ResetOnceLater(run: seq<Event>, used: int)
    requires run != [] && !run[0].Store? && ResetOnce(run[1..], used)
    ensures ResetOnce(run, used)
  {
    var rest := run[1..];
    var i :| 0 <= i < |rest| && rest[i].Store? && used == Counted(rest[i + 1..]);
    assert run[i + 1] == rest[i] && run[i + 2..] == rest[i + 1..];
  }

  lemma {:induction false} WinnerStoresOnce(env: Env, s: State, run: seq<Event>, t: State, w: Caller)
    requires Settled(env, s) && Winner(s, w) && Runs(env, s, run, t)
    ensures Stores(run) <= 1
    ensures NoWinner(t) ==> ResetOnce(run, t.quotaUsed)
    decreases |run|
  {
    if run != [] {
      SettledStep(env, s, run[0]);
      var n := Step(env, s, run[0]);
      if run[0].Store? {
        SettledNeverStores(env, n, run[1..], t);
        assert run[0].Store? && t.quotaUsed == Counted(run[0 + 1..]);
      } else {
        WinnerStoresOnce(env, n, run[1..], t, w);
        if NoWinner(t) {
          ResetOnceLater(run, t.quotaUsed);
        }
      }
    }
  }

  // ---------------------------------------------------------------- a period that is due

  /** Before the first successful compare-and-swap. */
  predicate Waiting(env: Env, s: State, past: int) {
    && Sane(env, s)
    && past != 0 && s.periodStart == past
    && forall c :: c in s.pcs ==>
      && s.pcs[c] != Won
      && (s.pcs[c].Loaded? ==> s.pcs[c].start == past)
      && (s.pcs[c] == Finished && env.resets[c] == ResetMonthly ==> !Due(env.month, past, env.clocks[c]))
  }

  lemma CalmFewer(env: Env, more: set<Caller>, fewer: set<Caller>, start: int)
    requires fewer <= more <= env.clocks.Keys && Calm(env, more, start)
    ensures Calm(env, fewer, start)
  {
  }

  lemma WaitingStep(env: Env, s: State, e: Event, past: int)
    requires Waiting(env, s, past) && Enabled(env, s, e) && CalmAfter(env, past)
    ensures !e.Store?
    ensures var n := Step(env, s, e);
            if e.Cas? && Due(env.month, past, env.clocks[e.c]) then Settled(env, n) && Winner(n, e.c)
            else Waiting(env, n, past)
  {
    if e.Cas? && Due(env.month, past, env.clocks[e.c]) {
      var n := Step(env, s, e);
      assert e.c in Monthly(env);
      assert Active(env, n) <= Monthly(env) - {e.c};
      CalmFewer(env, Monthly(env) - {e.c}, Active(env, n), env.clocks[e.c]);
    }
  }

  lemma {:induction false} WaitingStoresOnce(env: Env, s: State, run: seq<Event>, t: State, past: int)
    requires Waiting(env, s, past) && CalmAfter(env, past) && Runs(env, s, run, t)
    ensures Stores(run) <= 1
    ensures AllFinished(t) && !Calm(env, Monthly(env), past) ==> ResetOnce(run, t.quotaUsed)
    decreases |run|
  {
    if run != [] {
      WaitingStep(env, s, run[0], past);
      var n := Step(env, s, run[0]);
      if run[0].Cas? && Due(env.month, past, env.clocks[run[0].c]) {
        WinnerStoresOnce(env, n, run[1..], t, run[0].c);
      } else {
        WaitingStoresOnce(env, n, run[1..], t, past);
      }
      if AllFinished(t) && !Calm(env, Monthly(env), past) {
        ResetOnceLater(run, t.quotaUsed);
      }
    }
  }

  // ---------------------------------------------------------------- when exactly

  /** Any number of callers in any interleaving that lets all of them finish, with no byte lost in between. */
  lemma ExactlyOnce(env: Env, s: State, run: seq<Event>, t: State)
    requires Start(env, s) && Runs(env, s, run, t)
    ensures Calm(env, Monthly(env), s.periodStart) ==> Stores(run) == 0 && t.quotaUsed == s.quotaUsed + Counted(run)
    ensures s.periodStart != 0 && CalmAfter(env, s.periodStart) ==> Stores(run) <= 1
    ensures s.periodStart != 0 && CalmAfter(env, s.periodStart) && AllFinished(t) ==>
            Calm(env, Monthly(env), s.periodStart) || ResetOnce(run, t.quotaUsed)
  {
    assert Active(env, s) == Monthly(env);
    if Calm(env, Monthly(env), s.periodStart) {
      SettledNeverStores(env, s, run, t);
    }
    if s.periodStart != 0 && CalmAfter(env, s.periodStart) {
      WaitingStoresOnce(env, s, run, t, s.periodStart);
    }
  }

  /** No run from here on resets the counter more than n times. */
  ghost predicate AlwaysAtMost(env: Env, s: State, n: nat) {
    forall run, t :: Runs(env, s, run, t) ==> Stores(run) <= n
  }

  /** A period is never reset, in whatever interleaving, if and only if the callers are calm about it. */
  lemma NeverResetIff(env: Env, s: State)
    requires Start(env, s)
    ensures AlwaysAtMost(env, s, 0) <==> Calm(env, Monthly(env), s.periodStart)
  {
    if Calm(env, Monthly(env), s.periodStart) {
      forall run, t | Runs(env, s, run, t)
        ensures Stores(run) <= 0
      {
        ExactlyOnce(env, s, run, t);
      }
    } else {
      assert Active(env, s) == Monthly(env);
      var run, t := UncalmResets(env, s);
      assert Runs(env, s, run, t) && Stores(run) > 0;
    }
  }

  /** A started period is reset at most once if and only if whoever resets it leaves the others calm. */
  lemma AtMostOnceIff(env: Env, s: State)
    requires Start(env, s) && s.periodStart != 0
    ensures AlwaysAtMost(env, s, 1) <==> CalmAfter(env, s.periodStart)
  {
    if CalmAfter(env, s.periodStart) {
      forall run, t | Runs(env, s, run, t)
        ensures Stores(run) <= 1
      {
        ExactlyOnce(env, s, run, t);
      }
    } else {
      var run, t := ResetsTwice(env, s);
      assert Runs(env, s, run, t) && Stores(run) > 1;
    }
  }

  /** And exactly once, by all callers together, if and only if in addition somebody finds it due. */
  lemma ExactlyOnceIff(env: Env, s: State)
    requires Start(env, s) && s.periodStart != 0
    ensures (forall run, t :: Runs(env, s, run, t) && AllFinished(t) ==> Stores(run) == 1) <==>
            CalmAfter(env, s.periodStart) && exists c :: c in Monthly(env) && Due(env.month, s.periodStart, env.clocks[c])
  {
    NotCalmIsDue(env, s.periodStart);
    if CalmAfter(env, s.periodStart) && !Calm(env, Monthly(env), s.periodStart) {
      forall run, t | Runs(env, s, run, t) && AllFinished(t)
        ensures Stores(run) == 1
      {
        ExactlyOnce(env, s, run, t);
      }
    } else {
      var run, t := NotExactlyOnce(env, s);
      assert Runs(env, s, run, t) && AllFinished(t) && Stores(run) != 1;
    }
  }

  lemma NotCalmIsDue(env: Env, start: int)
    requires env.resets.Keys == env.clocks.Keys && start != 0
    ensures !Calm(env, Monthly(env), start) <==> exists c :: c in Monthly(env) && Due(env.month, start, env.clocks[c])
  {
  }

  lemma NotExactlyOnce(env: Env, s: State) returns (run: seq<Event>, t: State)
    requires Start(env, s) && s.periodStart != 0
    requires !CalmAfter(env, s.periodStart) || Calm(env, Monthly(env), s.periodStart)
    ensures Runs(env, s, run, t) && AllFinished(t) && Stores(run) != 1
  {
    if CalmAfter(env, s.periodStart) {
      run, t := Finish(env, s);
      ExactlyOnce(env, s, run, t);
    } else {
      var first, mid := ResetsTwice(env, s);
      var rest;
      rest, t := Finish(env, mid);
      run := first + rest;
      RunsJoin(env, s, first, mid, rest, t);
    }
  }

  // ---------------------------------------------------------------- runs that reset

  /** No caller is in the middle of anything. */
  predicate Resting(env: Env, s: State) {
    WellFormed(env, s) && forall c :: c in s.pcs ==> s.pcs[c] == Ready || s.pcs[c] == Finished
  }

  function Solo(env: Env, s: State, c: Caller): (run: seq<Event>)
    requires WellFormed(env, s) && c in s.pcs
  {
    if env.resets[c] != ResetMonthly then [Load(c)]
    else if Due(env.month, s.periodStart, env.clocks[c]) then [Load(c), Cas(c), Store(c)]
    else [Load(c), Cas(c)]
  }

  /** A caller that nobody disturbs does what Rolled says. */
  lemma SoloIsRolled(env: Env, s: State, c: Caller, st: UserStats, t: State)
    requires WellFormed(env, s) && c in s.pcs && s.pcs[c] == Ready
    requires st.quotaUsed == s.quotaUsed && st.periodStart == s.periodStart
    requires var r := Rolled(st, env.resets[c], env.clocks[c], env.month);
             t == State(r.periodStart, r.quotaUsed, s.pcs[c := Finished])
    ensures Runs(env, s, Solo(env, s, c), t)
  {
    var run := Solo(env, s, c);
    var s1 := Step(env, s, Load(c));
    if |run| == 1 {
      assert t == s1;
    } else {
      var s2 := Step(env, s1, Cas(c));
      if |run| == 2 {
        assert t == s2;
      } else {
        assert t == Step(env, s2, Store(c));
      }
    }
    Chain(env, s, run, t);
  }

  lemma Chain(env: Env, s: State, run: seq<Event>, t: State)
    requires 1 <= |run| <= 3 && Enabled(env, s, run[0])
    requires var s1 := Step(env, s, run[0]);
             if |run| == 1 then t == s1
             else Enabled(env, s1, run[1]) &&
                  var s2 := Step(env, s1, run[1]);
                  if |run| == 2 then t == s2 else Enabled(env, s2, run[2]) && t == Step(env, s2, run[2])
    ensures Runs(env, s, run, t)
  {
    if |run| == 3 {
      var s2 := Step(env, Step(env, s, run[0]), run[1]);
      assert run[2..][1..] == [] && Runs(env, s2, run[2..], t);
      assert run[1..][1..] == run[2..];
    } else if |run| == 2 {
      assert run[1..][1..] == [];
    } else {
      assert run[1..] == [];
    }
  }

  /** One caller alone: a due period is stored once, any other not. */
  lemma SoloStores(env: Env, s: State, c: Caller)
    requires WellFormed(env, s) && c in s.pcs
    ensures Stores(Solo(env, s, c)) ==
            if env.resets[c] == ResetMonthly && Due(env.month, s.periodStart, env.clocks[c]) then 1 else 0
  {
    var run := Solo(env, s, c);
    if |run| == 3 {
      var last := run[2..];
      assert last[1..] == [] && Stores(last) == 1;
      assert run[1..][1..] == last && Stores(run[1..]) == 1;
    } else if |run| == 2 {
      assert run[1..][1..] == [] && Stores(run[1..]) == 0;
    } else {
      assert run[1..] == [];
    }
  }

  function AfterSolo(env: Env, s: State, c: Caller): State
    requires WellFormed(env, s) && c in s.pcs
  {
    var r := Rolled(UserStats(0, 0, 0, s.quotaUsed, s.periodStart), env.resets[c], env.clocks[c], env.month);
    State(r.periodStart, r.quotaUsed, s.pcs[c := Finished])
  }

  lemma GoSolo(env: Env, s: State, c: Caller)
    requires Resting(env, s) && c in s.pcs && s.pcs[c] == Ready
    ensures Runs(env, s, Solo(env, s, c), AfterSolo(env, s, c)) && Resting(env, AfterSolo(env, s, c))
  {
    SoloIsRolled(env, s, c, UserStats(0, 0, 0, s.quotaUsed, s.periodStart), AfterSolo(env, s, c));
  }

  /** Callers that are not calm reset: a caller of another month does, after one that starts the period if need be. */
  lemma UncalmResets(env: Env, s: State) returns (run: seq<Event>, t: State)
    requires Resting(env, s) && !Calm(env, Active(env, s), s.periodStart)
    ensures Runs(env, s, run, t) && Resting(env, t) && Stores(run) == 1
  {
    if s.periodStart == 0 {
      var c, d :| c in Active(env, s) && d in Active(env, s) && c != d && env.clocks[c] != 0
                  && MonthOf(env, c) != MonthOf(env, d);
      var mid := AfterSolo(env, s, c);
      GoSolo(env, s, c);
      SoloStores(env, s, c);
      t := AfterSolo(env, mid, d);
      GoSolo(env, mid, d);
      SoloStores(env, mid, d);
      run := Solo(env, s, c) + Solo(env, mid, d);
      RunsJoin(env, s, Solo(env, s, c), mid, Solo(env, mid, d), t);
    } else {
      var c :| c in Active(env, s) && MonthOf(env, c) != env.month(s.periodStart);
      run, t := Solo(env, s, c), AfterSolo(env, s, c);
      GoSolo(env, s, c);
      SoloStores(env, s, c);
    }
  }

  lemma ResetsTwice(env: Env, s: State) returns (run: seq<Event>, t: State)
    requires Start(env, s) && s.periodStart != 0 && !CalmAfter(env, s.periodStart)
    ensures Runs(env, s, run, t) && Resting(env, t) && Stores(run) == 2
  {
    var c :| c in Monthly(env) && Due(env.month, s.periodStart, env.clocks[c])
             && !Calm(env, Monthly(env) - {c}, env.clocks[c]);
    var mid := AfterSolo(env, s, c);
    GoSolo(env, s, c);
    SoloStores(env, s, c);
    assert Active(env, mid) == Monthly(env) - {c};
    var more;
    more, t := UncalmResets(env, mid);
    run := Solo(env, s, c) + more;
    RunsJoin(env, s, Solo(env, s, c), mid, more, t);
  }

  function ReadyOnes(s: State): set<Caller> {
    set c | c in s.pcs && s.pcs[c] == Ready
  }

  /** Every caller can be run to its end. */
  lemma {:induction false} Finish(env: Env, s: State) returns (run: seq<Event>, t: State)
    requires Resting(env, s)
    ensures Runs(env, s, run, t) && AllFinished(t)
    decreases ReadyOnes(s)
  {
    if c :| c in s.pcs && s.pcs[c] == Ready {
      var mid := AfterSolo(env, s, c);
      GoSolo(env, s, c);
      assert ReadyOnes(mid) == ReadyOnes(s) - {c};
      assert c in ReadyOnes(s);
      var rest;
      rest, t := Finish(env, mid);
      run := Solo(env, s, c) + rest;
      RunsJoin(env, s, Solo(env, s, c), mid, rest, t);
    } else {
      run, t := [], s;
    }
  }

  lemma {:induction false} RunsJoin(env: Env, s: State, a: seq<Event>, m: State, b: seq<Event>, t: State)
    requires Runs(env, s, a, m) && Runs(env, m, b, t)
    ensures Runs(env, s, a + b, t) && Stores(a + b) == Stores(a) + Stores(b)
    decreases |a|
  {
    if a == [] {
      assert a + b == b;
    } else {
      RunsJoin(env, Step(env, s, a[0]), a[1..], m, b, t);
      assert (a + b)[1..] == a[1..] + b;
    }
  }
}
