/** The multi-user state of mtglib/proxy.go and mtglib/proxy_api.go: snapshot swaps, the registry of live streams
    and the exact set of streams a swap closes. */
module LiveConns {
  import opened ByteCodec
  import opened SecretText
  import opened SecretSets
  import opened Quota

  /** streamContext after its handshake has matched a secret. */
  datatype Stream = Stream(id: nat, name: Bytes, key: SecretKey)

  /** The two readings of the clock inside checkLimits: for the expiry and for the quota period. */
  datatype Clock = Clock(now: int, later: int)

  // ---------------------------------------------------------------- who is closed by a swap

  /** Dropped, new, or under another key than before. */
  predicate Stale(before: map<Bytes, SecretKey>, after: map<Bytes, SecretKey>, name: Bytes) {
    !(name in before && name in after && before[name] == after[name])
  }

  function Keys(t: Table): map<Bytes, SecretKey> {
    map n | n in t.users :: t.users[n].secret.key
  }

  function AllLimits(t: Table): map<Bytes, Limits> {
    map n | n in t.users :: t.users[n].limits
  }

  predicate Banned(lim: Limits, now: int) {
    lim.disabled || (lim.expiresAt.Some? && now >= lim.expiresAt.value)
  }

  predicate BannedUser(limits: map<Bytes, Limits>, name: Bytes, clock: Bytes -> Clock) {
    name in limits && Banned(limits[name], clock(name).now)
  }

  /** The streams, of those registered, that a swap closes. */
  ghost function Doomed(live: set<Stream>, before: Table, after: Table, clock: Bytes -> Clock): set<Stream> {
    set s | s in live && (Stale(Keys(before), Keys(after), s.name) || BannedUser(AllLimits(after), s.name, clock))
  }

  /** The stream's key is the current key of its name. */
  predicate Matches(keys: map<Bytes, SecretKey>, s: Stream) {
    s.name in keys && keys[s.name] == s.key
  }

  datatype DenyReason = DenyNone | DenyDisabled | DenyExpired | DenyQuota

  function StatsOf(stats: map<Bytes, UserStats>, name: Bytes): UserStats {
    if name in stats then stats[name] else NO_STATS
  }

  /** Whether a check gets as far as the quota, whose period it may then roll over. */
  predicate MetersQuota(lim: Limits, now: int) {
    !Banned(lim, now) && lim.quotaBytes > 0
  }

  function Metered(st: UserStats, lim: Limits, clock: Clock, month: Calendar): UserStats {
    if MetersQuota(lim, clock.now) then Rolled(st, lim.quotaReset, clock.later, month) else st
  }

  predicate SameCounters(a: UserStats, b: UserStats) {
    a.connections == b.connections && a.bytesIn == b.bytesIn && a.bytesOut == b.bytesOut
  }

  /** The statistics after the limits of some users have been checked. */
  ghost function AfterChecks(stats: map<Bytes, UserStats>, names: set<Bytes>, limits: map<Bytes, Limits>,
                             clock: Bytes -> Clock, month: Calendar, n: Bytes): UserStats
  {
    if n in names && n in limits then Metered(StatsOf(stats, n), limits[n], clock(n), month)
    else StatsOf(stats, n)
  }

  // ---------------------------------------------------------------- the registry

  type Registry = map<Bytes, set<Stream>>

  /** Streams are filed under their own name and no name is kept for nobody. */
  predicate Filed(m: Registry) {
    forall n :: n in m ==> m[n] != {} && forall s :: s in m[n] ==> s.name == n
  }

  ghost function Under(m: Registry, names: set<Bytes>): set<Stream> {
    set n, s | n in names && n in m && s in m[n] :: s
  }

  ghost function AllOf(m: Registry): set<Stream> {
    Under(m, m.Keys)
  }

  lemma UnderIff(m: Registry, names: set<Bytes>, s: Stream)
    requires Filed(m)
    ensures s in Under(m, names) <==> s.name in names && s.name in m && s in m[s.name]
  {
  }

  lemma UnderMore(m: Registry, names: set<Bytes>, name: Bytes)
    requires name in m
    ensures Under(m, names + {name}) == Under(m, names) + m[name]
  {
  }

  lemma UnderOf(m: Registry, names: set<Bytes>)
    requires Filed(m)
    ensures Under(m, names) == set s | s in AllOf(m) && s.name in names
  {
    forall s
      ensures s in Under(m, names) <==> s in AllOf(m) && s.name in names
    {
      UnderIff(m, names, s);
      UnderIff(m, m.Keys, s);
    }
  }

  ghost function StaleNames(names: set<Bytes>, before: map<Bytes, SecretKey>, after: map<Bytes, SecretKey>): set<Bytes> {
    set n | n in names && Stale(before, after, n)
  }

  ghost function BannedNames(names: set<Bytes>, limits: map<Bytes, Limits>, clock: Bytes -> Clock): set<Bytes> {
    set n | n in names && BannedUser(limits, n, clock)
  }

  lemma AllStale(m: Registry, before: map<Bytes, SecretKey>, after: map<Bytes, SecretKey>)
    requires Filed(m)
    ensures Under(m, StaleNames(m.Keys, before, after)) == set s | s in AllOf(m) && Stale(before, after, s.name)
  {
    UnderOf(m, StaleNames(m.Keys, before, after));
  }

  lemma AllBanned(m: Registry, limits: map<Bytes, Limits>, clock: Bytes -> Clock)
    requires Filed(m)
    ensures Under(m, BannedNames(m.Keys, limits, clock)) == set s | s in AllOf(m) && BannedUser(limits, s.name, clock)
  {
    UnderOf(m, BannedNames(m.Keys, limits, clock));
  }

  /** A registry that differs only under the name of s, by s. */
  lemma OneChange(m: Registry, m': Registry, s: Stream)
    requires Filed(m) && Filed(m')
    requires forall n :: n != s.name ==> Lookup(m, n) == Lookup(m', n)
    requires Conns(m', s.name) == Conns(m, s.name) + {s} || Conns(m', s.name) == Conns(m, s.name) - {s}
    ensures s in Conns(m', s.name) ==> AllOf(m') == AllOf(m) + {s}
    ensures s !in Conns(m', s.name) ==> AllOf(m') == AllOf(m) - {s}
  {
    forall x
      ensures x in AllOf(m) <==> x in Conns(m, x.name)
      ensures x in AllOf(m') <==> x in Conns(m', x.name)
      ensures x != s ==> (x in Conns(m, x.name) <==> x in Conns(m', x.name))
    {
      UnderIff(m, m.Keys, x);
      UnderIff(m', m'.Keys, x);
      assert Lookup(m, x.name) == Lookup(m', x.name) || x.name == s.name;
    }
  }

  function Conns(m: Registry, name: Bytes): set<Stream> {
    if name in m then m[name] else {}
  }

  // ---------------------------------------------------------------- the proxy

  class Proxy {
    var secrets: SecretSet
    var liveConns: Registry
    var closed: set<Stream>
    var stats: map<Bytes, UserStats>
    ghost var table: Table

    ghost predicate Valid()
      reads this
    {
      Shows(secrets, table) && Good(table) && Filed(liveConns)
    }

    ghost function Live(): set<Stream>
      reads this
    {
      AllOf(liveConns)
    }

    constructor (set': SecretSet, names: map<Bytes, UserStats>, ghost t: Table)
      requires Shows(set', t) && Good(t)
      ensures Valid() && table == t && Live() == {} && closed == {} && stats == names
    {
      secrets, liveConns, closed, stats, table := set', map[], {}, names, t;
    }

    method RegisterConn(s: Stream)
      requires Valid()
      modifies this`liveConns
      ensures Valid() && Live() == old(Live()) + {s}
    {
      var conns := if s.name in liveConns then liveConns[s.name] else {};
      ghost var before := liveConns;
      liveConns := liveConns[s.name := conns + {s}];
      OneChange(before, liveConns, s);
    }

    method UnregisterConn(s: Stream)
      requires Valid()
      modifies this`liveConns
      ensures Valid() && Live() == old(Live()) - {s}
    {
      ghost var before := liveConns;
      if s.name in liveConns {
        var conns := liveConns[s.name] - {s};
        if conns == {} {
          liveConns := liveConns - {s.name};
        } else {
          liveConns := liveConns[s.name := conns];
        }
      }
      OneChange(before, liveConns, s);
    }

    /** closeStaleConns, over the registry in whatever order it is walked. */
    method CloseStaleConns(oldSet: SecretSet, newSet: SecretSet, ghost before: Table, ghost after: Table)
      requires Valid() && Shows(oldSet, before) && Shows(newSet, after)
      modifies this`closed
      ensures closed == old(closed) + set s | s in Live() && Stale(Keys(before), Keys(after), s.name)
    {
      var newKeys := KeysByName(newSet, after);
      var oldKeys := KeysByName(oldSet, before);
      var stale := CollectStale(liveConns, oldKeys, newKeys);
      AllStale(liveConns, Keys(before), Keys(after));
      closed := closed + stale;
    }

    /** The reasons in order: disabled; not before the expiry; at or over a quota, after the rollover of its period. */
    method CheckLimits(name: Bytes, lim: Limits, clock: Clock, month: Calendar) returns (allowed: bool, reason: DenyReason)
      modifies this`stats
      ensures stats.Keys >= old(stats.Keys)
      ensures allowed <==> reason == DenyNone
      ensures reason ==
        if lim.disabled then DenyDisabled
        else if lim.expiresAt != None && lim.expiresAt.value <= clock.now then DenyExpired
        else if lim.quotaBytes > 0 && StatsOf(stats, name).quotaUsed >= lim.quotaBytes then DenyQuota
        else DenyNone
      ensures reason != DenyDisabled && reason != DenyExpired && lim.quotaBytes > 0 ==>
        StatsOf(stats, name) == Rolled(old(StatsOf(stats, name)), lim.quotaReset, clock.later, month)
      ensures StatsOf(stats, name) == Metered(old(StatsOf(stats, name)), lim, clock, month)
      ensures forall n :: n != name ==> StatsOf(stats, n) == old(StatsOf(stats, n))
    {
      if lim.disabled {
        return false, DenyDisabled;
      }
      if lim.expiresAt.Some? && clock.now >= lim.expiresAt.value {
        return false, DenyExpired;
      }
      if lim.quotaBytes > 0 {
        stats := stats[name := Rolled(StatsOf(stats, name), lim.quotaReset, clock.later, month)];
        if stats[name].quotaUsed >= lim.quotaBytes {
          return false, DenyQuota;
        }
      }
      return true, DenyNone;
    }

    /** closeDeniedConns: an overrun quota closes nobody. */
    method CloseDeniedConns(clock: Bytes -> Clock, month: Calendar)
      requires Valid()
      modifies this`closed, this`stats
      ensures stats.Keys >= old(stats.Keys)
      ensures closed == old(closed) + set s | s in Live() && BannedUser(AllLimits(table), s.name, clock)
      ensures forall n :: StatsOf(stats, n) == AfterChecks(old(stats), liveConns.Keys, AllLimits(table), clock, month, n)
    {
      var limitByName := LimitsByName(secrets, table);
      var denied := CollectDenied(limitByName, clock, month);
      AllBanned(liveConns, AllLimits(table), clock);
      closed := closed + denied;
    }

    /** The registry is walked in whatever order; limits are checked once per name. */
    method CollectDenied(limits: map<Bytes, Limits>, clock: Bytes -> Clock, month: Calendar) returns (denied: set<Stream>)
      modifies this`stats
      ensures stats.Keys >= old(stats.Keys)
      ensures denied == Under(liveConns, BannedNames(liveConns.Keys, limits, clock))
      ensures forall n :: StatsOf(stats, n) == AfterChecks(old(stats), liveConns.Keys, limits, clock, month, n)
    {
      denied := {};
      var todo := liveConns.Keys;
      ghost var done: set<Bytes> := {};
      while todo != {}
        invariant stats.Keys >= old(stats.Keys)
        invariant done == liveConns.Keys - todo && todo <= liveConns.Keys
        invariant denied == Under(liveConns, BannedNames(done, limits, clock))
        invariant forall n :: StatsOf(stats, n) == AfterChecks(old(stats), done, limits, clock, month, n)
      {
        var name :| name in todo;
        todo := todo - {name};
        ghost var was := BannedNames(done, limits, clock);
        assert BannedNames(done + {name}, limits, clock) == was + if BannedUser(limits, name, clock) then {name} else {};
        done := done + {name};
        if name !in limits {
          continue;
        }
        var allowed, reason := CheckLimits(name, limits[name], clock(name), month);
        if allowed || reason == DenyQuota {
          continue;
        }
        UnderMore(liveConns, was, name);
        denied := denied + liveConns[name];
      }
    }

    method PreRegister(names: seq<Bytes>)
      modifies this`stats
      ensures forall n :: StatsOf(stats, n) == old(StatsOf(stats, n))
      ensures stats.Keys == old(stats.Keys) + Elements(names)
    {
      for i := 0 to |names|
        invariant forall n :: StatsOf(stats, n) == old(StatsOf(stats, n))
        invariant stats.Keys == old(stats.Keys) + Elements(names[..i])
      {
        assert names[..i + 1] == names[..i] + [names[i]];
        stats := stats[names[i] := StatsOf(stats, names[i])];
      }
      assert names[..|names|] == names;
    }

    /** The effect of a swap on everything but the table: exactly the doomed streams are closed, the registry
        stays, and statistics change at most by a quota rollover. */
    twostate predicate Swapped(clock: Bytes -> Clock, month: Calendar)
      reads this
    {
      && liveConns == old(liveConns)
      && closed == old(closed) + Doomed(Live(), old(table), table, clock)
      && forall n :: StatsOf(stats, n) == AfterChecks(old(stats), liveConns.Keys, AllLimits(table), clock, month, n)
    }

    method SwapSecretConfigLocked(cfg: Config, clock: Bytes -> Clock, month: Calendar) returns (r: Outcome)
      requires Valid()
      modifies this
      ensures Valid()
      ensures (table, r) == Admit(old(table), TableOf(cfg))
      ensures r == Done ==> Swapped(clock, month) && stats.Keys >= cfg.secrets.Keys
      ensures r != Done ==> unchanged(this)
    {
      var good := AllValid(cfg);
      if !good {
        return Invalid;
      }
      var newSet := BuildSecretSet(cfg);
      Install(newSet, TableOf(cfg), clock, month);
      r := Done;
    }

    /** The part of the swap that cannot fail. */
    method Install(newSet: SecretSet, ghost next: Table, clock: Bytes -> Clock, month: Calendar)
      requires Valid() && Shows(newSet, next) && Good(next)
      modifies this
      ensures Valid() && table == next && Swapped(clock, month)
      ensures stats.Keys >= next.users.Keys
    {
      var oldSet := secrets;
      secrets := newSet;
      ghost var before := table;
      table := next;
      PreRegister(newSet.names);
      CloseStaleConns(oldSet, newSet, before, next);
      CloseDeniedConns(clock, month);
      DoomedParts(Live(), before, next, clock);
    }

    method ReplaceSecrets(cfg: Config, clock: Bytes -> Clock, month: Calendar) returns (r: Outcome)
      requires Valid()
      modifies this
      ensures Valid()
      ensures (table, r) == Apply(old(table), Replace(cfg))
      ensures r == Done ==> Swapped(clock, month)
      ensures r != Done ==> unchanged(this)
    {
      r := SwapSecretConfigLocked(cfg, clock, month);
    }

    method PutSecret(name: Bytes, secret: Secret, tag: Option<AdTag>, limits: Option<Limits>,
                     clock: Bytes -> Clock, month: Calendar) returns (r: Outcome)
      requires Valid()
      modifies this
      ensures Valid()
      ensures (table, r) == Apply(old(table), Put(name, secret, tag, limits))
      ensures r == Done ==> Swapped(clock, month)
      ensures r != Done ==> unchanged(this)
    {
      if name == [] || !SecretText.Valid(secret) {
        return Invalid;
      }
      var cfg := ToConfig(secrets, table);
      ghost var before := cfg;
      cfg := cfg.(secrets := cfg.secrets[name := secret],
                  tags := if tag.Some? then cfg.tags[name := tag.value] else cfg.tags - {name},
                  limits := if limits.Some? && limits.value != NO_LIMITS
                            then cfg.limits[name := limits.value] else cfg.limits - {name});
      PutTable(before, cfg, name, secret, tag, limits);
      r := SwapSecretConfigLocked(cfg, clock, month);
    }

    /** The limits of the deleted name stay in the configuration, where nothing refers to them any more. */
    method DeleteSecret(name: Bytes, clock: Bytes -> Clock, month: Calendar) returns (r: Outcome)
      requires Valid()
      modifies this
      ensures Valid()
      ensures (table, r) == Apply(old(table), Delete(name))
      ensures r == Done ==> Swapped(clock, month)
      ensures r != Done ==> unchanged(this)
    {
      var cfg := ToConfig(secrets, table);
      assert cfg.secrets.Keys == table.users.Keys;
      if name !in cfg.secrets {
        return NotFound;
      }
      SameSize(cfg.secrets, table.users);
      if |cfg.secrets| == 1 {
        return LastSecret;
      }
      ghost var before := cfg;
      cfg := cfg.(secrets := cfg.secrets - {name}, tags := cfg.tags - {name});
      DeleteTable(before, cfg, name);
      r := SwapSecretConfigLocked(cfg, clock, month);
    }

    method SetGlobalAdTag(tag: Option<AdTag>, clock: Bytes -> Clock, month: Calendar) returns (r: Outcome)
      requires Valid()
      modifies this
      ensures Valid()
      ensures (table, r) == Apply(old(table), SetGlobalTag(tag))
      ensures r == Done && forall i :: 0 <= i < |secrets.names| ==>
        EffectiveAdTag(secrets, i) == var own := table.users[secrets.names[i]].tag; if own.Some? then own else tag
      ensures r == Done ==> Swapped(clock, month)
      ensures r != Done ==> unchanged(this)
    {
      ApplyOutcome(table, SetGlobalTag(tag));
      ApplyEffect(table, SetGlobalTag(tag), []);
      var cfg := ToConfig(secrets, table);
      ghost var before := cfg;
      cfg := cfg.(globalTag := tag);
      SameUsers(before, cfg);
      r := SwapSecretConfigLocked(cfg, clock, month);
    }

    method Perform(op: Op, clock: Bytes -> Clock, month: Calendar) returns (r: Outcome)
      requires Valid()
      modifies this
      ensures Valid()
      ensures (table, r) == Apply(old(table), op)
      ensures r == Done ==> Swapped(clock, month)
      ensures r != Done ==> unchanged(this)
    {
      match op
      case Replace(cfg) => r := ReplaceSecrets(cfg, clock, month);
      case Put(name, secret, tag, limits) => r := PutSecret(name, secret, tag, limits, clock, month);
      case Delete(name) => r := DeleteSecret(name, clock, month);
      case SetGlobalTag(tag) => r := SetGlobalAdTag(tag, clock, month);
    }

    /** Any sequence of operations leaves the snapshot of the same updates on a plain map, and every counter of
        connections and bytes as it was. */
    method PerformAll(ops: seq<Op>, clocks: seq<Bytes -> Clock>, month: Calendar)
      requires Valid() && |clocks| == |ops|
      modifies this
      ensures Valid() && table == Run(old(table), ops) && Shows(secrets, Run(old(table), ops))
      ensures liveConns == old(liveConns)
      ensures forall n :: SameCounters(StatsOf(stats, n), old(StatsOf(stats, n)))
    {
      for i := 0 to |ops|
        invariant Valid() && liveConns == old(liveConns)
        invariant Run(table, ops[i..]) == Run(old(table), ops)
        invariant forall n :: SameCounters(StatsOf(stats, n), old(StatsOf(stats, n)))
      {
        var _ := Perform(ops[i], clocks[i], month);
        assert ops[i..][1..] == ops[i + 1..];
      }
    }
  }

  /** Whom an operation closes, besides the banned and those whose name is not served: a put only a re-keyed
      name, a delete only the name, a tag nobody. */
  lemma DoomedByOp(t: Table, op: Op, live: set<Stream>, clock: Bytes -> Clock, s: Stream)
    requires Good(t) && Apply(t, op).1 == Done && s in live && !op.Replace?
    ensures var next := Apply(t, op).0;
            s in Doomed(live, t, next, clock) <==>
              || s.name !in t.users
              || BannedUser(AllLimits(next), s.name, clock)
              || (op.Put? && s.name == op.name && t.users[op.name].secret.key != op.secret.key)
              || (op.Delete? && s.name == op.name)
  {
  }

  lemma DoomedParts(live: set<Stream>, before: Table, after: Table, clock: Bytes -> Clock)
    ensures Doomed(live, before, after, clock) ==
      (set s | s in live && Stale(Keys(before), Keys(after), s.name)) +
      (set s | s in live && BannedUser(AllLimits(after), s.name, clock))
  {
  }

  lemma SameSize<S, T>(a: map<Bytes, S>, b: map<Bytes, T>)
    requires a.Keys == b.Keys
    ensures |a| == |b|
  {
    assert |a| == |a.Keys| && |b| == |b.Keys|;
  }

  lemma SameUsers(a: Config, b: Config)
    requires a.secrets == b.secrets && a.tags == b.tags && a.limits == b.limits
    ensures TableOf(b) == TableOf(a).(globalTag := b.globalTag)
  {
    assert forall n | n in a.secrets :: UserOf(a, n) == UserOf(b, n);
  }

  lemma PutTable(a: Config, b: Config, name: Bytes, secret: Secret, tag: Option<AdTag>, limits: Option<Limits>)
    requires b.secrets == a.secrets[name := secret] && b.globalTag == a.globalTag
    requires b.tags == if tag.Some? then a.tags[name := tag.value] else a.tags - {name}
    requires b.limits == if limits.Some? && limits.value != NO_LIMITS
                         then a.limits[name := limits.value] else a.limits - {name}
    ensures TableOf(b) == TableOf(a).(users :=
      TableOf(a).users[name := User(secret, tag, if limits.Some? then limits.value else NO_LIMITS)])
  {
    var user := User(secret, tag, if limits.Some? then limits.value else NO_LIMITS);
    var users := TableOf(a).users[name := user];
    assert users.Keys == TableOf(b).users.Keys;
    forall n | n in users
      ensures TableOf(b).users[n] == users[n]
    {
      PutUser(a, b, name, secret, tag, limits, n);
    }
    assert TableOf(b).users == users;
  }

  lemma PutUser(a: Config, b: Config, name: Bytes, secret: Secret, tag: Option<AdTag>, limits: Option<Limits>, n: Bytes)
    requires b.secrets == a.secrets[name := secret] && n in b.secrets
    requires b.tags == if tag.Some? then a.tags[name := tag.value] else a.tags - {name}
    requires b.limits == if limits.Some? && limits.value != NO_LIMITS
                         then a.limits[name := limits.value] else a.limits - {name}
    ensures UserOf(b, n) ==
            if n == name then User(secret, tag, if limits.Some? then limits.value else NO_LIMITS) else UserOf(a, n)
  {
  }

  lemma DeleteTable(a: Config, b: Config, name: Bytes)
    requires b.secrets == a.secrets - {name} && b.tags == a.tags - {name}
    requires b.limits == a.limits && b.globalTag == a.globalTag
    ensures TableOf(b) == TableOf(a).(users := TableOf(a).users - {name})
  {
    assert forall n | n in b.secrets :: UserOf(a, n) == UserOf(b, n);
  }

  /** The checks of swapSecretConfigLocked and of ProxyOpts.valid. */
  method AllValid(cfg: Config) returns (r: bool)
    ensures r <==> Good(TableOf(cfg))
  {
    if |cfg.secrets| == 0 {
      assert TableOf(cfg).users == map[];
      return false;
    }
    var todo := cfg.secrets.Keys;
    ghost var any :| any in cfg.secrets;
    assert any in TableOf(cfg).users;
    while todo != {}
      invariant todo <= cfg.secrets.Keys
      invariant forall n :: n in cfg.secrets && n !in todo ==> SecretText.Valid(cfg.secrets[n])
    {
      var name :| name in todo;
      if !SecretText.Valid(cfg.secrets[name]) {
        assert !SecretText.Valid(TableOf(cfg).users[name].secret);
        return false;
      }
      todo := todo - {name};
    }
    r := true;
  }

  method NewProxy(cfg: Config) returns (p: Proxy?)
    ensures p == null <==> !Good(TableOf(cfg))
    ensures p != null ==> fresh(p) && p.Valid() && p.table == TableOf(cfg) && p.Live() == {} && p.closed == {}
    ensures p != null ==> p.stats.Keys == cfg.secrets.Keys && forall n :: StatsOf(p.stats, n) == NO_STATS
  {
    var good := AllValid(cfg);
    if !good {
      return null;
    }
    var s := BuildSecretSet(cfg);
    p := new Proxy(s, map[], TableOf(cfg));
    p.PreRegister(s.names);
  }

  method CollectStale(live: Registry, oldKeys: map<Bytes, SecretKey>, newKeys: map<Bytes, SecretKey>)
    returns (stale: set<Stream>)
    ensures stale == Under(live, StaleNames(live.Keys, oldKeys, newKeys))
  {
    stale := {};
    var todo := live.Keys;
    ghost var done: set<Bytes> := {};
    while todo != {}
      invariant done == live.Keys - todo && todo <= live.Keys
      invariant stale == Under(live, StaleNames(done, oldKeys, newKeys))
    {
      var name :| name in todo;
      todo := todo - {name};
      ghost var was := StaleNames(done, oldKeys, newKeys);
      assert StaleNames(done + {name}, oldKeys, newKeys) == was + if Stale(oldKeys, newKeys, name) then {name} else {};
      done := done + {name};
      if name in newKeys && name in oldKeys && oldKeys[name] == newKeys[name] {
        continue;
      }
      UnderMore(live, was, name);
      stale := stale + live[name];
    }
  }

  /** The loop that turns two aligned lists into a map. */
  method ByName<T>(names: seq<Bytes>, values: seq<T>, ghost m: map<Bytes, T>) returns (r: map<Bytes, T>)
    requires |values| == |names| && Elements(names) == m.Keys
    requires forall i :: 0 <= i < |names| ==> names[i] in m && values[i] == m[names[i]]
    ensures r == m
  {
    r := map[];
    for i := 0 to |names|
      invariant forall n :: n in r ==> n in m && r[n] == m[n]
      invariant forall k :: 0 <= k < i ==> names[k] in r
    {
      r := r[names[i] := values[i]];
    }
    forall n | n in m
      ensures n in r
    {
      assert n in Elements(names);
    }
  }

  method KeysByName(s: SecretSet, ghost t: Table) returns (keys: map<Bytes, SecretKey>)
    requires Shows(s, t)
    ensures keys == Keys(t)
  {
    var values := seq(|s.secrets|, i requires 0 <= i < |s.secrets| => s.secrets[i].key);
    forall i | 0 <= i < |s.names|
      ensures s.names[i] in Keys(t) && values[i] == Keys(t)[s.names[i]]
    {
      assert UserAt(s, i) == t.users[s.names[i]];
    }
    keys := ByName(s.names, values, Keys(t));
  }

  method LimitsByName(s: SecretSet, ghost t: Table) returns (limits: map<Bytes, Limits>)
    requires Shows(s, t)
    ensures limits == AllLimits(t)
  {
    forall i | 0 <= i < |s.names|
      ensures s.names[i] in AllLimits(t) && s.limits[i] == AllLimits(t)[s.names[i]]
    {
      assert UserAt(s, i) == t.users[s.names[i]];
    }
    limits := ByName(s.names, s.limits, AllLimits(t));
  }
}
