/** secretSet of mtglib/proxy.go: the immutable snapshot of the served secrets, against a plain table of users.
    The mutators of mtglib/proxy_api.go that swap snapshots are in LiveConns.dfy. */
module SecretSets {
  import opened ByteCodec
  import opened SecretText

  // ---------------------------------------------------------------- Go's string order

  predicate Less(a: Bytes, b: Bytes) {
    b != [] && (a == [] || a[0] < b[0] || (a[0] == b[0] && Less(a[1..], b[1..])))
  }

  /** Byte by byte: a proper front part comes first, otherwise the smaller byte at the first difference. */
  lemma {:induction false} LessIff(a: Bytes, b: Bytes)
    ensures Less(a, b) <==> (|a| < |b| && b[..|a|] == a) || exists i :: DiffersAt(a, b, i) && a[i] < b[i]
  {
    if a != [] && b != [] {
      var a1, b1 := a[1..], b[1..];
      assert a == [a[0]] + a1 && b == [b[0]] + b1;
      if a[0] == b[0] {
        LessIff(a1, b1);
        FrontShift(a, b);
        if i :| DiffersAt(a1, b1, i) && a1[i] < b1[i] {
          DiffersShift(a, b, i);
          assert DiffersAt(a, b, i + 1) && a[i + 1] < b[i + 1];
        }
        if i :| DiffersAt(a, b, i) && a[i] < b[i] {
          assert i > 0;
          DiffersShift(a, b, i - 1);
          assert DiffersAt(a1, b1, i - 1) && a1[i - 1] < b1[i - 1];
        }
      } else {
        assert DiffersAt(a, b, 0);
        assert forall i :: DiffersAt(a, b, i) ==> i == 0;
      }
    }
  }

  /** i is the first place where both have a byte and the bytes differ. */
  predicate DiffersAt(a: Bytes, b: Bytes, i: int) {
    0 <= i < |a| && i < |b| && a[i] != b[i] && forall j :: 0 <= j < i ==> a[j] == b[j]
  }

  lemma DiffersShift(a: Bytes, b: Bytes, i: nat)
    requires a != [] && b != [] && a[0] == b[0]
    ensures DiffersAt(a[1..], b[1..], i) <==> DiffersAt(a, b, i + 1)
  {
    if DiffersAt(a[1..], b[1..], i) {
      forall j | 0 <= j < i + 1
        ensures a[j] == b[j]
      {
        if j > 0 {
          assert a[1..][j - 1] == b[1..][j - 1];
        }
      }
    }
  }

  lemma FrontShift(a: Bytes, b: Bytes)
    requires a != [] && b != [] && a[0] == b[0]
    ensures (|a| < |b| && b[..|a|] == a) <==> (|a[1..]| < |b[1..]| && b[1..][..|a[1..]|] == a[1..])
  {
    assert a == [a[0]] + a[1..];
    if |a| < |b| {
      assert b[..|a|] == [b[0]] + b[1..][..|a| - 1];
      assert b[..|a|][1..] == b[1..][..|a| - 1];
    }
  }

  lemma {:induction false} LessIrreflexive(a: Bytes)
    ensures !Less(a, a)
  {
    if a != [] {
      LessIrreflexive(a[1..]);
    }
  }

  lemma {:induction false} LessTotal(a: Bytes, b: Bytes)
    ensures a != b ==> Less(a, b) || Less(b, a)
  {
    if a != [] && b != [] && a[0] == b[0] {
      LessTotal(a[1..], b[1..]);
      assert a == [a[0]] + a[1..] && b == [b[0]] + b[1..];
    }
  }

  lemma {:induction false} LessTransitive(a: Bytes, b: Bytes, c: Bytes)
    requires Less(a, b) && Less(b, c)
    ensures Less(a, c)
  {
    if a != [] && a[0] == b[0] == c[0] {
      LessTransitive(a[1..], b[1..], c[1..]);
    }
  }

  predicate StrictlySorted(s: seq<Bytes>) {
    forall i, j :: 0 <= i < j < |s| ==> Less(s[i], s[j])
  }

  function Elements(s: seq<Bytes>): set<Bytes> {
    set x | x in s
  }

  /** A set has one sorted listing, so the order in which a Go map is walked does not show. */
  lemma {:induction false} SortedUnique(a: seq<Bytes>, b: seq<Bytes>)
    requires StrictlySorted(a) && StrictlySorted(b) && Elements(a) == Elements(b)
    ensures a == b
  {
    NoElements(a);
    NoElements(b);
    if a != [] {
      SameHead(a, b);
      TailElements(a);
      TailElements(b);
      SortedUnique(a[1..], b[1..]);
      assert a == [a[0]] + a[1..] && b == [b[0]] + b[1..];
    }
  }

  lemma NoElements(s: seq<Bytes>)
    ensures s == [] <==> Elements(s) == {}
  {
    if s != [] {
      assert s[0] in Elements(s);
    }
  }

  lemma SameHead(a: seq<Bytes>, b: seq<Bytes>)
    requires StrictlySorted(a) && StrictlySorted(b) && Elements(a) == Elements(b)
    requires a != [] && b != []
    ensures a[0] == b[0]
  {
    assert a[0] in Elements(b) && b[0] in Elements(a);
    var j :| 0 <= j < |b| && b[j] == a[0];
    var i :| 0 <= i < |a| && a[i] == b[0];
    if a[0] != b[0] {
      LessTransitive(a[0], b[0], a[0]);
      LessIrreflexive(a[0]);
    }
  }

  lemma TailElements(a: seq<Bytes>)
    requires StrictlySorted(a) && a != []
    ensures StrictlySorted(a[1..])
    ensures Elements(a[1..]) == Elements(a) - {a[0]}
  {
    forall i | 0 <= i < |a[1..]|
      ensures a[1..][i] != a[0]
    {
      LessIrreflexive(a[0]);
      assert Less(a[0], a[i + 1]);
    }
    assert a == [a[0]] + a[1..];
  }

  /** One step of the sort. */
  function Insert(x: Bytes, s: seq<Bytes>): (r: seq<Bytes>)
    requires StrictlySorted(s) && x !in s
    ensures StrictlySorted(r) && Elements(r) == Elements(s) + {x}
    decreases |s|
  {
    if s == [] then [x]
    else if Less(x, s[0]) then
      (forall i | 0 <= i < |s|
         ensures Less(x, s[i])
       {
         if i > 0 { LessTransitive(x, s[0], s[i]); }
       }
       assert Elements([x] + s) == Elements(s) + {x};
       [x] + s)
    else
      (LessTotal(x, s[0]);
       TailElements(s);
       var rest := Insert(x, s[1..]);
       forall i | 0 <= i < |rest|
         ensures Less(s[0], rest[i])
       {
         assert rest[i] in Elements(rest);
         if rest[i] != x {
           assert rest[i] in Elements(s[1..]);
         }
       }
       assert Elements([s[0]] + rest) == {s[0]} + Elements(rest);
       [s[0]] + rest)
  }

  /** The keys of a Go map in whatever order it is walked, then sort.Strings. */
  method SortedKeys(keys: set<Bytes>) returns (r: seq<Bytes>)
    ensures StrictlySorted(r) && Elements(r) == keys
  {
    var todo := keys;
    var walked: seq<Bytes> := [];
    while todo != {}
      invariant todo <= keys
      invariant Elements(walked) == keys - todo
      invariant forall i, j :: 0 <= i < j < |walked| ==> walked[i] != walked[j]
    {
      var x :| x in todo;
      assert x !in Elements(walked);
      assert Elements(walked + [x]) == Elements(walked) + {x};
      walked := walked + [x];
      todo := todo - {x};
    }
    r := [];
    for i := 0 to |walked|
      invariant StrictlySorted(r) && Elements(r) == Elements(walked[..i])
    {
      assert walked[i] !in Elements(walked[..i]);
      assert walked[..i + 1] == walked[..i] + [walked[i]];
      r := Insert(walked[i], r);
    }
    assert walked[..|walked|] == walked;
  }

  // ---------------------------------------------------------------- configuration, snapshot, table

  type AdTag = t: Bytes | |t| == 16 witness seq(16, i => 0)

  datatype QuotaReset = ResetNone | ResetMonthly

  /** SecretLimits; no expiry is the zero time. */
  datatype Limits = Limits(quotaBytes: int, quotaReset: QuotaReset, expiresAt: Option<int>, disabled: bool)

  const NO_LIMITS := Limits(0, ResetNone, None, false)

  /** SecretConfig; a nil map is an empty one. */
  datatype Config = Config(
    secrets: map<Bytes, Secret>, tags: map<Bytes, AdTag>, globalTag: Option<AdTag>, limits: map<Bytes, Limits>)

  datatype SecretSet = SecretSet(
    secrets: seq<Secret>, names: seq<Bytes>, hostnames: seq<Bytes>,
    adTags: seq<Option<AdTag>>, globalTag: Option<AdTag>, limits: seq<Limits>)

  /** The reference: everything known of a user under its name. */
  datatype User = User(secret: Secret, tag: Option<AdTag>, limits: Limits)
  datatype Table = Table(users: map<Bytes, User>, globalTag: Option<AdTag>)

  function Lookup<T>(m: map<Bytes, T>, name: Bytes): Option<T> {
    if name in m then Some(m[name]) else None
  }

  function UserOf(cfg: Config, name: Bytes): User
    requires name in cfg.secrets
  {
    User(cfg.secrets[name], Lookup(cfg.tags, name), if name in cfg.limits then cfg.limits[name] else NO_LIMITS)
  }

  /** What a configuration says of each user; tags and limits of unknown names mean nothing. */
  function TableOf(cfg: Config): Table {
    Table(map n | n in cfg.secrets :: UserOf(cfg, n), cfg.globalTag)
  }

  /** The leanest configuration of a table. */
  function ConfigOf(t: Table): Config {
    Config(map n | n in t.users :: t.users[n].secret,
           map n | n in t.users && t.users[n].tag.Some? :: t.users[n].tag.value,
           t.globalTag,
           map n | n in t.users && t.users[n].limits != NO_LIMITS :: t.users[n].limits)
  }

  lemma TableOfConfigOf(t: Table)
    ensures TableOf(ConfigOf(t)) == t
  {
    assert forall n | n in t.users :: UserOf(ConfigOf(t), n) == t.users[n];
  }

  function Hosts(t: Table): set<Bytes> {
    set n | n in t.users :: t.users[n].secret.host
  }

  predicate Aligned(s: SecretSet) {
    |s.secrets| == |s.adTags| == |s.limits| == |s.names|
  }

  function UserAt(s: SecretSet, i: nat): User
    requires Aligned(s) && i < |s.names|
  {
    User(s.secrets[i], s.adTags[i], s.limits[i])
  }

  /** The snapshot of a table: names sorted and unique, every other list aligned with them, hosts sorted and
      unique. */
  predicate Shows(s: SecretSet, t: Table) {
    && Aligned(s)
    && StrictlySorted(s.names)
    && Elements(s.names) == t.users.Keys
    && (forall i :: 0 <= i < |s.names| ==> s.names[i] in t.users && UserAt(s, i) == t.users[s.names[i]])
    && StrictlySorted(s.hostnames)
    && Elements(s.hostnames) == Hosts(t)
    && s.globalTag == t.globalTag
  }

  lemma SameLists(s: SecretSet, s': SecretSet)
    requires Aligned(s) && Aligned(s') && |s.names| == |s'.names|
    requires forall i :: 0 <= i < |s.names| ==> UserAt(s, i) == UserAt(s', i)
    ensures s.secrets == s'.secrets && s.adTags == s'.adTags && s.limits == s'.limits
  {
    forall i | 0 <= i < |s.names|
      ensures s.secrets[i] == s'.secrets[i] && s.adTags[i] == s'.adTags[i] && s.limits[i] == s'.limits[i]
    {
      assert UserAt(s, i) == UserAt(s', i);
    }
  }

  /** Entry by entry: a name's secret, tag and limits stand where the name stands, and a host is listed exactly if some
      user has it. */
  lemma ShowsExactly(s: SecretSet, t: Table, i: nat, host: Bytes)
    requires Shows(s, t) && i < |s.names|
    ensures s.names[i] in t.users
    ensures s.secrets[i] == t.users[s.names[i]].secret
    ensures s.adTags[i] == t.users[s.names[i]].tag
    ensures s.limits[i] == t.users[s.names[i]].limits
    ensures host in s.hostnames <==> exists n :: n in t.users && t.users[n].secret.host == host
  {
    assert UserAt(s, i) == t.users[s.names[i]];
    assert host in s.hostnames <==> host in Elements(s.hostnames);
  }

  /** A table has one snapshot and a snapshot shows one table. */
  lemma ShowsOneToOne(s: SecretSet, t: Table, s': SecretSet, t': Table)
    requires Shows(s, t) && Shows(s', t')
    ensures s == s' <==> t == t'
  {
    if t == t' {
      SortedUnique(s.names, s'.names);
      SortedUnique(s.hostnames, s'.hostnames);
      SameLists(s, s');
    }
    if s == s' {
      forall n | n in t.users
        ensures n in t'.users && t.users[n] == t'.users[n]
      {
        assert n in Elements(s.names);
        var i :| 0 <= i < |s.names| && s.names[i] == n;
      }
      assert t.users.Keys == t'.users.Keys;
      assert t.users == t'.users;
    }
  }

  /** The tag of secret i: its own or else the global one. */
  function EffectiveAdTag(s: SecretSet, i: nat): (r: Option<AdTag>)
    ensures forall t :: Shows(s, t) && i < |s.names| ==>
      var own := t.users[s.names[i]].tag; r == if own.Some? then own else t.globalTag
  {
    if i < |s.adTags| && s.adTags[i] != None then s.adTags[i] else s.globalTag
  }

  method BuildSecretSet(cfg: Config) returns (s: SecretSet)
    ensures Shows(s, TableOf(cfg))
  {
    ghost var t := TableOf(cfg);
    var names := SortedKeys(cfg.secrets.Keys);
    var secrets: seq<Secret> := [];
    var adTags: seq<Option<AdTag>> := [];
    var limits: seq<Limits> := [];
    for i := 0 to |names|
      invariant |secrets| == |adTags| == |limits| == i
      invariant forall k :: 0 <= k < i ==>
        names[k] in t.users && User(secrets[k], adTags[k], limits[k]) == t.users[names[k]]
    {
      var name := names[i];
      assert name in Elements(names);
      secrets := secrets + [cfg.secrets[name]];
      adTags := adTags + [if name in cfg.tags then Some(cfg.tags[name]) else None];
      limits := limits + [if name in cfg.limits then cfg.limits[name] else NO_LIMITS];
    }
    var hosts := HostSet(secrets);
    AllHosts(t, names, secrets);
    var hostnames := SortedKeys(hosts);
    s := SecretSet(secrets, names, hostnames, adTags, cfg.globalTag, limits);
  }

  method HostSet(secrets: seq<Secret>) returns (hosts: set<Bytes>)
    ensures hosts == set i | 0 <= i < |secrets| :: secrets[i].host
  {
    hosts := {};
    for i := 0 to |secrets|
      invariant hosts == set k | 0 <= k < i :: secrets[k].host
    {
      hosts := hosts + {secrets[i].host};
    }
  }

  lemma AllHosts(t: Table, names: seq<Bytes>, secrets: seq<Secret>)
    requires Elements(names) == t.users.Keys && |secrets| == |names|
    requires forall k :: 0 <= k < |names| ==> names[k] in t.users && secrets[k] == t.users[names[k]].secret
    ensures (set i | 0 <= i < |secrets| :: secrets[i].host) == Hosts(t)
  {
    forall n | n in t.users
      ensures exists i :: 0 <= i < |secrets| && secrets[i].host == t.users[n].secret.host
    {
      assert n in Elements(names);
      var i :| 0 <= i < |names| && names[i] == n;
      assert secrets[i].host == t.users[n].secret.host;
    }
  }

  /** toConfig: from the snapshot of a table back to a configuration of that table, so rebuilding from it gives
      the same snapshot again. */
  method ToConfig(s: SecretSet, ghost t: Table) returns (cfg: Config)
    requires Shows(s, t)
    ensures cfg == ConfigOf(t) && TableOf(cfg) == t
  {
    var secrets: map<Bytes, Secret> := map[];
    var tags: map<Bytes, AdTag> := map[];
    var limits: map<Bytes, Limits> := map[];
    ghost var part := Table(map[], s.globalTag);
    for i := 0 to |s.names|
      invariant part == Part(t, Elements(s.names[..i]))
      invariant Config(secrets, tags, s.globalTag, limits) == ConfigOf(part)
    {
      var name := s.names[i];
      assert UserAt(s, i) == t.users[name];
      assert s.names[..i + 1] == s.names[..i] + [name];
      assert Elements(s.names[..i + 1]) == Elements(s.names[..i]) + {name};
      NotYet(s.names, i);
      OneMore(part, name, UserAt(s, i));
      part := part.(users := part.users[name := UserAt(s, i)]);
      secrets := secrets[name := s.secrets[i]];
      if s.adTags[i].Some? {
        tags := tags[name := s.adTags[i].value];
      }
      if s.limits[i] != NO_LIMITS {
        limits := limits[name := s.limits[i]];
      }
    }
    assert s.names[..|s.names|] == s.names;
    assert part == t;
    cfg := Config(secrets, tags, s.globalTag, limits);
    TableOfConfigOf(t);
  }

  ghost function Part(t: Table, names: set<Bytes>): Table {
    Table(map n | n in t.users && n in names :: t.users[n], t.globalTag)
  }

  lemma OneMore(t: Table, name: Bytes, user: User)
    requires name !in t.users
    ensures var c, d := ConfigOf(t), ConfigOf(t.(users := t.users[name := user]));
            && d.secrets == c.secrets[name := user.secret]
            && d.tags == (if user.tag.Some? then c.tags[name := user.tag.value] else c.tags)
            && d.limits == (if user.limits != NO_LIMITS then c.limits[name := user.limits] else c.limits)
  {
  }

  /** toConfig and then buildSecretSet: the same snapshot again. */
  method Rebuild(s: SecretSet, ghost t: Table) returns (again: SecretSet)
    requires Shows(s, t)
    ensures again == s
  {
    var cfg := ToConfig(s, t);
    again := BuildSecretSet(cfg);
    ShowsOneToOne(again, TableOf(cfg), s, t);
  }

  lemma NotYet(names: seq<Bytes>, i: nat)
    requires StrictlySorted(names) && i < |names|
    ensures names[i] !in Elements(names[..i])
  {
    LessIrreflexive(names[i]);
  }

  // ---------------------------------------------------------------- the operations on the table

  datatype Op =
    | Replace(cfg: Config)
    | Put(name: Bytes, secret: Secret, tag: Option<AdTag>, limits: Option<Limits>)
    | Delete(name: Bytes)
    | SetGlobalTag(tag: Option<AdTag>)

  datatype Outcome = Done | Invalid | NotFound | LastSecret

  /** What a proxy serves: at least one secret, all valid. */
  predicate Good(t: Table) {
    t.users != map[] && forall n :: n in t.users ==> Valid(t.users[n].secret)
  }

  function Admit(t: Table, next: Table): (Table, Outcome) {
    if Good(next) then (next, Done) else (t, Invalid)
  }

  /** The operations as plain updates of one map. */
  function Apply(t: Table, op: Op): (Table, Outcome) {
    match op
    case Replace(cfg) => Admit(t, TableOf(cfg))
    case Put(name, secret, tag, limits) =>
      if name == [] || !Valid(secret) then (t, Invalid)
      else
        var user := User(secret, tag, if limits.Some? then limits.value else NO_LIMITS);
        Admit(t, t.(users := t.users[name := user]))
    case Delete(name) =>
      if name !in t.users then (t, NotFound)
      else if |t.users| == 1 then (t, LastSecret)
      else Admit(t, t.(users := t.users - {name}))
    case SetGlobalTag(tag) => Admit(t, t.(globalTag := tag))
  }

  function Run(t: Table, ops: seq<Op>): Table
    decreases |ops|
  {
    if ops == [] then t else Run(Apply(t, ops[0]).0, ops[1..])
  }

  /** Which calls fail: a failure changes nothing, and on a good table only the arguments decide. */
  lemma ApplyOutcome(t: Table, op: Op)
    requires Good(t)
    ensures Good(Apply(t, op).0)
    ensures Apply(t, op).1 != Done ==> Apply(t, op).0 == t
    ensures Apply(t, op).1 == match op
            case Replace(cfg) => if Good(TableOf(cfg)) then Done else Invalid
            case Put(name, secret, _, _) =>
              if name != [] && secret.host != [] && (exists i :: 0 <= i < 16 && secret.key[i] != 0) then Done else Invalid
            case Delete(name) => if name !in t.users then NotFound else if t.users.Keys == {name} then LastSecret else Done
            case SetGlobalTag(_) => Done
  {
    match op
    case Put(name, secret, tag, limits) =>
      ValidIff(secret);
      if Valid(secret) {
        PutKeepsGood(t, name, User(secret, tag, if limits.Some? then limits.value else NO_LIMITS));
      }
    case Delete(name) =>
      if name in t.users {
        DeleteKeepsGood(t, name);
      }
    case _ =>
  }

  lemma PutKeepsGood(t: Table, name: Bytes, user: User)
    requires Good(t) && Valid(user.secret)
    ensures Good(t.(users := t.users[name := user]))
  {
    assert name in t.users[name := user];
  }

  lemma DeleteKeepsGood(t: Table, name: Bytes)
    requires Good(t) && name in t.users
    ensures |t.users| == 1 <==> t.users.Keys == {name}
    ensures |t.users| != 1 ==> Good(t.(users := t.users - {name}))
  {
    var rest := t.users - {name};
    assert rest.Keys == t.users.Keys - {name};
    assert |t.users| == |t.users.Keys| == |rest.Keys| + 1;
    if |t.users| == 1 {
      assert rest.Keys == {};
    } else {
      assert rest.Keys != {};
      assert rest != map[];
    }
  }

  /** A configuration is served if it has a secret and none that is invalid. */
  lemma GoodConfig(cfg: Config)
    ensures Good(TableOf(cfg)) <==>
            cfg.secrets != map[] && forall n :: n in cfg.secrets ==>
              cfg.secrets[n].host != [] && exists i :: 0 <= i < 16 && cfg.secrets[n].key[i] != 0
  {
    forall n | n in cfg.secrets
      ensures Valid(cfg.secrets[n]) <==> cfg.secrets[n].host != [] && exists i :: 0 <= i < 16 && cfg.secrets[n].key[i] != 0
    {
      ValidIff(cfg.secrets[n]);
    }
    assert TableOf(cfg).users.Keys == cfg.secrets.Keys;
    assert TableOf(cfg).users == map[] <==> cfg.secrets == map[];
    assert forall n :: n in cfg.secrets ==> TableOf(cfg).users[n].secret == cfg.secrets[n];
  }

  /** What a successful operation makes of every name and of the global tag. */
  lemma ApplyEffect(t: Table, op: Op, n: Bytes)
    requires Good(t) && Apply(t, op).1 == Done
    ensures var users := Apply(t, op).0.users;
            match op
            case Replace(cfg) =>
              if n in cfg.secrets then
                && n in users && users[n].secret == cfg.secrets[n]
                && users[n].tag == (if n in cfg.tags then Some(cfg.tags[n]) else None)
                && users[n].limits == (if n in cfg.limits then cfg.limits[n] else Limits(0, ResetNone, None, false))
              else n !in users
            case Put(name, secret, tag, limits) =>
              if n == name then
                n in users
                && users[n] == User(secret, tag, match limits case Some(l) => l case None => Limits(0, ResetNone, None, false))
              else Lookup(users, n) == Lookup(t.users, n)
            case Delete(name) => if n == name then n !in users else Lookup(users, n) == Lookup(t.users, n)
            case SetGlobalTag(_) => Lookup(users, n) == Lookup(t.users, n)
    ensures Apply(t, op).0.globalTag ==
            match op
            case Replace(cfg) => cfg.globalTag
            case SetGlobalTag(tag) => tag
            case _ => t.globalTag
  {
  }

  /** The operation sets the global tag. */
  predicate SetsTag(t: Table, op: Op) {
    (op.Replace? || op.SetGlobalTag?) && Apply(t, op).1 == Done
  }

  function TagSet(op: Op): Option<AdTag>
    requires op.Replace? || op.SetGlobalTag?
  {
    if op.Replace? then op.cfg.globalTag else op.tag
  }

  /** The place of the last operation that sets the global tag, if there is one. */
  ghost predicate LastSetter(t: Table, ops: seq<Op>, i: nat) {
    && i < |ops| && SetsTag(Run(t, ops[..i]), ops[i])
    && forall j :: i < j < |ops| ==> !SetsTag(Run(t, ops[..j]), ops[j])
  }

  lemma {:induction false} RunSnoc(t: Table, ops: seq<Op>, op: Op)
    ensures Run(t, ops + [op]) == Apply(Run(t, ops), op).0
    decreases |ops|
  {
    if ops == [] {
      assert ops + [op] == [op];
      assert Run(t, [op]) == Run(Apply(t, op).0, [op][1..]);
    } else {
      assert (ops + [op])[1..] == ops[1..] + [op];
      RunSnoc(Apply(t, ops[0]).0, ops[1..], op);
    }
  }

  lemma {:induction false} RunGood(t: Table, ops: seq<Op>)
    requires Good(t)
    ensures Good(Run(t, ops))
    decreases |ops|
  {
    if ops != [] {
      ApplyOutcome(t, ops[0]);
      RunGood(Apply(t, ops[0]).0, ops[1..]);
    }
  }

  lemma StepTag(t: Table, op: Op)
    requires Good(t)
    ensures Apply(t, op).0.globalTag == if SetsTag(t, op) then TagSet(op) else t.globalTag
  {
    ApplyOutcome(t, op);
    if Apply(t, op).1 == Done {
      ApplyEffect(t, op, []);
    }
  }

  /** After any run the global tag is that of the last successful set-global-tag or replace, else the one at the
      start. */
  lemma {:induction false} GlobalTagOfRun(t: Table, ops: seq<Op>, i: nat)
    requires Good(t) && i <= |ops|
    requires i == |ops| ==> forall j :: 0 <= j < |ops| ==> !SetsTag(Run(t, ops[..j]), ops[j])
    requires i < |ops| ==> LastSetter(t, ops, i)
    ensures Run(t, ops).globalTag == if i == |ops| then t.globalTag else TagSet(ops[i])
    decreases |ops|
  {
    if ops != [] {
      var front, op := ops[..|ops| - 1], ops[|ops| - 1];
      assert ops == front + [op];
      RunSnoc(t, front, op);
      RunGood(t, front);
      StepTag(Run(t, front), op);
      assert forall j :: 0 <= j < |front| ==> front[..j] == ops[..j] && front[j] == ops[j];
      if i == |ops| {
        GlobalTagOfRun(t, front, |front|);
      } else if i < |front| {
        GlobalTagOfRun(t, front, i);
      }
    }
  }

  predicate Mentions(op: Op, name: Bytes) {
    match op
    case Replace(_) => true
    case Put(n, _, _, _) => n == name
    case Delete(n) => n == name
    case SetGlobalTag(_) => false
  }

  lemma {:induction false} RunKeepsOthers(t: Table, ops: seq<Op>, name: Bytes)
    requires Good(t)
    requires forall i :: 0 <= i < |ops| ==> !Mentions(ops[i], name)
    ensures Good(Run(t, ops))
    ensures Lookup(Run(t, ops).users, name) == Lookup(t.users, name)
    decreases |ops|
  {
    if ops != [] {
      ApplyOutcome(t, ops[0]);
      RunKeepsOthers(Apply(t, ops[0]).0, ops[1..], name);
    }
  }

  /** The user that a successful operation gives to a name, if it does. */
  function Gives(op: Op, name: Bytes): Option<User> {
    match op
    case Replace(cfg) => if name in cfg.secrets then Some(UserOf(cfg, name)) else None
    case Put(n, secret, tag, limits) =>
      if n == name then Some(User(secret, tag, if limits.Some? then limits.value else NO_LIMITS)) else None
    case _ => None
  }

  /** No operation of the run gives the name to anybody; operations that fail may try. */
  predicate NeverGiven(t: Table, ops: seq<Op>, name: Bytes)
    decreases |ops|
  {
    ops == [] || ((Apply(t, ops[0]).1 == Done ==> Gives(ops[0], name) == None)
                  && NeverGiven(Apply(t, ops[0]).0, ops[1..], name))
  }

  lemma GivenExactly(t: Table, op: Op, name: Bytes)
    requires Good(t) && Apply(t, op).1 == Done
    ensures Gives(op, name).Some? ==> Lookup(Apply(t, op).0.users, name) == Gives(op, name)
    ensures Gives(op, name).None? && name !in t.users ==> name !in Apply(t, op).0.users
  {
  }

  lemma {:induction false} AbsentStaysAbsent(t: Table, ops: seq<Op>, name: Bytes)
    requires Good(t) && name !in t.users && NeverGiven(t, ops, name)
    ensures Good(Run(t, ops)) && name !in Run(t, ops).users
    decreases |ops|
  {
    if ops != [] {
      ApplyOutcome(t, ops[0]);
      if Apply(t, ops[0]).1 == Done {
        GivenExactly(t, ops[0], name);
      }
      AbsentStaysAbsent(Apply(t, ops[0]).0, ops[1..], name);
    }
  }

  /** After a delete and any run that does not give the name to anybody, replaces and failed attempts included, it is
      absent; and whatever operation then adds it again, by a put or a replace, it has exactly the secret, tag and
      limits of that operation. Nothing of the deleted user comes back. */
  lemma DeletedStaysDeleted(t: Table, name: Bytes, ops: seq<Op>, op: Op)
    requires Good(t) && Apply(t, Delete(name)).1 == Done
    requires NeverGiven(Apply(t, Delete(name)).0, ops, name)
    ensures var later := Run(Apply(t, Delete(name)).0, ops);
            && name !in later.users
            && (Apply(later, op).1 == Done ==> Lookup(Apply(later, op).0.users, name) == Gives(op, name))
  {
    ApplyOutcome(t, Delete(name));
    var gone := Apply(t, Delete(name)).0;
    AbsentStaysAbsent(gone, ops, name);
    var later := Run(gone, ops);
    if Apply(later, op).1 == Done {
      GivenExactly(later, op, name);
    }
  }
}
