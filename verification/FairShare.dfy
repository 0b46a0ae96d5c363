/** The fair-share throttle of mtglib/proxy_stats.go: an iterative allocator over a map, visited in any order. */
module FairShare {
  import opened ByteCodec

  type User = string
  type Conns = map<User, nat>

  /** What a user costs when nobody may hold more than `level` connections. */
  function Clipped(conns: nat, level: int): int {
    if conns <= level then conns else level
  }

  /** The cost of a group of users at a given level. */
  ghost function Spent(m: Conns, users: set<User>, level: int): int
    requires users <= m.Keys
    decreases |users|
  {
    if users == {} then 0 else
      var k :| k in users;
      Clipped(m[k], level) + Spent(m, users - {k}, level)
  }

  /** All connections of a group of users. */
  ghost function Total(m: Conns, users: set<User>): int
    requires users <= m.Keys
    decreases |users|
  {
    if users == {} then 0 else
      var k :| k in users;
      m[k] + Total(m, users - {k})
  }

  /** The sum does not depend on which user is counted first. */
  lemma {:induction false} SpentPick(m: Conns, users: set<User>, k: User, level: int)
    requires k in users && users <= m.Keys
    ensures Spent(m, users, level) == Clipped(m[k], level) + Spent(m, users - {k}, level)
    decreases |users|
  {
    var first :| first in users
                 && Spent(m, users, level) == Clipped(m[first], level) + Spent(m, users - {first}, level);
    if first != k {
      SpentPick(m, users - {first}, k, level);
      SpentPick(m, users - {k}, first, level);
      assert users - {first} - {k} == users - {k} - {first};
    }
  }

  lemma {:induction false} TotalPick(m: Conns, users: set<User>, k: User)
    requires k in users && users <= m.Keys
    ensures Total(m, users) == m[k] + Total(m, users - {k})
    decreases |users|
  {
    var first :| first in users && Total(m, users) == m[first] + Total(m, users - {first});
    if first != k {
      TotalPick(m, users - {first}, k);
      TotalPick(m, users - {k}, first);
      assert users - {first} - {k} == users - {k} - {first};
    }
  }

  /** A higher level never costs less. */
  lemma {:induction false} SpentMonotone(m: Conns, users: set<User>, low: int, high: int)
    requires users <= m.Keys && low <= high
    ensures Spent(m, users, low) <= Spent(m, users, high)
    decreases |users|
  {
    if users != {} {
      var k :| k in users;
      SpentPick(m, users, k, low);
      SpentPick(m, users, k, high);
      SpentMonotone(m, users - {k}, low, high);
    }
  }

  lemma {:induction false} SpentSplit(m: Conns, users: set<User>, some: set<User>, level: int)
    requires some <= users <= m.Keys
    ensures Spent(m, users, level) == Spent(m, some, level) + Spent(m, users - some, level)
    decreases |some|
  {
    if some == {} {
      assert users - some == users;
    } else {
      var k :| k in some;
      SpentPick(m, users, k, level);
      SpentPick(m, some, k, level);
      SpentSplit(m, users - {k}, some - {k}, level);
      assert users - {k} - (some - {k}) == users - some;
    }
  }

  /** Users at or below the level are paid in full. */
  lemma {:induction false} SpentBelow(m: Conns, users: set<User>, level: int)
    requires users <= m.Keys && forall u :: u in users ==> m[u] <= level
    ensures Spent(m, users, level) == Total(m, users)
    decreases |users|
  {
    if users != {} {
      var k :| k in users;
      SpentPick(m, users, k, level);
      TotalPick(m, users, k);
      SpentBelow(m, users - {k}, level);
    }
  }

  lemma OneMore(n: int, x: int)
    ensures n * x == (n - 1) * x + x
  {
  }

  /** Users at or above the level cost exactly the level each. */
  lemma {:induction false} SpentAbove(m: Conns, users: set<User>, level: int)
    requires users <= m.Keys && forall u :: u in users ==> m[u] >= level
    ensures Spent(m, users, level) == |users| * level
    decreases |users|
  {
    if users != {} {
      var k :| k in users;
      SpentPick(m, users, k, level);
      SpentAbove(m, users - {k}, level);
      OneMore(|users|, level);
    }
  }

  /** The reference: the highest common level the limit can pay for. */
  ghost predicate IsBestLevel(m: Conns, limit: int, level: int) {
    && level >= 0
    && Spent(m, m.Keys, level) <= limit
    && forall higher :: higher > level ==> Spent(m, m.Keys, higher) > limit
  }

  /** Capped users are exactly those above the level, all at that level. */
  ghost predicate IsFairCaps(m: Conns, limit: int, caps: map<User, int>, level: int) {
    && IsBestLevel(m, limit, level)
    && (forall u :: u in caps <==> u in m && m[u] > level)
    && (forall u :: u in caps ==> caps[u] == level)
  }

  lemma BestLevelUnique(m: Conns, limit: int, a: int, b: int)
    requires IsBestLevel(m, limit, a) && IsBestLevel(m, limit, b)
    ensures a <= b
  {
  }

  /** There is only one fair answer, so the order in which the map is visited cannot matter. */
  lemma FairCapsUnique(m: Conns, limit: int, a: map<User, int>, la: int, b: map<User, int>, lb: int)
    requires IsFairCaps(m, limit, a, la) && IsFairCaps(m, limit, b, lb)
    ensures a == b && la == lb
  {
    BestLevelUnique(m, limit, la, lb);
    BestLevelUnique(m, limit, lb, la);
    assert a.Keys == b.Keys;
  }

  /** What the loops know: `rest` is who remains, `share` a level that pays everybody removed in full and that
      the budget can pay to everybody remaining. */
  ghost predicate Progress(m: Conns, limit: int, rest: set<User>, budget: int, share: int) {
    && rest <= m.Keys
    && budget == limit - Total(m, m.Keys - rest)
    && budget >= |rest| * share
    && share >= 0
    && forall u :: u in m.Keys - rest ==> m[u] <= share
  }

  /** Paying one user at or below the share. */
  lemma RemoveOne(m: Conns, limit: int, rest: set<User>, budget: int, share: int, k: User)
    requires Progress(m, limit, rest, budget, share)
    requires k in rest && m[k] <= share
    ensures Progress(m, limit, rest - {k}, budget - m[k], share)
  {
    var paid := m.Keys - (rest - {k});
    TotalPick(m, paid, k);
    assert paid - {k} == m.Keys - rest;
    OneMore(|rest|, share);
  }

  lemma DivisionBounds(n: int, d: int)
    requires n >= 0 && d > 0
    ensures d * (n / d) <= n < d * (n / d + 1)
    ensures n / d >= 0
  {
    assert n == d * (n / d) + n % d;
    assert d * (n / d + 1) == d * (n / d) + d;
  }

  lemma MulLess(d: int, x: int, y: int)
    requires d > 0 && d * x < d * y
    ensures x < y
  {
  }

  lemma MulNonNegative(d: int, x: int)
    requires d >= 0 && x >= 0
    ensures d * x >= 0
  {
  }

  /** The share recomputed from the remaining budget never falls. */
  lemma NextShare(m: Conns, limit: int, rest: set<User>, budget: int, share: int)
    requires Progress(m, limit, rest, budget, share) && rest != {}
    ensures budget >= 0 && |rest| > 0
    ensures Progress(m, limit, rest, budget, budget / |rest|)
  {
    var d := |rest|;
    MulNonNegative(d, share);
    DivisionBounds(budget, d);
    MulLess(d, share, budget / d + 1);
  }

  /** Somebody always remains, because everybody together asks for more than the limit. */
  lemma SomeoneRemains(m: Conns, limit: int, rest: set<User>, budget: int, share: int)
    requires Progress(m, limit, rest, budget, share) && Total(m, m.Keys) > limit
    ensures rest != {}
  {
    assert m.Keys - {} == m.Keys;
  }

  lemma SpentAt(m: Conns, limit: int, rest: set<User>, budget: int, share: int, level: int)
    requires Progress(m, limit, rest, budget, share) && level >= share
    requires forall u :: u in rest ==> m[u] >= level
    ensures Spent(m, m.Keys, level) == limit - budget + |rest| * level
  {
    SpentSplit(m, m.Keys, rest, level);
    SpentAbove(m, rest, level);
    SpentBelow(m, m.Keys - rest, level);
  }

  /** A pass that removes nobody has found the best level. */
  lemma NoChangeIsBest(m: Conns, limit: int, rest: set<User>, budget: int, share: int)
    requires Progress(m, limit, rest, budget, share)
    requires rest != {} && |rest| > 0 && budget >= 0 && share == budget / |rest|
    requires forall u :: u in rest ==> m[u] > share
    ensures IsBestLevel(m, limit, share)
  {
    SpentAt(m, limit, rest, budget, share, share);
    SpentAt(m, limit, rest, budget, share, share + 1);
    DivisionBounds(budget, |rest|);
    forall higher | higher > share
      ensures Spent(m, m.Keys, higher) > limit
    {
      SpentMonotone(m, m.Keys, share + 1, higher);
    }
  }

  /** The first loop of computeFairCaps. */
  method SumConns(userConns: Conns) returns (total: int)
    ensures total == Total(userConns, userConns.Keys)
  {
    total := 0;
    var todo := userConns.Keys;
    while todo != {}
      invariant todo <= userConns.Keys
      invariant total + Total(userConns, todo) == Total(userConns, userConns.Keys)
      decreases |todo|
    {
      var name :| name in todo;
      TotalPick(userConns, todo, name);
      total := total + userConns[name];
      todo := todo - {name};
    }
  }

  /** `remaining` is userConns cut down to some of its users. */
  ghost predicate Copied(m: Conns, remaining: Conns) {
    remaining.Keys <= m.Keys && forall u :: u in remaining ==> remaining[u] == m[u]
  }

  /** One pass of the inner loop: removes every user at or below fairShare, in any order. */
  method Pass(ghost m: Conns, ghost limit: int, remaining: Conns, budget: int, fairShare: int)
    returns (left: Conns, funds: int, changed: bool)
    requires Copied(m, remaining) && Progress(m, limit, remaining.Keys, budget, fairShare)
    ensures Copied(m, left) && Progress(m, limit, left.Keys, funds, fairShare)
    ensures left.Keys <= remaining.Keys
    ensures changed <==> left.Keys != remaining.Keys
    ensures !changed ==> funds == budget
    ensures forall u :: u in left ==> m[u] > fairShare
  {
    left, funds, changed := remaining, budget, false;
    var todo := remaining.Keys;
    while todo != {}
      invariant todo <= left.Keys <= remaining.Keys
      invariant Copied(m, left) && Progress(m, limit, left.Keys, funds, fairShare)
      invariant forall u :: u in left && u !in todo ==> m[u] > fairShare
      invariant changed <==> left.Keys != remaining.Keys
      invariant !changed ==> funds == budget
      decreases |todo|
    {
      var name :| name in todo;
      todo := todo - {name};
      if left[name] <= fairShare {
        RemoveOne(m, limit, left.Keys, funds, fairShare, name);
        funds := funds - left[name];
        left := left - {name};
        assert name in remaining && name !in left;
        changed := true;
      }
    }
  }

  /** None when everybody fits; otherwise the fair caps, whatever order the maps are visited in. */
  method ComputeFairCaps(userConns: Conns, limit: nat) returns (caps: Option<map<User, int>>, ghost level: int)
    ensures caps.None? <==> Total(userConns, userConns.Keys) <= limit
    ensures caps.Some? ==> IsFairCaps(userConns, limit, caps.value, level)
    ensures caps.Some? ==> caps.value != map[]
  {
    level := 0;
    var total := SumConns(userConns);
    if total <= limit {
      return None, 0;
    }
    var remaining, budget: int, fairShare := userConns, limit, 0;
    assert userConns.Keys - remaining.Keys == {};
    var changed := true;
    while changed
      invariant Copied(userConns, remaining)
      invariant Progress(userConns, limit, remaining.Keys, budget, fairShare)
      invariant !changed ==> remaining.Keys != {} && IsBestLevel(userConns, limit, fairShare)
      invariant !changed ==> forall u :: u in remaining ==> userConns[u] > fairShare
      decreases changed, |remaining.Keys|
    {
      SomeoneRemains(userConns, limit, remaining.Keys, budget, fairShare);
      NextShare(userConns, limit, remaining.Keys, budget, fairShare);
      fairShare := budget / |remaining.Keys|;
      ghost var before := remaining.Keys;
      remaining, budget, changed := Pass(userConns, limit, remaining, budget, fairShare);
      if changed {
        Shrinks(remaining.Keys, before);
      } else {
        NoChangeIsBest(userConns, limit, remaining.Keys, budget, fairShare);
      }
    }
    level := fairShare;
    caps := Some(map name | name in remaining :: fairShare);
    assert caps.value.Keys == remaining.Keys;
  }

  lemma Shrinks(small: set<User>, big: set<User>)
    requires small <= big && small != big
    ensures |small| < |big|
  {
    var rest := big - small;
    assert big == small + rest;
    assert |rest| > 0;
  }
}
