/** mtglib/pending_handshakes.go: slots for unauthenticated handshakes, counted per client address. */
module PendingHandshakes {
  import opened ByteCodec

  type Addr = Bytes

  /** Go's uint32, whose increment wraps. */
  type UInt32 = n: int | 0 <= n < 0x1_0000_0000

  function Incremented(n: UInt32): UInt32 {
    (n + 1) % 0x1_0000_0000
  }

  /** netip.AddrFromSlice and Unmap: an IPv4 address written as IPv6 is that IPv4 address. */
  function Normalize(ip: Bytes): (r: Option<Addr>)
    ensures r.Some? <==> |ip| == 4 || |ip| == 16
  {
    if |ip| == 4 then Some(ip)
    else if |ip| == 16 then Some(if ip[..12] == Zeros(10) + [0xff, 0xff] then ip[12..] else ip)
    else None
  }

  /** Two texts of one address share a counter: an IPv4 address and its IPv6-mapped form, and nothing else. */
  lemma SameAddress(a: Bytes, b: Bytes)
    requires Normalize(a).Some? && Normalize(b).Some?
    ensures Normalize(a) == Normalize(b) <==> a == b || a == Mapped(b) || b == Mapped(a)
  {
    if |a| == 16 && a[..12] == Mapped([])  {
      assert a == Mapped(a[12..]);
    }
    if |b| == 16 && b[..12] == Mapped([]) {
      assert b == Mapped(b[12..]);
    }
    assert forall x: Bytes :: |x| == 4 ==> Mapped(x)[..12] == Mapped([]) && Mapped(x)[12..] == x;
  }

  function Mapped(ip: Bytes): Bytes {
    Zeros(10) + [0xff, 0xff] + ip
  }

  /** The release function of one acquired slot; done is the state of its sync.Once. */
  class Slot {
    const addr: Addr
    var done: bool

    constructor (addr: Addr)
      ensures this.addr == addr && !done
    {
      this.addr, done := addr, false;
    }
  }

  datatype Action = NoAction | Rejected | Observed

  // ---------------------------------------------------------------- counters against slots

  function Counter(pending: map<Addr, UInt32>, a: Addr): UInt32 {
    if a in pending then pending[a] else 0
  }

  function SlotsAt(open: set<Slot>, a: Addr): set<Slot> {
    set s | s in open && s.addr == a
  }

  /** Every counter is the number of its open slots, and a zero is not stored. */
  ghost predicate Tallied(pending: map<Addr, UInt32>, open: set<Slot>) {
    && (forall a :: a in pending ==> pending[a] > 0)
    && forall a :: Counter(pending, a) == |SlotsAt(open, a)|
  }

  /** One more slot is counted right as long as a uint32 can count it. */
  lemma TallyAdd(pending: map<Addr, UInt32>, open: set<Slot>, s: Slot)
    requires Tallied(pending, open) && s !in open
    ensures |SlotsAt(open + {s}, s.addr)| == Counter(pending, s.addr) + 1
    ensures Tallied(pending[s.addr := Incremented(Counter(pending, s.addr))], open + {s}) <==>
            |SlotsAt(open + {s}, s.addr)| < 0x1_0000_0000
  {
    var next := pending[s.addr := Incremented(Counter(pending, s.addr))];
    assert Counter(pending, s.addr) == |SlotsAt(open, s.addr)|;
    assert SlotsAt(open + {s}, s.addr) == SlotsAt(open, s.addr) + {s};
    if Counter(pending, s.addr) + 1 < 0x1_0000_0000 {
      forall a
        ensures Counter(next, a) == |SlotsAt(open + {s}, a)|
      {
        if a != s.addr {
          assert SlotsAt(open + {s}, a) == SlotsAt(open, a);
          assert Counter(next, a) == Counter(pending, a);
        }
      }
    } else {
      assert next[s.addr] == 0;
    }
  }

  function Decremented(pending: map<Addr, UInt32>, a: Addr): map<Addr, UInt32>
    requires a in pending
  {
    if pending[a] <= 1 then pending - {a} else pending[a := pending[a] - 1]
  }

  lemma TallyRemove(pending: map<Addr, UInt32>, open: set<Slot>, s: Slot)
    requires Tallied(pending, open) && s in open
    ensures s.addr in pending
    ensures Tallied(Decremented(pending, s.addr), open - {s})
  {
    assert s in SlotsAt(open, s.addr);
    assert Counter(pending, s.addr) == |SlotsAt(open, s.addr)| > 0;
    var next := Decremented(pending, s.addr);
    forall a
      ensures Counter(next, a) == |SlotsAt(open - {s}, a)|
    {
      if a == s.addr {
        assert SlotsAt(open - {s}, a) == SlotsAt(open, a) - {s};
      } else {
        assert SlotsAt(open - {s}, a) == SlotsAt(open, a);
      }
    }
  }

  /** The tracked addresses are those of the open slots: none once every slot is released. */
  lemma TrackedExactly(pending: map<Addr, UInt32>, open: set<Slot>)
    requires Tallied(pending, open)
    ensures pending.Keys == set s | s in open :: s.addr
    ensures pending == map[] <==> open == {}
  {
    forall s | s in open
      ensures s.addr in pending
    {
      assert s in SlotsAt(open, s.addr);
      assert Counter(pending, s.addr) == |SlotsAt(open, s.addr)|;
    }
    forall a | a in pending
      ensures exists s :: s in open && s.addr == a
    {
      assert Counter(pending, a) == |SlotsAt(open, a)| > 0;
      var s :| s in SlotsAt(open, a);
    }
    if open != {} {
      var s :| s in open;
      assert s.addr in pending;
    }
  }

  // ---------------------------------------------------------------- pendingHandshakes

  class Limiter {
    var pending: map<Addr, UInt32>
    ghost var issued: set<Slot>

    /** The admitted slots that have not been released. */
    ghost function Open(): set<Slot>
      reads this, issued
    {
      set s | s in issued && !s.done
    }

    ghost predicate Valid()
      reads this, issued
    {
      Tallied(pending, Open())
    }

    ghost predicate Within(limit: nat)
      reads this
    {
      forall a :: a in pending ==> pending[a] <= limit
    }

    constructor ()
      ensures Valid() && issued == {} && pending == map[]
    {
      pending, issued := map[], {};
    }

    /** Without dry-run the counters are always right. With it they are, up to the 2^32nd open slot of one address,
        which would wrap its counter. */
    method Acquire(ip: Bytes, limit: UInt32, dryRun: bool) returns (slot: Slot?, action: Action, admitted: bool)
      requires Valid()
      modifies this
      ensures slot == null || !dryRun ==> Valid()
      ensures slot != null ==> (Valid() <==> |SlotsAt(Open(), slot.addr)| < 0x1_0000_0000)
      ensures slot != null ==> Counter(pending, slot.addr) == |SlotsAt(Open(), slot.addr)| % 0x1_0000_0000
      ensures limit == 0 || Normalize(ip) == None ==> slot == null && action == NoAction && admitted && unchanged(this)
      ensures limit > 0 && Normalize(ip).Some? ==>
        var over := |SlotsAt(old(Open()), Normalize(ip).value)| >= limit;
        && (slot != null <==> admitted) && (admitted <==> !over || dryRun)
        && action == if !over then NoAction else if dryRun then Observed else Rejected
      ensures slot == null ==> unchanged(this)
      ensures slot != null ==>
        && fresh(slot) && !slot.done && Normalize(ip) == Some(slot.addr)
        && issued == old(issued) + {slot} && Open() == old(Open()) + {slot}
      ensures !dryRun && old(Within(limit)) ==> Within(limit)
    {
      slot := null;
      if limit == 0 {
        return null, NoAction, true;
      }
      var n := Normalize(ip);
      if n.None? {
        return null, NoAction, true;
      }
      var addr := n.value;
      assert Counter(pending, addr) == |SlotsAt(Open(), addr)|;
      var over := Counter(pending, addr) >= limit;
      if over && !dryRun {
        return null, Rejected, false;
      }
      ghost var before := Open();
      slot := new Slot(addr);
      assert slot !in issued;
      TallyAdd(pending, before, slot);
      pending := pending[addr := Incremented(Counter(pending, addr))];
      issued := issued + {slot};
      assert Open() == before + {slot};
      return slot, if over then Observed else NoAction, true;
    }

    /** Any number of calls release the slot once. */
    method Release(slot: Slot)
      requires Valid() && slot in issued
      modifies this`pending, slot`done
      ensures Valid() && Open() == old(Open()) - {slot}
      ensures old(slot.done) ==> unchanged(this) && unchanged(slot)
      ensures forall limit :: old(Within(limit)) ==> Within(limit)
    {
      if slot.done {
        return;
      }
      ghost var before := Open();
      TallyRemove(pending, before, slot);
      ghost var next := Decremented(pending, slot.addr);
      slot.done := true;
      if Counter(pending, slot.addr) <= 1 {
        pending := pending - {slot.addr};
      } else {
        pending := pending[slot.addr := pending[slot.addr] - 1];
      }
      assert pending == next && Open() == before - {slot};
    }

    /** finishPendingHandshake of mtglib/stream_context.go: nothing to do for a stream that took no slot. */
    method FinishPendingHandshake(slot: Slot?)
      requires Valid() && (slot != null ==> slot in issued)
      modifies this`pending, slot
      ensures Valid() && Open() == old(Open()) - if slot == null then {} else {slot}
    {
      if slot != null {
        Release(slot);
      }
    }

    method PendingFor(ip: Bytes) returns (k: nat)
      requires Valid()
      ensures k == if Normalize(ip).Some? then |SlotsAt(Open(), Normalize(ip).value)| else 0
    {
      var n := Normalize(ip);
      if n.None? {
        return 0;
      }
      assert Counter(pending, n.value) == |SlotsAt(Open(), n.value)|;
      return Counter(pending, n.value);
    }

    method TrackedIPs() returns (k: nat)
      requires Valid()
      ensures k == |set s | s in Open() :: s.addr|
      ensures k == 0 <==> Open() == {}
    {
      TrackedExactly(pending, Open());
      assert |pending| == |pending.Keys|;
      return |pending|;
    }
  }
}
