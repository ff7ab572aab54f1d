/**
 The registry of live connections (server/net/connection_registry.cpp): descriptors to connections, and beside it a count
 per address that must always be the number of live connections from that address.
 */
module Registry {

  /** What the registry looks at in a connection. */
  datatype Conn = Conn(address: string, authenticated: bool, lastActivity: nat)

  datatype Caps = Caps(total: nat, perAddress: nat)

  datatype Reg = Reg(connections: map<int, Conn>, counts: map<string, nat>)

  const EMPTY_REG := Reg(map[], map[])

  datatype Timeouts = Timeouts(handshake: nat, idle: nat)

  ghost function From(connections: map<int, Conn>, address: string): set<int> {
    set d | d in connections && connections[d].address == address
  }

  /** Each count is the number of live connections from its address, and there are no zero entries. */
  ghost predicate Consistent(r: Reg) {
    && (forall a :: a in r.counts ==> r.counts[a] == |From(r.connections, a)| > 0)
    && (forall d :: d in r.connections ==> r.connections[d].address in r.counts)
  }

  /** A cap of 0 per address still lets one connection in, because an unseen address is not looked up. */
  function PerAddressBound(caps: Caps): nat {
    if caps.perAddress == 0 then 1 else caps.perAddress
  }

  ghost predicate WithinCaps(caps: Caps, r: Reg) {
    |r.connections| <= caps.total && forall a :: |From(r.connections, a)| <= PerAddressBound(caps)
  }

  function Insert(caps: Caps, r: Reg, d: int, c: Conn): (Reg, bool) {
    if |r.connections| >= caps.total then (r, false)
    else if c.address in r.counts && r.counts[c.address] >= caps.perAddress then (r, false)
    else
      var count := if c.address in r.counts then r.counts[c.address] else 0;
      // An occupied descriptor keeps its connection, while the address is counted all the same.
      (Reg(if d in r.connections then r.connections else r.connections[d := c], r.counts[c.address := count + 1]), true)
  }

  function Remove(r: Reg, d: int): Reg {
    if d !in r.connections then r
    else
      var a := r.connections[d].address;
      var counts := if a !in r.counts then r.counts
                    else if r.counts[a] <= 1 then r.counts - {a}
                    else r.counts[a := r.counts[a] - 1];
      Reg(r.connections - {d}, counts)
  }

  predicate Expired(c: Conn, now: nat, limits: Timeouts) {
    && (c.authenticated ==> limits.idle != 0)
    && now > c.lastActivity
    && now - c.lastActivity > (if c.authenticated then limits.idle else limits.handshake)
  }

  /** Activity and authentication change in place; the address never does. */
  function Touch(r: Reg, d: int, authenticated: bool, now: nat): Reg {
    if d !in r.connections then r
    else r.(connections := r.connections[d := r.connections[d].(authenticated := authenticated, lastActivity := now)])
  }

  function RemoveAll(r: Reg, ds: seq<int>): Reg
    decreases |ds|
  {
    if ds == [] then r else RemoveAll(Remove(r, ds[0]), ds[1..])
  }

  // ---------------------------------------------------------------------------------------------
  // One operation

  lemma NoneFrom(r: Reg, a: string)
    requires Consistent(r) && a !in r.counts
    ensures From(r.connections, a) == {}
  {
    forall d | d in r.connections ensures r.connections[d].address != a {}
  }

  lemma FromWithOneMore(m: map<int, Conn>, d: int, c: Conn, a: string)
    requires d !in m
    ensures From(m[d := c], a) == if a == c.address then From(m, a) + {d} else From(m, a)
  {
  }

  lemma FreshInsertConsistent(caps: Caps, r: Reg, d: int, c: Conn)
    requires Consistent(r) && d !in r.connections
    ensures Consistent(Insert(caps, r, d, c).0)
  {
    var (after, ok) := Insert(caps, r, d, c);
    if ok {
      if c.address !in r.counts {
        NoneFrom(r, c.address);
      }
      forall a | a in after.counts ensures after.counts[a] == |From(after.connections, a)| > 0 {
        FromWithOneMore(r.connections, d, c, a);
      }
    }
  }

  /** Inserting keeps the counts right exactly when it is refused or the descriptor is fresh. */
  lemma InsertConsistent(caps: Caps, r: Reg, d: int, c: Conn)
    requires Consistent(r)
    ensures
      var (after, ok) := Insert(caps, r, d, c);
      Consistent(after) <==> !ok || d !in r.connections
  {
    var (after, ok) := Insert(caps, r, d, c);
    if d !in r.connections {
      FreshInsertConsistent(caps, r, d, c);
    } else if ok {
      if c.address !in r.counts {
        NoneFrom(r, c.address);
      }
      assert From(after.connections, c.address) == From(r.connections, c.address);
      assert c.address in after.counts && after.counts[c.address] == |From(after.connections, c.address)| + 1;
    }
  }

  lemma InsertWithinCaps(caps: Caps, r: Reg, d: int, c: Conn)
    requires Consistent(r) && WithinCaps(caps, r) && d !in r.connections
    ensures WithinCaps(caps, Insert(caps, r, d, c).0)
  {
    if Insert(caps, r, d, c).1 {
      var grown := r.connections[d := c];
      forall a ensures |From(grown, a)| <= PerAddressBound(caps) {
        FromWithOneMore(r.connections, d, c, a);
        if c.address !in r.counts {
          NoneFrom(r, c.address);
        }
        assert |From(r.connections, a)| <= PerAddressBound(caps);
      }
    }
  }

  lemma FromWithOneLess(r: Reg, d: int, b: string)
    requires d in r.connections
    ensures
      From(r.connections - {d}, b)
      == if b == r.connections[d].address then From(r.connections, b) - {d} else From(r.connections, b)
  {
  }

  lemma RemoveConsistent(r: Reg, d: int)
    requires Consistent(r) && d in r.connections
    ensures Consistent(Remove(r, d))
  {
    var after := Remove(r, d);
    var a := r.connections[d].address;
    assert d in From(r.connections, a);
    forall b ensures From(after.connections, b) == if b == a then From(r.connections, b) - {d} else From(r.connections, b) {
      FromWithOneLess(r, d, b);
    }
    assert |From(after.connections, a)| == |From(r.connections, a)| - 1;
    forall e | e in after.connections ensures after.connections[e].address in after.counts {
      assert r.connections[e].address in r.counts;
      if r.connections[e].address == a {
        assert e in From(after.connections, a);
        assert |From(after.connections, a)| > 0;
        assert r.counts[a] > 1;
      }
    }
  }

  lemma RemoveWithinCaps(caps: Caps, r: Reg, d: int)
    requires WithinCaps(caps, r) && d in r.connections
    ensures WithinCaps(caps, Remove(r, d))
  {
    var after := Remove(r, d);
    forall b ensures From(after.connections, b) <= From(r.connections, b) {
    }
    forall b ensures |From(after.connections, b)| <= |From(r.connections, b)| {
      SubsetSize(From(after.connections, b), From(r.connections, b));
    }
    assert after.connections.Keys == r.connections.Keys - {d};
    SubsetSize(after.connections.Keys, r.connections.Keys);
    assert |after.connections.Keys| == |after.connections| && |r.connections.Keys| == |r.connections|;
  }

  lemma {:induction false} SubsetSize(a: set<int>, b: set<int>)
    requires a <= b
    ensures |a| <= |b|
  {
    assert b == a + (b - a);
  }

  lemma RemoveKeeps(caps: Caps, r: Reg, d: int)
    requires Consistent(r) && WithinCaps(caps, r)
    ensures Consistent(Remove(r, d)) && WithinCaps(caps, Remove(r, d))
    ensures Remove(r, d).connections == r.connections - {d}
  {
    if d in r.connections {
      RemoveConsistent(r, d);
      RemoveWithinCaps(caps, r, d);
    }
  }

  lemma TouchKeeps(caps: Caps, r: Reg, d: int, authenticated: bool, now: nat)
    requires Consistent(r) && WithinCaps(caps, r)
    ensures Consistent(Touch(r, d, authenticated, now)) && WithinCaps(caps, Touch(r, d, authenticated, now))
  {
    var after := Touch(r, d, authenticated, now);
    forall a ensures From(after.connections, a) == From(r.connections, a) {}
    assert after.connections.Keys == r.connections.Keys;
    assert |after.connections.Keys| == |after.connections| && |r.connections.Keys| == |r.connections|;
  }

  lemma {:induction false} RemoveAllKeeps(caps: Caps, r: Reg, ds: seq<int>)
    requires Consistent(r) && WithinCaps(caps, r)
    ensures Consistent(RemoveAll(r, ds)) && WithinCaps(caps, RemoveAll(r, ds))
    decreases |ds|
  {
    if ds != [] {
      RemoveKeeps(caps, r, ds[0]);
      RemoveAllKeeps(caps, Remove(r, ds[0]), ds[1..]);
    }
  }

  lemma {:induction false} RemoveAllRemoves(r: Reg, ds: seq<int>)
    ensures RemoveAll(r, ds).connections == r.connections - (set d | d in ds)
    decreases |ds|
  {
    if ds != [] {
      RemoveAllRemoves(Remove(r, ds[0]), ds[1..]);
      assert (set d | d in ds) == {ds[0]} + (set d | d in ds[1..]);
      assert Remove(r, ds[0]).connections == r.connections - {ds[0]};
    }
  }

  /**
   Who gets in, in terms of the live connections: there is room in all, and the address has none yet or fewer than its cap.
   So a cap of 0 per address does not close the door to the first connection.
   */
  lemma AdmittedIff(caps: Caps, r: Reg, d: int, c: Conn)
    requires Consistent(r)
    ensures
      var live := |From(r.connections, c.address)|;
      Insert(caps, r, d, c).1 <==> |r.connections| < caps.total && (live == 0 || live < caps.perAddress)
  {
    if c.address !in r.counts {
      NoneFrom(r, c.address);
    }
  }

  // ---------------------------------------------------------------------------------------------
  // Runs

  datatype Op =
    | Accept(d: int, conn: Conn)
    | Drop(d: int)
    | Activity(d: int, authenticated: bool, at: nat)
    | Sweep(expired: seq<int>)

  function Apply(caps: Caps, r: Reg, op: Op): Reg {
    match op
    case Accept(d, conn) => Insert(caps, r, d, conn).0
    case Drop(d) => Remove(r, d)
    case Activity(d, authenticated, at) => Touch(r, d, authenticated, at)
    case Sweep(expired) => RemoveAll(r, expired)
  }

  function ApplyAll(caps: Caps, ops: seq<Op>): Reg {
    if ops == [] then EMPTY_REG else Apply(caps, ApplyAll(caps, ops[..|ops| - 1]), ops[|ops| - 1])
  }

  /** The system never hands out a descriptor that is still in use. */
  ghost predicate FreshDescriptors(caps: Caps, ops: seq<Op>) {
    forall i :: 0 <= i < |ops| && ops[i].Accept? ==> ops[i].d !in ApplyAll(caps, ops[..i]).connections
  }

  /** Over every run, counts and connections agree and both caps hold. */
  lemma {:induction false} RunConsistent(caps: Caps, ops: seq<Op>)
    requires FreshDescriptors(caps, ops)
    ensures Consistent(ApplyAll(caps, ops)) && WithinCaps(caps, ApplyAll(caps, ops))
    decreases |ops|
  {
    if ops == [] {
      assert forall a :: From(EMPTY_REG.connections, a) == {};
    } else {
      var init, op := ops[..|ops| - 1], ops[|ops| - 1];
      assert forall i :: 0 <= i < |init| ==> init[..i] == ops[..i];
      RunConsistent(caps, init);
      var r := ApplyAll(caps, init);
      match op
      case Accept(d, conn) =>
        InsertConsistent(caps, r, d, conn);
        InsertWithinCaps(caps, r, d, conn);
      case Drop(d) => RemoveKeeps(caps, r, d);
      case Activity(d, authenticated, at) => TouchKeeps(caps, r, d, authenticated, at);
      case Sweep(expired) => RemoveAllKeeps(caps, r, expired);
    }
  }

  /** Which budget counts: until it is authenticated that for the handshake, then the idle one, where 0 is no limit. */
  lemma ExpiredIff(c: Conn, now: nat, limits: Timeouts)
    ensures !c.authenticated ==> (Expired(c, now, limits) <==> c.lastActivity + limits.handshake < now)
    ensures c.authenticated ==> (Expired(c, now, limits) <==> limits.idle != 0 && c.lastActivity + limits.idle < now)
  {
  }

  predicate ActivityOf(op: Op, d: int) {
    op.Activity? && op.d == d
  }

  /** Op i brought this connection in, op k was its last sign of life, and nothing has taken it out. */
  ghost predicate SeenAt(ops: seq<Op>, d: int, c: Conn, i: nat, k: nat) {
    && i <= k < |ops| && ops[i].Accept? && ops[i].d == d && c.address == ops[i].conn.address
    && (if k == i then c == ops[i].conn else ops[k] == Activity(d, c.authenticated, c.lastActivity))
    && (forall j :: k < j < |ops| ==> !ActivityOf(ops[j], d))
    && (forall j :: i < j < |ops| ==> ops[j] != Drop(d) && !(ops[j].Sweep? && d in ops[j].expired))
  }

  lemma SeenLonger(ops: seq<Op>, op: Op, d: int, c: Conn, i: nat, k: nat)
    requires SeenAt(ops, d, c, i, k) && op != Drop(d) && !(op.Sweep? && d in op.expired)
    ensures !ActivityOf(op, d) ==> SeenAt(ops + [op], d, c, i, k)
    ensures ActivityOf(op, d) ==> SeenAt(ops + [op], d, Conn(c.address, op.authenticated, op.at), i, |ops|)
  {
  }

  lemma OneOp(caps: Caps, r: Reg, op: Op, d: int)
    requires d in Apply(caps, r, op).connections && !(op.Accept? && op.d in r.connections)
    ensures
      var c := Apply(caps, r, op).connections[d];
      if d in r.connections then
        && op != Drop(d) && !(op.Sweep? && d in op.expired)
        && c == if ActivityOf(op, d) then Conn(r.connections[d].address, op.authenticated, op.at) else r.connections[d]
      else op == Accept(d, c)
  {
    if op.Sweep? {
      RemoveAllRemoves(r, op.expired);
    }
  }

  /** Over every run, a live connection is as its last sign of life left it, from the address it came in with. */
  lemma {:induction false} LastSeen(caps: Caps, ops: seq<Op>, d: int) returns (i: nat, k: nat)
    requires FreshDescriptors(caps, ops) && d in ApplyAll(caps, ops).connections
    ensures SeenAt(ops, d, ApplyAll(caps, ops).connections[d], i, k)
    decreases |ops|
  {
    if ops == [] {
      assert false;
    } else {
      var init, op := ops[..|ops| - 1], ops[|ops| - 1];
      assert ops == init + [op] && (forall j :: 0 <= j < |init| ==> init[..j] == ops[..j]);
      var r := ApplyAll(caps, init);
      OneOp(caps, r, op, d);
      i, k := |init|, |init|;
      if d in r.connections {
        i, k := LastSeen(caps, init, d);
        SeenLonger(init, op, d, r.connections[d], i, k);
        k := if ActivityOf(op, d) then |init| else k;
      }
    }
  }

  /** Some entry of a table still to be visited. */
  method NextOf<T>(todo: set<T>) returns (next: T)
    requires todo != {}
    ensures next in todo
  {
    next :| next in todo;
  }

  // ---------------------------------------------------------------------------------------------
  // The registry object

  class ConnectionRegistry {
    const caps: Caps
    var connections: map<int, Conn>
    var addressCounts: map<string, nat>

    ghost function Value(): Reg
      reads this
    {
      Reg(connections, addressCounts)
    }

    ghost predicate Valid()
      reads this
    {
      Consistent(Value()) && WithinCaps(caps, Value())
    }

    constructor (caps: Caps)
      ensures this.caps == caps && Value() == EMPTY_REG && Valid()
    {
      this.caps := caps;
      connections, addressCounts := map[], map[];
      new;
      RunConsistent(caps, []);
    }

    method InsertConnection(d: int, c: Conn) returns (ok: bool)
      modifies this
      ensures (Value(), ok) == Insert(caps, old(Value()), d, c)
      ensures old(Valid()) && d !in old(connections) ==> Valid()
    {
      ghost var before := Value();
      if |connections| >= caps.total {
        return false;
      }
      if c.address in addressCounts && addressCounts[c.address] >= caps.perAddress {
        return false;
      }
      var count := if c.address in addressCounts then addressCounts[c.address] else 0;
      addressCounts := addressCounts[c.address := count + 1];
      if d !in connections {
        connections := connections[d := c];
      }
      ok := true;
      if old(Valid()) && d !in before.connections {
        InsertConsistent(caps, before, d, c);
        InsertWithinCaps(caps, before, d, c);
      }
    }

    method RemoveConnection(d: int)
      modifies this
      ensures Value() == Remove(old(Value()), d)
      ensures old(Valid()) ==> Valid() && connections == old(connections) - {d}
    {
      ghost var before := Value();
      if d in connections {
        var a := connections[d].address;
        if a in addressCounts {
          if addressCounts[a] <= 1 {
            addressCounts := addressCounts - {a};
          } else {
            addressCounts := addressCounts[a := addressCounts[a] - 1];
          }
        }
        connections := connections - {d};
      }
      if old(Valid()) {
        RemoveKeeps(caps, before, d);
      }
    }

    /** Walks the connections and lists the expired ones, in no particular order. */
    method CollectExpired(now: nat, limits: Timeouts) returns (expired: seq<int>)
      ensures forall d :: d in expired <==> d in connections && Expired(connections[d], now, limits)
    {
      expired := [];
      var todo: set<int> := connections.Keys;
      while todo != {}
        invariant todo <= connections.Keys
        invariant forall d :: d in expired <==> d in connections && d !in todo && Expired(connections[d], now, limits)
        decreases |todo|
      {
        var d := NextOf(todo);
        var c := connections[d];
        if !(c.authenticated && limits.idle == 0) {
          var budget := if c.authenticated then limits.idle else limits.handshake;
          if now > c.lastActivity && now - c.lastActivity > budget {
            expired := expired + [d];
          }
        }
        todo := todo - {d};
      }
    }

    /** The periodic sweep closes exactly the expired connections, and the counts follow. */
    method SweepExpired(now: nat, limits: Timeouts)
      requires Valid()
      modifies this
      ensures Valid()
      ensures connections == map d | d in old(connections) && !Expired(old(connections)[d], now, limits) :: old(connections)[d]
    {
      ghost var before := Value();
      var expired := CollectExpired(now, limits);
      for n := 0 to |expired|
        invariant RemoveAll(Value(), expired[n..]) == RemoveAll(before, expired)
      {
        assert expired[n..][1..] == expired[n + 1..];
        RemoveConnection(expired[n]);
      }
      assert expired[|expired|..] == [];
      RemoveAllKeeps(caps, before, expired);
      RemoveAllRemoves(before, expired);
      assert forall d :: d in before.connections ==> (d in expired <==> Expired(before.connections[d], now, limits));
    }
  }
}
