/**
 The two request limits one above the other (server/net/rate_tracker.cpp): a reference with one table per limit, each counting
 on its own, and what the sweep leaves in the tables.
 */
module RateLayers {
  import opened RateLimit

  /** A table that counts every request under its key. */
  function Charge<K>(max: nat, t: Table<K>, k: K, now: nat): Table<K> {
    t[k := Register(max, now, Lookup(t, k)).0]
  }

  function ByAddress(l: Limits, asks: seq<Ask>): Table<string> {
    if asks == [] then map[]
    else
      var last := asks[|asks| - 1];
      Charge(l.perAddress, ByAddress(l, asks[..|asks| - 1]), last.address, last.now)
  }

  /** Would the address limit alone let this request pass after those? */
  predicate AddressPasses(l: Limits, asks: seq<Ask>, a: Ask) {
    Register(l.perAddress, a.now, Lookup(ByAddress(l, asks), a.address)).1
  }

  /** The requests that the identity limit gets to see: those of an account that their address let through. */
  function Seen(l: Limits, asks: seq<Ask>): seq<Ask> {
    if asks == [] then []
    else
      var before, last := asks[..|asks| - 1], asks[|asks| - 1];
      Seen(l, before) + (if AddressPasses(l, before, last) && last.userId != 0 then [last] else [])
  }

  function ByIdentity(l: Limits, seen: seq<Ask>): Table<nat> {
    if seen == [] then map[]
    else
      var last := seen[|seen| - 1];
      Charge(l.perIdentity, ByIdentity(l, seen[..|seen| - 1]), last.userId, last.now)
  }

  predicate IdentityPasses(l: Limits, seen: seq<Ask>, a: Ask) {
    a.userId == 0 || Register(l.perIdentity, a.now, Lookup(ByIdentity(l, seen), a.userId)).1
  }

  function Requests(asks: seq<Ask>): seq<Event> {
    seq(|asks|, i requires 0 <= i < |asks| => Request(asks[i]))
  }

  lemma SeenMore(l: Limits, seen: seq<Ask>, a: Ask)
    ensures ByIdentity(l, seen + [a]) == Charge(l.perIdentity, ByIdentity(l, seen), a.userId, a.now)
  {
    assert (seen + [a])[..|seen|] == seen;
  }

  lemma OneRequest(l: Limits, r: Run, asks: seq<Ask>, a: Ask)
    requires r.policy == Policy(ByAddress(l, asks), ByIdentity(l, Seen(l, asks)))
    ensures
      var all := asks + [a];
      Serve(l, r, Request(a))
      == Run(Policy(ByAddress(l, all), ByIdentity(l, Seen(l, all))),
             r.log + [Entry(a, AddressPasses(l, asks, a) && IdentityPasses(l, Seen(l, asks), a))])
  {
    assert (asks + [a])[..|asks|] == asks;
    SeenMore(l, Seen(l, asks), a);
    assert Seen(l, asks) + [] == Seen(l, asks);
  }

  /**
   The policy is the two limits on their own: the address table counts every request, the identity table exactly those of an
   account that their address let through, and a request passes if and only if both let it.
   */
  lemma {:induction false} Layered(l: Limits, asks: seq<Ask>)
    ensures ServeAll(l, Requests(asks)).policy == Policy(ByAddress(l, asks), ByIdentity(l, Seen(l, asks)))
    ensures
      asks != [] ==>
        var before, last := asks[..|asks| - 1], asks[|asks| - 1];
        ServeAll(l, Requests(asks)).log
        == ServeAll(l, Requests(before)).log
           + [Entry(last, AddressPasses(l, before, last) && IdentityPasses(l, Seen(l, before), last))]
    decreases |asks|
  {
    if asks != [] {
      var before, last := asks[..|asks| - 1], asks[|asks| - 1];
      Layered(l, before);
      assert Requests(asks)[..|asks| - 1] == Requests(before);
      assert asks == before + [last];
      OneRequest(l, ServeAll(l, Requests(before)), before, last);
    }
  }

  /** After a sweep a table holds exactly the windows that began less than two minutes before, as they were. */
  lemma SweepLeaves(l: Limits, r: Run, at: nat)
    ensures
      var after := Serve(l, r, Sweep(at));
      && after.log == r.log
      && (forall k :: k in after.policy.byAddress <==> k in r.policy.byAddress && at < r.policy.byAddress[k].start + 120)
      && (forall k :: k in after.policy.byIdentity <==> k in r.policy.byIdentity && at < r.policy.byIdentity[k].start + 120)
      && (forall k :: k in after.policy.byAddress ==> after.policy.byAddress[k] == r.policy.byAddress[k])
      && (forall k :: k in after.policy.byIdentity ==> after.policy.byIdentity[k] == r.policy.byIdentity[k])
  {
  }
}
