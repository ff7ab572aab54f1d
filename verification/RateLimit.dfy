/**
 The shared request limits (server/net/rate_limiter.cpp, rate_tracker.cpp): a fixed one-minute window per address and per
 registered identity, kept in tables that a periodic sweep purges.
 */
module RateLimit {
  import opened Prelude

  const WINDOW := 60
  const EXPIRY := 120

  datatype Window = Window(counter: nat, start: nat)

  const UNSEEN := Window(0, 0)

  /** One event against a window: the window afterwards, and whether the event is allowed. A limit of 0 is no limit. */
  function Register(max: nat, now: nat, w: Window): (Window, bool) {
    if max == 0 then (w, true)
    else
      var current := if now < w.start || now - w.start >= WINDOW then Window(0, now) else w;
      if current.counter >= max then (current, false) else (current.(counter := current.counter + 1), true)
  }

  type Table<!K> = map<K, Window>

  function Lookup<K>(t: Table<K>, k: K): Window {
    if k in t then t[k] else UNSEEN
  }

  predicate Expired(w: Window, now: nat) {
    now >= w.start && now - w.start >= EXPIRY
  }

  function Purge<K>(t: Table<K>, now: nat): Table<K> {
    map k | k in t && !Expired(t[k], now) :: t[k]
  }

  datatype Limits = Limits(perAddress: nat, perIdentity: nat)

  datatype Policy = Policy(byAddress: Table<string>, byIdentity: Table<nat>)

  const EMPTY_POLICY := Policy(map[], map[])

  datatype Ask = Ask(address: string, userId: nat, now: nat)

  /** The address is charged first; only if it may proceed is the identity charged, and user 0 is no identity. */
  function Admit(l: Limits, p: Policy, a: Ask): (Policy, bool) {
    var (w, addressOk) := Register(l.perAddress, a.now, Lookup(p.byAddress, a.address));
    var charged := p.(byAddress := p.byAddress[a.address := w]);
    if !addressOk || a.userId == 0 then (charged, addressOk)
    else
      var (v, identityOk) := Register(l.perIdentity, a.now, Lookup(p.byIdentity, a.userId));
      (charged.(byIdentity := p.byIdentity[a.userId := v]), identityOk)
  }

  datatype Event = Request(ask: Ask) | Sweep(at: nat)

  function TimeOf(e: Event): nat {
    match e case Request(a) => a.now case Sweep(at) => at
  }

  /** The requests of a run with the decision each got. */
  datatype Entry = Entry(ask: Ask, allowed: bool)

  datatype Run = Run(policy: Policy, log: seq<Entry>)

  function Serve(l: Limits, r: Run, e: Event): Run {
    match e
    case Request(a) =>
      var (p, ok) := Admit(l, r.policy, a);
      Run(p, r.log + [Entry(a, ok)])
    case Sweep(at) => r.(policy := Policy(Purge(r.policy.byAddress, at), Purge(r.policy.byIdentity, at)))
  }

  function ServeAll(l: Limits, events: seq<Event>): Run {
    if events == [] then Run(EMPTY_POLICY, []) else Serve(l, ServeAll(l, events[..|events| - 1]), events[|events| - 1])
  }

  /** The clock does not run backwards. */
  ghost predicate Ordered(events: seq<Event>) {
    forall i, j :: 0 <= i < j < |events| ==> TimeOf(events[i]) <= TimeOf(events[j])
  }

  function LastTime(events: seq<Event>): nat {
    if events == [] then 0 else TimeOf(events[|events| - 1])
  }

  function WithoutSweeps(events: seq<Event>): seq<Event> {
    if events == [] then []
    else
      var last := events[|events| - 1];
      WithoutSweeps(events[..|events| - 1]) + (if last.Sweep? then [] else [last])
  }

  // ---------------------------------------------------------------------------------------------
  // Purging is invisible

  /** A window that was purged may differ from the one kept, but only once that one is over for good. */
  ghost predicate Agree(now: nat, purged: Window, kept: Window) {
    purged == kept || (purged == UNSEEN && now >= WINDOW && now >= kept.start + WINDOW)
  }

  ghost predicate TablesAgree<K(!new)>(now: nat, purged: Table<K>, kept: Table<K>) {
    forall k :: Agree(now, Lookup(purged, k), Lookup(kept, k))
  }

  lemma RegisterAgrees(max: nat, before: nat, now: nat, w: Window, v: Window)
    requires before <= now && Agree(before, w, v)
    ensures Register(max, now, w).1 == Register(max, now, v).1
    ensures Agree(now, Register(max, now, w).0, Register(max, now, v).0)
  {
  }

  lemma TimePasses<K(!new)>(before: nat, now: nat, t: Table<K>, u: Table<K>)
    requires before <= now && TablesAgree(before, t, u)
    ensures TablesAgree(now, t, u)
  {
    forall k ensures Agree(now, Lookup(t, k), Lookup(u, k)) {
      assert Agree(before, Lookup(t, k), Lookup(u, k));
    }
  }

  lemma StoreAgrees<K(!new)>(now: nat, t: Table<K>, u: Table<K>, k: K, w: Window, v: Window)
    requires TablesAgree(now, t, u) && Agree(now, w, v)
    ensures TablesAgree(now, t[k := w], u[k := v])
  {
    var t', u' := t[k := w], u[k := v];
    forall j ensures Agree(now, Lookup(t', j), Lookup(u', j)) {
      assert Agree(now, Lookup(t, j), Lookup(u, j));
    }
  }

  /** The same request against agreeing policies: the same decision, and they still agree. */
  lemma AdmitAgrees(l: Limits, before: nat, p: Policy, q: Policy, a: Ask)
    requires before <= a.now
    requires TablesAgree(before, p.byAddress, q.byAddress) && TablesAgree(before, p.byIdentity, q.byIdentity)
    ensures
      var (p', ok) := Admit(l, p, a);
      var (q', yes) := Admit(l, q, a);
      ok == yes && TablesAgree(a.now, p'.byAddress, q'.byAddress) && TablesAgree(a.now, p'.byIdentity, q'.byIdentity)
  {
    var w, v := Lookup(p.byAddress, a.address), Lookup(q.byAddress, a.address);
    assert Agree(before, w, v);
    RegisterAgrees(l.perAddress, before, a.now, w, v);
    TimePasses(before, a.now, p.byAddress, q.byAddress);
    TimePasses(before, a.now, p.byIdentity, q.byIdentity);
    StoreAgrees(a.now, p.byAddress, q.byAddress, a.address,
                Register(l.perAddress, a.now, w).0, Register(l.perAddress, a.now, v).0);
    var x, y := Lookup(p.byIdentity, a.userId), Lookup(q.byIdentity, a.userId);
    assert Agree(before, x, y);
    RegisterAgrees(l.perIdentity, before, a.now, x, y);
    StoreAgrees(a.now, p.byIdentity, q.byIdentity, a.userId,
                Register(l.perIdentity, a.now, x).0, Register(l.perIdentity, a.now, y).0);
  }

  lemma PurgeAgrees<K(!new)>(before: nat, now: nat, t: Table<K>, u: Table<K>)
    requires before <= now && TablesAgree(before, t, u)
    ensures TablesAgree(now, Purge(t, now), u)
  {
    forall k ensures Agree(now, Lookup(Purge(t, now), k), Lookup(u, k)) {
      assert Agree(before, Lookup(t, k), Lookup(u, k));
    }
  }

  lemma OrderedPrefix(events: seq<Event>)
    requires Ordered(events) && events != []
    ensures Ordered(events[..|events| - 1]) && LastTime(events[..|events| - 1]) <= LastTime(events)
  {
  }

  /** On every schedule the decisions are those of the run that never purges, wherever sweeps were inserted. */
  lemma {:induction false} PurgeTransparent(l: Limits, events: seq<Event>)
    requires Ordered(events)
    ensures ServeAll(l, events).log == ServeAll(l, WithoutSweeps(events)).log
    ensures
      var p, q := ServeAll(l, events).policy, ServeAll(l, WithoutSweeps(events)).policy;
      TablesAgree(LastTime(events), p.byAddress, q.byAddress) && TablesAgree(LastTime(events), p.byIdentity, q.byIdentity)
    decreases |events|
  {
    if events != [] {
      var init, last := events[..|events| - 1], events[|events| - 1];
      OrderedPrefix(events);
      PurgeTransparent(l, init);
      var r, s := ServeAll(l, init), ServeAll(l, WithoutSweeps(init));
      match last
      case Sweep(at) =>
        assert WithoutSweeps(events) == WithoutSweeps(init);
        PurgeAgrees(LastTime(init), at, r.policy.byAddress, s.policy.byAddress);
        PurgeAgrees(LastTime(init), at, r.policy.byIdentity, s.policy.byIdentity);
      case Request(a) =>
        assert WithoutSweeps(events)[..|WithoutSweeps(init)|] == WithoutSweeps(init);
        AdmitAgrees(l, LastTime(init), r.policy, s.policy, a);
    }
  }

  // ---------------------------------------------------------------------------------------------
  // How many requests get through

  /** Who a request is counted for. */
  datatype Subject = Address(address: string) | Identity(userId: nat)

  predicate Concerns(s: Subject, a: Ask) {
    match s case Address(address) => a.address == address case Identity(id) => id != 0 && a.userId == id
  }

  function LimitOf(l: Limits, s: Subject): nat {
    match s case Address(_) => l.perAddress case Identity(_) => l.perIdentity
  }

  function WindowOf(p: Policy, s: Subject): Window {
    match s case Address(address) => Lookup(p.byAddress, address) case Identity(id) => Lookup(p.byIdentity, id)
  }

  /** Allowed requests of a subject at times from lo to hi, both included. */
  function Allowed(log: seq<Entry>, s: Subject, lo: nat, hi: nat): nat {
    if log == [] then 0
    else
      var e := log[|log| - 1];
      Allowed(log[..|log| - 1], s, lo, hi) + (if e.allowed && Concerns(s, e.ask) && lo <= e.ask.now <= hi then 1 else 0)
  }

  lemma AllowedSnoc(log: seq<Entry>, e: Entry, s: Subject, lo: nat, hi: nat)
    ensures
      Allowed(log + [e], s, lo, hi)
      == Allowed(log, s, lo, hi) + (if e.allowed && Concerns(s, e.ask) && lo <= e.ask.now <= hi then 1 else 0)
  {
    assert (log + [e])[..|log|] == log;
  }

  /**
   What a window says about the minute that starts at lo, after c of the subject's requests were allowed in it: nothing
   when the window ended before; all of them when it began at or before lo; all but one earlier window's when it began
   inside; two windows' worth at most in any case.
   */
  ghost predicate Accounts(max: nat, w: Window, lo: nat, last: nat, c: nat) {
    && w.start <= last && w.counter <= max && c <= 2 * max
    && (w.start + WINDOW <= lo ==> c == 0)
    && (w.start <= lo ==> c <= w.counter)
    && (lo < w.start <= lo + WINDOW ==> c <= max + w.counter)
  }

  lemma RegisterAccounts(max: nat, w: Window, lo: nat, last: nat, now: nat, c: nat, counted: bool)
    requires max > 0 && Accounts(max, w, lo, last, c) && last <= now
    requires counted ==> Register(max, now, w).1
    ensures Accounts(max, Register(max, now, w).0, lo, now, c + (if counted && lo <= now <= lo + WINDOW then 1 else 0))
  {
  }

  /** A subject's window changes only by its own requests, and then by one registration. */
  lemma AdmitCharges(l: Limits, p: Policy, a: Ask, s: Subject)
    ensures
      var (q, ok) := Admit(l, p, a);
      var (w, allowed) := Register(LimitOf(l, s), a.now, WindowOf(p, s));
      && (WindowOf(q, s) == WindowOf(p, s) || (Concerns(s, a) && WindowOf(q, s) == w))
      && (ok && Concerns(s, a) ==> allowed && WindowOf(q, s) == w)
  {
  }

  lemma ServeRequest(l: Limits, events: seq<Event>, a: Ask, s: Subject, lo: nat, hi: nat)
    ensures
      var r := ServeAll(l, events);
      var (p, ok) := Admit(l, r.policy, a);
      var after := ServeAll(l, events + [Request(a)]);
      && after.policy == p
      && Allowed(after.log, s, lo, hi)
         == Allowed(r.log, s, lo, hi) + (if ok && Concerns(s, a) && lo <= a.now <= hi then 1 else 0)
  {
    var r := ServeAll(l, events);
    assert (events + [Request(a)])[..|events|] == events;
    AllowedSnoc(r.log, Entry(a, Admit(l, r.policy, a).1), s, lo, hi);
  }

  lemma StepAccounts(l: Limits, r: Run, a: Ask, s: Subject, lo: nat, last: nat, c: nat)
    requires LimitOf(l, s) > 0 && last <= a.now && Accounts(LimitOf(l, s), WindowOf(r.policy, s), lo, last, c)
    ensures
      var (p, ok) := Admit(l, r.policy, a);
      Accounts(LimitOf(l, s), WindowOf(p, s), lo, a.now,
               c + (if ok && Concerns(s, a) && lo <= a.now <= lo + WINDOW then 1 else 0))
  {
    var ok := Admit(l, r.policy, a).1;
    AdmitCharges(l, r.policy, a, s);
    RegisterAccounts(LimitOf(l, s), WindowOf(r.policy, s), lo, last, a.now, c, ok && Concerns(s, a));
  }

  lemma {:induction false} RunAccounts(l: Limits, events: seq<Event>, s: Subject, lo: nat)
    requires Ordered(events) && (forall e <- events :: e.Request?) && LimitOf(l, s) > 0
    ensures
      var r := ServeAll(l, events);
      Accounts(LimitOf(l, s), WindowOf(r.policy, s), lo, LastTime(events), Allowed(r.log, s, lo, lo + WINDOW))
    decreases |events|
  {
    if events != [] {
      var init, a := events[..|events| - 1], events[|events| - 1].ask;
      LastApart(events);
      OrderedPrefix(events);
      RunAccounts(l, init, s, lo);
      ServeRequest(l, init, a, s, lo, lo + WINDOW);
      var r := ServeAll(l, init);
      StepAccounts(l, r, a, s, lo, LastTime(init), Allowed(r.log, s, lo, lo + WINDOW));
    }
  }

  lemma {:induction false} SweepsLeaveOrder(events: seq<Event>)
    requires Ordered(events)
    ensures Ordered(WithoutSweeps(events)) && (forall e <- WithoutSweeps(events) :: e.Request?)
    ensures forall e <- WithoutSweeps(events) :: TimeOf(e) <= LastTime(events)
    decreases |events|
  {
    if events != [] {
      OrderedPrefix(events);
      SweepsLeaveOrder(events[..|events| - 1]);
    }
  }

  /**
   The limit holds across connections: on every schedule of requests and sweeps with a clock that does not run backwards, a
   non-zero limit lets at most twice its number through in any sixty seconds, counted per address and per identity.
   */
  lemma MinuteBound(l: Limits, events: seq<Event>, s: Subject, lo: nat)
    requires Ordered(events) && LimitOf(l, s) > 0
    ensures Allowed(ServeAll(l, events).log, s, lo, lo + WINDOW) <= 2 * LimitOf(l, s)
  {
    PurgeTransparent(l, events);
    SweepsLeaveOrder(events);
    RunAccounts(l, WithoutSweeps(events), s, lo);
  }

  lemma CalmWindowBound(l: Limits, events: seq<Event>, s: Subject)
    requires Ordered(events) && (forall e <- events :: e.Request?) && LimitOf(l, s) > 0
    ensures
      var w := WindowOf(ServeAll(l, events).policy, s);
      Allowed(ServeAll(l, events).log, s, w.start, w.start + WINDOW) <= w.counter <= LimitOf(l, s)
  {
    RunAccounts(l, events, s, WindowOf(ServeAll(l, events).policy, s).start);
  }

  /** Within the window a subject is in, which sweeps do not shift, at most its limit has been allowed so far. */
  lemma WindowBound(l: Limits, events: seq<Event>, calm: seq<Event>, s: Subject)
    requires Ordered(events) && calm == WithoutSweeps(events) && LimitOf(l, s) > 0
    ensures
      var w := WindowOf(ServeAll(l, calm).policy, s);
      Allowed(ServeAll(l, events).log, s, w.start, w.start + WINDOW) <= w.counter <= LimitOf(l, s)
  {
    SameLog(l, events, calm);
    SweepsLeaveOrder(events);
    CalmWindowBound(l, calm, s);
  }

  lemma SameLog(l: Limits, events: seq<Event>, calm: seq<Event>)
    requires Ordered(events) && calm == WithoutSweeps(events)
    ensures ServeAll(l, events).log == ServeAll(l, calm).log
  {
    PurgeTransparent(l, events);
  }

  /** No request of the run that concerns the subject is later than t. */
  ghost predicate NoneAfter(events: seq<Event>, s: Subject, t: int) {
    forall e <- events :: e.Request? && Concerns(s, e.ask) ==> e.ask.now <= t
  }

  /** A subject's window is unseen, or begins no later than its last request. */
  lemma {:induction false} WindowNotAhead(l: Limits, events: seq<Event>, s: Subject, t: int)
    requires NoneAfter(events, s, t)
    ensures var w := WindowOf(ServeAll(l, events).policy, s); w == UNSEEN || w.start <= t
    decreases |events|
  {
    if events != [] {
      var init, last := events[..|events| - 1], events[|events| - 1];
      WindowNotAhead(l, init, s, t);
      if last.Request? {
        AdmitCharges(l, ServeAll(l, init).policy, last.ask, s);
      }
    }
  }

  lemma QuietWindowOpens(l: Limits, events: seq<Event>, a: Ask, s: Subject)
    requires NoneAfter(events, s, a.now - WINDOW)
    ensures Register(LimitOf(l, s), a.now, WindowOf(ServeAll(l, events).policy, s)).1
  {
    WindowNotAhead(l, events, s, a.now - WINDOW);
  }

  /**
   The limits do not starve: on every schedule, a request a minute or more after every earlier one from its address and
   from its identity (or the first of them) gets through.
   */
  lemma QuietGetsThrough(l: Limits, events: seq<Event>, a: Ask)
    requires NoneAfter(events, Address(a.address), a.now - WINDOW)
    requires NoneAfter(events, Identity(a.userId), a.now - WINDOW)
    ensures Admit(l, ServeAll(l, events).policy, a).1
  {
    QuietWindowOpens(l, events, a, Address(a.address));
    QuietWindowOpens(l, events, a, Identity(a.userId));
  }

  // ---------------------------------------------------------------------------------------------
  // How tight the bounds are

  /** A request that concerns the subject and no other limited one. */
  function AskOf(s: Subject, now: nat): Ask {
    match s case Address(address) => Ask(address, 0, now) case Identity(id) => Ask("", id, now)
  }

  function LimitsOf(s: Subject, n: nat): Limits {
    match s case Address(_) => Limits(n, 0) case Identity(_) => Limits(0, n)
  }

  predicate Real(s: Subject) {
    s.Identity? ==> s.userId != 0
  }

  function Burst(s: Subject, now: nat, k: nat): (events: seq<Event>)
    ensures |events| == k
  {
    seq(k, _ => Request(AskOf(s, now)))
  }

  /** The window a request at this time is counted in. */
  function Current(w: Window, now: nat): Window {
    if now < w.start || now - w.start >= WINDOW then Window(0, now) else w
  }

  lemma AskPasses(s: Subject, n: nat, p: Policy, now: nat)
    requires Real(s) && Current(WindowOf(p, s), now).counter < n
    ensures
      var (q, ok) := Admit(LimitsOf(s, n), p, AskOf(s, now));
      var w := Current(WindowOf(p, s), now);
      ok && Concerns(s, AskOf(s, now)) && WindowOf(q, s) == w.(counter := w.counter + 1)
  {
  }

  lemma BurstOneMore(s: Subject, before: seq<Event>, now: nat, k: nat)
    ensures before + Burst(s, now, k + 1) == (before + Burst(s, now, k)) + [Request(AskOf(s, now))]
  {
  }

  /** What a burst of k does to a run: the subject's window afterwards, and so many more allowed between lo and hi. */
  ghost predicate Passed(s: Subject, n: nat, before: seq<Event>, after: seq<Event>, now: nat, k: nat, lo: nat, hi: nat) {
    var r, t := ServeAll(LimitsOf(s, n), before), ServeAll(LimitsOf(s, n), after);
    var w := Current(WindowOf(r.policy, s), now);
    && WindowOf(t.policy, s) == w.(counter := w.counter + k)
    && Allowed(t.log, s, lo, hi) == Allowed(r.log, s, lo, hi) + (if lo <= now <= hi then k else 0)
  }

  lemma FirstPasses(s: Subject, n: nat, before: seq<Event>, now: nat, lo: nat, hi: nat)
    requires Real(s) && Current(WindowOf(ServeAll(LimitsOf(s, n), before).policy, s), now).counter < n
    ensures Passed(s, n, before, before + [Request(AskOf(s, now))], now, 1, lo, hi)
  {
    ServeRequest(LimitsOf(s, n), before, AskOf(s, now), s, lo, hi);
    AskPasses(s, n, ServeAll(LimitsOf(s, n), before).policy, now);
  }

  /** A burst that fits its window passes whole. */
  lemma {:induction false} BurstPasses(s: Subject, n: nat, before: seq<Event>, now: nat, k: nat, lo: nat, hi: nat)
    requires Real(s) && k > 0 && Current(WindowOf(ServeAll(LimitsOf(s, n), before).policy, s), now).counter + k <= n
    ensures Passed(s, n, before, before + Burst(s, now, k), now, k, lo, hi)
    decreases k
  {
    BurstOneMore(s, before, now, k - 1);
    if k == 1 {
      assert before + Burst(s, now, 0) == before;
      FirstPasses(s, n, before, now, lo, hi);
    } else {
      BurstPasses(s, n, before, now, k - 1, lo, hi);
      FirstPasses(s, n, before + Burst(s, now, k - 1), now, lo, hi);
    }
  }

  lemma NothingServed(l: Limits, s: Subject, lo: nat, hi: nat)
    ensures WindowOf(ServeAll(l, []).policy, s) == UNSEEN && Allowed(ServeAll(l, []).log, s, lo, hi) == 0
  {
  }

  /** Twice the limit does pass: n requests at any second and n more sixty seconds later, for every limit and subject. */
  lemma DoublingHappens(s: Subject, n: nat, lo: nat)
    requires Real(s) && n > 0
    ensures
      var events := Burst(s, lo, n) + Burst(s, lo + WINDOW, n);
      Ordered(events) && Allowed(ServeAll(LimitsOf(s, n), events).log, s, lo, lo + WINDOW) == 2 * n
  {
    NothingServed(LimitsOf(s, n), s, lo, lo + WINDOW);
    BurstPasses(s, n, [], lo, n, lo, lo + WINDOW);
    assert [] + Burst(s, lo, n) == Burst(s, lo, n);
    BurstPasses(s, n, Burst(s, lo, n), lo + WINDOW, n, lo, lo + WINDOW);
    TwoBurstsOrdered(s, n, lo, lo + WINDOW);
  }

  lemma TwoBurstsOrdered(s: Subject, n: nat, t: nat, u: nat)
    requires t <= u
    ensures Ordered(Burst(s, t, n) + Burst(s, u, n))
  {
    var events := Burst(s, t, n) + Burst(s, u, n);
    forall i | 0 <= i < |events| ensures TimeOf(events[i]) == if i < n then t else u {
    }
  }

  /** All events a window's length or more after the clock's origin, as they are at any real date. */
  ghost predicate Late(events: seq<Event>) {
    forall e <- events :: TimeOf(e) >= WINDOW
  }

  /**
   What a window says about the sixty seconds that start at lo: as `Accounts`, but a window that began earlier has spent
   one of its requests on beginning.
   */
  ghost predicate AccountsStrictly(max: nat, w: Window, lo: nat, last: nat, c: nat) {
    && w.start <= last && w.counter <= max && c <= 2 * max - 1
    && (w == UNSEEN || (w.counter >= 1 && w.start >= WINDOW))
    && (w == UNSEEN || w.start + WINDOW <= lo ==> c == 0)
    && (w != UNSEEN && w.start < lo ==> c <= w.counter - 1)
    && (w.start == lo ==> c <= w.counter)
    && (lo < w.start < lo + WINDOW ==> c <= max - 1 + w.counter)
  }

  lemma RegisterAccountsStrictly(max: nat, w: Window, lo: nat, last: nat, now: nat, c: nat, counted: bool)
    requires max > 0 && AccountsStrictly(max, w, lo, last, c) && last <= now && now >= WINDOW
    requires counted ==> Register(max, now, w).1
    ensures AccountsStrictly(max, Register(max, now, w).0, lo, now, c + (if counted && lo <= now < lo + WINDOW then 1 else 0))
  {
  }

  lemma LatePrefix(events: seq<Event>)
    requires Late(events) && (forall e <- events :: e.Request?) && events != []
    ensures
      var init, last := events[..|events| - 1], events[|events| - 1];
      Late(init) && (forall e <- init :: e.Request?) && last.Request? && TimeOf(last) >= WINDOW
  {
  }

  lemma {:induction false} RunAccountsStrictly(l: Limits, events: seq<Event>, s: Subject, lo: nat)
    requires Ordered(events) && Late(events) && (forall e <- events :: e.Request?) && LimitOf(l, s) > 0
    ensures
      var r := ServeAll(l, events);
      AccountsStrictly(LimitOf(l, s), WindowOf(r.policy, s), lo, LastTime(events), Allowed(r.log, s, lo, lo + WINDOW - 1))
    decreases |events|
  {
    if events == [] {
      NothingServed(l, s, lo, lo + WINDOW - 1);
    } else {
      LatePrefix(events);
      var init, a := events[..|events| - 1], events[|events| - 1].ask;
      LastApart(events);
      OrderedPrefix(events);
      RunAccountsStrictly(l, init, s, lo);
      var r := ServeAll(l, init);
      ServeRequest(l, init, a, s, lo, lo + WINDOW - 1);
      StepAccountsStrictly(l, r, a, s, lo, LastTime(init), Allowed(r.log, s, lo, lo + WINDOW - 1));
    }
  }

  lemma StepAccountsStrictly(l: Limits, r: Run, a: Ask, s: Subject, lo: nat, last: nat, c: nat)
    requires LimitOf(l, s) > 0 && last <= a.now && a.now >= WINDOW
    requires AccountsStrictly(LimitOf(l, s), WindowOf(r.policy, s), lo, last, c)
    ensures
      var (p, ok) := Admit(l, r.policy, a);
      AccountsStrictly(LimitOf(l, s), WindowOf(p, s), lo, a.now,
                       c + (if ok && Concerns(s, a) && lo <= a.now <= lo + WINDOW - 1 then 1 else 0))
  {
    var (p, ok) := Admit(l, r.policy, a);
    AdmitCharges(l, r.policy, a, s);
    RegisterAccountsStrictly(LimitOf(l, s), WindowOf(r.policy, s), lo, last, a.now, c, ok && Concerns(s, a));
  }

  lemma {:induction false} SweepsLeaveLate(events: seq<Event>)
    requires Late(events)
    ensures Late(WithoutSweeps(events))
    decreases |events|
  {
    if events != [] {
      LastApart(events);
      SweepsLeaveLate(events[..|events| - 1]);
    }
  }

  /** In sixty seconds to the second, at any real date, one request fewer than twice the limit passes at most. */
  lemma StrictMinuteBound(l: Limits, events: seq<Event>, s: Subject, lo: nat)
    requires Ordered(events) && Late(events) && LimitOf(l, s) > 0
    ensures Allowed(ServeAll(l, events).log, s, lo, lo + WINDOW - 1) <= 2 * LimitOf(l, s) - 1
  {
    PurgeTransparent(l, events);
    SweepsLeaveOrder(events);
    SweepsLeaveLate(events);
    RunAccountsStrictly(l, WithoutSweeps(events), s, lo);
  }

  /** One request to begin a window, the rest of its limit as it ends, and a whole limit in the next. */
  function Straddling(s: Subject, n: nat, lo: nat): (events: seq<Event>)
    requires n > 0 && lo >= 2 * WINDOW
  {
    Burst(s, lo - WINDOW + 1, 1) + Burst(s, lo, n - 1) + Burst(s, lo + 1, n)
  }

  lemma StraddlingOrdered(s: Subject, n: nat, lo: nat)
    requires n > 0 && lo >= 2 * WINDOW
    ensures Ordered(Straddling(s, n, lo)) && Late(Straddling(s, n, lo))
  {
    var events := Straddling(s, n, lo);
    forall i | 0 <= i < |events|
      ensures TimeOf(events[i]) == if i == 0 then lo - WINDOW + 1 else if i < n then lo else lo + 1
    {
    }
  }

  /** And so many do pass, for every limit and subject, around any second. */
  lemma StrictBoundReached(s: Subject, n: nat, lo: nat)
    requires Real(s) && n > 0 && lo >= 2 * WINDOW
    ensures Allowed(ServeAll(LimitsOf(s, n), Straddling(s, n, lo)).log, s, lo, lo + WINDOW - 1) == 2 * n - 1
  {
    var before := Burst(s, lo - WINDOW + 1, 1) + Burst(s, lo, n - 1);
    WindowSpent(s, n, lo, before);
    NextWindowFull(s, n, before, Straddling(s, n, lo), lo);
  }

  lemma NextWindowFull(s: Subject, n: nat, before: seq<Event>, after: seq<Event>, lo: nat)
    requires Real(s) && n > 0 && lo >= 2 * WINDOW && after == before + Burst(s, lo + 1, n)
    requires
      var r := ServeAll(LimitsOf(s, n), before);
      WindowOf(r.policy, s) == Window(n, lo - WINDOW + 1) && Allowed(r.log, s, lo, lo + WINDOW - 1) == n - 1
    ensures Allowed(ServeAll(LimitsOf(s, n), after).log, s, lo, lo + WINDOW - 1) == 2 * n - 1
  {
    BurstPasses(s, n, before, lo + 1, n, lo, lo + WINDOW - 1);
  }

  lemma WindowBegun(s: Subject, n: nat, lo: nat, first: seq<Event>)
    requires Real(s) && n > 0 && lo >= 2 * WINDOW && first == [] + Burst(s, lo - WINDOW + 1, 1)
    ensures
      var r := ServeAll(LimitsOf(s, n), first);
      WindowOf(r.policy, s) == Window(1, lo - WINDOW + 1) && Allowed(r.log, s, lo, lo + WINDOW - 1) == 0
  {
    NothingServed(LimitsOf(s, n), s, lo, lo + WINDOW - 1);
    BurstPasses(s, n, [], lo - WINDOW + 1, 1, lo, lo + WINDOW - 1);
  }

  lemma WindowSpent(s: Subject, n: nat, lo: nat, before: seq<Event>)
    requires Real(s) && n > 0 && lo >= 2 * WINDOW && before == Burst(s, lo - WINDOW + 1, 1) + Burst(s, lo, n - 1)
    ensures
      var r := ServeAll(LimitsOf(s, n), before);
      WindowOf(r.policy, s) == Window(n, lo - WINDOW + 1) && Allowed(r.log, s, lo, lo + WINDOW - 1) == n - 1
  {
    var first := Burst(s, lo - WINDOW + 1, 1);
    assert [] + first == first;
    WindowBegun(s, n, lo, first);
    if n > 1 {
      BurstPasses(s, n, first, lo, n - 1, lo, lo + WINDOW - 1);
    } else {
      assert before == first;
    }
  }

  /** No more than the limit in the sixty seconds from lo. */
  ghost predicate AtMost(s: Subject, n: nat, events: seq<Event>, lo: nat) {
    Allowed(ServeAll(LimitsOf(s, n), events).log, s, lo, lo + WINDOW - 1) <= n
  }

  /** At any real date the limit itself bounds sixty seconds on every schedule if and only if it is one. */
  lemma SingleBoundIff(s: Subject, n: nat)
    requires Real(s) && n > 0
    ensures
      (forall events, lo: nat :: Ordered(events) && Late(events) ==> AtMost(s, n, events, lo))
      <==> n == 1
  {
    var l := LimitsOf(s, n);
    if n == 1 {
      forall events, lo: nat | Ordered(events) && Late(events)
        ensures AtMost(s, n, events, lo)
      {
        StrictMinuteBound(l, events, s, lo);
      }
    } else {
      StrictBoundReached(s, n, 2 * WINDOW);
      StraddlingOrdered(s, n, 2 * WINDOW);
      assert !AtMost(s, n, Straddling(s, n, 2 * WINDOW), 2 * WINDOW);
    }
  }

  /** The subject's window never begins inside the sixty seconds after lo. */
  ghost predicate NoRestart(l: Limits, events: seq<Event>, s: Subject, lo: nat) {
    forall i :: 0 <= i <= |events| ==> !(lo < WindowOf(ServeAll(l, events[..i]).policy, s).start < lo + WINDOW)
  }

  ghost predicate AccountsOnce(max: nat, w: Window, lo: nat, last: nat, c: nat) {
    && w.start <= last && w.counter <= max && c <= max
    && (w.start + WINDOW <= lo ==> c == 0)
    && (w.start <= lo ==> c <= w.counter)
  }

  lemma StepAccountsOnce(l: Limits, r: Run, a: Ask, s: Subject, lo: nat, last: nat, c: nat)
    requires LimitOf(l, s) > 0 && last <= a.now && AccountsOnce(LimitOf(l, s), WindowOf(r.policy, s), lo, last, c)
    requires !(lo < WindowOf(r.policy, s).start < lo + WINDOW)
    requires !(lo < WindowOf(Admit(l, r.policy, a).0, s).start < lo + WINDOW)
    ensures
      var (p, ok) := Admit(l, r.policy, a);
      AccountsOnce(LimitOf(l, s), WindowOf(p, s), lo, a.now,
                   c + (if ok && Concerns(s, a) && lo <= a.now <= lo + WINDOW - 1 then 1 else 0))
  {
    AdmitCharges(l, r.policy, a, s);
  }

  lemma {:induction false} RunAccountsOnce(l: Limits, events: seq<Event>, s: Subject, lo: nat)
    requires Ordered(events) && (forall e <- events :: e.Request?) && LimitOf(l, s) > 0 && NoRestart(l, events, s, lo)
    ensures
      var r := ServeAll(l, events);
      AccountsOnce(LimitOf(l, s), WindowOf(r.policy, s), lo, LastTime(events), Allowed(r.log, s, lo, lo + WINDOW - 1))
    decreases |events|
  {
    if events == [] {
      NothingServed(l, s, lo, lo + WINDOW - 1);
    } else {
      var init, a := events[..|events| - 1], events[|events| - 1].ask;
      LastApart(events);
      OrderedPrefix(events);
      assert forall i :: 0 <= i <= |init| ==> init[..i] == events[..i];
      RunAccountsOnce(l, init, s, lo);
      var r := ServeAll(l, init);
      ServeRequest(l, init, a, s, lo, lo + WINDOW - 1);
      assert events[..|events|] == events;
      StepAccountsOnce(l, r, a, s, lo, LastTime(init), Allowed(r.log, s, lo, lo + WINDOW - 1));
    }
  }

  /** As long as the window does not restart inside them, the limit does bound the sixty seconds. */
  lemma SingleBound(l: Limits, events: seq<Event>, s: Subject, lo: nat)
    requires Ordered(events) && LimitOf(l, s) > 0 && NoRestart(l, WithoutSweeps(events), s, lo)
    ensures Allowed(ServeAll(l, events).log, s, lo, lo + WINDOW - 1) <= LimitOf(l, s)
  {
    PurgeTransparent(l, events);
    SweepsLeaveOrder(events);
    RunAccountsOnce(l, WithoutSweeps(events), s, lo);
  }

  // ---------------------------------------------------------------------------------------------
  // A clock that is set back

  /** How often the clock is behind what it was at the event before. */
  function SetBacks(events: seq<Event>): nat {
    if |events| < 2 then 0
    else
      var init := events[..|events| - 1];
      SetBacks(init) + (if TimeOf(events[|events| - 1]) < LastTime(init) then 1 else 0)
  }

  /**
   What a window says about the minute that starts at lo, after c of the subject's requests were allowed in it since the
   clock was last set back: nothing once the minute is over; else as `Accounts`.
   */
  ghost predicate AccountsSince(max: nat, w: Window, lo: nat, last: nat, c: nat) {
    && w.counter <= max && c <= 2 * max
    && (c > 0 && last <= lo + WINDOW ==>
          && lo <= last && w.start <= last && lo < w.start + WINDOW
          && (if w.start <= lo then c <= w.counter else c <= max + w.counter))
  }

  lemma RegisterAccountsSince(max: nat, w: Window, lo: nat, last: nat, now: nat, c: nat, counted: bool)
    requires max > 0 && AccountsSince(max, w, lo, last, c) && last <= now
    requires counted ==> Register(max, now, w).1
    ensures AccountsSince(max, Register(max, now, w).0, lo, now, c + (if counted && lo <= now <= lo + WINDOW then 1 else 0))
  {
  }

  lemma PurgeAccountsSince(max: nat, w: Window, lo: nat, last: nat, now: nat, c: nat)
    requires AccountsSince(max, w, lo, last, c) && last <= now
    ensures AccountsSince(max, if Expired(w, now) then UNSEEN else w, lo, now, c)
  {
  }

  lemma PurgedWindow(p: Policy, now: nat, s: Subject)
    ensures
      var q := Policy(Purge(p.byAddress, now), Purge(p.byIdentity, now));
      WindowOf(q, s) == if Expired(WindowOf(p, s), now) then UNSEEN else WindowOf(p, s)
  {
  }

  lemma StepAccountsSince(l: Limits, r: Run, e: Event, s: Subject, lo: nat, last: nat, c: nat) returns (d: nat)
    requires LimitOf(l, s) > 0 && last <= TimeOf(e) && AccountsSince(LimitOf(l, s), WindowOf(r.policy, s), lo, last, c)
    ensures
      var after := Serve(l, r, e);
      && AccountsSince(LimitOf(l, s), WindowOf(after.policy, s), lo, TimeOf(e), d)
      && Allowed(after.log, s, lo, lo + WINDOW) - Allowed(r.log, s, lo, lo + WINDOW) == d - c
  {
    match e
    case Sweep(at) =>
      d := c;
      PurgedWindow(r.policy, at, s);
      PurgeAccountsSince(LimitOf(l, s), WindowOf(r.policy, s), lo, last, at, c);
    case Request(a) =>
      var ok := Admit(l, r.policy, a).1;
      d := c + (if ok && Concerns(s, a) && lo <= a.now <= lo + WINDOW then 1 else 0);
      AllowedSnoc(r.log, Entry(a, ok), s, lo, lo + WINDOW);
      AdmitCharges(l, r.policy, a, s);
      RegisterAccountsSince(LimitOf(l, s), WindowOf(r.policy, s), lo, last, a.now, c, ok && Concerns(s, a));
      AccountsSinceLater(LimitOf(l, s), WindowOf(r.policy, s), lo, last, a.now, c);
  }

  lemma AccountsSinceLater(max: nat, w: Window, lo: nat, last: nat, now: nat, c: nat)
    requires AccountsSince(max, w, lo, last, c) && last <= now
    ensures AccountsSince(max, w, lo, now, c)
  {
  }

  lemma {:induction false} RunAccountsSince(l: Limits, events: seq<Event>, s: Subject, lo: nat) returns (c: nat)
    requires LimitOf(l, s) > 0
    ensures
      var r := ServeAll(l, events);
      && AccountsSince(LimitOf(l, s), WindowOf(r.policy, s), lo, LastTime(events), c)
      && Allowed(r.log, s, lo, lo + WINDOW) <= 2 * LimitOf(l, s) * SetBacks(events) + c
    decreases |events|
  {
    if events == [] {
      c := 0;
      NothingServed(l, s, lo, lo + WINDOW);
    } else {
      var init, e := events[..|events| - 1], events[|events| - 1];
      var before := RunAccountsSince(l, init, s, lo);
      var r := ServeAll(l, init);
      if TimeOf(e) < LastTime(init) {
        c := StepAccountsSince(l, r, e, s, lo, TimeOf(e), 0);
        OneSetBackMore(LimitOf(l, s), SetBacks(init), before);
      } else {
        c := StepAccountsSince(l, r, e, s, lo, LastTime(init), before);
      }
    }
  }

  lemma OneSetBackMore(max: nat, n: nat, c: nat)
    requires c <= 2 * max
    ensures 2 * max * n + c <= 2 * max * (n + 1)
  {
  }

  /** For any clock: each time it is set back, another two limits' worth may pass in the same minute, and no more. */
  lemma SetBackBound(l: Limits, events: seq<Event>, s: Subject, lo: nat)
    requires LimitOf(l, s) > 0
    ensures Allowed(ServeAll(l, events).log, s, lo, lo + WINDOW) <= 2 * LimitOf(l, s) * (1 + SetBacks(events))
  {
    var c := RunAccountsSince(l, events, s, lo);
    OneSetBackMore(LimitOf(l, s), SetBacks(events), c);
  }

  /** A clock that swings between a second and the sixtieth after it, with a burst at each end. */
  function Swinging(s: Subject, n: nat, lo: nat, b: nat): seq<Event> {
    (if b == 0 then [] else Swinging(s, n, lo, b - 1)) + Burst(s, lo, n) + Burst(s, lo + WINDOW, n)
  }

  lemma {:induction false} BurstSetsBack(s: Subject, before: seq<Event>, now: nat, k: nat)
    requires k > 0
    ensures LastTime(before + Burst(s, now, k)) == now
    ensures SetBacks(before + Burst(s, now, k)) == SetBacks(before) + (if now < LastTime(before) then 1 else 0)
    decreases k
  {
    BurstOneMore(s, before, now, k - 1);
    var most := before + Burst(s, now, k - 1);
    var all := most + [Request(AskOf(s, now))];
    assert all[..|all| - 1] == most;
    if k > 1 {
      BurstSetsBack(s, before, now, k - 1);
    } else {
      assert most == before;
    }
  }

  lemma SwingPasses(s: Subject, n: nat, lo: nat, before: seq<Event>, first: seq<Event>, after: seq<Event>)
    requires Real(s) && n > 0 && first == before + Burst(s, lo, n) && after == first + Burst(s, lo + WINDOW, n)
    requires WindowOf(ServeAll(LimitsOf(s, n), before).policy, s) in {UNSEEN, Window(n, lo + WINDOW)}
    ensures WindowOf(ServeAll(LimitsOf(s, n), after).policy, s) == Window(n, lo + WINDOW)
    ensures
      Allowed(ServeAll(LimitsOf(s, n), after).log, s, lo, lo + WINDOW)
      == Allowed(ServeAll(LimitsOf(s, n), before).log, s, lo, lo + WINDOW) + 2 * n
  {
    FreshBurst(s, n, before, first, lo, lo);
    FreshBurst(s, n, first, after, lo + WINDOW, lo);
  }

  lemma FreshBurst(s: Subject, n: nat, before: seq<Event>, after: seq<Event>, now: nat, lo: nat)
    requires Real(s) && n > 0 && after == before + Burst(s, now, n) && lo <= now <= lo + WINDOW
    requires Current(WindowOf(ServeAll(LimitsOf(s, n), before).policy, s), now).counter == 0
    ensures
      var w := Current(WindowOf(ServeAll(LimitsOf(s, n), before).policy, s), now);
      WindowOf(ServeAll(LimitsOf(s, n), after).policy, s) == Window(n, w.start)
    ensures
      Allowed(ServeAll(LimitsOf(s, n), after).log, s, lo, lo + WINDOW)
      == Allowed(ServeAll(LimitsOf(s, n), before).log, s, lo, lo + WINDOW) + n
  {
    BurstPasses(s, n, before, now, n, lo, lo + WINDOW);
  }

  lemma SwingSetsBack(s: Subject, n: nat, lo: nat, before: seq<Event>, first: seq<Event>, after: seq<Event>)
    requires n > 0 && first == before + Burst(s, lo, n) && after == first + Burst(s, lo + WINDOW, n)
    ensures LastTime(after) == lo + WINDOW && SetBacks(after) == SetBacks(before) + (if lo < LastTime(before) then 1 else 0)
  {
    BurstSetsBack(s, before, lo, n);
    BurstSetsBack(s, first, lo + WINDOW, n);
  }

  /** The run ends a swing, the subject's window is spent, and so many were allowed. */
  ghost predicate Swung(s: Subject, n: nat, lo: nat, events: seq<Event>, allowed: nat) {
    && LastTime(events) == lo + WINDOW
    && WindowOf(ServeAll(LimitsOf(s, n), events).policy, s) == Window(n, lo + WINDOW)
    && Allowed(ServeAll(LimitsOf(s, n), events).log, s, lo, lo + WINDOW) == allowed
  }

  lemma FirstSwing(s: Subject, n: nat, lo: nat, after: seq<Event>)
    requires Real(s) && n > 0 && after == ([] + Burst(s, lo, n)) + Burst(s, lo + WINDOW, n)
    ensures Swung(s, n, lo, after, 2 * n) && SetBacks(after) == 0
  {
    NothingServed(LimitsOf(s, n), s, lo, lo + WINDOW);
    SwingPasses(s, n, lo, [], [] + Burst(s, lo, n), after);
    SwingSetsBack(s, n, lo, [], [] + Burst(s, lo, n), after);
  }

  lemma NextSwing(s: Subject, n: nat, lo: nat, before: seq<Event>, after: seq<Event>, allowed: nat)
    requires Real(s) && n > 0 && after == (before + Burst(s, lo, n)) + Burst(s, lo + WINDOW, n) && Swung(s, n, lo, before, allowed)
    ensures Swung(s, n, lo, after, allowed + 2 * n) && SetBacks(after) == SetBacks(before) + 1
  {
    SwingPasses(s, n, lo, before, before + Burst(s, lo, n), after);
    SwingSetsBack(s, n, lo, before, before + Burst(s, lo, n), after);
  }

  function SwingTotal(n: nat, b: nat): nat {
    if b == 0 then 2 * n else SwingTotal(n, b - 1) + 2 * n
  }

  lemma {:induction false} SwingTotalIs(n: nat, b: nat)
    ensures SwingTotal(n, b) == 2 * n * (1 + b)
  {
    if b > 0 {
      SwingTotalIs(n, b - 1);
      assert 2 * n * (1 + b) == 2 * n * (1 + (b - 1)) + 2 * n;
    }
  }

  lemma {:induction false} Swings(s: Subject, n: nat, lo: nat, b: nat, events: seq<Event>)
    requires Real(s) && n > 0 && events == Swinging(s, n, lo, b)
    ensures Swung(s, n, lo, events, SwingTotal(n, b)) && SetBacks(events) == b
    decreases b
  {
    if b == 0 {
      FirstSwing(s, n, lo, events);
    } else {
      var before := Swinging(s, n, lo, b - 1);
      Swings(s, n, lo, b - 1, before);
      NextSwing(s, n, lo, before, events, SwingTotal(n, b - 1));
    }
  }

  /** And so much does pass, for every limit, subject and number of set-backs. */
  lemma SetBackBoundReached(s: Subject, n: nat, lo: nat, b: nat)
    requires Real(s) && n > 0
    ensures SetBacks(Swinging(s, n, lo, b)) == b
    ensures Allowed(ServeAll(LimitsOf(s, n), Swinging(s, n, lo, b)).log, s, lo, lo + WINDOW) == 2 * n * (1 + b)
  {
    Swings(s, n, lo, b, Swinging(s, n, lo, b));
    SwingTotalIs(n, b);
  }

  // ---------------------------------------------------------------------------------------------
  // The tracker object

  class RateTracker {
    const limits: Limits
    var byAddress: Table<string>
    var byIdentity: Table<nat>

    ghost function Value(): Policy
      reads this
    {
      Policy(byAddress, byIdentity)
    }

    constructor (limits: Limits)
      ensures this.limits == limits && Value() == EMPTY_POLICY
    {
      this.limits := limits;
      byAddress, byIdentity := map[], map[];
    }

    /** Updates the caller's counter and window start, as register_event does on its references. */
    static method RegisterEvent(max: nat, now: nat, counter: nat, start: nat) returns (allowed: bool, c: nat, s: nat)
      ensures (Window(c, s), allowed) == Register(max, now, Window(counter, start))
    {
      c, s := counter, start;
      if max == 0 {
        return true, c, s;
      }
      if now < s || now - s >= WINDOW {
        s, c := now, 0;
      }
      if c >= max {
        return false, c, s;
      }
      c := c + 1;
      allowed := true;
    }

    method AllowAddress(address: string, now: nat) returns (allowed: bool)
      modifies this
      ensures byIdentity == old(byIdentity)
      ensures
        var (w, ok) := Register(limits.perAddress, now, Lookup(old(byAddress), address));
        allowed == ok && byAddress == old(byAddress)[address := w]
    {
      var w := Lookup(byAddress, address);
      var ok, c, s := RegisterEvent(limits.perAddress, now, w.counter, w.start);
      byAddress := byAddress[address := Window(c, s)];
      allowed := ok;
    }

    method AllowIdentity(userId: nat, now: nat) returns (allowed: bool)
      modifies this
      ensures byAddress == old(byAddress)
      ensures
        if userId == 0 then allowed && byIdentity == old(byIdentity)
        else
          var (w, ok) := Register(limits.perIdentity, now, Lookup(old(byIdentity), userId));
          allowed == ok && byIdentity == old(byIdentity)[userId := w]
    {
      if userId == 0 {
        return true;
      }
      var w := Lookup(byIdentity, userId);
      var ok, c, s := RegisterEvent(limits.perIdentity, now, w.counter, w.start);
      byIdentity := byIdentity[userId := Window(c, s)];
      allowed := ok;
    }

    /** The two checks in the order the input loop makes them. */
    method Check(a: Ask) returns (allowed: bool)
      modifies this
      ensures (Value(), allowed) == Admit(limits, old(Value()), a)
    {
      allowed := AllowAddress(a.address, a.now);
      if allowed {
        allowed := AllowIdentity(a.userId, a.now);
      }
    }

    /** Walks a table, erasing expired entries on the way. */
    static method Forget<K(==)>(t: Table<K>, now: nat) returns (left: Table<K>)
      ensures left == Purge(t, now)
    {
      left := t;
      var todo := t.Keys;
      while todo != {}
        invariant todo <= t.Keys
        invariant left == map k | k in t && (k in todo || !Expired(t[k], now)) :: t[k]
        decreases |todo|
      {
        var k :| k in todo;
        if Expired(t[k], now) {
          left := left - {k};
        }
        todo := todo - {k};
      }
    }

    method ForgetExpiredWindows(now: nat)
      modifies this
      ensures Value() == Policy(Purge(old(byAddress), now), Purge(old(byIdentity), now))
    {
      byAddress := Forget(byAddress, now);
      byIdentity := Forget(byIdentity, now);
    }
  }
}
