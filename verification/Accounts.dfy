/**
 Who gets in, and as whom: for every world that can be reached, exactly when a hello, a proof or a registration succeeds and
 what it leaves behind (server/handlers/session_handler.cpp), and what bans and announcements amount to over whole runs.
 */
module Accounts {
  import opened Prelude
  import opened Sessions

  /** This account has that key. */
  ghost predicate HasKey(w: World, id: nat, key: Bytes) {
    id in w.users && w.users[id].pubkey == key
  }

  lemma KeyFound(w: World, key: Bytes)
    requires UsersOk(w)
    ensures
      match FindByKey(w.users, key, w.lastUser)
      case None => forall i :: !HasKey(w, i, key)
      case Some(id) => id != 0 && HasKey(w, id, key) && forall i :: HasKey(w, i, key) ==> i == id
  {
  }

  // ---------------------------------------------------------------------------------------------
  // Hello

  /** A hello is challenged if and only if it is the first, decodes and names this version; key and nonce are then the session's. */
  lemma ChallengedIff(cfg: Config, w: World, c: int, hello: Option<HelloRequest>, nonce: Bytes)
    requires Invariant(w) && c in w.sessions
    ensures
      var s := w.sessions[c];
      var (v, reply) := Step(cfg, w, Message(c, Hello(hello, nonce)));
      && v == w.(sessions := v.sessions) && (reply.Challenge? || reply.Closed? || v == w)
      && (reply == Refused(AlreadyAuthenticated) <==> s.phase != AwaitingHello)
      && (reply == Refused(UnsupportedVersion)
          <==> s.phase == AwaitingHello && hello.Some? && hello.value.version != PROTOCOL_VERSION)
      && (c !in v.sessions <==> s.phase == AwaitingHello && hello.None?) && (reply.Closed? <==> c !in v.sessions)
      && (reply.Challenge? <==> s.phase == AwaitingHello && hello.Some? && hello.value.version == PROTOCOL_VERSION)
      && (reply.Challenge? ==>
            && v.sessions[c] == s.(phase := AwaitingAuth, announced := hello.value.key, nonce := nonce)
            && reply.nonce == nonce && (reply.accountExists <==> exists i :: HasKey(w, i, hello.value.key)))
  {
    if hello.Some? {
      KeyFound(w, hello.value.key);
    }
  }

  // ---------------------------------------------------------------------------------------------
  // Proof

  /** The session waits for a proof, and this is one: a signature by its key over the domain, its nonce and its key. */
  predicate Proves(cfg: Config, s: Session, signature: Option<Bytes>) {
    && s.phase == AwaitingAuth && signature.Some?
    && cfg.verify(s.announced, cfg.domain + s.nonce + s.announced, signature.value)
  }

  ghost predicate Barred(w: World, key: Bytes) {
    exists i :: HasKey(w, i, key) && w.users[i].banned
  }

  /**
   A proof lets a session in if and only if no banned account has its key: as the account that has it, and with the announcement
   that is active, or without one. A banned account is told so and the session stays as it is; no proof ends the connection.
   */
  lemma AuthenticatedIff(cfg: Config, w: World, c: int, signature: Option<Bytes>)
    requires Invariant(w) && c in w.sessions
    ensures
      var s := w.sessions[c];
      var (v, reply) := Step(cfg, w, Message(c, Auth(signature)));
      && v == w.(sessions := v.sessions)
      && (c !in v.sessions <==> s.phase == AwaitingAuth && !Proves(cfg, s, signature)) && (reply.Closed? <==> c !in v.sessions)
      && (s.phase != AwaitingAuth ==> v == w && reply == Refused(NotAuthenticated))
      && (Proves(cfg, s, signature) && Barred(w, s.announced) ==> v == w && reply == Refused(AccountBanned))
      && (Proves(cfg, s, signature) && !Barred(w, s.announced) ==>
            && v.sessions[c] == s.(phase := Authenticated, userId := v.sessions[c].userId, handle := v.sessions[c].handle)
            && (v.sessions[c].userId == 0 <==> forall i :: !HasKey(w, i, s.announced))
            && (v.sessions[c].userId == 0 ==> reply == Acknowledged(0) && v.sessions[c].handle == s.handle)
            && (forall i :: HasKey(w, i, s.announced) ==>
                              && v.sessions[c].userId == i && v.sessions[c].handle == w.users[i].handle
                              && reply == Accepted(i, w.users[i].handle, w.board.active)))
  {
    KeyFound(w, w.sessions[c].announced);
  }

  // ---------------------------------------------------------------------------------------------
  // Registration

  const SMALL := "abcdefghijklmnopqrstuvwxyz"
  const CAPITAL := "ABCDEFGHIJKLMNOPQRSTUVWXYZ"
  const DIGITS := "0123456789"

  lemma SmallLetters(x: char)
    ensures x in SMALL <==> 'a' <= x <= 'z'
  {
  }

  lemma CapitalLetters(x: char)
    ensures x in CAPITAL <==> 'A' <= x <= 'Z'
  {
  }

  lemma DigitCharacters(x: char)
    ensures x in DIGITS <==> '0' <= x <= '9'
  {
  }

  /** What a handle is made of. */
  lemma HandleMeaning(h: string)
    ensures
      ValidHandle(h)
      <==>
      && 3 <= |h| <= 32 && h[0] !in DIGITS
      && forall i :: 0 <= i < |h| ==> h[i] in SMALL || h[i] in CAPITAL || h[i] in DIGITS || h[i] == '-' || h[i] == '_'
  {
    forall i | 0 <= i < |h|
      ensures h[i] in SMALL <==> 'a' <= h[i] <= 'z'
      ensures h[i] in CAPITAL <==> 'A' <= h[i] <= 'Z'
      ensures h[i] in DIGITS <==> '0' <= h[i] <= '9'
    {
      SmallLetters(h[i]);
      CapitalLetters(h[i]);
      DigitCharacters(h[i]);
    }
  }

  lemma PairedLetters(k: nat)
    requires k < 26
    ensures |SMALL| == |CAPITAL| == 26 && SMALL[k] as int == 'a' as int + k && CAPITAL[k] as int == 'A' as int + k
  {
  }

  /** One letter is the other, or the other's capital. */
  ghost predicate CaseApart(x: char, y: char) {
    x == y || exists k :: 0 <= k < |SMALL| == |CAPITAL| && Paired(x, y, k)
  }

  predicate Paired(x: char, y: char, k: nat)
    requires k < |SMALL| == |CAPITAL|
  {
    (x == SMALL[k] && y == CAPITAL[k]) || (x == CAPITAL[k] && y == SMALL[k])
  }

  lemma PairedCollide(x: char, y: char, k: nat)
    requires k < 26
    ensures |SMALL| == |CAPITAL| == 26 && (Paired(x, y, k) <==> x != y && Lower(x) == Lower(y) && Lower(x) as int == 'a' as int + k)
  {
    PairedLetters(k);
  }

  lemma LettersCollide(x: char, y: char)
    ensures Lower(x) == Lower(y) <==> CaseApart(x, y)
  {
    if Lower(x) == Lower(y) && x != y {
      PairedCollide(x, y, Lower(x) as int - 'a' as int);
    }
    if x != y && CaseApart(x, y) {
      var k :| 0 <= k < |SMALL| == |CAPITAL| && Paired(x, y, k);
      PairedCollide(x, y, k);
    }
  }

  /** Handles collide if and only if they differ in the case of letters at most. */
  lemma HandlesCollide(a: string, b: string)
    ensures SameHandle(a, b) <==> |a| == |b| && forall i :: 0 <= i < |a| ==> CaseApart(a[i], b[i])
  {
    forall i | 0 <= i < |a| && |a| == |b| ensures Lower(a[i]) == Lower(b[i]) <==> CaseApart(a[i], b[i]) {
      LettersCollide(a[i], b[i]);
    }
  }

  /** A registration that goes through: proven but without an account, open, a good handle nobody has, a key nobody has. */
  ghost predicate Registrable(cfg: Config, w: World, s: Session, requested: Option<string>) {
    && s.phase == Authenticated && s.userId == 0 && cfg.registrationOpen && requested.Some? && ValidHandle(requested.value)
    && (forall i :: i in w.users ==> !SameHandle(w.users[i].handle, requested.value))
    && (forall i :: !HasKey(w, i, s.announced))
  }

  /** A registration makes one account, under the next number, for the proven key, and the session's own; or nothing. */
  lemma RegisteredIff(cfg: Config, w: World, c: int, requested: Option<string>)
    requires Invariant(w) && c in w.sessions
    ensures
      var s, id := w.sessions[c], w.lastUser + 1;
      var (v, reply) := Step(cfg, w, Message(c, Register(requested)));
      if Registrable(cfg, w, s, requested) then
        && v == w.(users := w.users[id := User(s.announced, requested.value, false)], lastUser := id,
                   sessions := w.sessions[c := s.(userId := id, handle := requested.value)])
        && reply == Accepted(id, requested.value, w.board.active)
      else
        && v == w.(sessions := v.sessions) && (reply.Closed? || (v == w && reply.Refused?))
        && (reply.Closed? <==> c !in v.sessions)
        && (reply.Closed? <==> s.phase == Authenticated && s.userId == 0 && cfg.registrationOpen && requested.None?)
        && (reply == Refused(AlreadyAuthenticated) <==> s.phase != Authenticated || s.userId != 0)
        && (reply == Refused(PermissionDenied) <==> s.phase == Authenticated && s.userId == 0 && !cfg.registrationOpen)
        && (reply.Refused? && s.phase == Authenticated && s.userId == 0 && cfg.registrationOpen ==>
              reply.code == if ValidHandle(requested.value) then HandleUnavailable else InvalidField)
  {
    KeyFound(w, w.sessions[c].announced);
  }

  /** Without an account, nothing of the mailbox is seen or changed. */
  lemma GuardedRequests(cfg: Config, w: World, c: int, r: Request)
    requires c in w.sessions && (w.sessions[c].phase != Authenticated || w.sessions[c].userId == 0)
    requires r.Send? || r.Fetch? || r.Ack?
    ensures Step(cfg, w, Message(c, r)) == (w, Refused(NotAuthenticated))
  {
  }

  /** A connection hears that it is closed if and only if it is; events that are no message have no other answer. */
  lemma ClosedIff(cfg: Config, w: World, e: Event)
    ensures
      var (v, reply) := Step(cfg, w, e);
      && (reply.Closed? <==> e.Disconnect? || (e.Message? && e.c in w.sessions && e.c !in v.sessions))
      && (e.Disconnect? ==> v == w.(sessions := w.sessions - {e.c}))
      && (reply.Silent? <==> (!e.Message? && !e.Disconnect?) || (e.Message? && (e.c !in w.sessions || e.request.Shake?)))
  {
  }

  // ---------------------------------------------------------------------------------------------
  // Entry: what an honest client needs

  /** This event is one of connection c. */
  predicate Concerns(e: Event, c: int) {
    (e.Connect? || e.Disconnect? || e.Message?) && e.c == c
  }

  function Own(events: seq<Event>, c: int): seq<Event> {
    if events == [] then []
    else
      var last := events[|events| - 1];
      Own(events[..|events| - 1], c) + (if Concerns(last, c) then [last] else [])
  }

  /** What an honest client does, in order. */
  function Entry(c: int, key: Bytes, nonce: Bytes, signature: Bytes): seq<Event> {
    [Connect(c), Message(c, Shake), Message(c, Hello(Some(HelloRequest(PROTOCOL_VERSION, key)), nonce)),
     Message(c, Auth(Some(signature)))]
  }

  /** The session after so many of these steps. */
  ghost predicate Entered(w: World, c: int, key: Bytes, nonce: Bytes, n: nat) {
    if n == 0 then c !in w.sessions
    else
      && c in w.sessions
      && if n == 1 then w.sessions[c] == NEW_SESSION
         else if n == 2 then w.sessions[c] == NEW_SESSION.(phase := AwaitingHello)
         else if n == 3 then w.sessions[c] == NEW_SESSION.(phase := AwaitingAuth, announced := key, nonce := nonce)
         else
           w.sessions[c].phase == Authenticated && w.sessions[c].announced == key && w.sessions[c].nonce == nonce
  }

  lemma EntersNext(cfg: Config, w: World, c: int, key: Bytes, nonce: Bytes, signature: Bytes, n: nat)
    requires Invariant(w) && n < 4 && Entered(w, c, key, nonce, n) && !Barred(w, key)
    requires cfg.verify(key, cfg.domain + nonce + key, signature)
    ensures Entered(Step(cfg, w, Entry(c, key, nonce, signature)[n]).0, c, key, nonce, n + 1)
  {
    if n == 3 {
      AuthenticatedIff(cfg, w, c, Some(signature));
      assert Proves(cfg, w.sessions[c], Some(signature));
    }
  }

  /**
   An honest client gets in: whatever the other connections do in between, as long as no banned account has its key, a
   connection that shakes hands, says hello and signs its challenge is authenticated under its key.
   */
  lemma {:induction false} HonestEntry(cfg: Config, events: seq<Event>, c: int, key: Bytes, nonce: Bytes, signature: Bytes)
    requires Own(events, c) <= Entry(c, key, nonce, signature)
    requires cfg.verify(key, cfg.domain + nonce + key, signature)
    requires forall i :: 0 <= i <= |events| ==> !Barred(At(cfg, events, i), key)
    ensures Entered(Run(cfg, events), c, key, nonce, |Own(events, c)|)
    decreases |events|
  {
    if events != [] {
      var before, e := events[..|events| - 1], events[|events| - 1];
      forall i | 0 <= i <= |before| ensures !Barred(At(cfg, before, i), key) {
        assert before[..i] == events[..i] && At(cfg, before, i) == At(cfg, events, i);
      }
      HonestEntry(cfg, before, c, key, nonce, signature);
      RunKeepsInvariant(cfg, before);
      StepKeepsInvariant(cfg, Run(cfg, before), e);
      if Concerns(e, c) {
        assert !Barred(At(cfg, events, |before|), key);
        EntersNext(cfg, Run(cfg, before), c, key, nonce, signature, |Own(before, c)|);
      }
    }
  }

  // ---------------------------------------------------------------------------------------------
  // Bans and announcements, over runs

  /** The account was banned at instant j, when it existed, and not let back in before k. */
  ghost predicate BannedFrom(cfg: Config, events: seq<Event>, id: nat, j: nat, k: nat)
    requires j < k <= |events|
  {
    events[j] == Ban(id, true) && id in At(cfg, events, j).users && forall m :: j < m < k ==> events[m] != Ban(id, false)
  }

  ghost predicate BannedBefore(cfg: Config, events: seq<Event>, id: nat, k: nat)
    requires k <= |events|
  {
    exists j: nat :: j < k && BannedFrom(cfg, events, id, j, k)
  }

  lemma BannedMore(cfg: Config, events: seq<Event>, id: nat, k: nat)
    requires k < |events|
    ensures
      BannedBefore(cfg, events, id, k + 1)
      <==> (events[k] == Ban(id, true) && id in At(cfg, events, k).users)
           || (BannedBefore(cfg, events, id, k) && events[k] != Ban(id, false))
  {
    if events[k] == Ban(id, true) && id in At(cfg, events, k).users {
      assert BannedFrom(cfg, events, id, k, k + 1);
    } else if BannedBefore(cfg, events, id, k) && events[k] != Ban(id, false) {
      var j: nat :| j < k && BannedFrom(cfg, events, id, j, k);
      assert BannedFrom(cfg, events, id, j, k + 1);
    } else if BannedBefore(cfg, events, id, k + 1) {
      var j: nat :| j < k + 1 && BannedFrom(cfg, events, id, j, k + 1);
      assert BannedFrom(cfg, events, id, j, k);
    }
  }

  lemma BannedOneEvent(cfg: Config, w: World, e: Event, id: nat)
    requires Invariant(w)
    ensures
      var v := Step(cfg, w, e).0;
      id in v.users && v.users[id].banned
      <==> id in w.users && (e == Ban(id, true) || (w.users[id].banned && e != Ban(id, false)))
  {
    var v := Step(cfg, w, e).0;
    if e.Message? && e.request.Register? {
      assert v.users == w.users || v.users == w.users[w.lastUser + 1 := v.users[w.lastUser + 1]];
    } else if !e.Ban? {
      assert v.users == w.users;
    }
  }

  lemma BannedOneStep(cfg: Config, events: seq<Event>, id: nat, k: nat)
    requires k < |events|
    ensures
      var w, v := At(cfg, events, k), At(cfg, events, k + 1);
      id in v.users && v.users[id].banned
      <==> id in w.users && (events[k] == Ban(id, true) || (w.users[id].banned && events[k] != Ban(id, false)))
  {
    AtStep(cfg, events, k);
    RunKeepsInvariant(cfg, events[..k]);
    BannedOneEvent(cfg, At(cfg, events, k), events[k], id);
  }

  /** In every run, an account is banned if and only if the last ban that met it was not lifted. */
  lemma {:induction false} BannedIff(cfg: Config, events: seq<Event>, id: nat, k: nat)
    requires k <= |events|
    ensures id in At(cfg, events, k).users && At(cfg, events, k).users[id].banned <==> BannedBefore(cfg, events, id, k)
    decreases k
  {
    if k > 0 {
      BannedIff(cfg, events, id, k - 1);
      BannedMore(cfg, events, id, k - 1);
      BannedOneStep(cfg, events, id, k - 1);
    }
  }

  function Published(events: seq<Event>): nat {
    if events == [] then 0
    else
      var last := events[|events| - 1];
      Published(events[..|events| - 1]) + (if last.Announce? && last.body.Some? then 1 else 0)
  }

  /** The last announcement made, unless it was withdrawn. */
  function Shown(events: seq<Event>): Option<string> {
    if events == [] then None
    else
      var last := events[|events| - 1];
      if last.Announce? then last.body else Shown(events[..|events| - 1])
  }

  /** What sessions are shown on entry: the last announcement, numbered by how many there were. */
  lemma {:induction false} BoardShows(cfg: Config, events: seq<Event>)
    ensures
      var board := Run(cfg, events).board;
      && board.last == Published(events)
      && board.active == match Shown(events) case None => None case Some(text) => Some(Notice(Published(events), text))
    decreases |events|
  {
    if events != [] {
      BoardShows(cfg, events[..|events| - 1]);
    }
  }
}
