/**
 The server's application state: sessions over the user table and the mailbox, shared by all connections, and the
 steps of session_handler.cpp and dm_handler.cpp on it. A run interleaves steps of any number of connections.
 */
module Sessions {
  import opened Prelude
  import opened Mailbox

  const PROTOCOL_VERSION := 1

  datatype Phase = AwaitingHandshake | AwaitingHello | AwaitingAuth | Authenticated {
    function Rank(): nat {
      match this
      case AwaitingHandshake => 0
      case AwaitingHello => 1
      case AwaitingAuth => 2
      case Authenticated => 3
    }
  }

  datatype Session = Session(phase: Phase, announced: Bytes, nonce: Bytes, userId: nat, handle: string)

  const NEW_SESSION := Session(AwaitingHandshake, [], [], 0, "")

  datatype User = User(pubkey: Bytes, handle: string, banned: bool)

  /** The announcement that every accepted session is sent, if one is active, and the number of the last one. */
  datatype Notice = Notice(revision: nat, body: string)

  datatype Board = Board(active: Option<Notice>, last: nat)

  datatype World = World(sessions: map<int, Session>, users: map<nat, User>, lastUser: nat, mail: Mail, board: Board)

  const EMPTY_WORLD := World(map[], map[], 0, EMPTY_MAIL, Board(None, 0))

  /** What a deployment fixes: signature verification and whether registration is open. */
  datatype Config = Config(verify: (Bytes, Bytes, Bytes) -> bool, domain: Bytes, registrationOpen: bool)

  function SigningInput(cfg: Config, nonce: Bytes, key: Bytes): Bytes {
    cfg.domain + nonce + key
  }

  datatype ErrorCode =
    | UnsupportedVersion | NotAuthenticated | AlreadyAuthenticated | HandleUnavailable
    | InvalidField | NotFound | PermissionDenied | InternalError | AccountBanned

  datatype Reply =
    | Refused(code: ErrorCode)
    | Challenge(nonce: Bytes, accountExists: bool)
    | Acknowledged(reference: nat)
    | Accepted(userId: nat, handle: string, push: Option<Notice>)
    | Letters(page: Page)
    | Silent
    | Closed

  datatype Event =
    | Connect(c: int)
    | Disconnect(c: int)
    | Ban(userId: nat, banned: bool)
    | Announce(body: Option<string>)        // a new announcement, or none any more
    | Message(c: int, request: Request)

  /** What a connection brings: the end of its handshake, or a frame. A payload that did not decode is None. */
  datatype Request =
    | Shake
    | Hello(hello: Option<HelloRequest>, nonce: Bytes)
    | Auth(signature: Option<Bytes>)
    | Register(requested: Option<string>)
    | Send(letter: Option<SendRequest>)
    | Fetch(fetch: Option<FetchRequest>)
    | Ack(ids: Option<seq<nat>>, fault: Option<nat>)

  datatype HelloRequest = HelloRequest(version: nat, key: Bytes)

  datatype SendRequest = SendRequest(recipientKey: Bytes, ciphertext: Bytes)

  datatype FetchRequest = FetchRequest(since: nat, limit: nat)

  // ---------------------------------------------------------------------------------------------
  // The user table

  /** The row holding a key, among the first n ids. */
  function FindByKey(users: map<nat, User>, key: Bytes, n: nat): (r: Option<nat>)
    ensures r.Some? ==> r.value in users && users[r.value].pubkey == key && 0 < r.value <= n
    ensures r.None? ==> forall i :: 0 < i <= n && i in users ==> users[i].pubkey != key
  {
    if n == 0 then None
    else if n in users && users[n].pubkey == key then Some(n)
    else FindByKey(users, key, n - 1)
  }

  function Lower(c: char): char {
    if 'A' <= c <= 'Z' then c - 'A' + 'a' else c
  }

  /** Handles collide when they differ in the case of ASCII letters only. */
  predicate SameHandle(a: string, b: string) {
    |a| == |b| && forall i :: 0 <= i < |a| ==> Lower(a[i]) == Lower(b[i])
  }

  predicate ValidHandle(h: string) {
    && 3 <= |h| <= 32
    && !('0' <= h[0] <= '9')
    && forall i :: 0 <= i < |h| ==>
         'a' <= h[i] <= 'z' || 'A' <= h[i] <= 'Z' || '0' <= h[i] <= '9' || h[i] == '-' || h[i] == '_'
  }

  predicate HandleTaken(users: map<nat, User>, h: string) {
    exists i :: i in users && SameHandle(users[i].handle, h)
  }

  // ---------------------------------------------------------------------------------------------
  // Steps

  function Update(w: World, c: int, s: Session): World {
    w.(sessions := w.sessions[c := s])
  }

  function Close(w: World, c: int): (World, Reply) {
    (w.(sessions := w.sessions - {c}), Closed)
  }

  predicate Registered(s: Session) {
    s.phase == Authenticated && s.userId != 0
  }

  function HelloStep(w: World, c: int, hello: Option<HelloRequest>, nonce: Bytes): (World, Reply)
    requires c in w.sessions
  {
    var s := w.sessions[c];
    if s.phase != AwaitingHello then (w, Refused(AlreadyAuthenticated))
    else if hello.None? then Close(w, c)
    else if hello.value.version != PROTOCOL_VERSION then (w, Refused(UnsupportedVersion))
    else
      var exists_ := FindByKey(w.users, hello.value.key, w.lastUser).Some?;
      (Update(w, c, s.(phase := AwaitingAuth, announced := hello.value.key, nonce := nonce)), Challenge(nonce, exists_))
  }

  function AuthStep(cfg: Config, w: World, c: int, signature: Option<Bytes>): (World, Reply)
    requires c in w.sessions
  {
    var s := w.sessions[c];
    if s.phase != AwaitingAuth then (w, Refused(NotAuthenticated))
    else if signature.None? then Close(w, c)
    else if !cfg.verify(s.announced, SigningInput(cfg, s.nonce, s.announced), signature.value) then Close(w, c)
    else match FindByKey(w.users, s.announced, w.lastUser)
      case None => (Update(w, c, s.(phase := Authenticated, userId := 0)), Acknowledged(0))
      case Some(id) =>
        var row := w.users[id];
        if row.banned then (w, Refused(AccountBanned))
        else (Update(w, c, s.(phase := Authenticated, userId := id, handle := row.handle)), Accepted(id, row.handle, w.board.active))
  }

  function RegisterStep(cfg: Config, w: World, c: int, requested: Option<string>): (World, Reply)
    requires c in w.sessions
  {
    var s := w.sessions[c];
    if s.phase != Authenticated || s.userId != 0 then (w, Refused(AlreadyAuthenticated))
    else if !cfg.registrationOpen then (w, Refused(PermissionDenied))
    else if requested.None? then Close(w, c)
    else
      var h := requested.value;
      if !ValidHandle(h) then (w, Refused(InvalidField))
      else if HandleTaken(w.users, h) || FindByKey(w.users, s.announced, w.lastUser).Some?
      then (w, Refused(HandleUnavailable))
      else
        var id := w.lastUser + 1;
        var grown := w.(users := w.users[id := User(s.announced, h, false)], lastUser := id);
        (Update(grown, c, s.(userId := id, handle := h)), Accepted(id, h, w.board.active))
  }

  function SendStep(w: World, c: int, letter: Option<SendRequest>): (World, Reply)
    requires c in w.sessions
  {
    var s := w.sessions[c];
    if !Registered(s) then (w, Refused(NotAuthenticated))
    else if letter.None? then Close(w, c)
    else if letter.value.ciphertext == [] then (w, Refused(InvalidField))
    else match FindByKey(w.users, letter.value.recipientKey, w.lastUser)
      case None => (w, Refused(NotFound))
      case Some(recipient) =>
        var mail := Insert(w.mail, Envelope(recipient, s.announced, letter.value.ciphertext));
        (w.(mail := mail), Acknowledged(mail.last))
  }

  function FetchStep(w: World, c: int, fetch: Option<FetchRequest>): (World, Reply)
    requires c in w.sessions
  {
    var s := w.sessions[c];
    if !Registered(s) then (w, Refused(NotAuthenticated))
    else if fetch.None? then Close(w, c)
    else (w, Letters(ListFor(w.mail, s.userId, AsInt64(fetch.value.since), ClampLimit(fetch.value.limit))))
  }

  function AckStep(w: World, c: int, ids: Option<seq<nat>>, fault: Option<nat>): (World, Reply)
    requires c in w.sessions
  {
    var s := w.sessions[c];
    if !Registered(s) then (w, Refused(NotAuthenticated))
    else if ids.None? then Close(w, c)
    else if Faulted(ids.value, fault) then (w, Refused(InternalError))
    else (w.(mail := Acknowledge(w.mail, s.userId, ids.value)), Acknowledged(|ids.value|))
  }

  function ShakeStep(w: World, c: int): (World, Reply)
    requires c in w.sessions
  {
    if w.sessions[c].phase != AwaitingHandshake then (w, Silent)
    else (Update(w, c, w.sessions[c].(phase := AwaitingHello)), Silent)
  }

  function Act(cfg: Config, w: World, c: int, r: Request): (World, Reply)
    requires c in w.sessions
  {
    match r
    case Shake => ShakeStep(w, c)
    case Hello(hello, nonce) => HelloStep(w, c, hello, nonce)
    case Auth(signature) => AuthStep(cfg, w, c, signature)
    case Register(requested) => RegisterStep(cfg, w, c, requested)
    case Send(letter) => SendStep(w, c, letter)
    case Fetch(fetch) => FetchStep(w, c, fetch)
    case Ack(ids, fault) => AckStep(w, c, ids, fault)
  }

  function BanStep(w: World, id: nat, banned: bool): World {
    if id in w.users then w.(users := w.users[id := w.users[id].(banned := banned)]) else w
  }

  function AnnounceStep(w: World, body: Option<string>): World {
    match body
    case None => w.(board := w.board.(active := None))
    case Some(text) => w.(board := Board(Some(Notice(w.board.last + 1, text)), w.board.last + 1))
  }

  /** One event. A descriptor is reused only after it was closed. */
  function Step(cfg: Config, w: World, e: Event): (World, Reply) {
    match e
    case Connect(c) => if c in w.sessions then (w, Silent) else (Update(w, c, NEW_SESSION), Silent)
    case Disconnect(c) => Close(w, c)
    case Ban(id, banned) => (BanStep(w, id, banned), Silent)
    case Announce(body) => (AnnounceStep(w, body), Silent)
    case Message(c, request) => if c in w.sessions then Act(cfg, w, c, request) else (w, Silent)
  }

  // ---------------------------------------------------------------------------------------------
  // What every step keeps

  ghost predicate UsersOk(w: World) {
    && (forall i :: i in w.users ==> 0 < i <= w.lastUser)
    && (forall i, j :: i in w.users && j in w.users && w.users[i].pubkey == w.users[j].pubkey ==> i == j)
    && (forall i, j :: i in w.users && j in w.users && SameHandle(w.users[i].handle, w.users[j].handle) ==> i == j)
  }

  /** A session with an account is one of the row that holds its announced key. */
  ghost predicate SessionOk(w: World, s: Session) {
    s.userId != 0 ==>
      s.phase == Authenticated && s.userId in w.users
      && w.users[s.userId].pubkey == s.announced && w.users[s.userId].handle == s.handle
  }

  ghost predicate Invariant(w: World) {
    UsersOk(w) && MailOk(w.mail) && forall c :: c in w.sessions ==> SessionOk(w, w.sessions[c])
  }

  /** How one session may change: forward only, key and nonce frozen once announced, account once acquired. */
  ghost predicate Advances(s: Session, t: Session) {
    && s.phase.Rank() <= t.phase.Rank()
    && (s.phase.Rank() >= 2 ==> t.announced == s.announced && t.nonce == s.nonce)
    && (s.userId != 0 ==> t == s)
  }

  /** Rows are never removed, and a row's key and handle never change. */
  ghost predicate UsersKept(w: World, v: World) {
    forall i :: i in w.users ==>
                  i in v.users && v.users[i].pubkey == w.users[i].pubkey && v.users[i].handle == w.users[i].handle
  }

  lemma SameHandleSymmetric(a: string, b: string)
    requires SameHandle(a, b)
    ensures SameHandle(b, a)
  {
  }

  lemma RegisterKeeps(cfg: Config, w: World, c: int, requested: Option<string>)
    requires UsersOk(w) && c in w.sessions
    ensures UsersOk(RegisterStep(cfg, w, c, requested).0) && UsersKept(w, RegisterStep(cfg, w, c, requested).0)
  {
    var v := RegisterStep(cfg, w, c, requested).0;
    if v.users != w.users {
      var id, h := w.lastUser + 1, requested.value;
      assert v.users == w.users[id := User(w.sessions[c].announced, h, false)];
      forall i | i in w.users ensures !SameHandle(w.users[i].handle, h) && !SameHandle(h, w.users[i].handle) {
        if SameHandle(h, w.users[i].handle) {
          SameHandleSymmetric(h, w.users[i].handle);
        }
      }
    }
  }

  lemma BanKeeps(w: World, id: nat, banned: bool)
    requires UsersOk(w)
    ensures UsersOk(BanStep(w, id, banned)) && UsersKept(w, BanStep(w, id, banned))
  {
  }

  /** Only registering touches the user table on behalf of a connection. */
  lemma ActKeepsUsers(cfg: Config, w: World, c: int, r: Request)
    requires UsersOk(w) && c in w.sessions
    ensures UsersOk(Act(cfg, w, c, r).0) && UsersKept(w, Act(cfg, w, c, r).0)
  {
    if r.Register? {
      RegisterKeeps(cfg, w, c, r.requested);
    } else {
      var v := Act(cfg, w, c, r).0;
      assert v.users == w.users && v.lastUser == w.lastUser;
    }
  }

  /** The step left the other sessions alone, and took this one only where it may go. */
  ghost predicate OnlyAdvances(w: World, v: World, c: int)
    requires c in w.sessions
  {
    && v.sessions - {c} == w.sessions - {c}
    && (c in v.sessions ==> SessionOk(v, v.sessions[c]) && Advances(w.sessions[c], v.sessions[c]))
  }

  lemma AuthOnSession(cfg: Config, w: World, c: int, signature: Option<Bytes>)
    requires c in w.sessions && SessionOk(w, w.sessions[c])
    ensures OnlyAdvances(w, AuthStep(cfg, w, c, signature).0, c)
  {
  }

  lemma RegisterOnSession(cfg: Config, w: World, c: int, requested: Option<string>)
    requires c in w.sessions && SessionOk(w, w.sessions[c])
    ensures OnlyAdvances(w, RegisterStep(cfg, w, c, requested).0, c)
  {
  }

  lemma ActOnSession(cfg: Config, w: World, c: int, r: Request)
    requires c in w.sessions && SessionOk(w, w.sessions[c])
    ensures OnlyAdvances(w, Act(cfg, w, c, r).0, c)
  {
    match r
    case Shake =>
    case Hello(_, _) =>
    case Auth(signature) => AuthOnSession(cfg, w, c, signature);
    case Register(requested) => RegisterOnSession(cfg, w, c, requested);
    case Send(_) =>
    case Fetch(_) =>
    case Ack(_, _) =>
  }

  lemma ActKeepsMail(cfg: Config, w: World, c: int, r: Request)
    requires MailOk(w.mail) && c in w.sessions
    ensures MailOk(Act(cfg, w, c, r).0.mail)
  {
  }

  /** The other connections' sessions are untouched by an event. */
  ghost predicate OthersUntouched(w: World, v: World, e: Event) {
    forall c :: e.Ban? || e.Announce? || c != e.c ==>
                  (c in v.sessions <==> c in w.sessions) && (c in v.sessions ==> v.sessions[c] == w.sessions[c])
  }

  /** Every step keeps the invariant and is local to its connection; a surviving session only advances. */
  lemma StepKeepsInvariant(cfg: Config, w: World, e: Event)
    requires Invariant(w)
    ensures
      var v := Step(cfg, w, e).0;
      && Invariant(v) && OthersUntouched(w, v, e)
      && forall c :: c in w.sessions && c in v.sessions ==> Advances(w.sessions[c], v.sessions[c])
  {
    match e
    case Connect(_) =>
    case Disconnect(_) =>
    case Ban(id, banned) => BanKeeps(w, id, banned);
    case Announce(_) =>
    case Message(c, r) =>
      if c in w.sessions {
        ActKeepsUsers(cfg, w, c, r);
        ActKeepsMail(cfg, w, c, r);
        ActOnSession(cfg, w, c, r);
        OthersFromRest(w.sessions, Act(cfg, w, c, r).0.sessions, c);
      }
  }

  lemma OthersFromRest(s: map<int, Session>, t: map<int, Session>, c: int)
    requires t - {c} == s - {c}
    ensures forall d :: d != c ==> (d in t <==> d in s) && (d in t ==> t[d] == s[d])
  {
    forall d | d != c ensures (d in t <==> d in s) && (d in t ==> t[d] == s[d]) {
      assert d in t <==> d in t - {c};
      assert d in s <==> d in s - {c};
    }
  }

  // ---------------------------------------------------------------------------------------------
  // Runs

  function Run(cfg: Config, events: seq<Event>): World {
    if events == [] then EMPTY_WORLD
    else Step(cfg, Run(cfg, events[..|events| - 1]), events[|events| - 1]).0
  }

  function At(cfg: Config, events: seq<Event>, i: nat): World
    requires i <= |events|
  {
    Run(cfg, events[..i])
  }

  lemma AtStep(cfg: Config, events: seq<Event>, i: nat)
    requires i < |events|
    ensures At(cfg, events, i + 1) == Step(cfg, At(cfg, events, i), events[i]).0
  {
    assert events[..i + 1][..i] == events[..i];
  }

  lemma {:induction false} RunKeepsInvariant(cfg: Config, events: seq<Event>)
    ensures Invariant(Run(cfg, events))
    decreases |events|
  {
    if events != [] {
      RunKeepsInvariant(cfg, events[..|events| - 1]);
      StepKeepsInvariant(cfg, Run(cfg, events[..|events| - 1]), events[|events| - 1]);
    }
  }

  /** Connection c lives from instant i to instant k of the run. */
  ghost predicate Lives(cfg: Config, events: seq<Event>, c: int, i: nat, k: nat)
    requires i <= k <= |events|
  {
    forall m :: i <= m <= k ==> c in At(cfg, events, m).sessions
  }

  /** Over any stretch of any run: a living session only moves forward, keeping its key, nonce and account. */
  lemma {:induction false} RunAdvances(cfg: Config, events: seq<Event>, c: int, i: nat, k: nat)
    requires i <= k <= |events| && Lives(cfg, events, c, i, k)
    ensures Advances(At(cfg, events, i).sessions[c], At(cfg, events, k).sessions[c])
    decreases k - i
  {
    if i < k {
      RunAdvances(cfg, events, c, i, k - 1);
      RunKeepsInvariant(cfg, events[..k - 1]);
      AtStep(cfg, events, k - 1);
      StepKeepsInvariant(cfg, At(cfg, events, k - 1), events[k - 1]);
    }
  }

  // ---------------------------------------------------------------------------------------------
  // Provenance: who may be authenticated, and whose letters are stored

  /** At instant i connection c announced this key and was given this nonce, and it lives on with them until k. */
  ghost predicate Announced(cfg: Config, events: seq<Event>, c: int, key: Bytes, nonce: Bytes, i: nat, k: nat) {
    && i < k <= |events|
    && events[i] == Message(c, Hello(Some(HelloRequest(PROTOCOL_VERSION, key)), nonce))
    && Holds(cfg, events, c, key, nonce, i + 1, k)
  }

  ghost predicate Holds(cfg: Config, events: seq<Event>, c: int, key: Bytes, nonce: Bytes, i: nat, k: nat) {
    && i <= k <= |events|
    && forall m :: i <= m <= k ==>
         && c in At(cfg, events, m).sessions
         && At(cfg, events, m).sessions[c].announced == key
         && At(cfg, events, m).sessions[c].nonce == nonce
  }

  /** At instant i connection c presented a signature that verifies over its own nonce and key. */
  ghost predicate Proved(cfg: Config, events: seq<Event>, c: int, key: Bytes, nonce: Bytes, i: nat) {
    && i < |events|
    && events[i].Message? && events[i].c == c && events[i].request.Auth? && events[i].request.signature.Some?
    && cfg.verify(key, SigningInput(cfg, nonce, key), events[i].request.signature.value)
  }

  lemma HoldsLonger(cfg: Config, events: seq<Event>, c: int, key: Bytes, nonce: Bytes, i: nat, k: nat)
    requires Holds(cfg, events, c, key, nonce, i, k) && k < |events|
    requires
      var w := At(cfg, events, k + 1);
      c in w.sessions && w.sessions[c].announced == key && w.sessions[c].nonce == nonce
    ensures Holds(cfg, events, c, key, nonce, i, k + 1)
  {
  }

  /** Only an accepted hello brings a session to a challenge, with the key it names and the nonce it draws. */
  lemma OnlyHelloAnnounces(cfg: Config, w: World, e: Event, c: int)
    requires Invariant(w) && c in Step(cfg, w, e).0.sessions
    requires Step(cfg, w, e).0.sessions[c].phase.Rank() >= 2
    requires !(c in w.sessions && w.sessions[c].phase.Rank() >= 2)
    ensures
      var s := Step(cfg, w, e).0.sessions[c];
      e == Message(c, Hello(Some(HelloRequest(PROTOCOL_VERSION, s.announced)), s.nonce))
  {
    StepKeepsInvariant(cfg, w, e);
  }

  /** Only a verifying signature over the session's own nonce and key authenticates it. */
  lemma OnlyProofAuthenticates(cfg: Config, w: World, e: Event, c: int)
    requires Invariant(w) && c in Step(cfg, w, e).0.sessions
    requires Step(cfg, w, e).0.sessions[c].phase == Authenticated
    requires !(c in w.sessions && w.sessions[c].phase == Authenticated)
    ensures
      var s := Step(cfg, w, e).0.sessions[c];
      && c in w.sessions && w.sessions[c].phase == AwaitingAuth
      && e.Message? && e.c == c && e.request.Auth? && e.request.signature.Some?
      && cfg.verify(s.announced, SigningInput(cfg, s.nonce, s.announced), e.request.signature.value)
  {
    StepKeepsInvariant(cfg, w, e);
  }

  lemma {:induction false} AnnouncedBefore(cfg: Config, events: seq<Event>, c: int, k: nat) returns (i: nat)
    requires k <= |events| && c in At(cfg, events, k).sessions
    requires At(cfg, events, k).sessions[c].phase.Rank() >= 2
    ensures
      var s := At(cfg, events, k).sessions[c];
      Announced(cfg, events, c, s.announced, s.nonce, i, k)
    decreases k
  {
    if k == 0 {
      assert false;
    } else {
      AtStep(cfg, events, k - 1);
      RunKeepsInvariant(cfg, events[..k - 1]);
      var w, e := At(cfg, events, k - 1), events[k - 1];
      var s := At(cfg, events, k).sessions[c];
      StepKeepsInvariant(cfg, w, e);
      if c in w.sessions && w.sessions[c].phase.Rank() >= 2 {
        i := AnnouncedBefore(cfg, events, c, k - 1);
        HoldsLonger(cfg, events, c, s.announced, s.nonce, i + 1, k - 1);
      } else {
        i := k - 1;
        OnlyHelloAnnounces(cfg, w, e, c);
      }
    }
  }

  /**
   In every interleaving, a connection found authenticated announced its key in its own hello, was given its nonce
   there, and later presented a verifying signature over exactly that nonce and key; both stayed frozen throughout.
   */
  lemma {:induction false} AuthenticatedOnlyByProof(cfg: Config, events: seq<Event>, c: int, k: nat) returns (h: nat, a: nat)
    requires k <= |events| && c in At(cfg, events, k).sessions
    requires At(cfg, events, k).sessions[c].phase == Authenticated
    ensures
      var s := At(cfg, events, k).sessions[c];
      && Announced(cfg, events, c, s.announced, s.nonce, h, k)
      && h < a < k && Proved(cfg, events, c, s.announced, s.nonce, a)
    decreases k
  {
    h := AnnouncedBefore(cfg, events, c, k);
    if c in At(cfg, events, k - 1).sessions && At(cfg, events, k - 1).sessions[c].phase == Authenticated {
      var h', a' := AuthenticatedOnlyByProof(cfg, events, c, k - 1);
      h, a := h', a';
      StillAnnounced(cfg, events, c, h, k - 1);
    } else {
      a := k - 1;
      ProvedJustNow(cfg, events, c, k - 1);
    }
  }

  lemma StillAnnounced(cfg: Config, events: seq<Event>, c: int, h: nat, i: nat)
    requires i < |events| && c in At(cfg, events, i).sessions && c in At(cfg, events, i + 1).sessions
    requires At(cfg, events, i).sessions[c].phase.Rank() >= 2
    requires
      var s := At(cfg, events, i).sessions[c];
      Announced(cfg, events, c, s.announced, s.nonce, h, i)
    ensures
      var s, t := At(cfg, events, i).sessions[c], At(cfg, events, i + 1).sessions[c];
      t.announced == s.announced && t.nonce == s.nonce && Announced(cfg, events, c, s.announced, s.nonce, h, i + 1)
  {
    var s := At(cfg, events, i).sessions[c];
    AtStep(cfg, events, i);
    RunKeepsInvariant(cfg, events[..i]);
    StepKeepsInvariant(cfg, At(cfg, events, i), events[i]);
    HoldsLonger(cfg, events, c, s.announced, s.nonce, h + 1, i);
  }

  lemma ProvedJustNow(cfg: Config, events: seq<Event>, c: int, i: nat)
    requires i < |events| && c in At(cfg, events, i + 1).sessions && At(cfg, events, i + 1).sessions[c].phase == Authenticated
    requires !(c in At(cfg, events, i).sessions && At(cfg, events, i).sessions[c].phase == Authenticated)
    ensures
      var t := At(cfg, events, i + 1).sessions[c];
      Proved(cfg, events, c, t.announced, t.nonce, i) && c in At(cfg, events, i).sessions
      && At(cfg, events, i).sessions[c].phase == AwaitingAuth
  {
    AtStep(cfg, events, i);
    RunKeepsInvariant(cfg, events[..i]);
    OnlyProofAuthenticates(cfg, At(cfg, events, i), events[i], c);
  }

  /** A registered session names the one account whose row holds the key it proved. */
  lemma AccountHoldsProvenKey(cfg: Config, events: seq<Event>, c: int)
    requires c in Run(cfg, events).sessions && Run(cfg, events).sessions[c].userId != 0
    ensures
      var w := Run(cfg, events);
      var s := w.sessions[c];
      && s.userId in w.users && w.users[s.userId].pubkey == s.announced
      && (forall i :: i in w.users && w.users[i].pubkey == s.announced ==> i == s.userId)
      && exists a :: Proved(cfg, events, c, s.announced, s.nonce, a)
  {
    RunKeepsInvariant(cfg, events);
    assert events[..|events|] == events;
    var h, a := AuthenticatedOnlyByProof(cfg, events, c, |events|);
  }

  // ---------------------------------------------------------------------------------------------
  // No proof is used twice

  /** What a signature scheme is trusted for: a signature is by one key, over one text. */
  ghost predicate Binding(cfg: Config) {
    forall k, m, k', m', s :: cfg.verify(k, m, s) && cfg.verify(k', m', s) ==> k == k' && m == m'
  }

  /** The server never draws the same nonce twice. */
  ghost predicate FreshNonces(events: seq<Event>) {
    forall i, j :: 0 <= i < j < |events| && IsHello(events[i]) && IsHello(events[j]) ==>
                     events[i].request.nonce != events[j].request.nonce
  }

  predicate IsHello(e: Event) {
    e.Message? && e.request.Hello?
  }

  /** At instant i connection c becomes authenticated by this signature. */
  ghost predicate AuthenticatedBy(cfg: Config, events: seq<Event>, c: int, i: nat, signature: Bytes) {
    && i < |events| && events[i] == Message(c, Auth(Some(signature)))
    && c in At(cfg, events, i).sessions && At(cfg, events, i).sessions[c].phase == AwaitingAuth
    && c in At(cfg, events, i + 1).sessions && At(cfg, events, i + 1).sessions[c].phase == Authenticated
  }

  /** The hello behind an authentication: its nonce and key are what the signature is over. */
  lemma HelloBehind(cfg: Config, events: seq<Event>, c: int, i: nat, signature: Bytes) returns (h: nat)
    requires AuthenticatedBy(cfg, events, c, i, signature)
    ensures
      var s := At(cfg, events, i).sessions[c];
      && Announced(cfg, events, c, s.announced, s.nonce, h, i)
      && cfg.verify(s.announced, SigningInput(cfg, s.nonce, s.announced), signature)
  {
    h := AnnouncedBefore(cfg, events, c, i);
    AtStep(cfg, events, i);
    RunKeepsInvariant(cfg, events[..i]);
    StepKeepsInvariant(cfg, At(cfg, events, i), events[i]);
    OnlyProofAuthenticates(cfg, At(cfg, events, i), events[i], c);
  }

  lemma SameNonce(cfg: Config, nonce: Bytes, other: Bytes, key: Bytes)
    requires SigningInput(cfg, nonce, key) == SigningInput(cfg, other, key)
    ensures nonce == other
  {
    var a, b := SigningInput(cfg, nonce, key), SigningInput(cfg, other, key);
    assert |nonce| == |other|;
    assert nonce == a[|cfg.domain|..|cfg.domain| + |nonce|] && other == b[|cfg.domain|..|cfg.domain| + |other|];
  }

  lemma NotTwice(cfg: Config, events: seq<Event>, c: int, key: Bytes, nonce: Bytes, h: nat, i: nat, j: nat)
    requires Announced(cfg, events, c, key, nonce, h, j) && h < i < j
    requires At(cfg, events, i + 1).sessions[c].phase == Authenticated
    ensures At(cfg, events, j).sessions[c].phase == Authenticated
  {
    RunAdvances(cfg, events, c, i + 1, j);
  }

  lemma LaterUseRefused(cfg: Config, events: seq<Event>, c: int, i: nat, d: int, j: nat, signature: Bytes)
    requires Binding(cfg) && FreshNonces(events) && i <= j
    requires AuthenticatedBy(cfg, events, c, i, signature) && AuthenticatedBy(cfg, events, d, j, signature)
    ensures i == j
  {
    var h := HelloBehind(cfg, events, c, i, signature);
    var g := HelloBehind(cfg, events, d, j, signature);
    var s, t := At(cfg, events, i).sessions[c], At(cfg, events, j).sessions[d];
    SameNonce(cfg, s.nonce, t.nonce, s.announced);
    assert h == g && c == d;
    if i < j {
      NotTwice(cfg, events, c, t.announced, t.nonce, h, i, j);
    }
  }

  /** With fresh nonces and binding signatures, one signature authenticates one connection, once, in every run. */
  lemma SignatureUsedOnce(cfg: Config, events: seq<Event>, c: int, i: nat, d: int, j: nat, signature: Bytes)
    requires Binding(cfg) && FreshNonces(events)
    requires AuthenticatedBy(cfg, events, c, i, signature) && AuthenticatedBy(cfg, events, d, j, signature)
    ensures i == j && c == d
  {
    if i <= j {
      LaterUseRefused(cfg, events, c, i, d, j, signature);
    } else {
      LaterUseRefused(cfg, events, d, j, c, i, signature);
    }
  }

  /** A scheme that shows key and text is such a one, so the law can be met. */
  lemma BindingExists()
    ensures Binding(Config((k: Bytes, m: Bytes, s: Bytes) => |k| == 32 && s == k + m, [], true))
  {
    forall k: Bytes, m: Bytes, k': Bytes, m': Bytes | |k| == |k'| && k + m == k' + m' ensures k == k' && m == m' {
      assert k == (k + m)[..|k|] && k' == (k' + m')[..|k|];
      assert m == (k + m)[|k|..] && m' == (k' + m')[|k|..];
    }
  }

  // ---------------------------------------------------------------------------------------------
  // Letters

  /** A letter was sent to this key at instant d by connection c, holding the sender key and having proved it before. */
  ghost predicate Deposited(cfg: Config, events: seq<Event>, letter: Envelope, key: Bytes, c: int, d: nat, a: nat) {
    && a < d < |events|
    && events[d] == Message(c, Send(Some(SendRequest(key, letter.ciphertext))))
    && letter.recipient in At(cfg, events, d).users && At(cfg, events, d).users[letter.recipient].pubkey == key
    && c in At(cfg, events, d).sessions
    && Registered(At(cfg, events, d).sessions[c])
    && At(cfg, events, d).sessions[c].announced == letter.sender
    && Proved(cfg, events, c, letter.sender, At(cfg, events, d).sessions[c].nonce, a)
  }

  /**
   Only a send by a registered session adds a letter: the ciphertext it brings, under its own key, for the account that holds
   the key it names.
   */
  lemma OnlySendDeposits(cfg: Config, w: World, e: Event, id: nat)
    requires id in Step(cfg, w, e).0.mail.rows
    requires !(id in w.mail.rows && Step(cfg, w, e).0.mail.rows[id] == w.mail.rows[id])
    ensures
      var letter := Step(cfg, w, e).0.mail.rows[id];
      && e.Message? && e.c in w.sessions && Registered(w.sessions[e.c])
      && letter.sender == w.sessions[e.c].announced && letter.recipient in w.users
      && e.request == Send(Some(SendRequest(w.users[letter.recipient].pubkey, letter.ciphertext)))
  {
  }

  /** Every stored letter was sent to the key of the account it is for, and carries the key its depositing session had proved. */
  lemma {:induction false} SenderIsProven(cfg: Config, events: seq<Event>, id: nat, k: nat)
    returns (key: Bytes, c: int, d: nat, a: nat)
    requires k <= |events| && id in At(cfg, events, k).mail.rows
    ensures Deposited(cfg, events, At(cfg, events, k).mail.rows[id], key, c, d, a) && d < k
    decreases k
  {
    if k == 0 {
      assert false;
    } else {
      var w := At(cfg, events, k - 1);
      if id in w.mail.rows && At(cfg, events, k).mail.rows[id] == w.mail.rows[id] {
        key, c, d, a := SenderIsProven(cfg, events, id, k - 1);
      } else {
        d := k - 1;
        key, c, a := DepositedNow(cfg, events, id, d);
      }
    }
  }

  lemma DepositedNow(cfg: Config, events: seq<Event>, id: nat, d: nat) returns (key: Bytes, c: int, a: nat)
    requires d < |events| && id in At(cfg, events, d + 1).mail.rows
    requires !(id in At(cfg, events, d).mail.rows && At(cfg, events, d + 1).mail.rows[id] == At(cfg, events, d).mail.rows[id])
    ensures Deposited(cfg, events, At(cfg, events, d + 1).mail.rows[id], key, c, d, a)
  {
    AtStep(cfg, events, d);
    OnlySendDeposits(cfg, At(cfg, events, d), events[d], id);
    c := events[d].c;
    key := events[d].request.letter.value.recipientKey;
    var h, proof := AuthenticatedOnlyByProof(cfg, events, c, d);
    a := proof;
  }
}
