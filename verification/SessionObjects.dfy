/** The session and mailbox handlers as the server runs them, on shared tables updated in place. */
module SessionObjects {
  import opened Prelude
  import opened Mailbox
  import opened Sessions

  class Application {
    const cfg: Config
    const letters: MailTable
    var sessions: map<int, Session>
    var users: map<nat, User>
    var lastUser: nat
    var board: Board

    ghost function Value(): World
      reads this, letters
    {
      World(sessions, users, lastUser, letters.mail, board)
    }

    constructor (cfg: Config)
      ensures this.cfg == cfg && fresh(letters) && Value() == EMPTY_WORLD
    {
      this.cfg := cfg;
      letters := new MailTable();
      sessions, users, lastUser, board := map[], map[], 0, Board(None, 0);
    }

    method CloseConnection(c: int) returns (reply: Reply)
      modifies this
      ensures (Value(), reply) == Close(old(Value()), c)
    {
      sessions := sessions - {c};
      reply := Closed;
    }

    method FinishHandshake(c: int) returns (reply: Reply)
      requires c in sessions
      modifies this
      ensures (Value(), reply) == ShakeStep(old(Value()), c)
    {
      if sessions[c].phase == AwaitingHandshake {
        sessions := sessions[c := sessions[c].(phase := AwaitingHello)];
      }
      reply := Silent;
    }

    method SetBanned(id: nat, banned: bool)
      modifies this
      ensures Value() == BanStep(old(Value()), id, banned)
    {
      if id in users {
        users := users[id := users[id].(banned := banned)];
      }
    }

    method PublishNotice(body: Option<string>)
      modifies this
      ensures Value() == AnnounceStep(old(Value()), body)
    {
      board := board.(active := None);
      if body.Some? {
        board := Board(Some(Notice(board.last + 1, body.value)), board.last + 1);
      }
    }

    method CreateUser(pubkey: Bytes, handle: string) returns (created: Option<nat>)
      modifies this
      ensures
        if HandleTaken(old(users), handle) || FindByKey(old(users), pubkey, old(lastUser)).Some?
        then created == None && Value() == old(Value())
        else
          && created == Some(old(lastUser) + 1) && lastUser == old(lastUser) + 1
          && users == old(users)[lastUser := User(pubkey, handle, false)]
          && sessions == old(sessions) && letters.mail == old(letters.mail) && board == old(board)
    {
      if HandleTaken(users, handle) || FindByKey(users, pubkey, lastUser).Some? {
        return None;
      }
      lastUser := lastUser + 1;
      users := users[lastUser := User(pubkey, handle, false)];
      created := Some(lastUser);
    }

    method AcceptSession(c: int, id: nat) returns (reply: Reply)
      requires c in sessions && id in users
      modifies this
      ensures Value() == Update(old(Value()), c, old(sessions[c]).(phase := Authenticated, userId := id, handle := old(users[id]).handle))
      ensures reply == Accepted(id, old(users[id]).handle, old(board).active)
    {
      sessions := sessions[c := sessions[c].(phase := Authenticated, userId := id, handle := users[id].handle)];
      reply := Accepted(id, users[id].handle, board.active);
    }

    method HandleHello(c: int, hello: Option<HelloRequest>, nonce: Bytes) returns (reply: Reply)
      requires c in sessions
      modifies this
      ensures (Value(), reply) == HelloStep(old(Value()), c, hello, nonce)
    {
      if sessions[c].phase != AwaitingHello {
        return Refused(AlreadyAuthenticated);
      }
      if hello.None? {
        reply := CloseConnection(c);
        return;
      }
      if hello.value.version != PROTOCOL_VERSION {
        return Refused(UnsupportedVersion);
      }
      var session := sessions[c].(announced := hello.value.key, nonce := nonce);
      var existing := FindByKey(users, hello.value.key, lastUser);
      sessions := sessions[c := session.(phase := AwaitingAuth)];
      reply := Challenge(nonce, existing.Some?);
    }

    method HandleAuth(c: int, signature: Option<Bytes>) returns (reply: Reply)
      requires c in sessions
      modifies this
      ensures (Value(), reply) == AuthStep(cfg, old(Value()), c, signature)
    {
      var session := sessions[c];
      if session.phase != AwaitingAuth {
        return Refused(NotAuthenticated);
      }
      if signature.None? {
        reply := CloseConnection(c);
        return;
      }
      var signed := SigningInput(cfg, session.nonce, session.announced);
      if !cfg.verify(session.announced, signed, signature.value) {
        reply := CloseConnection(c);
        return;
      }
      var existing := FindByKey(users, session.announced, lastUser);
      if existing.Some? {
        if users[existing.value].banned {
          return Refused(AccountBanned);
        }
        reply := AcceptSession(c, existing.value);
        return;
      }
      sessions := sessions[c := session.(phase := Authenticated, userId := 0)];
      reply := Acknowledged(0);
    }

    method HandleRegister(c: int, requested: Option<string>) returns (reply: Reply)
      requires c in sessions
      modifies this
      ensures (Value(), reply) == RegisterStep(cfg, old(Value()), c, requested)
    {
      var session := sessions[c];
      if session.phase != Authenticated || session.userId != 0 {
        return Refused(AlreadyAuthenticated);
      }
      if !cfg.registrationOpen {
        return Refused(PermissionDenied);
      }
      if requested.None? {
        reply := CloseConnection(c);
        return;
      }
      if !ValidHandle(requested.value) {
        return Refused(InvalidField);
      }
      var created := CreateUser(session.announced, requested.value);
      if created.None? {
        return Refused(HandleUnavailable);
      }
      reply := AcceptSession(c, created.value);
    }

    /** True when the session may act for an account; otherwise the refusal to send. */
    method RequireRegisteredSession(c: int) returns (allowed: bool, refusal: Reply)
      requires c in sessions
      ensures allowed == Registered(sessions[c])
      ensures !allowed ==> refusal == Refused(NotAuthenticated)
    {
      allowed := sessions[c].phase == Authenticated && sessions[c].userId != 0;
      refusal := if allowed then Silent else Refused(NotAuthenticated);
    }

    method HandleSend(c: int, letter: Option<SendRequest>) returns (reply: Reply)
      requires c in sessions
      modifies this, letters
      ensures (Value(), reply) == SendStep(old(Value()), c, letter)
    {
      var allowed, refusal := RequireRegisteredSession(c);
      if !allowed {
        return refusal;
      }
      if letter.None? {
        reply := CloseConnection(c);
        return;
      }
      if letter.value.ciphertext == [] {
        return Refused(InvalidField);
      }
      var recipient := FindByKey(users, letter.value.recipientKey, lastUser);
      if recipient.None? {
        return Refused(NotFound);
      }
      var id := letters.InsertEnvelope(recipient.value, sessions[c].announced, letter.value.ciphertext);
      reply := Acknowledged(id);
    }

    method HandleFetch(c: int, fetch: Option<FetchRequest>) returns (reply: Reply)
      requires c in sessions
      modifies this
      ensures (Value(), reply) == FetchStep(old(Value()), c, fetch)
    {
      var allowed, refusal := RequireRegisteredSession(c);
      if !allowed {
        return refusal;
      }
      if fetch.None? {
        reply := CloseConnection(c);
        return;
      }
      var page := letters.ListForRecipient(sessions[c].userId, AsInt64(fetch.value.since), ClampLimit(fetch.value.limit));
      reply := Letters(page);
    }

    method HandleAck(c: int, ids: Option<seq<nat>>, fault: Option<nat>) returns (reply: Reply)
      requires c in sessions
      modifies this, letters
      ensures (Value(), reply) == AckStep(old(Value()), c, ids, fault)
    {
      var allowed, refusal := RequireRegisteredSession(c);
      if !allowed {
        return refusal;
      }
      if ids.None? {
        reply := CloseConnection(c);
        return;
      }
      var ok := letters.DeleteAcknowledged(sessions[c].userId, ids.value, fault);
      reply := if ok then Acknowledged(|ids.value|) else Refused(InternalError);
    }

    /** The router's choice of handler. */
    method Handle(c: int, request: Request) returns (reply: Reply)
      requires c in sessions
      modifies this, letters
      ensures (Value(), reply) == Act(cfg, old(Value()), c, request)
    {
      match request
      case Shake => reply := FinishHandshake(c);
      case Hello(hello, nonce) => reply := HandleHello(c, hello, nonce);
      case Auth(signature) => reply := HandleAuth(c, signature);
      case Register(requested) => reply := HandleRegister(c, requested);
      case Send(letter) => reply := HandleSend(c, letter);
      case Fetch(fetch) => reply := HandleFetch(c, fetch);
      case Ack(ids, fault) => reply := HandleAck(c, ids, fault);
    }

    method OnEvent(e: Event) returns (reply: Reply)
      modifies this, letters
      ensures (Value(), reply) == Step(cfg, old(Value()), e)
    {
      reply := Silent;
      match e
      case Connect(c) =>
        if c !in sessions {
          sessions := sessions[c := NEW_SESSION];
        }
      case Disconnect(c) => reply := CloseConnection(c);
      case Ban(id, banned) => SetBanned(id, banned);
      case Announce(body) => PublishNotice(body);
      case Message(c, request) =>
        if c in sessions {
          reply := Handle(c, request);
        }
    }

    /** The server over a whole run: its state is the one that every theorem about runs is about. */
    method Serve(events: seq<Event>)
      requires Value() == EMPTY_WORLD
      modifies this, letters
      ensures Value() == Run(cfg, events) && Invariant(Value())
    {
      for i := 0 to |events|
        invariant Value() == At(cfg, events, i)
      {
        AtStep(cfg, events, i);
        var _ := OnEvent(events[i]);
      }
      assert events[..|events|] == events;
      RunKeepsInvariant(cfg, events);
    }
  }
}
