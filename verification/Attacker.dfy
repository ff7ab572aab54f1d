/**
 An active attacker on the handshake, over the symbolic suite. It relays, keeps, takes apart and makes up messages, holds
 every secret except the pinned server's static one and one client's ephemeral one, and may have the server answer whatever it
 likes, in the handshake and after it. Only what it could have learned can reach that client.
 */
module Attacker {
  import opened Prelude
  import opened Noise

  /**
   The pinned server's secret, the client's ephemeral secret and payload, and what they go on to say: the client its n-th
   transport message, and the server its n-th in the session that heard a message and drew an ephemeral secret.
   */
  datatype Game = Game(server: nat, client: nat, payload: Bytes, asks: nat -> Bytes, says: (Term, nat, nat) -> Bytes)

  /** The client's state and message after its first step. */
  function ClientStep(g: Game): (Initiator<Term>, Option<Term>) {
    WriteFirst(SYMBOLIC, NewInitiator(SYMBOLIC, Public(g.server)), Some(Secret(g.client)), Atom(g.payload))
  }

  /** What a fresh session of the server answers to a message, with a fresh ephemeral secret of its own. */
  function Reply(g: Game, heard: Term, ephemeral: nat, payload: Bytes): Option<Term> {
    var (r, got) := ReadFirst(SYMBOLIC, NewResponder(SYMBOLIC, Public(g.server), Secret(g.server)), heard);
    if got.None? then None else WriteSecond(SYMBOLIC, r, Some(Secret(ephemeral)), Atom(payload)).1
  }

  /** The n-th transport message of the server session that gives this reply. */
  function ServerMessage(g: Game, heard: Term, ephemeral: nat, payload: Bytes, n: nat): Option<Term> {
    var (r, got) := ReadFirst(SYMBOLIC, NewResponder(SYMBOLIC, Public(g.server), Secret(g.server)), heard);
    if got.None? then None
    else
      var keys :- ResponderKeys(SYMBOLIC, WriteSecond(SYMBOLIC, r, Some(Secret(ephemeral)), Atom(payload)).0);
      Some(Sealed(keys.send, Nonce(n), SYMBOLIC.empty, Atom(g.says(heard, ephemeral, n))))
  }

  /** The n-th transport message of the client that has had this reply. */
  function ClientMessage(g: Game, reply: Term, n: nat): Option<Term> {
    var keys :- InitiatorKeys(SYMBOLIC, ReadSecond(SYMBOLIC, ClientStep(g).0, reply).0);
    Some(Sealed(keys.send, Nonce(n), SYMBOLIC.empty, Atom(g.asks(n))))
  }

  /** What a transport over these keys seals as its n-th message. */
  function Nth(keys: Option<KeyPair<Term>>, n: nat, text: Bytes): Option<Term> {
    if keys.None? then None
    else
      var t := NewTransport(keys.value);
      SealMessage(SYMBOLIC, t.(send := t.send.(counter := n)), Atom(text)).1
  }

  lemma MessagesAreSealed(g: Game, reply: Term, heard: Term, ephemeral: nat, payload: Bytes, n: nat)
    requires n < MAX_COUNTER
    ensures ClientMessage(g, reply, n) == Nth(InitiatorKeys(SYMBOLIC, ReadSecond(SYMBOLIC, ClientStep(g).0, reply).0), n, g.asks(n))
    ensures
      var (r, got) := ReadFirst(SYMBOLIC, NewResponder(SYMBOLIC, Public(g.server), Secret(g.server)), heard);
      var keys := ResponderKeys(SYMBOLIC, WriteSecond(SYMBOLIC, r, Some(Secret(ephemeral)), Atom(payload)).0);
      ServerMessage(g, heard, ephemeral, payload, n) == if got.None? then None else Nth(keys, n, g.says(heard, ephemeral, n))
  {
  }

  // ---------------------------------------------------------------------------------------------
  // What the attacker can learn

  /** A handshake message of the client or the server, the latter in answer to something known. */
  ghost predicate Greets(g: Game, known: seq<Term>, t: Term) {
    || ClientStep(g).1 == Some(t)
    || exists heard, ephemeral, payload :: heard in known && Reply(g, heard, ephemeral, payload) == Some(t)
  }

  /** A transport message of the client, or of a session of the server, once the handshake got that far. */
  ghost predicate ClientSpeaks(g: Game, known: seq<Term>, t: Term) {
    exists reply, n: nat :: reply in known && n < MAX_COUNTER && ClientMessage(g, reply, n) == Some(t)
  }

  ghost predicate ServerSpeaks(g: Game, known: seq<Term>, t: Term) {
    exists heard, ephemeral, payload, n: nat ::
      heard in known && n < MAX_COUNTER && ServerMessage(g, heard, ephemeral, payload, n) == Some(t)
  }

  ghost predicate Speaks(g: Game, known: seq<Term>, t: Term) {
    ClientSpeaks(g, known, t) || ServerSpeaks(g, known, t)
  }

  ghost predicate Emits(g: Game, known: seq<Term>, t: Term) {
    Greets(g, known, t) || Speaks(g, known, t)
  }

  ghost predicate Makes(known: seq<Term>, t: Term) {
    match t
    case Hash(a, b) => a in known && b in known
    case Chain(a, b) => a in known && b in known
    case Derive(a, b) => a in known && b in known
    case Joined(a, b) => a in known && b in known
    case Sealed(k, _, ad, p) => k in known && ad in known && p in known
    case Shared(_, _) => exists a, b :: a in known && b in known && TermExchange(a, b) == Some(t)
    case _ => false
  }

  ghost predicate Extracts(known: seq<Term>, t: Term) {
    || (exists c :: c in known && c.Sealed? && c.key in known && c.plaintext == t)
    || (exists m :: m in known && m.Joined? && (m.ephemeral == t || m.sealed == t))
  }

  /** Public values and all other secrets, what the honest parties send, and what can be made or extracted. */
  ghost predicate Learns(g: Game, known: seq<Term>, t: Term) {
    || t.Atom? || t.Public? || (t.Secret? && t.owner != g.server && t.owner != g.client)
    || Emits(g, known, t) || Makes(known, t) || Extracts(known, t)
  }

  /** A run of the attacker: each term is learned from those before it. */
  ghost predicate Attack(g: Game, trace: seq<Term>) {
    trace != [] ==>
      var before := trace[..|trace| - 1];
      Attack(g, before) && Learns(g, before, trace[|trace| - 1])
  }

  // ---------------------------------------------------------------------------------------------
  // What it never learns

  /** Sealed by the client or the server. */
  ghost predicate Emitted(g: Game, trace: seq<Term>, c: Term) {
    || (exists m :: m in trace && m.Joined? && m.sealed == c && Greets(g, trace, m))
    || Speaks(g, trace, c)
  }

  /** The secret that client and server share. */
  function Core(g: Game): Term {
    if g.client <= g.server then Shared(g.client, g.server) else Shared(g.server, g.client)
  }

  /** Gives away neither the two secrets nor a key made from the one they share, unless honestly sealed. */
  ghost predicate Safe(g: Game, trace: seq<Term>, t: Term) {
    match t
    case Secret(owner) => owner != g.server && owner != g.client
    case Shared(_, _) => t != Core(g)
    case Chain(ck, m) => Safe(g, trace, ck) && Safe(g, trace, m)
    case Derive(ck, m) => Safe(g, trace, ck) && Safe(g, trace, m)
    case Joined(a, b) => Safe(g, trace, a) && Safe(g, trace, b)
    case Sealed(k, _, _, p) => Safe(g, trace, p) && (Safe(g, trace, k) || Emitted(g, trace, t))
    case _ => true
  }

  lemma GreetsLater(g: Game, before: seq<Term>, trace: seq<Term>, t: Term)
    requires before <= trace && Greets(g, before, t)
    ensures Greets(g, trace, t)
  {
    if ClientStep(g).1 != Some(t) {
      var heard, ephemeral, payload :| heard in before && Reply(g, heard, ephemeral, payload) == Some(t);
      assert heard in trace;
    }
  }

  lemma SpeaksLater(g: Game, before: seq<Term>, trace: seq<Term>, t: Term)
    requires before <= trace && Speaks(g, before, t)
    ensures Speaks(g, trace, t)
  {
    if ClientSpeaks(g, before, t) {
      var reply, n: nat :| reply in before && n < MAX_COUNTER && ClientMessage(g, reply, n) == Some(t);
      assert reply in trace;
    } else {
      var heard, ephemeral, payload, n: nat
        :| heard in before && n < MAX_COUNTER && ServerMessage(g, heard, ephemeral, payload, n) == Some(t);
      assert heard in trace;
    }
  }

  lemma EmittedLater(g: Game, before: seq<Term>, trace: seq<Term>, c: Term)
    requires before <= trace && Emitted(g, before, c)
    ensures Emitted(g, trace, c)
  {
    if Speaks(g, before, c) {
      SpeaksLater(g, before, trace, c);
    } else {
      var m :| m in before && m.Joined? && m.sealed == c && Greets(g, before, m);
      assert m in trace;
      GreetsLater(g, before, trace, m);
    }
  }

  lemma {:induction false} SafeLater(g: Game, before: seq<Term>, trace: seq<Term>, t: Term)
    requires before <= trace && Safe(g, before, t)
    ensures Safe(g, trace, t)
    decreases t
  {
    match t
    case Chain(a, b) =>
      SafeLater(g, before, trace, a);
      SafeLater(g, before, trace, b);
    case Derive(a, b) =>
      SafeLater(g, before, trace, a);
      SafeLater(g, before, trace, b);
    case Joined(a, b) =>
      SafeLater(g, before, trace, a);
      SafeLater(g, before, trace, b);
    case Sealed(k, _, _, p) =>
      SafeLater(g, before, trace, p);
      if Safe(g, before, k) {
        SafeLater(g, before, trace, k);
      } else {
        EmittedLater(g, before, trace, t);
      }
    case _ =>
  }

  /** Both honest parties send a public key and a sealed constant. */
  lemma GreetsShape(g: Game, known: seq<Term>, t: Term)
    requires Greets(g, known, t)
    ensures t.Joined? && t.ephemeral.Public? && t.sealed.Sealed? && t.sealed.plaintext.Atom?
  {
    SymbolicIsIdeal();
    if ClientStep(g).1 == Some(t) {
      FirstTranscript(SYMBOLIC, Public(g.server), Secret(g.client), Atom(g.payload));
    } else {
      var heard, ephemeral, payload :| heard in known && Reply(g, heard, ephemeral, payload) == Some(t);
      ReplyTranscript(SYMBOLIC, Secret(g.server), heard, Secret(ephemeral), Atom(payload));
    }
  }

  lemma EmitsSafe(g: Game, trace: seq<Term>, t: Term)
    requires t in trace && Emits(g, trace, t)
    ensures Safe(g, trace, t)
  {
    if Greets(g, trace, t) {
      GreetsShape(g, trace, t);
      assert Emitted(g, trace, t.sealed);
    } else {
      assert t.Sealed? && t.plaintext.Atom?;
    }
  }

  lemma MakesSafe(g: Game, trace: seq<Term>, known: seq<Term>, t: Term)
    requires Makes(known, t) && (forall k <- known :: Safe(g, trace, k))
    ensures Safe(g, trace, t)
  {
    if t.Shared? {
      var a, b :| a in known && b in known && TermExchange(a, b) == Some(t);
      assert Safe(g, trace, a);
    }
  }

  lemma ExtractsSafe(g: Game, trace: seq<Term>, known: seq<Term>, t: Term)
    requires Extracts(known, t) && (forall k <- known :: Safe(g, trace, k))
    ensures Safe(g, trace, t)
  {
    if c :| c in known && c.Sealed? && c.key in known && c.plaintext == t {
      assert Safe(g, trace, c);
    } else {
      var m :| m in known && m.Joined? && (m.ephemeral == t || m.sealed == t);
      assert Safe(g, trace, m);
    }
  }

  /** Whatever the attacker does, all it learns is safe. */
  lemma {:induction false} OnlySafeLearned(g: Game, trace: seq<Term>)
    requires Attack(g, trace)
    ensures forall t <- trace :: Safe(g, trace, t)
    decreases |trace|
  {
    if trace != [] {
      var before, last := trace[..|trace| - 1], trace[|trace| - 1];
      OnlySafeLearned(g, before);
      forall t <- before ensures Safe(g, trace, t) {
        SafeLater(g, before, trace, t);
      }
      if Emits(g, before, last) {
        if Greets(g, before, last) {
          GreetsLater(g, before, trace, last);
        } else {
          SpeaksLater(g, before, trace, last);
        }
        EmitsSafe(g, trace, last);
      } else if Makes(before, last) {
        MakesSafe(g, trace, before, last);
      } else if Extracts(before, last) {
        ExtractsSafe(g, trace, before, last);
      }
      assert Safe(g, trace, last);
    }
  }

  // ---------------------------------------------------------------------------------------------
  // What follows for the client

  lemma ClientBegins(g: Game)
    ensures ClientStep(g).1.Some? && TermExchange(Secret(g.client), Public(g.server)) == Some(Core(g))
  {
  }

  /** Some session of the server heard exactly the client's message and gave exactly this reply. */
  ghost predicate Answered(g: Game, trace: seq<Term>, reply: Term) {
    exists ephemeral, payload ::
      ClientStep(g).1.Some? && ClientStep(g).1.value in trace && Reply(g, ClientStep(g).1.value, ephemeral, payload) == Some(reply)
  }

  /** What the client accepts is sealed under a key that the core secret went into. */
  lemma AcceptedShape(g: Game, m: Term)
    requires ReadSecond(SYMBOLIC, ClientStep(g).0, m).1.Some?
    ensures m.Joined? && m.sealed.Sealed? && m.sealed.key.Derive? && m.sealed.key.ck == Chain(SYMBOLIC.name, Core(g))
  {
    SymbolicIsIdeal();
    ClientBegins(g);
    SecondAccepted(SYMBOLIC, Public(g.server), Secret(g.client), Atom(g.payload), m, ReadSecond(SYMBOLIC, ClientStep(g).0, m).1.value);
  }

  lemma AcceptedIsEmitted(g: Game, trace: seq<Term>, m: Term)
    requires Attack(g, trace) && m in trace && ReadSecond(SYMBOLIC, ClientStep(g).0, m).1.Some?
    ensures m.Joined? && m.sealed.Sealed? && m.sealed.key.Derive? && m.sealed.key.ck.Chain?
    ensures Emitted(g, trace, m.sealed)
  {
    AcceptedShape(g, m);
    OnlySafeLearned(g, trace);
    SealedSafely(g, trace, m, m.sealed);
  }

  lemma SealedSafely(g: Game, trace: seq<Term>, m: Term, c: Term)
    requires Safe(g, trace, m) && m.Joined? && m.sealed == c
    requires c.Sealed? && c.key.Derive? && c.key.ck == Chain(SYMBOLIC.name, Core(g))
    ensures Emitted(g, trace, c)
  {
    assert !Safe(g, trace, Core(g)) && !Safe(g, trace, c.key.ck) && !Safe(g, trace, c.key);
    assert Safe(g, trace, c);
  }

  /** Transport messages are sealed under keys of another make than handshake messages. */
  lemma SpeaksShape(g: Game, known: seq<Term>, c: Term)
    requires Speaks(g, known, c)
    ensures c.Sealed? && (c.key.Chain? || (c.key.Derive? && c.key.ck.Chain? && c.key.ck.ck.Chain? && c.key.material == SYMBOLIC.empty))
  {
    if ClientSpeaks(g, known, c) {
      ClientSpeaksShape(g, known, c);
    } else {
      var heard, ephemeral, payload, n: nat
        :| heard in known && n < MAX_COUNTER && ServerMessage(g, heard, ephemeral, payload, n) == Some(c);
      ServerKeysShape(g, heard, ephemeral, payload, n);
    }
  }

  lemma ClientSpeaksShape(g: Game, known: seq<Term>, c: Term)
    requires ClientSpeaks(g, known, c)
    ensures c.Sealed? && c.key.Chain?
  {
  }

  /** The two shared secrets of a server session, in the key it sends with. */
  lemma ServerKeysShape(g: Game, heard: Term, ephemeral: nat, payload: Bytes, n: nat)
    requires ServerMessage(g, heard, ephemeral, payload, n).Some?
    ensures heard.Joined? && heard.ephemeral.Public? && Reply(g, heard, ephemeral, payload).Some?
    ensures
      var es, ee := TermExchange(Secret(g.server), heard.ephemeral), TermExchange(Secret(ephemeral), heard.ephemeral);
      && es.Some? && ee.Some?
      && ServerMessage(g, heard, ephemeral, payload, n).value
         == Sealed(Derive(Chain(Chain(SYMBOLIC.name, es.value), ee.value), SYMBOLIC.empty), Nonce(n), SYMBOLIC.empty,
                   Atom(g.says(heard, ephemeral, n)))
  {
    SymbolicIsIdeal();
    HeardTranscript(SYMBOLIC, Secret(g.server), heard);
  }

  /**
   Authentication of the server against the attacker: if the client completes on any message the attacker could send it,
   then the server itself answered this very client's first message with this very reply.
   */
  lemma ClientOnlyCompletesWithServer(g: Game, trace: seq<Term>, m: Term)
    requires Attack(g, trace) && m in trace && ReadSecond(SYMBOLIC, ClientStep(g).0, m).1.Some?
    ensures Answered(g, trace, m)
  {
    SymbolicIsIdeal();
    ClientBegins(g);
    AcceptedIsGreeting(g, trace, m);
    var sent :| sent in trace && sent.Joined? && sent.sealed == m.sealed && Greets(g, trace, sent);
    if ClientStep(g).1 == Some(sent) {
      FirstTranscript(SYMBOLIC, Public(g.server), Secret(g.client), Atom(g.payload));
      assert false;
    } else {
      var heard, ephemeral, payload :| heard in trace && Reply(g, heard, ephemeral, payload) == Some(sent);
      RepliesBind(g, heard, ephemeral, payload, sent, m);
    }
  }

  /** What the client accepts as a reply was sealed in a handshake, not in the transport. */
  lemma AcceptedIsGreeting(g: Game, trace: seq<Term>, m: Term)
    requires Attack(g, trace) && m in trace && ReadSecond(SYMBOLIC, ClientStep(g).0, m).1.Some?
    ensures m.Joined? && m.sealed.Sealed? && m.sealed.key.Derive? && m.sealed.key.ck.Chain?
    ensures exists sent :: sent in trace && sent.Joined? && sent.sealed == m.sealed && Greets(g, trace, sent)
  {
    AcceptedShape(g, m);
    AcceptedIsEmitted(g, trace, m);
    if Speaks(g, trace, m.sealed) {
      SpeaksShape(g, trace, m.sealed);
    }
  }

  lemma RepliesBind(g: Game, heard: Term, ephemeral: nat, payload: Bytes, sent: Term, m: Term)
    requires Reply(g, heard, ephemeral, payload) == Some(sent) && ReadSecond(SYMBOLIC, ClientStep(g).0, m).1.Some?
    requires sent.Joined? && m.Joined? && sent.sealed == m.sealed
    ensures m == sent && ClientStep(g).1 == Some(heard)
  {
    SymbolicIsIdeal();
    ClientBegins(g);
    ReplyTranscript(SYMBOLIC, Secret(g.server), heard, Secret(ephemeral), Atom(payload));
    SecondMessageBinds(SYMBOLIC, Public(g.server), Secret(g.client), Atom(g.payload), Secret(g.server), heard,
                       Secret(ephemeral), Atom(payload), m);
    assert TermSplit(m) == Some((m.ephemeral, m.sealed));
  }

  lemma CompletedShape(g: Game, m: Term)
    requires ReadSecond(SYMBOLIC, ClientStep(g).0, m).1.Some?
    ensures
      var i2 := ReadSecond(SYMBOLIC, ClientStep(g).0, m).0;
      i2.complete && i2.state.chainingKey.Chain? && i2.state.chainingKey.ck == Chain(SYMBOLIC.name, Core(g))
  {
    SymbolicIsIdeal();
    ClientBegins(g);
    FirstTranscript(SYMBOLIC, Public(g.server), Secret(g.client), Atom(g.payload));
  }

  lemma CoreUnsafe(g: Game, trace: seq<Term>, key: Term)
    requires Attack(g, trace) && key.Chain? && key.ck == Chain(SYMBOLIC.name, Core(g))
    ensures Chain(key, SYMBOLIC.empty) !in trace && Derive(key, SYMBOLIC.empty) !in trace
  {
    OnlySafeLearned(g, trace);
    assert !Safe(g, trace, Core(g)) && !Safe(g, trace, key.ck) && !Safe(g, trace, key);
  }

  /** And the attacker learns neither of the transport keys the client then derives. */
  lemma TransportKeysSecret(g: Game, trace: seq<Term>, m: Term)
    requires Attack(g, trace) && ReadSecond(SYMBOLIC, ClientStep(g).0, m).1.Some?
    ensures
      var keys := InitiatorKeys(SYMBOLIC, ReadSecond(SYMBOLIC, ClientStep(g).0, m).0);
      keys.Some? && keys.value.send !in trace && keys.value.receive !in trace
  {
    CompletedShape(g, m);
    CoreUnsafe(g, trace, ReadSecond(SYMBOLIC, ClientStep(g).0, m).0.state.chainingKey);
  }

  /** The honest run is one of the attacker's: relaying both messages, it lets the client complete. */
  lemma RelayCompletes(g: Game, ephemeral: nat, payload: Bytes)
    ensures
      var m1 := ClientStep(g).1;
      && m1.Some?
      && var m2 := Reply(g, m1.value, ephemeral, payload);
         && m2.Some? && Attack(g, [m1.value, m2.value])
         && ReadSecond(SYMBOLIC, ClientStep(g).0, m2.value).1 == Some(Atom(payload))
  {
    SymbolicIsIdeal();
    ClientBegins(g);
    HandshakeAgrees(SYMBOLIC, Secret(g.server), Secret(g.client), Secret(ephemeral), Atom(g.payload), Atom(payload));
    var m1 := ClientStep(g).1.value;
    var m2 := Reply(g, m1, ephemeral, payload).value;
    var trace := [m1, m2];
    assert trace[..1] == [m1] && [m1][..0] == [] && Attack(g, []);
    assert m1 in [m1] && Emits(g, [m1], m2);
    assert Attack(g, [m1]);
  }

  // ---------------------------------------------------------------------------------------------
  // The transport

  /** What a server accepts under the client's ephemeral key is the client's own first message. */
  lemma HeardIsClients(g: Game, trace: seq<Term>, heard: Term)
    requires Attack(g, trace) && heard in trace && heard.Joined? && heard.ephemeral == Public(g.client)
    requires ReadFirst(SYMBOLIC, NewResponder(SYMBOLIC, Public(g.server), Secret(g.server)), heard).1.Some?
    ensures ClientStep(g).1 == Some(heard)
  {
    var got := ReadFirst(SYMBOLIC, NewResponder(SYMBOLIC, Public(g.server), Secret(g.server)), heard).1.value;
    SymbolicIsIdeal();
    ClientBegins(g);
    FirstAccepted(SYMBOLIC, Secret(g.server), heard, got);
    var c := heard.sealed;
    assert c.Sealed? && c.key == Derive(SYMBOLIC.name, Core(g));
    FirstSealIsClients(g, trace, heard, c);
    FirstTranscript(SYMBOLIC, Public(g.server), Secret(g.client), Atom(g.payload));
  }

  lemma FirstSealIsClients(g: Game, trace: seq<Term>, heard: Term, c: Term)
    requires Attack(g, trace) && heard in trace && heard.Joined? && heard.sealed == c
    requires c.Sealed? && c.key == Derive(SYMBOLIC.name, Core(g))
    ensures ClientStep(g).1.Some? && ClientStep(g).1.value.Joined? && ClientStep(g).1.value.sealed == c
  {
    OnlySafeLearned(g, trace);
    FirstSealEmitted(g, trace, heard, c);
    if Speaks(g, trace, c) {
      SpeaksShape(g, trace, c);
      assert false;
    } else {
      var m :| m in trace && m.Joined? && m.sealed == c && Greets(g, trace, m);
      if ClientStep(g).1 != Some(m) {
        var h, ephemeral, payload :| h in trace && Reply(g, h, ephemeral, payload) == Some(m);
        ReplyKeyShape(g, h, ephemeral, payload, m);
        assert false;
      }
    }
  }

  lemma FirstSealEmitted(g: Game, trace: seq<Term>, heard: Term, c: Term)
    requires Safe(g, trace, heard) && heard.Joined? && heard.sealed == c
    requires c.Sealed? && c.key == Derive(SYMBOLIC.name, Core(g))
    ensures Emitted(g, trace, c)
  {
    assert !Safe(g, trace, Core(g)) && !Safe(g, trace, c.key);
    assert Safe(g, trace, c);
  }

  lemma ReplyKeyShape(g: Game, heard: Term, ephemeral: nat, payload: Bytes, m: Term)
    requires Reply(g, heard, ephemeral, payload) == Some(m)
    ensures m.Joined? && m.sealed.Sealed? && m.sealed.key.Derive? && m.sealed.key.ck.Chain? && !m.sealed.key.ck.ck.Chain?
  {
    SymbolicIsIdeal();
    ReplyTranscript(SYMBOLIC, Secret(g.server), heard, Secret(ephemeral), Atom(payload));
  }

  lemma PairNames(a: nat, b: nat, c: nat)
    requires TermExchange(Secret(a), Public(b)) == TermExchange(Secret(a), Public(c))
          || TermExchange(Secret(b), Public(a)) == TermExchange(Secret(a), Public(c))
          || TermExchange(Secret(b), Public(a)) == TermExchange(Secret(c), Public(a))
    ensures b == c
  {
  }

  /** The receiving key of a client that has had a reply from this ephemeral secret. */
  function ReceiveKey(g: Game, ephemeral: nat): Term {
    Derive(Chain(Chain(SYMBOLIC.name, Core(g)), TermExchange(Secret(g.client), Public(ephemeral)).value), SYMBOLIC.empty)
  }

  lemma ReceiveKeyShape(g: Game, ephemeral: nat, payload: Bytes, m: Term)
    requires ClientStep(g).1.Some? && Reply(g, ClientStep(g).1.value, ephemeral, payload) == Some(m)
    requires ReadSecond(SYMBOLIC, ClientStep(g).0, m).1.Some?
    ensures InitiatorKeys(SYMBOLIC, ReadSecond(SYMBOLIC, ClientStep(g).0, m).0).Some?
    ensures InitiatorKeys(SYMBOLIC, ReadSecond(SYMBOLIC, ClientStep(g).0, m).0).value.receive == ReceiveKey(g, ephemeral)
  {
    SymbolicIsIdeal();
    ClientBegins(g);
    FirstTranscript(SYMBOLIC, Public(g.server), Secret(g.client), Atom(g.payload));
    ReplyTranscript(SYMBOLIC, Secret(g.server), ClientStep(g).1.value, Secret(ephemeral), Atom(payload));
  }

  /** Whatever is sealed under that key and known to the attacker, the server's session for this client sealed. */
  lemma UnderReceiveKey(g: Game, trace: seq<Term>, ephemeral: nat, c: Term)
    requires Attack(g, trace) && c in trace && c.Sealed? && c.key == ReceiveKey(g, ephemeral)
    ensures
      exists n: nat :: ClientStep(g).1.Some? && n < MAX_COUNTER
        && c == Sealed(ReceiveKey(g, ephemeral), Nonce(n), SYMBOLIC.empty, Atom(g.says(ClientStep(g).1.value, ephemeral, n)))
  {
    OnlySafeLearned(g, trace);
    ReceiveKeySealed(g, trace, ephemeral, c);
    if ClientSpeaks(g, trace, c) {
      ClientSpeaksShape(g, trace, c);
    } else if ServerSpeaks(g, trace, c) {
      var heard, e, payload, n: nat
        :| heard in trace && n < MAX_COUNTER && ServerMessage(g, heard, e, payload, n) == Some(c);
      SessionIsClients(g, trace, ephemeral, heard, e, payload, n, c);
    } else {
      var m :| m in trace && m.Joined? && m.sealed == c && Greets(g, trace, m);
      GreetingKey(g, trace, m);
    }
  }

  lemma SessionIsClients(g: Game, trace: seq<Term>, ephemeral: nat, heard: Term, e: nat, payload: Bytes, n: nat, c: Term)
    requires Attack(g, trace) && heard in trace && ServerMessage(g, heard, e, payload, n) == Some(c)
    requires c.Sealed? && c.key == ReceiveKey(g, ephemeral)
    ensures ClientStep(g).1 == Some(heard) && e == ephemeral
    ensures c == Sealed(ReceiveKey(g, ephemeral), Nonce(n), SYMBOLIC.empty, Atom(g.says(heard, ephemeral, n)))
  {
    ServerKeysShape(g, heard, e, payload, n);
    PairNames(g.server, g.client, heard.ephemeral.owner);
    PairNames(g.client, ephemeral, e);
    HeardIsClients(g, trace, heard);
  }

  lemma ReceiveKeySealed(g: Game, trace: seq<Term>, ephemeral: nat, c: Term)
    requires Safe(g, trace, c) && c.Sealed? && c.key == ReceiveKey(g, ephemeral)
    ensures Emitted(g, trace, c)
  {
    var ck := c.key.ck;
    assert !Safe(g, trace, Core(g)) && !Safe(g, trace, ck.ck) && !Safe(g, trace, ck) && !Safe(g, trace, c.key);
  }

  lemma GreetingKey(g: Game, trace: seq<Term>, m: Term)
    requires Greets(g, trace, m) && m.Joined? && m.sealed.Sealed?
    ensures m.sealed.key.Derive? && (m.sealed.key.ck.Chain? ==> !m.sealed.key.ck.ck.Chain?)
  {
    if ClientStep(g).1 == Some(m) {
      SymbolicIsIdeal();
      FirstTranscript(SYMBOLIC, Public(g.server), Secret(g.client), Atom(g.payload));
    } else {
      var heard, ephemeral, payload :| heard in trace && Reply(g, heard, ephemeral, payload) == Some(m);
      ReplyKeyShape(g, heard, ephemeral, payload, m);
    }
  }

  /** The client opens these messages one after the other, and reads these plaintexts. */
  ghost predicate Opens(c: Cipher<Term>, messages: seq<Term>, plain: seq<Term>)
    decreases |messages|
  {
    if messages == [] then plain == []
    else
      && plain != []
      && var (next, out) := Decrypt(SYMBOLIC, c, SYMBOLIC.empty, messages[0]);
         out == Some(plain[0]) && Opens(next, messages[1..], plain[1..])
  }

  lemma OpenedAt(c: Cipher<Term>, message: Term)
    requires c.hasKey && Decrypt(SYMBOLIC, c, SYMBOLIC.empty, message).1.Some?
    ensures c.counter != MAX_COUNTER
    ensures message.Sealed? && message.key == c.key && message.nonce == Nonce(c.counter)
    ensures Decrypt(SYMBOLIC, c, SYMBOLIC.empty, message) == (c.(counter := c.counter + 1), Some(message.plaintext))
  {
  }

  lemma OpenedFirst(g: Game, trace: seq<Term>, ephemeral: nat, c: Cipher<Term>, message: Term)
    requires Attack(g, trace) && message in trace && ClientStep(g).1.Some?
    requires c.hasKey && c.key == ReceiveKey(g, ephemeral) && c.counter <= MAX_COUNTER
    requires Decrypt(SYMBOLIC, c, SYMBOLIC.empty, message).1.Some?
    ensures
      Decrypt(SYMBOLIC, c, SYMBOLIC.empty, message)
      == (c.(counter := c.counter + 1), Some(Atom(g.says(ClientStep(g).1.value, ephemeral, c.counter))))
    ensures c.counter < MAX_COUNTER
  {
    OpenedAt(c, message);
    UnderReceiveKey(g, trace, ephemeral, message);
    var n: nat :| n < MAX_COUNTER
               && message == Sealed(c.key, Nonce(n), SYMBOLIC.empty, Atom(g.says(ClientStep(g).1.value, ephemeral, n)));
    NonceInjective(n, c.counter);
  }

  /** Under this key, whatever of the trace opens at a counter says what belongs to it. */
  ghost predicate Tells(trace: seq<Term>, key: Term, said: nat -> Term) {
    forall m, n: nat :: m in trace && n <= MAX_COUNTER ==> TellsAt(key, said, m, n)
  }

  ghost predicate TellsAt(key: Term, said: nat -> Term, m: Term, n: nat) {
    var (next, out) := Decrypt(SYMBOLIC, Cipher(key, n, true), SYMBOLIC.empty, m);
    out.Some? ==> n < MAX_COUNTER && next == Cipher(key, n + 1, true) && out.value == said(n)
  }

  lemma {:induction false} OpenedInOrder(trace: seq<Term>, key: Term, said: nat -> Term, n: nat, messages: seq<Term>, plain: seq<Term>)
    requires Tells(trace, key, said) && (forall m <- messages :: m in trace)
    requires n <= MAX_COUNTER && Opens(Cipher(key, n, true), messages, plain)
    ensures plain == From(said, n, |messages|)
    decreases |messages|
  {
    if messages != [] {
      assert messages[0] in messages && TellsAt(key, said, messages[0], n);
      OpenedInOrder(trace, key, said, n + 1, messages[1..], plain[1..]);
      assert plain == [plain[0]] + plain[1..];
    }
  }

  /** What is said from the n-th message on, k messages long. */
  function From(said: nat -> Term, n: nat, k: nat): seq<Term>
    decreases k
  {
    if k == 0 then [] else [said(n)] + From(said, n + 1, k - 1)
  }

  /** What the server says in the session that answers the client. */
  function SaidTo(g: Game, ephemeral: nat): nat -> Term
    requires ClientStep(g).1.Some?
  {
    (n: nat) => Atom(g.says(ClientStep(g).1.value, ephemeral, n))
  }

  lemma ServerTells(g: Game, trace: seq<Term>, ephemeral: nat)
    requires Attack(g, trace) && ClientStep(g).1.Some?
    ensures Tells(trace, ReceiveKey(g, ephemeral), SaidTo(g, ephemeral))
  {
    var key, said := ReceiveKey(g, ephemeral), SaidTo(g, ephemeral);
    forall m, n: nat | m in trace && n <= MAX_COUNTER ensures TellsAt(key, said, m, n) {
      if Decrypt(SYMBOLIC, Cipher(key, n, true), SYMBOLIC.empty, m).1.Some? {
        OpenedFirst(g, trace, ephemeral, Cipher(key, n, true), m);
      }
    }
  }

  /** What the client receives with, once it has completed on a reply. */
  function ClientReceiver(g: Game, reply: Term): Option<Cipher<Term>> {
    var keys :- InitiatorKeys(SYMBOLIC, ReadSecond(SYMBOLIC, ClientStep(g).0, reply).0);
    Some(NewTransport(keys).receive)
  }

  lemma ReceiverOfClient(g: Game, trace: seq<Term>, m: Term) returns (ephemeral: nat, payload: Bytes)
    requires Attack(g, trace) && m in trace && ReadSecond(SYMBOLIC, ClientStep(g).0, m).1.Some?
    ensures ClientStep(g).1.Some? && Reply(g, ClientStep(g).1.value, ephemeral, payload) == Some(m)
    ensures ClientReceiver(g, m) == Some(Cipher(ReceiveKey(g, ephemeral), 0, true))
  {
    ClientOnlyCompletesWithServer(g, trace, m);
    ephemeral, payload :| Reply(g, ClientStep(g).1.value, ephemeral, payload) == Some(m);
    ReceiveKeyShape(g, ephemeral, payload, m);
  }

  /**
   The transport against the attacker: whatever messages the client opens, one after the other, after completing on a reply,
   the server session that gave this reply to this client said exactly that, in that order, from its first message on.
   */
  lemma ClientHearsOnlyServer(g: Game, trace: seq<Term>, m: Term, messages: seq<Term>, plain: seq<Term>)
    returns (ephemeral: nat, payload: Bytes)
    requires Attack(g, trace) && m in trace && (forall c <- messages :: c in trace)
    requires ReadSecond(SYMBOLIC, ClientStep(g).0, m).1.Some?
    requires ClientReceiver(g, m).Some? && Opens(ClientReceiver(g, m).value, messages, plain)
    ensures ClientStep(g).1.Some? && Reply(g, ClientStep(g).1.value, ephemeral, payload) == Some(m)
    ensures plain == From(SaidTo(g, ephemeral), 0, |messages|)
  {
    ephemeral, payload := ReceiverOfClient(g, trace, m);
    ServerSaid(g, trace, ephemeral, messages, plain);
  }

  lemma ServerSaid(g: Game, trace: seq<Term>, ephemeral: nat, messages: seq<Term>, plain: seq<Term>)
    requires Attack(g, trace) && (forall c <- messages :: c in trace) && ClientStep(g).1.Some?
    requires Opens(Cipher(ReceiveKey(g, ephemeral), 0, true), messages, plain)
    ensures plain == From(SaidTo(g, ephemeral), 0, |messages|)
  {
    ServerTells(g, trace, ephemeral);
    OpenedInOrder(trace, ReceiveKey(g, ephemeral), SaidTo(g, ephemeral), 0, messages, plain);
  }

  /** Such runs exist: relayed on, the server's first transport message opens too. */
  lemma RelaySpeaks(g: Game, ephemeral: nat, payload: Bytes) returns (trace: seq<Term>, c: Term)
    ensures
      && ClientStep(g).1.Some? && Reply(g, ClientStep(g).1.value, ephemeral, payload).Some?
      && Attack(g, trace) && c in trace && Reply(g, ClientStep(g).1.value, ephemeral, payload).value in trace
      && Decrypt(SYMBOLIC, Cipher(ReceiveKey(g, ephemeral), 0, true), SYMBOLIC.empty, c).1
         == Some(Atom(g.says(ClientStep(g).1.value, ephemeral, 0)))
  {
    RelayCompletes(g, ephemeral, payload);
    var m1 := ClientStep(g).1.value;
    var m2 := Reply(g, m1, ephemeral, payload).value;
    c := Sealed(ReceiveKey(g, ephemeral), Nonce(0), SYMBOLIC.empty, Atom(g.says(m1, ephemeral, 0)));
    RelayedMessage(g, ephemeral, payload);
    assert m1 in [m1, m2] && ServerSpeaks(g, [m1, m2], c);
    LearnsMore(g, [m1, m2], c);
    trace := [m1, m2] + [c];
    RelayOpens(g, ephemeral, c, m1);
  }

  lemma LearnsMore(g: Game, trace: seq<Term>, t: Term)
    requires Attack(g, trace) && Learns(g, trace, t)
    ensures Attack(g, trace + [t])
  {
    assert (trace + [t])[..|trace|] == trace;
  }

  lemma RelayOpens(g: Game, ephemeral: nat, c: Term, m1: Term)
    requires c == Sealed(ReceiveKey(g, ephemeral), Nonce(0), SYMBOLIC.empty, Atom(g.says(m1, ephemeral, 0)))
    ensures
      Decrypt(SYMBOLIC, Cipher(ReceiveKey(g, ephemeral), 0, true), SYMBOLIC.empty, c).1 == Some(Atom(g.says(m1, ephemeral, 0)))
  {
  }

  lemma RelayedMessage(g: Game, ephemeral: nat, payload: Bytes)
    requires ClientStep(g).1.Some? && Reply(g, ClientStep(g).1.value, ephemeral, payload).Some?
    ensures
      var m1 := ClientStep(g).1.value;
      ServerMessage(g, m1, ephemeral, payload, 0)
      == Some(Sealed(ReceiveKey(g, ephemeral), Nonce(0), SYMBOLIC.empty, Atom(g.says(m1, ephemeral, 0))))
  {
    SymbolicIsIdeal();
    ClientBegins(g);
    FirstTranscript(SYMBOLIC, Public(g.server), Secret(g.client), Atom(g.payload));
    assert ServerMessage(g, ClientStep(g).1.value, ephemeral, payload, 0).Some?;
    ServerKeysShape(g, ClientStep(g).1.value, ephemeral, payload, 0);
  }
}
