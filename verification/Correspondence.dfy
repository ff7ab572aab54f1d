/**
 Letters from sender to recipient over whole runs of the server: what is sent to a key is fetched by the session that proved
 that key, until the account acknowledges it (server/handlers/dm_handler.cpp, server/db/dm_repository.cpp).
 */
module Correspondence {
  import opened Prelude
  import opened Mailbox
  import opened Sessions
  import opened Accounts

  /** This event takes letter id out of the owner's mailbox: an acknowledgment by a session of that account. */
  predicate Acknowledges(w: World, e: Event, owner: nat, id: nat) {
    && e.Message? && e.c in w.sessions && Registered(w.sessions[e.c]) && w.sessions[e.c].userId == owner
    && e.request.Ack? && e.request.ids.Some? && id in e.request.ids.value
    && (e.request.fault.None? || e.request.fault.value >= |e.request.ids.value|)
  }

  /** One event: a letter stays as it is unless its recipient acknowledges it; no number is ever used again. */
  lemma OnlyRecipientRemoves(cfg: Config, w: World, e: Event, id: nat)
    requires Invariant(w) && id <= w.mail.last
    ensures
      var v := Step(cfg, w, e).0;
      && w.mail.last <= v.mail.last
      && (id in v.mail.rows <==> id in w.mail.rows && !Acknowledges(w, e, w.mail.rows[id].recipient, id))
      && (id in v.mail.rows ==> v.mail.rows[id] == w.mail.rows[id])
  {
    if e.Message? && e.c in w.sessions {
      match e.request
      case Ack(_, _) =>
      case Send(letter) => assert w.mail.last + 1 !in w.mail.rows;
      case _ => assert Step(cfg, w, e).0.mail == w.mail;
    } else {
      assert Step(cfg, w, e).0.mail == w.mail;
    }
  }

  /** A registered session's letter to a known key is stored under the next number, for that account; to an unknown one, not. */
  lemma SendStores(cfg: Config, w: World, c: int, key: Bytes, ciphertext: Bytes)
    requires Invariant(w) && c in w.sessions && Registered(w.sessions[c])
    ensures
      var (v, reply) := Step(cfg, w, Message(c, Send(Some(SendRequest(key, ciphertext)))));
      var id := w.mail.last + 1;
      && v == w.(mail := v.mail)
      && (ciphertext == [] ==> v == w && reply == Refused(InvalidField))
      && (ciphertext != [] && (forall i :: !HasKey(w, i, key)) ==> v == w && reply == Refused(NotFound))
      && (forall i :: HasKey(w, i, key) && ciphertext != [] ==>
                        && v.mail.rows == w.mail.rows[id := Envelope(i, w.sessions[c].announced, ciphertext)]
                        && v.mail.last == id && reply == Acknowledged(id))
  {
    KeyFound(w, key);
  }

  /** An acknowledgment is confirmed with the number of ids it names, or rolled back as a whole. */
  lemma AckConfirmed(cfg: Config, w: World, c: int, ids: seq<nat>, fault: Option<nat>)
    requires Invariant(w) && c in w.sessions && Registered(w.sessions[c])
    ensures
      var (v, reply) := Step(cfg, w, Message(c, Ack(Some(ids), fault)));
      && v == w.(mail := v.mail) && v.mail.last == w.mail.last
      && (if fault.Some? && fault.value < |ids| then v == w && reply == Refused(InternalError) else reply == Acknowledged(|ids|))
  {
  }

  /** A request that does not decode ends the connection of a registered session, and changes nothing else. */
  lemma UnreadableCloses(cfg: Config, w: World, c: int, fault: Option<nat>)
    requires c in w.sessions && Registered(w.sessions[c])
    ensures forall r <- [Send(None), Fetch(None), Ack(None, fault)] ::
              Step(cfg, w, Message(c, r)) == (w.(sessions := w.sessions - {c}), Closed)
  {
  }

  lemma StepKeepsUsers(cfg: Config, w: World, e: Event)
    requires Invariant(w)
    ensures UsersKept(w, Step(cfg, w, e).0)
  {
    match e
    case Connect(_) =>
    case Disconnect(_) =>
    case Ban(id, banned) => BanKeeps(w, id, banned);
    case Announce(_) =>
    case Message(c, r) =>
      if c in w.sessions {
        ActKeepsUsers(cfg, w, c, r);
      }
  }

  lemma UsersKeptTwice(u: World, v: World, w: World)
    requires UsersKept(u, v) && UsersKept(v, w)
    ensures UsersKept(u, w)
  {
  }

  lemma OneStepKeepsUsers(cfg: Config, events: seq<Event>, k: nat)
    requires k < |events|
    ensures UsersKept(At(cfg, events, k), At(cfg, events, k + 1))
  {
    RunKeepsInvariant(cfg, events[..k]);
    AtStep(cfg, events, k);
    StepKeepsUsers(cfg, At(cfg, events, k), events[k]);
  }

  /** An account keeps its key for the rest of every run. */
  lemma {:induction false} RunKeepsUsers(cfg: Config, events: seq<Event>, i: nat, k: nat)
    requires i <= k <= |events|
    ensures UsersKept(At(cfg, events, i), At(cfg, events, k))
    decreases k
  {
    if i < k {
      RunKeepsUsers(cfg, events, i, k - 1);
      OneStepKeepsUsers(cfg, events, k - 1);
      UsersKeptTwice(At(cfg, events, i), At(cfg, events, k - 1), At(cfg, events, k));
    }
  }

  /** Letter id of this owner was acknowledged between instants i and k. */
  ghost predicate AcknowledgedIn(cfg: Config, events: seq<Event>, owner: nat, id: nat, i: nat, k: nat)
    requires i <= k <= |events|
  {
    exists j :: i <= j < k && Acknowledges(At(cfg, events, j), events[j], owner, id)
  }

  lemma WaitsOneEvent(cfg: Config, events: seq<Event>, id: nat, i: nat)
    requires i < |events| && id <= At(cfg, events, i).mail.last
    ensures
      var m, n := At(cfg, events, i).mail, At(cfg, events, i + 1).mail;
      && m.last <= n.last
      && (id in n.rows <==> id in m.rows && !Acknowledges(At(cfg, events, i), events[i], m.rows[id].recipient, id))
      && (id in n.rows ==> n.rows[id] == m.rows[id])
  {
    RunKeepsInvariant(cfg, events[..i]);
    AtStep(cfg, events, i);
    OnlyRecipientRemoves(cfg, At(cfg, events, i), events[i], id);
  }

  lemma AcknowledgedMore(cfg: Config, events: seq<Event>, owner: nat, id: nat, i: nat, k: nat)
    requires i < k <= |events|
    ensures
      AcknowledgedIn(cfg, events, owner, id, i, k)
      <==> AcknowledgedIn(cfg, events, owner, id, i, k - 1) || Acknowledges(At(cfg, events, k - 1), events[k - 1], owner, id)
  {
  }

  /** The letter is there, unchanged, if and only if it has not been acknowledged. */
  ghost predicate StillThere(letter: Envelope, mail: Mail, id: nat, acknowledged: bool) {
    id <= mail.last && (id in mail.rows <==> !acknowledged) && (id in mail.rows ==> mail.rows[id] == letter)
  }

  /** A letter that was there at instant i is there at k, unchanged, if and only if its recipient has not acknowledged it. */
  ghost predicate Waits(cfg: Config, events: seq<Event>, id: nat, i: nat, k: nat)
    requires i <= k <= |events| && id in At(cfg, events, i).mail.rows
  {
    var letter := At(cfg, events, i).mail.rows[id];
    StillThere(letter, At(cfg, events, k).mail, id, AcknowledgedIn(cfg, events, letter.recipient, id, i, k))
  }

  lemma ThereNext(letter: Envelope, m: Mail, n: Mail, id: nat, before: bool, after: bool)
    requires StillThere(letter, m, id, before) && m.last <= n.last
    requires id in n.rows <==> id in m.rows && !after
    requires id in m.rows ==> (after <==> before || id !in n.rows)
    requires before ==> after
    requires id in n.rows ==> n.rows[id] == m.rows[id]
    ensures StillThere(letter, n, id, after)
  {
  }

  lemma WaitsLonger(cfg: Config, events: seq<Event>, id: nat, i: nat, k: nat)
    requires i < k <= |events| && id in At(cfg, events, i).mail.rows && Waits(cfg, events, id, i, k - 1)
    ensures Waits(cfg, events, id, i, k)
  {
    var letter := At(cfg, events, i).mail.rows[id];
    WaitsOneEvent(cfg, events, id, k - 1);
    AcknowledgedMore(cfg, events, letter.recipient, id, i, k);
    ThereNext(letter, At(cfg, events, k - 1).mail, At(cfg, events, k).mail, id,
              AcknowledgedIn(cfg, events, letter.recipient, id, i, k - 1), AcknowledgedIn(cfg, events, letter.recipient, id, i, k));
  }

  /** Over any stretch of any run. */
  lemma {:induction false} LetterWaits(cfg: Config, events: seq<Event>, id: nat, i: nat, k: nat)
    requires i <= k <= |events| && id in At(cfg, events, i).mail.rows
    ensures Waits(cfg, events, id, i, k)
    decreases k
  {
    if i < k {
      LetterWaits(cfg, events, id, i, k - 1);
      WaitsLonger(cfg, events, id, i, k);
    } else {
      RunKeepsInvariant(cfg, events[..i]);
    }
  }

  /** A page of a registered session: letters of its own account after the named id, with none passed over. */
  lemma PageHolds(cfg: Config, w: World, r: int, since: nat, limit: nat, id: nat)
    requires Invariant(w) && r in w.sessions && Registered(w.sessions[r])
    ensures
      var (v, reply) := Step(cfg, w, Message(r, Fetch(Some(FetchRequest(since, limit)))));
      && v == w && reply.Letters? && |reply.page.items| <= (if 1 <= limit <= 100 then limit else 100)
      && (reply.page.hasMore ==> |reply.page.items| == (if 1 <= limit <= 100 then limit else 100))
      && (forall item <- reply.page.items ::
            item.id in w.mail.rows && w.mail.rows[item.id] == item.letter && item.letter.recipient == w.sessions[r].userId)
      && (id in w.mail.rows && w.mail.rows[id].recipient == w.sessions[r].userId && AsInt64(since) < id ==>
            || Item(id, w.mail.rows[id]) in reply.page.items
            || (reply.page.hasMore && reply.page.items != [] && reply.page.items[|reply.page.items| - 1].id < id))
  {
    NonePassedOver(w.mail, w.sessions[r].userId, AsInt64(since), ClampLimit(limit), id);
  }

  /** A registered session is one of the account that has the key it announced. */
  lemma AccountOfKey(w: World, r: int, i: nat)
    requires Invariant(w) && r in w.sessions && Registered(w.sessions[r]) && HasKey(w, i, w.sessions[r].announced)
    ensures w.sessions[r].userId == i
  {
  }

  /** What was sent is stored, for the account that will still have the key at any later instant. */
  lemma LetterStored(cfg: Config, events: seq<Event>, d: nat, c: int, key: Bytes, ciphertext: Bytes, k: nat) returns (owner: nat)
    requires d < k <= |events| && events[d] == Message(c, Send(Some(SendRequest(key, ciphertext)))) && ciphertext != []
    requires c in At(cfg, events, d).sessions && Registered(At(cfg, events, d).sessions[c])
    requires exists i :: HasKey(At(cfg, events, d), i, key)
    ensures HasKey(At(cfg, events, k), owner, key)
    ensures
      var rows, id := At(cfg, events, d + 1).mail.rows, At(cfg, events, d).mail.last + 1;
      id in rows && rows[id] == Envelope(owner, At(cfg, events, d).sessions[c].announced, ciphertext)
  {
    owner :| HasKey(At(cfg, events, d), owner, key);
    RunKeepsInvariant(cfg, events[..d]);
    SendStores(cfg, At(cfg, events, d), c, key, ciphertext);
    AtStep(cfg, events, d);
    RunKeepsUsers(cfg, events, d, k);
  }

  /**
   From sender to recipient, in every run: what a registered session sends to a key is listed, under the sender's proven key
   and with its ciphertext, whenever a session that proved that key fetches from below its number - on this page or beyond
   it - until that account acknowledges it, and never after.
   */
  lemma LetterDelivered(
    cfg: Config, events: seq<Event>, d: nat, c: int, key: Bytes, ciphertext: Bytes, k: nat, r: int, since: nat, limit: nat)
    requires d < k <= |events| && events[d] == Message(c, Send(Some(SendRequest(key, ciphertext)))) && ciphertext != []
    requires c in At(cfg, events, d).sessions && Registered(At(cfg, events, d).sessions[c])
    requires exists i :: HasKey(At(cfg, events, d), i, key)
    requires r in At(cfg, events, k).sessions && Registered(At(cfg, events, k).sessions[r])
    requires At(cfg, events, k).sessions[r].announced == key
    ensures
      var owner, id := At(cfg, events, k).sessions[r].userId, At(cfg, events, d).mail.last + 1;
      var letter := Item(id, Envelope(owner, At(cfg, events, d).sessions[c].announced, ciphertext));
      var reply := Step(cfg, At(cfg, events, k), Message(r, Fetch(Some(FetchRequest(since, limit))))).1;
      && reply.Letters?
      && (if AcknowledgedIn(cfg, events, owner, id, d + 1, k) then forall item <- reply.page.items :: item.id != id
          else AsInt64(since) < id ==>
                 || letter in reply.page.items
                 || (reply.page.hasMore && reply.page.items != [] && reply.page.items[|reply.page.items| - 1].id < id))
  {
    var id := At(cfg, events, d).mail.last + 1;
    var owner := LetterStored(cfg, events, d, c, key, ciphertext, k);
    RunKeepsInvariant(cfg, events[..k]);
    AccountOfKey(At(cfg, events, k), r, owner);
    LetterWaits(cfg, events, id, d + 1, k);
    PageHolds(cfg, At(cfg, events, k), r, since, limit, id);
  }

  /** And nothing else is listed: whatever a session fetches was sent to the key it proved, by a session that proved its own. */
  lemma OnlyOwnLetters(cfg: Config, events: seq<Event>, k: nat, r: int, since: nat, limit: nat, item: Item)
    returns (c: int, d: nat, a: nat)
    requires k <= |events| && r in At(cfg, events, k).sessions && Registered(At(cfg, events, k).sessions[r])
    requires
      var reply := Step(cfg, At(cfg, events, k), Message(r, Fetch(Some(FetchRequest(since, limit))))).1;
      reply.Letters? && item in reply.page.items
    ensures d < k && Deposited(cfg, events, item.letter, At(cfg, events, k).sessions[r].announced, c, d, a)
  {
    RunKeepsInvariant(cfg, events[..k]);
    PageHolds(cfg, At(cfg, events, k), r, since, limit, item.id);
    var key, c', d', a' := SenderIsProven(cfg, events, item.id, k);
    c, d, a := c', d', a';
    RunKeepsUsers(cfg, events, d, k);
  }
}
