/**
 What the server makes of any bytes at all, honest or not (server/handlers/connection_processor.cpp): which messages it takes
 off the stream, which of them reach the handler as frames, and what ends the connection.
 */
module Intake {
  import opened Prelude
  import opened LengthStream
  import opened Frames
  import opened SealedFrames
  import opened Pipeline
  import Noise

  /** A server that waits for its first message; `generated` is the secret it will draw for its reply. */
  datatype Post = Post(suite: Suite, publicKey: Bytes, secret: Bytes, generated: Option<Bytes>, handler: Handler)

  function Fresh(a: Post): Server {
    NewServer(a.suite, a.publicKey, a.secret)
  }

  function StepAt(a: Post): Step<Server> {
    ServerStep(a.suite, a.generated, a.handler)
  }

  /** The transport that a first message brings about, if the server takes it and its reply finds room. */
  function Establishes(a: Post, first: Bytes): Option<Noise.Transport<Bytes>> {
    var (c, reply) := AcceptHandshake(a.suite, a.generated, Fresh(a).channel, first);
    if reply.Some? && |Framed(reply.value)| <= MAX_PENDING then c.transport else None
  }

  /** The first message established the transport, and each later one is the next frame, authentic under the next counter. */
  ghost predicate Carried(a: Post, messages: seq<Bytes>, frames: seq<Frame>) {
    if messages == [] then frames == []
    else
      && Establishes(a, messages[0]).Some? && |messages| == 1 + |frames|
      && var c := Establishes(a, messages[0]).value.receive;
         forall i :: 0 <= i < |frames| ==> Authentic(a.suite, Later(c, i), messages[1 + i], frames[i])
  }

  /** After these messages, no frame makes the next one authentic; or it is the first and establishes nothing. */
  ghost predicate Unacceptable(a: Post, messages: seq<Bytes>, next: Bytes) {
    if messages == [] then Establishes(a, next).None?
    else
      Establishes(a, messages[0]).Some? ==>
        var c := Later(Establishes(a, messages[0]).value.receive, |messages| - 1);
        forall f :: !Authentic(a.suite, c, next, f)
  }

  /** The server took all these messages: the handler was given exactly their frames. */
  ghost predicate Heard(a: Post, v: Server, messages: seq<Bytes>) {
    && Carried(a, messages, v.dispatched)
    && if messages == [] then v == Fresh(a)
       else
         && v.channel.transport.Some? && !v.awaitingHandshake
         && Ready(SendCipher(v), 0) && Ready(v.channel.transport.value.receive, 0)
         && v.channel.transport.value.receive == Later(Establishes(a, messages[0]).value.receive, |messages| - 1)
  }

  // ---------------------------------------------------------------------------------------------
  // One message

  /** Sending leaves what was heard alone; what it logs is the replies, all of them or up to a checked one that failed. */
  lemma {:induction false} SendsLogged(s: Suite, v: Server, replies: seq<Outgoing>)
    requires OnBytes(s) && v.channel.transport.Some? && Ready(SendCipher(v), 0)
    ensures
      var (w, ok) := SendAll(s, v, replies);
      && OnlySent(v, w) && Ready(SendCipher(w), 0)
      && (if ok then Passed(replies, w.log[|v.log|..]) else Failed(replies, w.log[|v.log|..]))
    decreases |replies|
  {
    if replies == [] {
      assert v.log[|v.log|..] == [];
    } else {
      SendOne(s, v, replies[0].frame);
      var (u, ok) := SendFrame(s, v, replies[0].frame);
      if ok || !replies[0].checked {
        SendsLogged(s, u, replies[1..]);
        FirstSend(replies, v.log, u.log, SendAll(s, v, replies).0.log);
      } else {
        OnlySend(replies, v.log, u.log);
      }
    }
  }

  /** The handler's answer to the last frame ended the connection: it asked for it, or a checked reply failed. */
  ghost predicate AnswerEnds(a: Post, before: Server, after: Server) {
    && after.dispatched != [] && before.log <= after.log
    && var n := |after.dispatched| - 1;
       || !WentOn(a.handler, after.dispatched, n)
       || Failed(a.handler(after.dispatched[..n], after.dispatched[n]).replies, after.log[|before.log|..])
  }

  /** Nothing of it reached the handler, and nothing was sent. */
  predicate Ignored(before: Server, after: Server) {
    && after.dispatched == before.dispatched && after.log == before.log
    && after.pending == before.pending && after.flushed == before.flushed
  }

  /** The frames are determined by the messages. */
  lemma CarriedOnce(a: Post, messages: seq<Bytes>, frames: seq<Frame>, others: seq<Frame>)
    requires Carried(a, messages, frames) && Carried(a, messages, others)
    ensures frames == others
  {
    forall i | 0 <= i < |frames| ensures |others| == |frames| && frames[i] == others[i] {
      AuthenticOnce(a.suite, Later(Establishes(a, messages[0]).value.receive, i), messages[1 + i], frames[i], others[i]);
    }
  }

  /**
   One message at an established connection, whatever it is. If it is authentic its frame goes to the handler, and the
   connection ends only by the answer. If no frame makes it authentic the connection ends, nothing reaches the handler and
   nothing is sent.
   */
  lemma EveryMessage(a: Post, v: Server, messages: seq<Bytes>, next: Bytes)
    requires OnBytes(a.suite) && Heard(a, v, messages) && messages != []
    ensures
      var (w, ok) := StepAt(a)(v, next);
      if Unacceptable(a, messages, next) then !ok && Ignored(v, w)
      else Heard(a, w, messages + [next]) && |w.dispatched| == |v.dispatched| + 1 && (ok <==> !AnswerEnds(a, v, w))
  {
    var c := v.channel.transport.value.receive;
    var f := OpenedIff(a.suite, c, next);
    if f.Some? {
      FrameTaken(a, v, messages, next, f.value);
    }
  }

  lemma FrameTaken(a: Post, v: Server, messages: seq<Bytes>, next: Bytes, f: Frame)
    requires OnBytes(a.suite) && Heard(a, v, messages) && messages != []
    requires Authentic(a.suite, v.channel.transport.value.receive, next, f)
    requires
      var (channel, plaintext) := OpenOnChannel(a.suite, v.channel, next);
      && channel.transport.Some? && channel.transport.value.send == v.channel.transport.value.send
      && plaintext.Some? && Decode(plaintext.value) == Some(f)
      && channel.transport.value.receive == Later(v.channel.transport.value.receive, 1)
    ensures
      var (w, ok) := StepAt(a)(v, next);
      Heard(a, w, messages + [next]) && |w.dispatched| == |v.dispatched| + 1 && (ok <==> !AnswerEnds(a, v, w))
  {
    var answer := a.handler(v.dispatched, f);
    var u := v.(channel := OpenOnChannel(a.suite, v.channel, next).0, dispatched := v.dispatched + [f]);
    SendsLogged(a.suite, u, answer.replies);
    var (w, sent) := SendAll(a.suite, u, answer.replies);
    assert StepAt(a)(v, next) == (w, sent && answer.goOn);
    assert w.dispatched[..|v.dispatched|] == v.dispatched;
    CarriedMore(a, messages, v.dispatched, next, f);
  }

  lemma CarriedMore(a: Post, messages: seq<Bytes>, frames: seq<Frame>, next: Bytes, f: Frame)
    requires messages != [] && Carried(a, messages, frames)
    requires Authentic(a.suite, Later(Establishes(a, messages[0]).value.receive, |messages| - 1), next, f)
    ensures Carried(a, messages + [next], frames + [f])
  {
    assert (messages + [next])[0] == messages[0];
  }

  /** The first message establishes the transport and nothing reaches the handler, or the connection ends. */
  lemma FirstMessage(a: Post, first: Bytes)
    requires OnBytes(a.suite)
    ensures
      var (w, ok) := StepAt(a)(Fresh(a), first);
      if Unacceptable(a, [], first) then !ok && Ignored(Fresh(a), w) else ok && Heard(a, w, [first])
  {
    var v := Fresh(a);
    var (c, reply) := AcceptHandshake(a.suite, a.generated, v.channel, first);
    if reply.Some? {
      assert v.pending + Framed(reply.value) == Framed(reply.value);
    }
  }

  // ---------------------------------------------------------------------------------------------
  // Any stream

  /** How a connection ended: at a message that is not authentic, or by the handler's answer to the last one. */
  ghost predicate EndedAt(a: Post, v: Server, messages: seq<Bytes>) {
    && messages != []
    && var init, last := messages[..|messages| - 1], messages[|messages| - 1];
       || (Carried(a, init, v.dispatched) && Unacceptable(a, init, last))
       || (Heard(a, v, messages) && exists before :: Heard(a, before, init) && AnswerEnds(a, before, v))
  }

  ghost predicate Took(a: Post, w: Server, ok: bool, messages: seq<Bytes>) {
    if ok then Heard(a, w, messages) else EndedAt(a, w, messages)
  }

  lemma FirstTaken(a: Post, first: Bytes)
    requires OnBytes(a.suite)
    ensures var (w, ok) := StepAt(a)(Fresh(a), first); Took(a, w, ok, [first])
  {
    FirstMessage(a, first);
    assert [first][..0] == [];
  }

  lemma LaterTaken(a: Post, v: Server, messages: seq<Bytes>, next: Bytes)
    requires OnBytes(a.suite) && Heard(a, v, messages) && messages != []
    ensures var (w, ok) := StepAt(a)(v, next); Took(a, w, ok, messages + [next])
  {
    EveryMessage(a, v, messages, next);
    assert (messages + [next])[..|messages|] == messages;
  }

  lemma MessageTaken(a: Post, v: Server, messages: seq<Bytes>, next: Bytes)
    requires OnBytes(a.suite) && Heard(a, v, messages)
    ensures var (w, ok) := StepAt(a)(v, next); Took(a, w, ok, messages + [next])
  {
    if messages == [] {
      FirstTaken(a, next);
      assert messages + [next] == [next];
    } else {
      LaterTaken(a, v, messages, next);
    }
  }

  lemma ServerAccounts(a: Post)
    requires OnBytes(a.suite)
    ensures Accounts(StepAt(a), (v, ms) => Heard(a, v, ms), (v, ms) => EndedAt(a, v, ms))
  {
    forall v, messages, next | Heard(a, v, messages)
      ensures
        var (w, ok) := StepAt(a)(v, next);
        if ok then Heard(a, w, messages + [next]) else EndedAt(a, w, messages + [next])
    {
      MessageTaken(a, v, messages, next);
    }
  }

  /** Flushing changes nothing of what was heard. */
  lemma FlushHeard(a: Post, v: Server, messages: seq<Bytes>, accepted: nat)
    requires Heard(a, v, messages)
    ensures Heard(a, FlushOut(v, accepted), messages)
  {
  }

  /** Why the connection is closed, if it is: the last message, an announced length that is not allowed, or a hangup. */
  ghost predicate Outcome(a: Post, d: Loop<Server>, events: seq<Event>, messages: seq<Bytes>) {
    if d.open then Heard(a, d.state, messages) && Extract(d.buffer, MAX_MESSAGE).Incomplete?
    else
      || EndedAt(a, d.state, messages)
      || (Heard(a, d.state, messages) && (Extract(d.buffer, MAX_MESSAGE).Malformed? || exists e <- events :: e.Read? && e.hangup))
  }

  function FromFresh(a: Post, events: seq<Event>): Loop<Server> {
    Serve(StepAt(a), Loop([], Fresh(a), true), events)
  }

  lemma OneEvent(a: Post, d: Loop<Server>, done: seq<Bytes>, taken: Bytes, e: Event) returns (messages: seq<Bytes>)
    requires OnBytes(a.suite) && d.open && Heard(a, d.state, done) && Extract(d.buffer, MAX_MESSAGE).Incomplete?
    requires taken == Wire(done) + d.buffer && (forall m <- done :: InCap(m, MAX_MESSAGE))
    ensures forall m <- messages :: InCap(m, MAX_MESSAGE)
    ensures
      var l := OnEvent(StepAt(a), d, e);
      (if e.Read? then taken + e.bytes else taken) == Wire(messages) + l.buffer && Outcome(a, l, [e], messages)
  {
    messages := done;
    if e.Flush? {
      FlushHeard(a, d.state, done, e.accepted);
    } else if e.hangup {
      AppendAssociative(Wire(done), d.buffer, e.bytes);
    } else {
      ServerAccounts(a);
      var more := DrainAccounts(StepAt(a), MAX_MESSAGE, d.(buffer := d.buffer + e.bytes),
                                (v, ms) => Heard(a, v, ms), (v, ms) => EndedAt(a, v, ms), done);
      messages := done + more;
      AppendAssociative(Wire(done), d.buffer, e.bytes);
      WireAppend(done, more);
      AppendAssociative(Wire(done), Wire(more), OnEvent(StepAt(a), d, e).buffer);
    }
  }

  /**
   Any stream. Whatever bytes are read, cut anyhow, with any flushes between and any handler: the server took some whole
   messages off the front, one after the other; the first established the transport, and the handler was given exactly the
   frames that the later ones are authentic for, in order. An open connection took every whole message. A closed one ended
   at a last message that is authentic for no frame and reached nobody, or whose answer ended it; or at a length that is
   not allowed; or by a hangup.
   */
  lemma {:induction false} AnyStream(a: Post, events: seq<Event>) returns (messages: seq<Bytes>)
    requires OnBytes(a.suite)
    ensures
      var d := FromFresh(a, events);
      && (forall m <- messages :: InCap(m, MAX_MESSAGE))
      && Wire(messages) + d.buffer <= Taken(events) && (d.open ==> Taken(events) == Wire(messages) + d.buffer)
      && Outcome(a, d, events, messages)
    decreases |events|
  {
    messages := [];
    if events != [] {
      var before, e := events[..|events| - 1], events[|events| - 1];
      LastApart(events);
      messages := AnyStream(a, before);
      var d := FromFresh(a, before);
      ServeStep(StepAt(a), Loop([], Fresh(a), true), before, e);
      if d.open {
        messages := OneEvent(a, d, messages, Taken(before), e);
      }
    }
  }
}
