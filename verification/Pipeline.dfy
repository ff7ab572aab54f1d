/**
 The encrypted channel end to end: the client's send path (client/net/server_connection.cpp), the server's channel
 (server/net/noise_channel.cpp), its input loop (server/handlers/connection_processor.cpp), its send path
 (server/handlers/response_builder.cpp) and the socket's buffers (server/net/connection_socket.cpp), over byte strings.
 A handler decides, from the frames already dispatched and the new one, which frames to send back and whether the
 connection goes on; it stands for the rate check and the router together.
 */
module Pipeline {
  import opened Prelude
  import opened LengthStream
  import opened Frames
  import opened SealedFrames
  import Noise

  /** A frame to send back. Whether an unchecked send worked is ignored, as for the refusals of the session guard. */
  datatype Outgoing = Outgoing(frame: Frame, checked: bool)

  /** What a handler makes of a frame: the frames it sends back, one after the other, and whether to go on. */
  datatype Answer = Answer(replies: seq<Outgoing>, goOn: bool)

  type Handler = (seq<Frame>, Frame) -> Answer

  // ---------------------------------------------------------------------------------------------
  // The server

  /** The server's side of the channel: the handshake, then the transport it yields. */
  datatype Channel = Channel(responder: Noise.Responder<Bytes>, transport: Option<Noise.Transport<Bytes>>)

  /** Reads the client's first message, answers it and derives the transport; `generated` is the fresh secret. */
  function AcceptHandshake(s: Suite, generated: Option<Bytes>, c: Channel, input: Bytes): (Channel, Option<Bytes>) {
    if c.transport.Some? then (c, None)
    else
      var (r1, heard) := Noise.ReadFirst(s, c.responder, input);
      if heard.None? then (c.(responder := r1), None)
      else
        var (r2, reply) := Noise.WriteSecond(s, r1, generated, s.empty);
        var keys := Noise.ResponderKeys(s, r2);
        if reply.None? || keys.None? then (c.(responder := r2), None)
        else (Channel(r2, Some(Noise.NewTransport(keys.value))), reply)
  }

  /** A channel reads one first message in its life, whether it then manages to answer or not. */
  lemma HandshakeOnce(s: Suite, generated: Option<Bytes>, c: Channel, input: Bytes)
    ensures
      var (d, reply) := AcceptHandshake(s, generated, c, input);
      && (c.responder.read || c.transport.Some? ==> reply == None)
      && (c.transport.None? && Noise.ReadFirst(s, c.responder, input).1.Some? ==> d.responder.read)
      && (reply.Some? ==> d.transport.Some? && d.responder.complete)
  {
  }

  function OpenOnChannel(s: Suite, c: Channel, ciphertext: Bytes): (Channel, Option<Bytes>) {
    if c.transport.None? then (c, None)
    else
      var (t, plaintext) := Noise.OpenMessage(s, c.transport.value, ciphertext);
      (c.(transport := Some(t)), plaintext)
  }

  function SealOnChannel(s: Suite, c: Channel, plaintext: Bytes): (Channel, Option<Bytes>) {
    if c.transport.None? then (c, None)
    else
      var (t, ciphertext) := Noise.SealMessage(s, c.transport.value, plaintext);
      (c.(transport := Some(t)), ciphertext)
  }

  /** What was queued for the client is what its socket took already and what is still pending; `log` notes every send. */
  datatype Server = Server(
    channel: Channel, awaitingHandshake: bool, flushed: Bytes, pending: Bytes, dispatched: seq<Frame>, log: seq<Attempt>)

  function NewServer(s: Suite, staticPublic: Bytes, staticSecret: Bytes): Server {
    Server(Channel(Noise.NewResponder(s, staticPublic, staticSecret), None), true, [], [], [], [])
  }

  function Queue(v: Server, data: Bytes): (Server, bool) {
    if |v.pending| + |data| > MAX_PENDING then (v, false) else (v.(pending := v.pending + data), true)
  }

  function AnswerHandshake(v: Server, reply: Bytes): (Server, bool) {
    var (queued, ok) := Queue(v, Framed(reply));
    if ok then (queued.(awaitingHandshake := false), true) else (queued, false)
  }

  function AdvanceHandshake(s: Suite, generated: Option<Bytes>, v: Server, message: Bytes): (Server, bool) {
    var (c, reply) := AcceptHandshake(s, generated, v.channel, message);
    var after := v.(channel := c);
    if reply.None? then (after, false) else AnswerHandshake(after, reply.value)
  }

  function SendCounter(c: Channel): nat {
    if c.transport.Some? then c.transport.value.send.counter else 0
  }

  /** Seals and queues; the cipher has advanced even when the queue then refuses. */
  function SendSealed(s: Suite, v: Server, plaintext: Bytes): (Server, bool) {
    var (c, sealed) := SealOnChannel(s, v.channel, plaintext);
    var after := v.(channel := c);
    if sealed.None? then (after, false) else Queue(after, Framed(sealed.value))
  }

  /** Every send is noted, with the room and the counter it found. */
  function SendFrame(s: Suite, v: Server, f: Frame): (Server, bool) {
    var noted := v.(log := v.log + [Attempt(f, |v.pending|, SendCounter(v.channel))]);
    if |f.payload| > MAX_PAYLOAD then (noted, false) else SendSealed(s, noted, Encoding(f))
  }

  /** One send after the other, until a checked one fails. */
  function SendAll(s: Suite, v: Server, replies: seq<Outgoing>): (Server, bool)
    decreases |replies|
  {
    if replies == [] then (v, true)
    else
      var (w, ok) := SendFrame(s, v, replies[0].frame);
      if ok || !replies[0].checked then SendAll(s, w, replies[1..]) else (w, false)
  }

  function Dispatch(s: Suite, handler: Handler, v: Server, plaintext: Bytes): (Server, bool) {
    match Decode(plaintext)
    case None => (v, false)
    case Some(frame) =>
      var answer := handler(v.dispatched, frame);
      var (w, sent) := SendAll(s, v.(dispatched := v.dispatched + [frame]), answer.replies);
      (w, sent && answer.goOn)
  }

  function Receive(s: Suite, generated: Option<Bytes>, handler: Handler, v: Server, message: Bytes): (Server, bool) {
    if v.channel.transport.None? then AdvanceHandshake(s, generated, v, message)
    else
      var (c, plaintext) := OpenOnChannel(s, v.channel, message);
      var after := v.(channel := c);
      if plaintext.None? then (after, false) else Dispatch(s, handler, after, plaintext.value)
  }

  function ServerStep(s: Suite, generated: Option<Bytes>, handler: Handler): Step<Server> {
    (v: Server, message: Bytes) => Receive(s, generated, handler, v, message)
  }

  /** The socket is readable (and may have been closed by the peer in the same call), or takes pending bytes. */
  datatype Event = Read(bytes: Bytes, hangup: bool) | Flush(accepted: nat)

  function FlushOut(v: Server, accepted: nat): Server {
    var n := if accepted <= |v.pending| then accepted else |v.pending|;
    v.(flushed := v.flushed + v.pending[..n], pending := v.pending[n..])
  }

  /** On a hangup the bytes that came with it stay in the buffer, undrained: what they carry is lost. */
  function OnEvent(step: Step<Server>, l: Loop<Server>, e: Event): Loop<Server> {
    if !l.open then l
    else match e
      case Read(bytes, hangup) =>
        if hangup then l.(buffer := l.buffer + bytes, open := false) else Feed(step, MAX_MESSAGE, l, bytes)
      case Flush(accepted) => l.(state := FlushOut(l.state, accepted))
  }

  function Serve(step: Step<Server>, l: Loop<Server>, events: seq<Event>): Loop<Server> {
    if events == [] then l else OnEvent(step, Serve(step, l, events[..|events| - 1]), events[|events| - 1])
  }

  /** The bytes of all reads. */
  function Taken(events: seq<Event>): Bytes {
    if events == [] then []
    else
      var last := events[|events| - 1];
      Taken(events[..|events| - 1]) + (if last.Read? then last.bytes else [])
  }

  // ---------------------------------------------------------------------------------------------
  // The handshake

  /** What crosses the wire in a handshake of honest ends, and the keys the client then exports. */
  datatype Handshake = Handshake(first: Bytes, reply: Bytes, clientKeys: Noise.KeyPair<Bytes>)

  /** Client with the right pinned key, server and its fresh secret e2; None if some step refuses. */
  function HonestHandshake(s: Suite, secret: Bytes, e1: Bytes, e2: Bytes): Option<Handshake> {
    var (i1, first) := Noise.WriteFirst(s, Noise.NewInitiator(s, s.pub(secret)), Some(e1), s.empty);
    var m1 :- first;
    var (r1, _) := Noise.ReadFirst(s, Noise.NewResponder(s, s.pub(secret), secret), m1);
    var (r2, second) := Noise.WriteSecond(s, r1, Some(e2), s.empty);
    var m2 :- second;
    var (i2, _) := Noise.ReadSecond(s, i1, m2);
    var keys :- Noise.InitiatorKeys(s, i2);
    Some(Handshake(m1, m2, keys))
  }

  lemma HandshakeSizes(s: Suite, secret: Bytes, e1: Bytes, e2: Bytes)
    requires OnBytes(s) && s.dh(e1, s.pub(secret)).Some? && s.dh(e2, s.pub(e1)).Some?
    ensures
      var run := HonestHandshake(s, secret, e1, e2);
      run.Some? && |run.value.first| == |run.value.reply| == HANDSHAKE_MESSAGE
  {
    Noise.HandshakeAgrees(s, secret, e1, e2, s.empty, s.empty);
    Noise.HandshakeFollowsPattern(s, secret, e1, e2, s.empty, s.empty);
    assert forall k, n, ad :: s.size(s.seal(k, n, ad, s.empty)) == |s.seal(k, n, ad, s.empty)| == TAG_SIZE;
    assert forall a :: |s.pub(a)| == s.size(s.pub(a));
  }

  /** What the server's channel makes of the honest first message. */
  lemma HandshakeAccepted(s: Suite, secret: Bytes, e1: Bytes, e2: Bytes)
    requires OnBytes(s) && s.dh(e1, s.pub(secret)).Some? && s.dh(e2, s.pub(e1)).Some?
    ensures
      var run := HonestHandshake(s, secret, e1, e2);
      && run.Some?
      && var t := Noise.NewTransport(run.value.clientKeys);
         var (c, reply) := AcceptHandshake(s, Some(e2), NewServer(s, s.pub(secret), secret).channel, run.value.first);
         reply == Some(run.value.reply) && c.transport == Some(Noise.Transport(t.receive, t.send))
  {
    Noise.HandshakeAgrees(s, secret, e1, e2, s.empty, s.empty);
  }

  lemma HandshakeQueued(s: Suite, generated: Option<Bytes>, handler: Handler, v: Server, message: Bytes)
    requires v.channel.transport.None? && v.pending == []
    ensures
      var (c, reply) := AcceptHandshake(s, generated, v.channel, message);
      reply.Some? && |reply.value| == HANDSHAKE_MESSAGE ==>
        Receive(s, generated, handler, v, message)
        == (v.(channel := c, awaitingHandshake := false, pending := Framed(reply.value)), true)
  {
    var (c, reply) := AcceptHandshake(s, generated, v.channel, message);
    if reply.Some? {
      assert [] + Framed(reply.value) == Framed(reply.value);
    }
  }

  /** Short of a low-order point the handshake completes, in two 48-byte messages that leave the server ready. */
  lemma HandshakeEstablishes(s: Suite, handler: Handler, secret: Bytes, e1: Bytes, e2: Bytes)
    requires OnBytes(s) && s.dh(e1, s.pub(secret)).Some? && s.dh(e2, s.pub(e1)).Some?
    ensures
      var run := HonestHandshake(s, secret, e1, e2);
      && run.Some?
      && |run.value.first| == |run.value.reply| == HANDSHAKE_MESSAGE
      && var t := Noise.NewTransport(run.value.clientKeys);
         var (v, ok) := Receive(s, Some(e2), handler, NewServer(s, s.pub(secret), secret), run.value.first);
         && ok && !v.awaitingHandshake && v.dispatched == [] && v.flushed == [] && v.pending == Framed(run.value.reply)
         && v.channel.transport == Some(Noise.Transport(t.receive, t.send))
  {
    HandshakeSizes(s, secret, e1, e2);
    HandshakeAccepted(s, secret, e1, e2);
    HandshakeQueued(s, Some(e2), handler, NewServer(s, s.pub(secret), secret), HonestHandshake(s, secret, e1, e2).value.first);
  }

  // ---------------------------------------------------------------------------------------------
  // Delivery

  /** An honest client that sends these frames after its handshake, and the server it talks to. */
  datatype Scenario = Scenario(
    suite: Suite, handler: Handler, secret: Bytes, e1: Bytes, e2: Bytes, handshake: Handshake, frames: seq<Frame>)

  ghost predicate Honest(x: Scenario) {
    && OnBytes(x.suite)
    && x.suite.dh(x.e1, x.suite.pub(x.secret)).Some? && x.suite.dh(x.e2, x.suite.pub(x.e1)).Some?
    && HonestHandshake(x.suite, x.secret, x.e1, x.e2) == Some(x.handshake)
    && AllSendable(x.frames) && |x.frames| <= Noise.MAX_COUNTER
  }

  /** The ciphers both ends start from: what the client sends with, and what the server answers with. */
  function ClientCipher(x: Scenario): Cipher {
    Noise.NewTransport(x.handshake.clientKeys).send
  }

  function ServerCipher(x: Scenario): Cipher {
    Noise.NewTransport(x.handshake.clientKeys).receive
  }

  /** The client's messages, as they go on the wire. */
  function Messages(x: Scenario): seq<Bytes> {
    [x.handshake.first] + SealFrames(x.suite, ClientCipher(x), x.frames)
  }

  function StepOf(x: Scenario): Step<Server> {
    ServerStep(x.suite, Some(x.e2), x.handler)
  }

  function Start(x: Scenario): Server {
    NewServer(x.suite, x.suite.pub(x.secret), x.secret)
  }

  /** All that a handler answers to a run of frames. */
  function Replies(handler: Handler, seen: seq<Frame>): seq<Outgoing> {
    if seen == [] then []
    else
      var before := seen[..|seen| - 1];
      Replies(handler, before) + handler(before, seen[|seen| - 1]).replies
  }

  predicate WentOn(handler: Handler, seen: seq<Frame>, n: nat)
    requires n < |seen|
  {
    handler(seen[..n], seen[n]).goOn
  }

  predicate AllWentOn(handler: Handler, seen: seq<Frame>) {
    forall n :: 0 <= n < |seen| ==> WentOn(handler, seen, n)
  }

  /** All of these were sent, and every checked one worked. */
  predicate Passed(replies: seq<Outgoing>, log: seq<Attempt>) {
    && |log| == |replies|
    && forall i :: 0 <= i < |log| ==> log[i].frame == replies[i].frame && (replies[i].checked ==> !Blocked(log[i]))
  }

  /** They were sent up to a checked one that failed. */
  predicate Failed(replies: seq<Outgoing>, log: seq<Attempt>) {
    && 0 < |log| <= |replies|
    && Passed(replies[..|log| - 1], log[..|log| - 1])
    && var last := |log| - 1; log[last].frame == replies[last].frame && replies[last].checked && Blocked(log[last])
  }

  function SendCipher(v: Server): Cipher
    requires v.channel.transport.Some?
  {
    v.channel.transport.value.send
  }

  /** What is queued for the client: the handshake reply, and then the unblocked sends, each sealed under its counter. */
  ghost predicate Sent(x: Scenario, v: Server) {
    && v.channel.transport.Some? && Counted(v.log) && SendCipher(v) == Later(ServerCipher(x), Seals(v.log))
    && v.flushed + v.pending == Framed(x.handshake.reply) + Wire(Queued(x.suite, ServerCipher(x), v.log))
  }

  /** n frames are dispatched, each was let go on, all that the handler answered was sent, and all checked sends worked. */
  ghost predicate Serving(x: Scenario, v: Server, n: nat) {
    && n <= |x.frames| && v.dispatched == x.frames[..n] && !v.awaitingHandshake
    && AllWentOn(x.handler, x.frames[..n])
    && Sent(x, v) && v.channel.transport.value.receive == Later(ClientCipher(x), n)
    && Passed(Replies(x.handler, x.frames[..n]), v.log)
  }

  /**
   The server gave up at the n-th frame: all earlier ones are answered, and of the answer to this one all was sent and the
   handler asked to stop, or a checked send failed.
   */
  ghost predicate Stopped(x: Scenario, v: Server, n: nat) {
    && 0 < n <= |x.frames| && v.dispatched == x.frames[..n] && !v.awaitingHandshake
    && AllWentOn(x.handler, x.frames[..n - 1]) && Sent(x, v)
    && (|| (Passed(Replies(x.handler, x.frames[..n]), v.log) && !WentOn(x.handler, x.frames[..n], n - 1))
        || (Failed(Replies(x.handler, x.frames[..n]), v.log) && |v.log| > |Replies(x.handler, x.frames[..n - 1])|))
  }

  /** Sending leaves everything but the queue, the sending cipher and the log alone. */
  predicate OnlySent(v: Server, w: Server) {
    && v.channel.transport.Some? && w.channel.transport.Some?
    && w.channel.responder == v.channel.responder
    && w.channel.transport.value.receive == v.channel.transport.value.receive
    && w.awaitingHandshake == v.awaitingHandshake && w.dispatched == v.dispatched && w.flushed == v.flushed
    && v.log <= w.log
  }

  lemma SendOne(s: Suite, v: Server, f: Frame)
    requires OnBytes(s) && v.channel.transport.Some? && Ready(SendCipher(v), 0)
    ensures
      var (w, ok) := SendFrame(s, v, f);
      var c, a := SendCipher(v), Attempt(f, |v.pending|, SendCipher(v).counter);
      && OnlySent(v, w) && w.log == v.log + [a] && ok == !Blocked(a)
      && SendCipher(w) == Later(c, if Sealed(a) then 1 else 0)
      && (ok ==> SealFrame(s, c, f).1.Some?)
      && w.pending == if ok then v.pending + Framed(SealFrame(s, c, f).1.value) else v.pending
  {
    var c := SendCipher(v);
    if |f.payload| <= MAX_PAYLOAD && c.counter < Noise.MAX_COUNTER {
      SealOne(s, c, f);
    }
  }

  /** A send keeps the account of what is queued, whether it works or not. */
  lemma SendKeeps(x: Scenario, v: Server, f: Frame)
    requires OnBytes(x.suite) && Sent(x, v)
    ensures
      var (w, ok) := SendFrame(x.suite, v, f);
      && Sent(x, w) && OnlySent(v, w) && |w.log| == |v.log| + 1
      && w.log[|v.log|].frame == f && ok == !Blocked(w.log[|v.log|])
  {
    SealsBound(v.log);
    SendOne(x.suite, v, f);
    LogKeeps(x, v, SendFrame(x.suite, v, f).0, Attempt(f, |v.pending|, SendCipher(v).counter));
  }

  lemma LogKeeps(x: Scenario, v: Server, w: Server, a: Attempt)
    requires Sent(x, v) && OnlySent(v, w) && w.log == v.log + [a] && a.counter == SendCipher(v).counter
    requires SendCipher(w) == Later(SendCipher(v), if Sealed(a) then 1 else 0)
    requires !Blocked(a) ==> SealFrame(x.suite, SendCipher(v), a.frame).1.Some?
    requires w.pending == if Blocked(a) then v.pending else v.pending + Framed(SealFrame(x.suite, SendCipher(v), a.frame).1.value)
    ensures Sent(x, w)
  {
    var c := ServerCipher(x);
    CountedMore(v.log, a);
    QueuedMore(x.suite, c, v.log, a);
    var sealed := SealedForm(x.suite, c, a);
    WireAppend(Queued(x.suite, c, v.log), [sealed]);
    WireOfOne(sealed);
    if !Blocked(a) {
      AppendAssociative(v.flushed, v.pending, Framed(sealed));
      AppendAssociative(Framed(x.handshake.reply), Wire(Queued(x.suite, c, v.log)), Framed(sealed));
    } else {
      assert Queued(x.suite, c, v.log) + [] == Queued(x.suite, c, v.log);
    }
  }

  /** A run of sends: what it adds to the log is the replies, all of them or up to a checked one that failed. */
  lemma {:induction false} SendsKeep(x: Scenario, v: Server, replies: seq<Outgoing>)
    requires OnBytes(x.suite) && Sent(x, v)
    ensures
      var (w, ok) := SendAll(x.suite, v, replies);
      && Sent(x, w) && OnlySent(v, w)
      && (if ok then Passed(replies, w.log[|v.log|..]) else Failed(replies, w.log[|v.log|..]))
    decreases |replies|
  {
    if replies == [] {
      assert v.log[|v.log|..] == [];
    } else {
      SendKeeps(x, v, replies[0].frame);
      var (u, ok) := SendFrame(x.suite, v, replies[0].frame);
      var w := SendAll(x.suite, v, replies).0;
      if ok || !replies[0].checked {
        SendsKeep(x, u, replies[1..]);
        FirstSend(replies, v.log, u.log, w.log);
      } else {
        OnlySend(replies, v.log, u.log);
      }
    }
  }

  lemma FirstSend(replies: seq<Outgoing>, before: seq<Attempt>, first: seq<Attempt>, after: seq<Attempt>)
    requires replies != [] && before <= first <= after && |first| == |before| + 1
    requires first[|before|].frame == replies[0].frame && (replies[0].checked ==> !Blocked(first[|before|]))
    ensures before <= after
    ensures Passed(replies[1..], after[|first|..]) ==> Passed(replies, after[|before|..])
    ensures Failed(replies[1..], after[|first|..]) ==> Failed(replies, after[|before|..])
  {
    var rest, all := after[|first|..], after[|before|..];
    assert all == [first[|before|]] + rest && replies == [replies[0]] + replies[1..];
    if Failed(replies[1..], rest) {
      assert all[..|all| - 1] == [first[|before|]] + rest[..|rest| - 1];
      assert replies[..|all| - 1] == [replies[0]] + replies[1..][..|rest| - 1];
    }
  }

  lemma OnlySend(replies: seq<Outgoing>, before: seq<Attempt>, first: seq<Attempt>)
    requires replies != [] && before <= first && |first| == |before| + 1
    requires first[|before|].frame == replies[0].frame && replies[0].checked && Blocked(first[|before|])
    ensures Failed(replies, first[|before|..])
  {
    assert first[|before|..] == [first[|before|]];
  }

  /** The server once the n-th frame is open and noted, before the handler answers. */
  function Opened(x: Scenario, v: Server, n: nat): Server
    requires v.channel.transport.Some? && n < |x.frames|
  {
    v.(channel := v.channel.(transport := Some(v.channel.transport.value.(receive := Later(ClientCipher(x), n + 1)))),
       dispatched := x.frames[..n + 1])
  }

  lemma OpensFrame(x: Scenario, v: Server, n: nat)
    requires Honest(x) && Serving(x, v, n) && n < |x.frames|
    ensures
      var f := x.frames[n];
      var sealed := SealFrame(x.suite, Later(ClientCipher(x), n), f).1;
      && sealed.Some?
      && OpenOnChannel(x.suite, v.channel, sealed.value) == (Opened(x, v, n).channel, Some(Encoding(f)))
      && Decode(Encoding(f)) == Some(f)
  {
    SealOne(x.suite, Later(ClientCipher(x), n), x.frames[n]);
    FrameBijection(Encoding(x.frames[n]), x.frames[n]);
  }

  lemma Dispatched(x: Scenario, v: Server, n: nat, sealed: Bytes)
    requires v.channel.transport.Some? && n < |x.frames| && v.dispatched == x.frames[..n]
    requires OpenOnChannel(x.suite, v.channel, sealed) == (Opened(x, v, n).channel, Some(Encoding(x.frames[n])))
    requires Decode(Encoding(x.frames[n])) == Some(x.frames[n])
    ensures
      var answer := x.handler(x.frames[..n], x.frames[n]);
      var (w, ok) := SendAll(x.suite, Opened(x, v, n), answer.replies);
      StepOf(x)(v, sealed) == (w, ok && answer.goOn)
  {
    var after := v.(channel := Opened(x, v, n).channel);
    LastApart(x.frames[..n + 1]);
    assert after.(dispatched := v.dispatched + [x.frames[n]]) == Opened(x, v, n);
  }

  /** One sealed frame opens at a server in step, and reaches the handler. */
  lemma FrameArrives(x: Scenario, v: Server, n: nat)
    requires Honest(x) && Serving(x, v, n) && n < |x.frames|
    ensures
      var sealed := SealFrame(x.suite, Later(ClientCipher(x), n), x.frames[n]).1;
      var answer := x.handler(x.frames[..n], x.frames[n]);
      var (w, ok) := SendAll(x.suite, Opened(x, v, n), answer.replies);
      sealed.Some? && StepOf(x)(v, sealed.value) == (w, ok && answer.goOn)
  {
    OpensFrame(x, v, n);
    Dispatched(x, v, n, SealFrame(x.suite, Later(ClientCipher(x), n), x.frames[n]).1.value);
  }

  lemma PassedMore(a: seq<Outgoing>, b: seq<Outgoing>, before: seq<Attempt>, after: seq<Attempt>)
    requires before <= after && Passed(a, before)
    ensures Passed(b, after[|before|..]) ==> Passed(a + b, after)
    ensures Failed(b, after[|before|..]) ==> Failed(a + b, after)
  {
    var rest := after[|before|..];
    assert after == before + rest;
    if Failed(b, rest) {
      assert after[..|after| - 1] == before + rest[..|rest| - 1];
      assert (a + b)[..|after| - 1] == a + b[..|rest| - 1];
    }
  }

  /** The bookkeeping of one more frame, once its answer is sent as far as it goes. */
  lemma AnswerServed(x: Scenario, v: Server, n: nat, w: Server, ok: bool)
    requires Serving(x, v, n) && n < |x.frames| && OnlySent(Opened(x, v, n), w) && Sent(x, w)
    requires
      var answer := x.handler(x.frames[..n], x.frames[n]);
      if ok then Passed(answer.replies, w.log[|v.log|..]) else Failed(answer.replies, w.log[|v.log|..])
    ensures
      var answer := x.handler(x.frames[..n], x.frames[n]);
      if ok && answer.goOn then Serving(x, w, n + 1) else Stopped(x, w, n + 1)
  {
    var before, seen := x.frames[..n], x.frames[..n + 1];
    assert seen[..n] == before && seen[n] == x.frames[n];
    var done, answer := Replies(x.handler, before), x.handler(before, x.frames[n]);
    assert Replies(x.handler, seen) == done + answer.replies;
    PassedMore(done, answer.replies, v.log, w.log);
    GoOnStep(x.handler, seen);
  }

  /** One more frame: it is dispatched, and answered in full or as far as the server got. */
  lemma FrameServed(x: Scenario, v: Server, n: nat)
    requires Honest(x) && Serving(x, v, n) && n < |x.frames|
    ensures
      var sealed := SealFrame(x.suite, Later(ClientCipher(x), n), x.frames[n]).1;
      && sealed.Some?
      && var (w, ok) := StepOf(x)(v, sealed.value);
         if ok then Serving(x, w, n + 1) else Stopped(x, w, n + 1)
  {
    var answer, u := x.handler(x.frames[..n], x.frames[n]), Opened(x, v, n);
    FrameArrives(x, v, n);
    SendsKeep(x, u, answer.replies);
    var (w, ok) := SendAll(x.suite, u, answer.replies);
    AnswerServed(x, v, n, w, ok);
  }

  lemma GoOnStep(handler: Handler, seen: seq<Frame>)
    requires seen != []
    ensures AllWentOn(handler, seen) <==> AllWentOn(handler, seen[..|seen| - 1]) && WentOn(handler, seen, |seen| - 1)
  {
    var before := seen[..|seen| - 1];
    forall n | 0 <= n < |before| ensures WentOn(handler, before, n) == WentOn(handler, seen, n) {
      assert before[..n] == seen[..n];
    }
  }

  /** Where the server stands after k of the client's messages. */
  ghost predicate Reached(x: Scenario, v: Server, k: nat) {
    if k == 0 then v == Start(x) else Serving(x, v, k - 1)
  }

  lemma FirstServed(x: Scenario)
    requires Honest(x)
    ensures var (w, ok) := StepOf(x)(Start(x), x.handshake.first); ok && Serving(x, w, 0)
  {
    HandshakeEstablishes(x.suite, x.handler, x.secret, x.e1, x.e2);
    assert x.frames[..0] == [];
    var first := Framed(x.handshake.reply);
    assert [] + first == first + Wire(SealFrames(x.suite, ServerCipher(x), []));
  }

  lemma MessagesInCap(x: Scenario)
    requires Honest(x)
    ensures |Messages(x)| == 1 + |x.frames| && (forall m <- Messages(x) :: InCap(m, MAX_MESSAGE))
  {
    SealsAll(x.suite, ClientCipher(x), x.frames);
    SealedInCap(x.suite, ClientCipher(x), x.frames);
    HandshakeSizes(x.suite, x.secret, x.e1, x.e2);
  }

  lemma {:induction false} SealedAt(s: Suite, c: Cipher, frames: seq<Frame>, n: nat)
    requires Ready(c, |frames|) && Short(frames) && n < |frames| == |SealFrames(s, c, frames)|
    ensures SealFrame(s, Later(c, n), frames[n]).1 == Some(SealFrames(s, c, frames)[n])
    decreases |frames|
  {
    SealStep(s, c, frames);
    if n > 0 {
      SealedAt(s, Later(c, 1), frames[1..], n - 1);
      assert Later(Later(c, 1), n - 1) == Later(c, n);
    }
  }

  /** One step of the server: the next message is served in full, or the server stops at its frame. */
  ghost predicate Serves(x: Scenario, step: Step<Server>, v: Server, k: nat)
    requires k < |Messages(x)|
  {
    var (w, ok) := step(v, Messages(x)[k]);
    if ok then Reached(x, w, k + 1) else Stopped(x, w, k)
  }

  ghost predicate ServesAll(x: Scenario, step: Step<Server>) {
    && (forall m <- Messages(x) :: InCap(m, MAX_MESSAGE))
    && Serves(x, step, Start(x), 0)
    && (forall v, n: nat :: Serving(x, v, n) && 1 + n < |Messages(x)| ==> Serves(x, step, v, 1 + n))
  }

  lemma ServesFirst(x: Scenario)
    requires Honest(x)
    ensures Serves(x, StepOf(x), Start(x), 0)
  {
    FirstServed(x);
  }

  lemma ServesFrame(x: Scenario, v: Server, n: nat)
    requires Honest(x) && Serving(x, v, n) && n < |x.frames| && |Messages(x)| == 1 + |x.frames|
    ensures Serves(x, StepOf(x), v, 1 + n)
  {
    SealedAt(x.suite, ClientCipher(x), x.frames, n);
    FrameServed(x, v, n);
  }

  lemma ServerServesAll(x: Scenario)
    requires Honest(x)
    ensures ServesAll(x, StepOf(x))
  {
    MessagesInCap(x);
    ServesFirst(x);
    forall v, n: nat | Serving(x, v, n) && 1 + n < |Messages(x)| ensures Serves(x, StepOf(x), v, 1 + n) {
      ServesFrame(x, v, n);
    }
  }

  lemma ServesNext(x: Scenario, step: Step<Server>, v: Server, k: nat)
    requires ServesAll(x, step) && Reached(x, v, k) && k < |Messages(x)|
    ensures Serves(x, step, v, k)
  {
    if k > 0 {
      var n: nat := k - 1;
      assert Serving(x, v, n);
      assert Serves(x, step, v, 1 + n);
    }
  }

  /** Messages j to k, from a server that has had the first j. */
  lemma {:induction false} MessagesServed(x: Scenario, step: Step<Server>, v: Server, j: nat, k: nat) returns (end: nat)
    requires ServesAll(x, step) && Reached(x, v, j) && j <= k <= |Messages(x)|
    ensures
      var (w, ok) := RunSteps(step, v, Messages(x)[j..k]);
      if ok then Reached(x, w, k) else Stopped(x, w, end)
    decreases k - j
  {
    end := j;
    if j < k {
      var messages := Messages(x)[j..k];
      SliceFirst(Messages(x), j, k);
      ServesNext(x, step, v, j);
      var (w, ok) := step(v, messages[0]);
      if ok {
        end := MessagesServed(x, step, w, j + 1, k);
      }
    }
  }

  /** Between reads: k messages are processed, and the buffer is the incomplete next one. */
  ghost predicate Waiting(x: Scenario, l: Loop<Server>, k: nat, taken: Bytes) {
    l.open && Reached(x, l.state, k) && Between(Messages(x), k, taken, l.buffer)
  }

  lemma ReadServed(x: Scenario, step: Step<Server>, l: Loop<Server>, j: nat, taken: Bytes, chunk: Bytes)
    returns (k: nat, end: nat)
    requires ServesAll(x, step) && Waiting(x, l, j, taken) && taken + chunk <= Wire(Messages(x))
    ensures
      var d := Feed(step, MAX_MESSAGE, l, chunk);
      if d.open then Waiting(x, d, k, taken + chunk) else Stopped(x, d.state, end)
  {
    k := ReadDelivers(step, MAX_MESSAGE, l, Messages(x), j, taken, chunk);
    end := MessagesServed(x, step, l.state, j, k);
  }

  lemma FlushKeepsBytes(v: Server, accepted: nat)
    ensures
      var w := FlushOut(v, accepted);
      w.flushed + w.pending == v.flushed + v.pending
  {
    var n := if accepted <= |v.pending| then accepted else |v.pending|;
    assert v.pending == v.pending[..n] + v.pending[n..];
    AppendAssociative(v.flushed, v.pending[..n], v.pending[n..]);
  }

  lemma FlushServing(x: Scenario, v: Server, w: Server, n: nat)
    requires Serving(x, v, n) && w == v.(flushed := w.flushed, pending := w.pending)
    requires w.flushed + w.pending == v.flushed + v.pending
    ensures Serving(x, w, n)
  {
  }

  lemma FlushServed(x: Scenario, v: Server, k: nat, accepted: nat)
    requires Reached(x, v, k)
    ensures Reached(x, FlushOut(v, accepted), k)
  {
    FlushKeepsBytes(v, accepted);
    if k > 0 {
      FlushServing(x, v, FlushOut(v, accepted), k - 1);
    }
  }

  function Begin(x: Scenario): Loop<Server> {
    Loop([], Start(x), true)
  }

  /** The client hung up at event m: k messages were processed, and the rest of what was read is in the buffer for good. */
  ghost predicate HungUp(x: Scenario, step: Step<Server>, d: Loop<Server>, events: seq<Event>, m: nat, k: nat) {
    && m < |events| && events[m].Read? && events[m].hangup
    && var l := Serve(step, Begin(x), events[..m]);
       Waiting(x, l, k, Taken(events[..m])) && d == l.(buffer := l.buffer + events[m].bytes, open := false)
  }

  /** What may have become of the connection: it waits, it gave up at a frame, or the client hung up. */
  ghost predicate Progress(x: Scenario, step: Step<Server>, d: Loop<Server>, events: seq<Event>, k: nat, n: nat, m: nat) {
    if d.open then Waiting(x, d, k, Taken(events)) else Stopped(x, d.state, n) || HungUp(x, step, d, events, m, k)
  }

  lemma StartWaits(x: Scenario, step: Step<Server>, events: seq<Event>)
    requires events == []
    ensures Progress(x, step, Begin(x), events, 0, 0, 0)
  {
    assert Messages(x)[..0] == [];
  }

  lemma ServeStep(step: Step<Server>, l: Loop<Server>, events: seq<Event>, e: Event)
    ensures Serve(step, l, events + [e]) == OnEvent(step, Serve(step, l, events), e)
    ensures Taken(events) <= Taken(events + [e])
    ensures e.Read? ==> Taken(events + [e]) == Taken(events) + e.bytes
  {
    assert (events + [e])[..|events|] == events;
  }

  lemma ProgressStays(x: Scenario, step: Step<Server>, d: Loop<Server>, events: seq<Event>, k: nat, n: nat, m: nat,
                      e: Event, all: seq<Event>)
    requires !d.open && Progress(x, step, d, events, k, n, m) && all == events + [e]
    ensures Progress(x, step, d, all, k, n, m)
  {
    if !Stopped(x, d.state, n) {
      assert all[m] == events[m] && all[..m] == events[..m];
    }
  }

  lemma EventServed(x: Scenario, step: Step<Server>, d: Loop<Server>, events: seq<Event>, j: nat, e: Event, all: seq<Event>)
    returns (k: nat, n: nat, m: nat)
    requires ServesAll(x, step) && d == Serve(step, Begin(x), events) && Waiting(x, d, j, Taken(events))
    requires Taken(all) <= Wire(Messages(x)) && all == events + [e]
    ensures Progress(x, step, OnEvent(step, d, e), all, k, n, m)
  {
    k, n, m := j, 0, |events|;
    assert all[..|events|] == events && all[|events|] == e;
    if e.Flush? {
      FlushServed(x, d.state, j, e.accepted);
    } else if !e.hangup {
      k, n := ReadServed(x, step, d, j, Taken(events), e.bytes);
    }
  }

  lemma {:induction false} EventsServed(x: Scenario, step: Step<Server>, events: seq<Event>) returns (k: nat, n: nat, m: nat)
    requires ServesAll(x, step) && Taken(events) <= Wire(Messages(x))
    ensures Progress(x, step, Serve(step, Begin(x), events), events, k, n, m)
    decreases |events|
  {
    if events == [] {
      k, n, m := 0, 0, 0;
      StartWaits(x, step, events);
    } else {
      var before, e := events[..|events| - 1], events[|events| - 1];
      LastApart(events);
      ServeStep(step, Begin(x), before, e);
      k, n, m := EventsServed(x, step, before);
      var d := Serve(step, Begin(x), before);
      if d.open {
        k, n, m := EventServed(x, step, d, before, k, e, events);
      } else {
        ProgressStays(x, step, d, before, k, n, m, e, events);
      }
    }
  }

  /**
   End to end. For any sendable frames, any prefix of the client's byte stream cut into any reads, any flushes between
   them and any handler that answers: while the connection is open, k of the client's messages are processed, the handler
   has seen exactly the first k - 1 frames in order and let each go on, all its replies were sent in order and every checked
   one is queued, sealed for the client, after the handshake reply, and the buffer is the incomplete next message. A
   connection is closed only by the handler, by a checked reply that failed, or by a hangup, and then the server is as it was
   when the hangup found it.
   */
  lemma EndToEnd(x: Scenario, events: seq<Event>) returns (k: nat, n: nat, m: nat)
    requires Honest(x) && Taken(events) <= Wire(Messages(x))
    ensures Progress(x, StepOf(x), Serve(StepOf(x), Begin(x), events), events, k, n, m)
  {
    ServerServesAll(x);
    k, n, m := EventsServed(x, StepOf(x), events);
  }

  // ---------------------------------------------------------------------------------------------
  // What is lost

  /** The bytes after k messages hold no whole one exactly if they are a proper part of the next. */
  lemma WholeOrPart(messages: seq<Bytes>, k: nat, buffer: Bytes)
    requires k <= |messages| && buffer <= Wire(messages[k..]) && (forall m <- messages :: InCap(m, MAX_MESSAGE))
    ensures
      (if k == |messages| then buffer == [] else buffer < Framed(messages[k])) <==> Extract(buffer, MAX_MESSAGE).Incomplete?
  {
    if k < |messages| {
      var rest := messages[k..];
      PrefixOfTwo(buffer, Framed(rest[0]), Wire(rest[1..]));
      if |buffer| < |Framed(rest[0])| {
        PartsIncomplete(messages, k, buffer, MAX_MESSAGE);
      } else {
        ExtractOfFramed(rest[0], buffer[|Framed(rest[0])|..], MAX_MESSAGE);
      }
    }
  }

  /**
   What a hangup loses. The bytes read with it are kept and never looked at, and the server is as it was; so every whole
   message that was read has been processed if and only if those bytes did not complete the next one.
   */
  lemma HangupLoses(x: Scenario, events: seq<Event>, bytes: Bytes) returns (k: nat)
    requires Honest(x) && Taken(events) + bytes <= Wire(Messages(x)) && Serve(StepOf(x), Begin(x), events).open
    ensures
      var l := Serve(StepOf(x), Begin(x), events);
      var d := Serve(StepOf(x), Begin(x), events + [Read(bytes, true)]);
      && Waiting(x, l, k, Taken(events))
      && !d.open && d.state == l.state && d.buffer == l.buffer + bytes
      && Taken(events) + bytes == Wire(Messages(x)[..k]) + d.buffer
      && (Between(Messages(x), k, Taken(events) + bytes, d.buffer) <==> Extract(d.buffer, MAX_MESSAGE).Incomplete?)
  {
    var j, _, _ := EndToEnd(x, events);
    k := j;
    ServeStep(StepOf(x), Begin(x), events, Read(bytes, true));
    MessagesInCap(x);
    HangupBuffer(Messages(x), k, Taken(events), Serve(StepOf(x), Begin(x), events).buffer, bytes);
  }

  lemma HangupBuffer(messages: seq<Bytes>, k: nat, taken: Bytes, buffer: Bytes, bytes: Bytes)
    requires Between(messages, k, taken, buffer) && taken + bytes <= Wire(messages)
    requires forall m <- messages :: InCap(m, MAX_MESSAGE)
    ensures taken + bytes == Wire(messages[..k]) + (buffer + bytes)
    ensures Between(messages, k, taken + bytes, buffer + bytes) <==> Extract(buffer + bytes, MAX_MESSAGE).Incomplete?
  {
    AppendAssociative(Wire(messages[..k]), buffer, bytes);
    WireSplit(messages, k);
    CancelPrefix(Wire(messages[..k]), buffer + bytes, Wire(messages[k..]));
    WholeOrPart(messages, k, buffer + bytes);
  }

  /** Everything the server sent is on its way, sealed in turn, with its cipher in step. */
  ghost predicate InFullStep(x: Scenario, v: Server) {
    && v.channel.transport.Some? && SendCipher(v) == Later(ServerCipher(x), |v.log|)
    && v.flushed + v.pending == Framed(x.handshake.reply) + Wire(SealFrames(x.suite, ServerCipher(x), FramesOf(v.log)))
  }

  lemma WireInjective(x: Scenario, v: Server, a: seq<Bytes>, b: seq<Bytes>)
    requires v.flushed + v.pending == Framed(x.handshake.reply) + Wire(a)
    ensures v.flushed + v.pending == Framed(x.handshake.reply) + Wire(b) <==> Wire(a) == Wire(b)
  {
    var first := Framed(x.handshake.reply);
    assert Wire(a) == (first + Wire(a))[|first|..] && Wire(b) == (first + Wire(b))[|first|..];
  }

  /**
   A server is in full step if and only if no send was blocked. Only unchecked sends can be while it serves: a refusal of the
   session guard that finds no room is dropped, and the connection goes on.
   */
  lemma FullStepIff(x: Scenario, v: Server)
    requires OnBytes(x.suite) && Sent(x, v)
    ensures InFullStep(x, v) <==> NoneBlocked(v.log)
  {
    var s, c := x.suite, ServerCipher(x);
    WireTells(s, c, v.log);
    WireInjective(x, v, Queued(s, c, v.log), SealFrames(s, c, FramesOf(v.log)));
  }

  /** A server that serves is in full step exactly if no unchecked reply was blocked when it was sent. */
  lemma ServingInFullStepIff(x: Scenario, v: Server, n: nat)
    requires OnBytes(x.suite) && Serving(x, v, n)
    ensures
      var replies := Replies(x.handler, v.dispatched);
      && |v.log| == |replies|
      && (InFullStep(x, v) <==> forall i :: 0 <= i < |replies| && !replies[i].checked ==> !Blocked(v.log[i]))
  {
    FullStepIff(x, v);
  }

  /** A guard refusal at a full queue: the connection goes on, the reply is gone, and the cipher is one ahead of the wire. */
  lemma RefusalDropped(x: Scenario, v: Server, n: nat, f: Frame)
    requires Honest(x) && Serving(x, v, n) && n < |x.frames| && |v.pending| == MAX_PENDING
    requires x.handler(x.frames[..n], x.frames[n]) == Answer([Outgoing(f, false)], true)
    requires |f.payload| <= MAX_PAYLOAD && Seals(v.log) < Noise.MAX_COUNTER
    ensures
      var sealed := SealFrame(x.suite, Later(ClientCipher(x), n), x.frames[n]).1;
      && sealed.Some?
      && var (w, ok) := StepOf(x)(v, sealed.value);
         && ok && Serving(x, w, n + 1) && w.flushed == v.flushed && w.pending == v.pending
         && SendCipher(w) == Later(SendCipher(v), 1) && !InFullStep(x, w)
  {
    FrameServed(x, v, n);
    FrameArrives(x, v, n);
    var u := Opened(x, v, n);
    var w := SendFrame(x.suite, u, f).0;
    UncheckedAlone(x.suite, u, f);
    DroppedSend(x, u, f);
    FullStepIff(x, w);
  }

  lemma UncheckedAlone(s: Suite, v: Server, f: Frame)
    ensures SendAll(s, v, [Outgoing(f, false)]) == (SendFrame(s, v, f).0, true)
  {
    assert SendAll(s, SendFrame(s, v, f).0, [Outgoing(f, false)][1..]) == (SendFrame(s, v, f).0, true);
  }

  lemma DroppedSend(x: Scenario, v: Server, f: Frame)
    requires OnBytes(x.suite) && Sent(x, v) && |v.pending| == MAX_PENDING
    requires |f.payload| <= MAX_PAYLOAD && Seals(v.log) < Noise.MAX_COUNTER
    ensures
      var w := SendFrame(x.suite, v, f).0;
      && Sent(x, w) && w.flushed == v.flushed && w.pending == v.pending
      && SendCipher(w) == Later(SendCipher(v), 1) && !NoneBlocked(w.log)
  {
    SendOne(x.suite, v, f);
    SendKeeps(x, v, f);
    var w := SendFrame(x.suite, v, f).0;
    assert Blocked(w.log[|v.log|]);
  }

  // ---------------------------------------------------------------------------------------------
  // The laws hold of some byte suite

  /** A tag that shows the nonce. */
  function ToyTag(nonce: Bytes): (tag: Bytes)
    ensures |tag| == TAG_SIZE
  {
    if |nonce| == 12 then nonce + Zeros(4) else Zeros(TAG_SIZE)
  }

  const TOY: Suite := Noise.Suite(
    Zeros(32), [], [], Zeros(32),
    (b: Bytes) => |b|,
    (h: Bytes, d: Bytes) => Zeros(32),
    (c: Bytes, m: Bytes) => Zeros(32),
    (c: Bytes, m: Bytes) => Zeros(32),
    (a: Bytes) => Zeros(32),
    (a: Bytes, b: Bytes) => Some(Zeros(32)),
    (k: Bytes, n: Bytes, ad: Bytes, p: Bytes) => p + ToyTag(n),
    (k: Bytes, n: Bytes, ad: Bytes, c: Bytes) =>
      if |c| >= TAG_SIZE && c[|c| - TAG_SIZE..] == ToyTag(n) then Some(c[..|c| - TAG_SIZE]) else None,
    (e: Bytes, c: Bytes) => e + c,
    SplitHandshake)

  lemma ToyIsLawful()
    ensures OnBytes(TOY)
  {
    var s := TOY;
    forall k, n, ad, p ensures s.open(k, n, ad, s.seal(k, n, ad, p)) == Some(p) {
      assert (p + ToyTag(n))[|p|..] == ToyTag(n) && (p + ToyTag(n))[..|p|] == p;
    }
    forall k, n, ad, c | s.open(k, n, ad, c).Some? ensures c == s.seal(k, n, ad, s.open(k, n, ad, c).value) {
      assert c == c[..|c| - TAG_SIZE] + c[|c| - TAG_SIZE..];
    }
    forall e, c | s.size(e) == 32 && s.size(c) >= TAG_SIZE ensures s.split(s.join(e, c)) == Some((e, c)) {
      assert (e + c)[..32] == e && (e + c)[32..] == c;
    }
    forall m | s.split(m).Some? ensures m == s.join(s.split(m).value.0, s.split(m).value.1) {
      assert m == m[..32] + m[32..];
    }
  }

  lemma ToyTagsDiffer(i: nat, j: nat, p: Bytes, q: Bytes)
    requires i <= Noise.MAX_COUNTER && j <= Noise.MAX_COUNTER && p + ToyTag(Noise.Nonce(i)) == q + ToyTag(Noise.Nonce(j))
    ensures i == j
  {
    var a, b := ToyTag(Noise.Nonce(i)), ToyTag(Noise.Nonce(j));
    assert a == (p + a)[|p|..] && b == (q + b)[|q|..];
    assert Noise.Nonce(i) == a[..12] && Noise.Nonce(j) == b[..12];
    Noise.NonceInjective(i, j);
  }

  /** And under each of its keys the nonces tell. */
  lemma ToyNoncesTell(key: Bytes)
    ensures Noise.NoncesTell(TOY, key)
  {
    var s := TOY;
    forall i: nat, j: nat, p, q
      | i <= Noise.MAX_COUNTER && j <= Noise.MAX_COUNTER
        && s.seal(key, Noise.Nonce(i), s.empty, p) == s.seal(key, Noise.Nonce(j), s.empty, q)
      ensures i == j
    {
      ToyTagsDiffer(i, j, p, q);
    }
  }

  /** So the end-to-end theorem speaks of something: with that suite, every handler and frame list has its scenarios. */
  lemma ToyCompletes(handler: Handler, secret: Bytes, e1: Bytes, e2: Bytes, frames: seq<Frame>) returns (x: Scenario)
    requires AllSendable(frames) && |frames| <= Noise.MAX_COUNTER
    ensures Honest(x) && x.handler == handler && x.secret == secret && x.e1 == e1 && x.e2 == e2 && x.frames == frames
  {
    ToyIsLawful();
    HandshakeEstablishes(TOY, handler, secret, e1, e2);
    x := Scenario(TOY, handler, secret, e1, e2, HonestHandshake(TOY, secret, e1, e2).value, frames);
  }
}
