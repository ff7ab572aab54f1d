/** The server's end of the channel as the source runs it: buffers, ciphers and counters updated in place. */
module PipelineObjects {
  import opened Prelude
  import opened LengthStream
  import opened Frames
  import opened SealedFrames
  import opened Pipeline
  import Noise
  import NoiseObjects

  class NoiseChannel {
    const suite: Suite
    const handshake: NoiseObjects.HandshakeResponder<Bytes>
    var transport: NoiseObjects.TransportChannel?<Bytes>

    ghost function Footprint(): set<object>
      reads this
    {
      {this, handshake, handshake.state, handshake.state.cipher}
      + (if transport == null then {} else {transport, transport.sendState, transport.receiveState})
    }

    ghost predicate Valid()
      reads this, Footprint()
    {
      && handshake.Valid() && handshake.state.suite == suite
      && (transport != null ==>
            && transport.Valid() && transport.sendState.suite == suite
            && transport.sendState != handshake.state.cipher && transport.receiveState != handshake.state.cipher)
    }

    ghost function Value(): Channel
      reads this, Footprint()
    {
      Channel(handshake.Value(), if transport == null then None else Some(transport.Value()))
    }

    constructor (suite: Suite, staticPublic: Bytes, staticSecret: Bytes)
      ensures Valid() && fresh(Footprint()) && this.suite == suite
      ensures Value() == Channel(Noise.NewResponder(suite, staticPublic, staticSecret), None)
    {
      this.suite := suite;
      handshake := new NoiseObjects.HandshakeResponder(suite, staticPublic, staticSecret);
      transport := null;
    }

    method AcceptHandshakeMessage(generated: Option<Bytes>, input: Bytes) returns (reply: Option<Bytes>)
      requires Valid()
      modifies Footprint()
      ensures Valid() && fresh(Footprint() - old(Footprint()))
      ensures (Value(), reply) == AcceptHandshake(suite, generated, old(Value()), input)
    {
      if transport != null {
        return None;
      }
      var heard := handshake.ReadFirstMessage(input);
      if heard.None? {
        return None;
      }
      reply := handshake.WriteSecondMessage(generated, suite.empty);
      if reply.None? {
        return;
      }
      var keys := handshake.ExportTransportKeys();
      if keys.None? {
        return None;
      }
      transport := new NoiseObjects.TransportChannel(suite, keys.value.send, keys.value.receive);
    }

    method OpenMessage(ciphertext: Bytes) returns (plaintext: Option<Bytes>)
      requires Valid()
      modifies Footprint()
      ensures Valid() && Footprint() == old(Footprint())
      ensures (Value(), plaintext) == OpenOnChannel(suite, old(Value()), ciphertext)
    {
      if transport == null {
        return None;
      }
      plaintext := transport.DecryptMessage(ciphertext);
    }

    method SealMessage(plaintext: Bytes) returns (ciphertext: Option<Bytes>)
      requires Valid()
      modifies Footprint()
      ensures Valid() && Footprint() == old(Footprint())
      ensures (Value(), ciphertext) == SealOnChannel(suite, old(Value()), plaintext)
    {
      if transport == null {
        return None;
      }
      ciphertext := transport.EncryptMessage(plaintext);
    }
  }

  class Connection {
    const suite: Suite
    const generated: Option<Bytes>
    const handler: Handler
    const input: StreamBuffer
    const channel: NoiseChannel
    var awaitingHandshake: bool
    var flushed: Bytes                      // what the socket has taken
    var pending: Bytes
    var dispatched: seq<Frame>
    ghost var log: seq<Attempt>

    ghost function Footprint(): set<object>
      reads this, channel
    {
      {this, input} + channel.Footprint()
    }

    ghost predicate Valid()
      reads this, channel, Footprint()
    {
      channel.Valid() && channel.suite == suite
    }

    ghost function Value(): Server
      reads this, channel, Footprint()
    {
      Server(channel.Value(), awaitingHandshake, flushed, pending, dispatched, log)
    }

    constructor (suite: Suite, generated: Option<Bytes>, handler: Handler, staticPublic: Bytes, staticSecret: Bytes)
      ensures Valid() && fresh(Footprint())
      ensures this.suite == suite && this.generated == generated && this.handler == handler
      ensures Value() == NewServer(suite, staticPublic, staticSecret) && input.data == []
    {
      this.suite, this.generated, this.handler := suite, generated, handler;
      input := new StreamBuffer();
      channel := new NoiseChannel(suite, staticPublic, staticSecret);
      awaitingHandshake, flushed, pending, dispatched, log := true, [], [], [], [];
    }

    method QueueBytes(data: Bytes) returns (ok: bool)
      requires Valid()
      modifies this
      ensures Valid() && (Value(), ok) == Queue(old(Value()), data)
    {
      if |pending| + |data| > MAX_PENDING {
        return false;
      }
      pending := pending + data;
      ok := true;
    }

    /** The socket takes as much of the pending output as it likes. */
    method FlushPendingWrites(accepted: nat) returns (hasRemaining: bool)
      requires Valid()
      modifies this
      ensures Valid() && Value() == FlushOut(old(Value()), accepted) && input.data == old(input.data)
      ensures hasRemaining == (pending != [])
    {
      var n := if accepted <= |pending| then accepted else |pending|;
      flushed, pending := flushed + pending[..n], pending[n..];
      hasRemaining := pending != [];
    }

    method AnswerHandshakeInPlace(reply: Bytes) returns (ok: bool)
      requires Valid()
      modifies this
      ensures Valid() && (Value(), ok) == AnswerHandshake(old(Value()), reply)
    {
      var wire := FrameMessage(reply);
      ok := QueueBytes(wire);
      if ok {
        awaitingHandshake := false;
      }
    }

    method AdvanceHandshakeInPlace(message: Bytes) returns (ok: bool)
      requires Valid()
      modifies Footprint()
      ensures Valid() && fresh(Footprint() - old(Footprint())) && input.data == old(input.data)
      ensures (Value(), ok) == AdvanceHandshake(suite, generated, old(Value()), message)
    {
      var reply := channel.AcceptHandshakeMessage(generated, message);
      if reply.None? {
        return false;
      }
      ok := AnswerHandshakeInPlace(reply.value);
    }

    method SealAndQueue(plaintext: Bytes) returns (ok: bool)
      requires Valid()
      modifies Footprint()
      ensures Valid() && Footprint() == old(Footprint()) && input.data == old(input.data)
      ensures (Value(), ok) == SendSealed(suite, old(Value()), plaintext)
    {
      var sealed := channel.SealMessage(plaintext);
      if sealed.None? {
        return false;
      }
      var wire := FrameMessage(sealed.value);
      ok := QueueBytes(wire);
    }

    method SendRawMessage(f: Frame) returns (ok: bool)
      requires Valid()
      modifies Footprint()
      ensures Valid() && Footprint() == old(Footprint()) && input.data == old(input.data)
      ensures (Value(), ok) == SendFrame(suite, old(Value()), f)
    {
      log := log + [Attempt(f, |pending|, SendCounter(channel.Value()))];
      var frame := EncodeFrame(f);
      if frame.None? {
        return false;
      }
      ok := SealAndQueue(frame.value);
    }

    /** What a handler does with its answer: one send after the other, giving up at the first checked one that fails. */
    method SendReplies(replies: seq<Outgoing>) returns (ok: bool)
      requires Valid()
      modifies Footprint()
      ensures Valid() && Footprint() == old(Footprint()) && input.data == old(input.data)
      ensures (Value(), ok) == SendAll(suite, old(Value()), replies)
    {
      ghost var goal := SendAll(suite, Value(), replies);
      ok := true;
      var i := 0;
      while ok && i < |replies|
        invariant i <= |replies| && Valid() && Footprint() == old(Footprint()) && input.data == old(input.data)
        invariant goal == if ok then SendAll(suite, Value(), replies[i..]) else (Value(), false)
        decreases ok, |replies| - i
      {
        assert replies[i..][1..] == replies[i + 1..];
        var sent := SendRawMessage(replies[i].frame);
        ok := sent || !replies[i].checked;
        i := i + 1;
      }
    }

    method DispatchInPlace(plaintext: Bytes) returns (ok: bool)
      requires Valid()
      modifies Footprint()
      ensures Valid() && Footprint() == old(Footprint()) && input.data == old(input.data)
      ensures (Value(), ok) == Dispatch(suite, handler, old(Value()), plaintext)
    {
      var frame := Decode(plaintext);
      if frame.None? {
        return false;
      }
      var answer := handler(dispatched, frame.value);
      dispatched := dispatched + [frame.value];
      ok := SendReplies(answer.replies);
      ok := ok && answer.goOn;
    }

    method ReceiveInPlace(message: Bytes) returns (ok: bool)
      requires Valid()
      modifies Footprint()
      ensures Valid() && fresh(Footprint() - old(Footprint())) && input.data == old(input.data)
      ensures (Value(), ok) == Receive(suite, generated, handler, old(Value()), message)
    {
      if channel.transport == null {
        ok := AdvanceHandshakeInPlace(message);
        return;
      }
      var plaintext := channel.OpenMessage(message);
      if plaintext.None? {
        return false;
      }
      ok := DispatchInPlace(plaintext.value);
    }

    ghost function Draining(alive: bool): Loop<Server>
      reads this, channel, Footprint()
    {
      Loop(input.data, Value(), alive)
    }

    /** One round of the loop: take a message if there is one and act on it; `more` asks for another round. */
    method DrainOnce() returns (more: bool, alive: bool)
      requires Valid()
      modifies Footprint()
      ensures Valid() && fresh(Footprint() - old(Footprint()))
      ensures more ==> alive && |input.data| < |old(input.data)|
      ensures
        var step := ServerStep(suite, generated, handler);
        Drain(step, MAX_MESSAGE, old(Draining(true)))
        == if more then Drain(step, MAX_MESSAGE, Draining(true)) else Draining(alive)
    {
      var found, message, malformed := input.ExtractMessage(MAX_MESSAGE);
      if !found {
        return false, !malformed;
      }
      assert Value() == old(Value());
      alive := ReceiveInPlace(message);
      more := alive;
    }

    method DrainBuffer() returns (alive: bool)
      requires Valid()
      modifies Footprint()
      ensures Valid() && fresh(Footprint() - old(Footprint()))
      ensures Draining(alive) == Drain(ServerStep(suite, generated, handler), MAX_MESSAGE, old(Draining(true)))
    {
      ghost var step := ServerStep(suite, generated, handler);
      ghost var goal := Drain(step, MAX_MESSAGE, Draining(true));
      var more := true;
      alive := true;
      while more
        invariant Valid() && fresh(Footprint() - old(Footprint()))
        invariant goal == if more then Drain(step, MAX_MESSAGE, Draining(true)) else Draining(alive)
        decreases more, |input.data|
      {
        more, alive := DrainOnce();
      }
    }

    /** One readiness event: all that the socket held is appended; if the peer has closed, none of it is looked at. */
    method ProcessInput(bytes: Bytes, hangup: bool) returns (alive: bool)
      requires Valid()
      modifies Footprint()
      ensures Valid() && fresh(Footprint() - old(Footprint()))
      ensures Draining(alive) == OnEvent(ServerStep(suite, generated, handler), old(Draining(true)), Read(bytes, hangup))
    {
      input.Append(bytes);
      assert Value() == old(Value());
      if hangup {
        return false;
      }
      alive := DrainBuffer();
    }

    method FlushEvent(accepted: nat)
      requires Valid()
      modifies this
      ensures Valid()
      ensures Draining(true) == OnEvent(ServerStep(suite, generated, handler), old(Draining(true)), Flush(accepted))
    {
      var _ := FlushPendingWrites(accepted);
    }

    method ServiceEvent(e: Event) returns (alive: bool)
      requires Valid()
      modifies Footprint()
      ensures Valid() && fresh(Footprint() - old(Footprint()))
      ensures Draining(alive) == OnEvent(ServerStep(suite, generated, handler), old(Draining(true)), e)
    {
      if e.Read? {
        alive := ProcessInput(e.bytes, e.hangup);
      } else {
        FlushEvent(e.accepted);
        alive := true;
      }
    }

    /** The connection over its whole life: the state and verdict that the end-to-end theorem is about. */
    method ServiceEvents(events: seq<Event>) returns (alive: bool)
      requires Valid()
      modifies Footprint()
      ensures Valid() && fresh(Footprint() - old(Footprint()))
      ensures Draining(alive) == Serve(ServerStep(suite, generated, handler), old(Draining(true)), events)
    {
      ghost var step := ServerStep(suite, generated, handler);
      ghost var start := Draining(true);
      alive := true;
      for i := 0 to |events|
        invariant Valid() && fresh(Footprint() - old(Footprint()))
        invariant Draining(alive) == Serve(step, start, events[..i])
      {
        ServeStep(step, start, events[..i], events[i]);
        OneMore(events, i);
        if alive {
          alive := ServiceEvent(events[i]);
        }
      }
      assert events[..|events|] == events;
    }
  }
}
