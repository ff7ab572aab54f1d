/**
 The client's end of the channel (client/net/server_connection.cpp): sending frames, and pulling messages out of a
 socket that yields arbitrary pieces with a bounded number of tries.
 */
module ClientLink {
  import opened Prelude
  import opened LengthStream
  import opened Frames
  import opened SealedFrames
  import opened Pipeline
  import Noise
  import NoiseObjects

  const MAX_ATTEMPTS := 50

  /** What was read and not yet used, and what the socket is going to yield; a read of None means it closed. */
  datatype Inbox = Inbox(buffer: Bytes, arrivals: seq<Option<Bytes>>)

  datatype Pulled = Got(message: Bytes) | BadLength | Closed | NoAnswer

  function Pull(i: Inbox, attempts: nat): (Inbox, Pulled)
    decreases attempts
  {
    if attempts == 0 then (i, NoAnswer)
    else match Extract(i.buffer, MAX_MESSAGE)
      case Message(body, rest) => (i.(buffer := rest), Got(body))
      case Malformed => (i, BadLength)
      case Incomplete =>
        if i.arrivals == [] then Pull(i, attempts - 1)
        else if i.arrivals[0].None? then (i.(arrivals := i.arrivals[1..]), Closed)
        else Pull(Inbox(i.buffer + i.arrivals[0].value, i.arrivals[1..]), attempts - 1)
  }

  /** The bytes the socket is going to yield before it closes. */
  function Arriving(arrivals: seq<Option<Bytes>>): Bytes {
    if arrivals == [] || arrivals[0].None? then [] else arrivals[0].value + Arriving(arrivals[1..])
  }

  /** All the bytes still ahead of the client. */
  function Ahead(i: Inbox): Bytes {
    i.buffer + Arriving(i.arrivals)
  }

  function AfterRead(i: Inbox): Inbox
    requires i.arrivals != [] && i.arrivals[0].Some?
  {
    Inbox(i.buffer + i.arrivals[0].value, i.arrivals[1..])
  }

  /** So many bytes are there after at most n more reads. */
  predicate Within(i: Inbox, n: nat, size: nat)
    decreases n
  {
    || size <= |i.buffer|
    || (n > 0 && i.arrivals != [] && i.arrivals[0].Some? && Within(AfterRead(i), n - 1, size))
  }

  lemma SameAhead(i: Inbox)
    requires i.arrivals != [] && i.arrivals[0].Some?
    ensures Ahead(AfterRead(i)) == Ahead(i)
  {
    AppendAssociative(i.buffer, i.arrivals[0].value, Arriving(i.arrivals[1..]));
  }

  lemma {:induction false} WithinAhead(i: Inbox, n: nat, size: nat)
    requires Within(i, n, size)
    ensures size <= |Ahead(i)|
    decreases n
  {
    if size > |i.buffer| {
      SameAhead(i);
      WithinAhead(AfterRead(i), n - 1, size);
    }
  }

  lemma FrontOf(b: Bytes, c: Bytes, wire: Bytes)
    requires wire <= b + c && |wire| <= |b|
    ensures b == wire + b[|wire|..] && (b + c)[|wire|..] == b[|wire|..] + c
  {
  }

  lemma PartOf(b: Bytes, c: Bytes, wire: Bytes)
    requires wire <= b + c && |b| < |wire|
    ensures b == wire[..|b|]
  {
  }

  /** However the bytes are cut, pulling yields the next framed message and leaves exactly what follows it. */
  lemma {:induction false} PullFinds(i: Inbox, attempts: nat, message: Bytes)
    requires InCap(message, MAX_MESSAGE) && Framed(message) <= Ahead(i)
    requires attempts > 0 && Within(i, attempts - 1, |Framed(message)|)
    ensures
      var (j, pulled) := Pull(i, attempts);
      pulled == Got(message) && Ahead(j) == Ahead(i)[|Framed(message)|..]
    decreases attempts
  {
    var wire := Framed(message);
    if |wire| <= |i.buffer| {
      FrontOf(i.buffer, Arriving(i.arrivals), wire);
      ExtractOfFramed(message, i.buffer[|wire|..], MAX_MESSAGE);
    } else {
      PartOf(i.buffer, Arriving(i.arrivals), wire);
      PartIncomplete(message, |i.buffer|, MAX_MESSAGE);
      SameAhead(i);
      PullFinds(AfterRead(i), attempts - 1, message);
    }
  }

  /** No shorter front of these bytes is a message or malformed. */
  predicate Unfinished(b: Bytes, size: nat) {
    forall n :: 0 <= n < size && n <= |b| ==> Extract(b[..n], MAX_MESSAGE).Incomplete?
  }

  /** And if the message does not come within the tries, nothing is pulled and nothing is lost. */
  lemma {:induction false} PullMisses(i: Inbox, attempts: nat, size: nat)
    requires Unfinished(Ahead(i), size) && (attempts > 0 ==> !Within(i, attempts - 1, size))
    ensures
      var (j, pulled) := Pull(i, attempts);
      (pulled.NoAnswer? && Ahead(j) == Ahead(i)) || pulled.Closed?
    decreases attempts
  {
    if attempts > 0 {
      assert Ahead(i)[..|i.buffer|] == i.buffer;
      if i.arrivals == [] {
        if attempts > 1 {
          assert !Within(i, attempts - 2, size);
        }
        PullMisses(i, attempts - 1, size);
      } else if i.arrivals[0].Some? {
        SameAhead(i);
        PullMisses(AfterRead(i), attempts - 1, size);
      }
    }
  }

  // ---------------------------------------------------------------------------------------------
  // Receiving frames

  datatype Client = Client(inbox: Inbox, receive: Cipher, open: bool)

  /** Opening and checking what was pulled. A bad length, a closed socket or anything that is not a frame closes. */
  function OpenPulled(s: Suite, receive: Cipher, pulled: (Inbox, Pulled)): (Client, Option<Frame>) {
    match pulled
    case (j, Got(message)) =>
      var (next, plaintext) := Noise.Decrypt(s, receive, s.empty, message);
      var frame := if plaintext.None? then None else Decode(plaintext.value);
      (Client(j, next, frame.Some?), frame)
    case (j, NoAnswer) => (Client(j, receive, true), None)
    case (j, _) => (Client(j, receive, false), None)
  }

  function ReceiveFrame(s: Suite, c: Client, tries: nat): (Client, Option<Frame>) {
    if c.open then OpenPulled(s, c.receive, Pull(c.inbox, tries)) else (c, None)
  }

  /** A way to receive, as the number of tries fixes it. */
  type Receiver = Client -> (Client, Option<Frame>)

  function ReceiverOf(s: Suite, tries: nat): Receiver {
    (c: Client) => ReceiveFrame(s, c, tries)
  }

  /** The frames that so many receives bring. */
  function ReceiveAll(receiver: Receiver, c: Client, n: nat): (r: (Client, seq<Frame>))
    ensures |r.1| <= n
    decreases n
  {
    if n == 0 then (c, [])
    else
      var (d, got) := receiver(c);
      var (e, rest) := ReceiveAll(receiver, d, n - 1);
      (e, (if got.Some? then [got.value] else []) + rest)
  }

  /**
   The client is in step with a server that sealed these frames: same cipher, and ahead of it a prefix of their bytes and of
   stray messages after them, the first of which it cannot open.
   */
  ghost predicate InStep(s: Suite, c: Client, frames: seq<Frame>, stray: seq<Bytes>) {
    && c.open && Ready(c.receive, |frames|) && AllSendable(frames)
    && Ahead(c.inbox) <= Wire(SealFrames(s, c.receive, frames) + stray)
    && (stray != [] ==> InCap(stray[0], MAX_MESSAGE) && Noise.Decrypt(s, Later(c.receive, |frames|), s.empty, stray[0]).1 == None)
  }

  /** The next sealed frame, and what follows it. */
  lemma NextSealed(s: Suite, c: Cipher, frames: seq<Frame>, stray: seq<Bytes>) returns (sealed: Bytes)
    requires OnBytes(s) && Ready(c, |frames|) && AllSendable(frames) && frames != []
    ensures InCap(sealed, MAX_MESSAGE) && |Framed(sealed)| == FrameSize(frames[0])
    ensures Noise.Decrypt(s, c, s.empty, sealed) == (Later(c, 1), Some(Encoding(frames[0])))
    ensures Decode(Encoding(frames[0])) == Some(frames[0])
    ensures
      Wire(SealFrames(s, c, frames) + stray) == Framed(sealed) + Wire(SealFrames(s, Later(c, 1), frames[1..]) + stray)
  {
    SealOne(s, c, frames[0]);
    FrameBijection(Encoding(frames[0]), frames[0]);
    SealStep(s, c, frames);
    sealed := SealFrame(s, c, frames[0]).1.value;
    WireFirst(sealed, SealFrames(s, Later(c, 1), frames[1..]), stray);
  }

  lemma WireFirst(first: Bytes, rest: seq<Bytes>, stray: seq<Bytes>)
    ensures Wire(([first] + rest) + stray) == Framed(first) + Wire(rest + stray)
  {
    assert (([first] + rest) + stray)[1..] == rest + stray;
  }

  lemma PrefixAfter(b: Bytes, head: Bytes, tail: Bytes)
    requires b <= head + tail && |head| <= |b|
    ensures head <= b && b[|head|..] <= tail
  {
    assert (head + tail)[..|head|] == head && (head + tail)[|head|..] == tail;
    assert b[..|head|] == (head + tail)[..|head|];
    assert b[|head|..] == (head + tail)[|head|..|b|];
  }

  lemma PartUnfinished(b: Bytes, message: Bytes, tail: Bytes)
    requires b <= Framed(message) + tail && InCap(message, MAX_MESSAGE)
    ensures Unfinished(b, |Framed(message)|)
  {
    forall n | 0 <= n < |Framed(message)| && n <= |b| ensures Extract(b[..n], MAX_MESSAGE).Incomplete? {
      assert b[..n] == (Framed(message) + tail)[..n] == Framed(message)[..n];
      PartIncomplete(message, n, MAX_MESSAGE);
    }
  }

  /** The head of what the server sealed, once it is whole ahead of the client, and the rest. */
  lemma ReceivesWithin(s: Suite, c: Client, frames: seq<Frame>, stray: seq<Bytes>, attempts: nat)
    requires OnBytes(s) && InStep(s, c, frames, stray) && frames != []
    requires attempts > 0 && Within(c.inbox, attempts - 1, FrameSize(frames[0]))
    ensures
      var (d, got) := OpenPulled(s, c.receive, Pull(c.inbox, attempts));
      got == Some(frames[0]) && InStep(s, d, frames[1..], stray)
  {
    var sealed := NextSealed(s, c.receive, frames, stray);
    WithinAhead(c.inbox, attempts - 1, FrameSize(frames[0]));
    PrefixAfter(Ahead(c.inbox), Framed(sealed), Wire(SealFrames(s, Later(c.receive, 1), frames[1..]) + stray));
    PullFinds(c.inbox, attempts, sealed);
    assert Later(Later(c.receive, 1), |frames| - 1) == Later(c.receive, |frames|);
  }

  lemma PullNothing(s: Suite, c: Client, frames: seq<Frame>, stray: seq<Bytes>, attempts: nat, size: nat)
    requires InStep(s, c, frames, stray) && Unfinished(Ahead(c.inbox), size)
    requires attempts > 0 ==> !Within(c.inbox, attempts - 1, size)
    ensures
      var (d, got) := OpenPulled(s, c.receive, Pull(c.inbox, attempts));
      got == None && (d.open ==> InStep(s, d, frames, stray))
  {
    PullMisses(c.inbox, attempts, size);
  }

  lemma NothingWithin(i: Inbox, n: nat)
    requires Ahead(i) == []
    ensures !Within(i, n, 1) && Unfinished(Ahead(i), 1)
  {
    if Within(i, n, 1) {
      WithinAhead(i, n, 1);
    }
  }

  /** With no frame left, a stray closes the client as soon as it is whole. */
  lemma StrayCloses(s: Suite, c: Client, stray: seq<Bytes>, attempts: nat)
    requires InStep(s, c, [], stray)
    ensures
      var (d, got) := OpenPulled(s, c.receive, Pull(c.inbox, attempts));
      got == None && (d.open ==> InStep(s, d, [], stray))
  {
    assert SealFrames(s, c.receive, []) + stray == stray;
    if stray == [] {
      NothingWithin(c.inbox, if attempts > 0 then attempts - 1 else 0);
      PullNothing(s, c, [], stray, attempts, 1);
    } else {
      var wire, rest := Framed(stray[0]), Wire(stray[1..]);
      PartUnfinished(Ahead(c.inbox), stray[0], rest);
      if attempts > 0 && Within(c.inbox, attempts - 1, |wire|) {
        WithinAhead(c.inbox, attempts - 1, |wire|);
        PrefixAfter(Ahead(c.inbox), wire, rest);
        PullFinds(c.inbox, attempts, stray[0]);
        assert Later(c.receive, 0) == c.receive;
      } else {
        PullNothing(s, c, [], stray, attempts, |wire|);
      }
    }
  }

  lemma ReceivesNothing(s: Suite, c: Client, frames: seq<Frame>, stray: seq<Bytes>, attempts: nat)
    requires OnBytes(s) && InStep(s, c, frames, stray)
    requires frames != [] && attempts > 0 ==> !Within(c.inbox, attempts - 1, FrameSize(frames[0]))
    ensures
      var (d, got) := OpenPulled(s, c.receive, Pull(c.inbox, attempts));
      got == None && (d.open ==> InStep(s, d, frames, stray))
  {
    if frames == [] {
      StrayCloses(s, c, stray, attempts);
    } else {
      var sealed := NextSealed(s, c.receive, frames, stray);
      PartUnfinished(Ahead(c.inbox), sealed, Wire(SealFrames(s, Later(c.receive, 1), frames[1..]) + stray));
      PullNothing(s, c, frames, stray, attempts, FrameSize(frames[0]));
    }
  }

  /** The frame is whole within the tries of one receive. */
  predicate InTime(c: Client, f: Frame, tries: nat) {
    tries > 0 && Within(c.inbox, tries - 1, FrameSize(f))
  }

  /** One receive at a client that is to get these frames. */
  ghost predicate Receives(s: Suite, c: Client, frames: seq<Frame>, stray: seq<Bytes>, tries: nat) {
    var (d, got) := ReceiveFrame(s, c, tries);
    if frames != [] && InTime(c, frames[0], tries)
    then got == Some(frames[0]) && InStep(s, d, frames[1..], stray)
    else got == None && (d.open ==> InStep(s, d, frames, stray))
  }

  /**
   One receive, exactly: in step with the server, it returns the next frame if and only if that is whole within the tries;
   otherwise it returns nothing and, unless the socket closed or a stray came, loses nothing. An open client stays in step.
   */
  lemma ReceivesIff(s: Suite, c: Client, frames: seq<Frame>, stray: seq<Bytes>, tries: nat)
    requires OnBytes(s) && InStep(s, c, frames, stray)
    ensures Receives(s, c, frames, stray, tries)
  {
    if frames != [] && InTime(c, frames[0], tries) {
      ReceivesWithin(s, c, frames, stray, tries);
    } else {
      ReceivesNothing(s, c, frames, stray, tries);
    }
  }

  // ---------------------------------------------------------------------------------------------
  // Any run of receives. Only this is used of one receive, whatever being in step or in time means.

  ghost predicate Follows(receiver: Receiver, inStep: (Client, seq<Frame>) -> bool, inTime: (Client, Frame) -> bool) {
    && (forall c: Client :: !c.open ==> receiver(c) == (c, None))
    && (forall c, frames :: inStep(c, frames) ==> FollowsAt(receiver, inStep, inTime, c, frames))
  }

  ghost predicate FollowsAt(receiver: Receiver, inStep: (Client, seq<Frame>) -> bool, inTime: (Client, Frame) -> bool,
                            c: Client, frames: seq<Frame>) {
    var (d, got) := receiver(c);
    if frames != [] && inTime(c, frames[0]) then got == Some(frames[0]) && inStep(d, frames[1..])
    else got == None && (d.open ==> inStep(d, frames))
  }

  /** Each frame is whole within the tries of its own receive. */
  ghost predicate Timely(receiver: Receiver, inTime: (Client, Frame) -> bool, c: Client, frames: seq<Frame>)
    decreases |frames|
  {
    frames == [] || (inTime(c, frames[0]) && Timely(receiver, inTime, receiver(c).0, frames[1..]))
  }

  lemma {:induction false} ClosedReceivesNothing(receiver: Receiver, c: Client, n: nat)
    requires receiver(c) == (c, None)
    ensures ReceiveAll(receiver, c, n) == (c, [])
  {
    if n > 0 {
      ClosedReceivesNothing(receiver, c, n - 1);
    }
  }

  lemma {:induction false} ReceivesInOrder(receiver: Receiver, inStep: (Client, seq<Frame>) -> bool,
                                           inTime: (Client, Frame) -> bool, c: Client, frames: seq<Frame>, n: nat)
    returns (left: seq<Frame>)
    requires Follows(receiver, inStep, inTime) && (c.open ==> inStep(c, frames))
    ensures
      var (d, got) := ReceiveAll(receiver, c, n);
      frames == got + left && (d.open ==> inStep(d, left))
    decreases n
  {
    left := frames;
    if !c.open {
      ClosedReceivesNothing(receiver, c, n);
    } else if n > 0 {
      assert FollowsAt(receiver, inStep, inTime, c, frames);
      var (d, got) := receiver(c);
      var rest := ReceiveAll(receiver, d, n - 1).1;
      if got.Some? {
        left := ReceivesInOrder(receiver, inStep, inTime, d, frames[1..], n - 1);
        FirstApart(frames, rest, left);
      } else {
        left := ReceivesInOrder(receiver, inStep, inTime, d, frames, n - 1);
        assert [] + rest == rest;
      }
    }
  }

  lemma FirstApart(frames: seq<Frame>, rest: seq<Frame>, left: seq<Frame>)
    requires frames != [] && frames[1..] == rest + left
    ensures frames == ([frames[0]] + rest) + left
  {
    assert frames == [frames[0]] + frames[1..];
  }

  lemma {:induction false} ReceivesIfTimely(receiver: Receiver, inStep: (Client, seq<Frame>) -> bool,
                                            inTime: (Client, Frame) -> bool, c: Client, frames: seq<Frame>)
    requires Follows(receiver, inStep, inTime) && inStep(c, frames)
    ensures ReceiveAll(receiver, c, |frames|).1 == frames <==> Timely(receiver, inTime, c, frames)
    decreases |frames|
  {
    if frames != [] {
      assert FollowsAt(receiver, inStep, inTime, c, frames);
      var (d, got) := receiver(c);
      var rest := ReceiveAll(receiver, d, |frames| - 1).1;
      if got.Some? {
        ReceivesIfTimely(receiver, inStep, inTime, d, frames[1..]);
        ConsEqual(frames, rest);
      } else {
        assert |[] + rest| < |frames|;
      }
    }
  }

  lemma ConsEqual(frames: seq<Frame>, rest: seq<Frame>)
    requires frames != []
    ensures [frames[0]] + rest == frames <==> rest == frames[1..]
  {
    assert ([frames[0]] + rest)[1..] == rest && [frames[0]] + frames[1..] == frames;
  }

  ghost function InStepWith(s: Suite, stray: seq<Bytes>): (Client, seq<Frame>) -> bool {
    (c: Client, frames: seq<Frame>) => InStep(s, c, frames, stray)
  }

  function InTimeWith(tries: nat): (Client, Frame) -> bool {
    (c: Client, f: Frame) => InTime(c, f, tries)
  }

  lemma ClientFollows(s: Suite, stray: seq<Bytes>, tries: nat)
    requires OnBytes(s)
    ensures Follows(ReceiverOf(s, tries), InStepWith(s, stray), InTimeWith(tries))
  {
    forall c, frames | InStepWith(s, stray)(c, frames)
      ensures FollowsAt(ReceiverOf(s, tries), InStepWith(s, stray), InTimeWith(tries), c, frames)
    {
      ReceivesIff(s, c, frames, stray, tries);
    }
  }

  /** Any number of receives bring a prefix of what the server sealed, in order, whatever the reads and the time they take. */
  lemma ReceivesPrefix(s: Suite, c: Client, frames: seq<Frame>, stray: seq<Bytes>, tries: nat, n: nat)
    requires OnBytes(s) && InStep(s, c, frames, stray)
    ensures
      var (d, got) := ReceiveAll(ReceiverOf(s, tries), c, n);
      got <= frames && (d.open ==> InStep(s, d, frames[|got|..], stray))
  {
    ClientFollows(s, stray, tries);
    var left := ReceivesInOrder(ReceiverOf(s, tries), InStepWith(s, stray), InTimeWith(tries), c, frames, n);
    DropPrefix(ReceiveAll(ReceiverOf(s, tries), c, n).1, left);
  }

  lemma DropPrefix(got: seq<Frame>, left: seq<Frame>)
    ensures (got + left)[|got|..] == left
  {
  }

  /** One receive per frame gets all of them exactly when each comes within the tries of its receive. */
  lemma ReceivesAllFrames(s: Suite, c: Client, frames: seq<Frame>, stray: seq<Bytes>, tries: nat)
    requires OnBytes(s) && InStep(s, c, frames, stray)
    ensures
      ReceiveAll(ReceiverOf(s, tries), c, |frames|).1 == frames <==> Timely(ReceiverOf(s, tries), InTimeWith(tries), c, frames)
  {
    ClientFollows(s, stray, tries);
    ReceivesIfTimely(ReceiverOf(s, tries), InStepWith(s, stray), InTimeWith(tries), c, frames);
  }

  // ---------------------------------------------------------------------------------------------
  // How large a frame one receive can bring

  const READ_CHUNK := 16 * 1024

  predicate SmallReads(arrivals: seq<Option<Bytes>>) {
    forall a <- arrivals :: a.Some? ==> |a.value| <= READ_CHUNK
  }

  lemma {:induction false} SmallReadsBring(i: Inbox, n: nat, size: nat)
    requires SmallReads(i.arrivals) && Within(i, n, size)
    ensures size <= |i.buffer| + n * READ_CHUNK
    decreases n
  {
    if size > |i.buffer| {
      assert i.arrivals[0] in i.arrivals;
      SmallReadsBring(AfterRead(i), n - 1, size);
    }
  }

  /** These bytes in reads as large as they come. */
  function FullReads(b: Bytes): seq<Option<Bytes>>
    decreases |b|
  {
    if |b| <= READ_CHUNK then [Some(b)] else [Some(b[..READ_CHUNK])] + FullReads(b[READ_CHUNK..])
  }

  lemma {:induction false} FullReadsSuffice(have: Bytes, b: Bytes, n: nat)
    requires |b| <= n * READ_CHUNK && n > 0
    ensures SmallReads(FullReads(b)) && Arriving(FullReads(b)) == b
    ensures Within(Inbox(have, FullReads(b)), n, |have| + |b|)
    decreases |b|
  {
    var i := Inbox(have, FullReads(b));
    if |b| <= READ_CHUNK {
      assert i.arrivals[1..] == [] && b + [] == b;
    } else {
      FullReadsSuffice(have + b[..READ_CHUNK], b[READ_CHUNK..], n - 1);
      assert i.arrivals[1..] == FullReads(b[READ_CHUNK..]);
      assert b == b[..READ_CHUNK] + b[READ_CHUNK..];
    }
  }

  ghost predicate BroughtBy(s: Suite, receive: Cipher, f: Frame, arrivals: seq<Option<Bytes>>) {
    && SmallReads(arrivals) && Arriving(arrivals) == Wire(SealFrames(s, receive, [f]))
    && ReceiveFrame(s, Client(Inbox([], arrivals), receive, true), MAX_ATTEMPTS).1 == Some(f)
  }

  lemma OneFrameInStep(s: Suite, receive: Cipher, f: Frame, arrivals: seq<Option<Bytes>>)
    requires OnBytes(s) && Ready(receive, 1) && Sendable(f) && Arriving(arrivals) == Wire(SealFrames(s, receive, [f]))
    ensures InStep(s, Client(Inbox([], arrivals), receive, true), [f], []) && |Arriving(arrivals)| == FrameSize(f)
  {
    assert Ahead(Inbox([], arrivals)) == Arriving(arrivals);
    assert SealFrames(s, receive, [f]) + [] == SealFrames(s, receive, [f]);
    SealedAlone(s, receive, f);
  }

  lemma OneReceiveIff(s: Suite, receive: Cipher, f: Frame, arrivals: seq<Option<Bytes>>)
    requires OnBytes(s) && Ready(receive, 1) && Sendable(f) && Arriving(arrivals) == Wire(SealFrames(s, receive, [f]))
    ensures
      var c := Client(Inbox([], arrivals), receive, true);
      ReceiveFrame(s, c, MAX_ATTEMPTS).1 == Some(f) <==> InTime(c, f, MAX_ATTEMPTS)
  {
    OneFrameInStep(s, receive, f, arrivals);
    ReceivesIff(s, Client(Inbox([], arrivals), receive, true), [f], [], MAX_ATTEMPTS);
  }

  lemma FullReadsBring(s: Suite, receive: Cipher, f: Frame, wire: Bytes, n: nat)
    requires OnBytes(s) && Ready(receive, 1) && Sendable(f) && wire == Wire(SealFrames(s, receive, [f]))
    requires n == MAX_ATTEMPTS - 1 && FrameSize(f) <= n * READ_CHUNK
    ensures BroughtBy(s, receive, f, FullReads(wire))
  {
    SealedAlone(s, receive, f);
    FullReadsInTime(receive, f, wire, n);
    OneReceiveIff(s, receive, f, FullReads(wire));
  }

  lemma FullReadsInTime(receive: Cipher, f: Frame, wire: Bytes, n: nat)
    requires |wire| == FrameSize(f) <= n * READ_CHUNK && n > 0
    ensures SmallReads(FullReads(wire)) && Arriving(FullReads(wire)) == wire
    ensures InTime(Client(Inbox([], FullReads(wire)), receive, true), f, n + 1)
  {
    FullReadsSuffice([], wire, n);
  }

  lemma SealedAlone(s: Suite, receive: Cipher, f: Frame)
    requires OnBytes(s) && Ready(receive, 1) && Sendable(f)
    ensures |Wire(SealFrames(s, receive, [f]))| == FrameSize(f)
  {
    SealOne(s, receive, f);
    SealStep(s, receive, [f]);
    var sealed := SealFrame(s, receive, f).1.value;
    assert SealFrames(s, Later(receive, 1), [f][1..]) == [];
    assert [sealed] + [] == [sealed];
    WireOfOne(sealed);
  }

  /**
   The last try reads but no longer looks, and a read brings at most 16 KiB: starting from an empty buffer, one receive can
   bring a frame if and only if its message is at most 49 such reads long. A frame may be larger.
   */
  lemma OneReceiveBrings(s: Suite, receive: Cipher, f: Frame)
    requires OnBytes(s) && Ready(receive, 1) && Sendable(f)
    ensures (exists arrivals :: BroughtBy(s, receive, f, arrivals)) <==> FrameSize(f) <= (MAX_ATTEMPTS - 1) * READ_CHUNK
  {
    if arrivals :| BroughtBy(s, receive, f, arrivals) {
      OneReceiveIff(s, receive, f, arrivals);
      SmallReadsBring(Inbox([], arrivals), MAX_ATTEMPTS - 1, FrameSize(f));
    }
    if FrameSize(f) <= (MAX_ATTEMPTS - 1) * READ_CHUNK {
      FullReadsBring(s, receive, f, Wire(SealFrames(s, receive, [f])), MAX_ATTEMPTS - 1);
    }
  }

  /** The largest frame is one of those: it may be sent, but no single receive from an empty buffer brings it. */
  lemma LargestFrameMissed(s: Suite, receive: Cipher, kind: Byte)
    requires OnBytes(s) && Ready(receive, 1) && KnownType(kind)
    ensures
      var f := Frame(kind, Zeros(MAX_PAYLOAD));
      Sendable(f) && forall arrivals :: !BroughtBy(s, receive, f, arrivals)
  {
    OneReceiveBrings(s, receive, Frame(kind, Zeros(MAX_PAYLOAD)));
  }

  // ---------------------------------------------------------------------------------------------
  // The conversation

  datatype Reason = NoFirstMessage | NoReply | WrongServerKey | NoKeys

  datatype Either<L, R> = Left(left: L) | Right(right: R)

  /** What a reply yields: the transport keys, or why it was refused. */
  function KeysFromReply(s: Suite, i: Noise.Initiator<Bytes>, message: Bytes): Either<Reason, Noise.KeyPair<Bytes>> {
    var (i2, payload) := Noise.ReadSecond(s, i, message);
    if payload.None? then Left(WrongServerKey)
    else match Noise.InitiatorKeys(s, i2)
      case None => Left(NoKeys)
      case Some(keys) => Right(keys)
  }

  /** A handler only sends frames of known types. */
  ghost predicate AnswersKnown(handler: Handler) {
    forall seen, f, i :: 0 <= i < |handler(seen, f).replies| ==> KnownType(handler(seen, f).replies[i].frame.kind)
  }

  lemma {:induction false} RepliesKnown(handler: Handler, seen: seq<Frame>)
    requires AnswersKnown(handler)
    ensures forall i :: 0 <= i < |Replies(handler, seen)| ==> KnownType(Replies(handler, seen)[i].frame.kind)
  {
    if seen != [] {
      RepliesKnown(handler, seen[..|seen| - 1]);
    }
  }

  /** The log shows the handler's answers to the dispatched frames, from the first on. */
  ghost predicate LogsReplies(x: Scenario, v: Server) {
    var replies := Replies(x.handler, v.dispatched);
    v.dispatched <= x.frames && |v.log| <= |replies| && forall i :: 0 <= i < |v.log| ==> v.log[i].frame == replies[i].frame
  }

  /** Once anything is flushed, the queue is the handshake reply and the handler's answers as far as they were sent. */
  lemma ProgressSent(x: Scenario, step: Step<Server>, d: Loop<Server>, events: seq<Event>, k: nat, n: nat, m: nat)
    requires Progress(x, step, d, events, k, n, m) && d.state.flushed != []
    ensures Sent(x, d.state) && LogsReplies(x, d.state)
  {
    if !d.open && Stopped(x, d.state, n) {
      LogFollows(Replies(x.handler, x.frames[..n]), d.state.log);
    } else {
      ServingLogs(x, d.state, k);
    }
  }

  lemma LogFollows(replies: seq<Outgoing>, log: seq<Attempt>)
    requires Passed(replies, log) || Pipeline.Failed(replies, log)
    ensures |log| <= |replies| && forall i :: 0 <= i < |log| ==> log[i].frame == replies[i].frame
  {
    if !Passed(replies, log) {
      var last := |log| - 1;
      forall i | 0 <= i < last ensures log[i].frame == replies[i].frame {
        assert log[i] == log[..last][i] && replies[i] == replies[..last][i];
      }
    }
  }

  lemma ServingLogs(x: Scenario, v: Server, k: nat)
    requires Reached(x, v, k) && v.flushed != []
    ensures Sent(x, v) && LogsReplies(x, v)
  {
    assert k > 0;
    LogFollows(Replies(x.handler, x.frames[..k - 1]), v.log);
  }

  lemma {:induction false} GoodKnown(log: seq<Attempt>)
    requires forall i :: 0 <= i < |log| ==> KnownType(log[i].frame.kind)
    ensures forall i :: 0 <= i < |Good(log)| ==> KnownType(Good(log)[i].kind)
    decreases |log|
  {
    if log != [] {
      GoodKnown(log[..|log| - 1]);
    }
  }

  lemma ReplyYieldsKeys(x: Scenario)
    requires Honest(x)
    ensures KeysAgreed(x, x.handshake.reply) && InCap(x.handshake.reply, MAX_MESSAGE)
  {
    Noise.HandshakeAgrees(x.suite, x.secret, x.e1, x.e2, x.suite.empty, x.suite.empty);
    HandshakeSizes(x.suite, x.secret, x.e1, x.e2);
  }

  /** From this reply the client derives the keys that the server answers and listens with. */
  ghost predicate KeysAgreed(x: Scenario, reply: Bytes) {
    var i1 := Noise.WriteFirst(x.suite, Noise.NewInitiator(x.suite, x.suite.pub(x.secret)), Some(x.e1), x.suite.empty).0;
    KeysFromReply(x.suite, i1, reply) == Right(x.handshake.clientKeys)
  }

  lemma StrayRefused(s: Suite, c: Cipher, log: seq<Attempt>)
    requires OnBytes(s) && Noise.NoncesTell(s, c.key) && c.hasKey && c.counter == 0 && Counted(log) && Stray(s, c, log) != []
    ensures InCap(Stray(s, c, log)[0], MAX_MESSAGE)
    ensures Noise.Decrypt(s, Later(c, |Good(log)|), s.empty, Stray(s, c, log)[0]).1 == None
  {
    var a := StrayCounters(s, c, log, 0);
    SealOne(s, Later(c, a.counter), a.frame);
    Noise.ReplayRefused(s, Later(c, |Good(log)|), a.counter, Encoding(a.frame));
  }

  /** The client that has had the handshake reply is in step for the good frames, and what strays after them it refuses. */
  lemma GoodInStep(x: Scenario, v: Server, j: Inbox)
    requires Honest(x) && AnswersKnown(x.handler) && Noise.NoncesTell(x.suite, ServerCipher(x).key)
    requires Sent(x, v) && LogsReplies(x, v) && Ahead(j) <= Wire(Queued(x.suite, ServerCipher(x), v.log))
    ensures InStep(x.suite, Client(j, ServerCipher(x), true), Good(v.log), Stray(x.suite, ServerCipher(x), v.log))
  {
    var s, c := x.suite, ServerCipher(x);
    QueuedSplit(s, c, v.log);
    SealsAreGood(v.log);
    RepliesKnown(x.handler, v.dispatched);
    GoodKnown(v.log);
    if Stray(s, c, v.log) != [] {
      StrayRefused(s, c, v.log);
    }
  }

  lemma AfterReply(x: Scenario, v: Server, i: Inbox, attempts: nat) returns (j: Inbox)
    requires Honest(x) && Sent(x, v)
    requires Ahead(i) <= v.flushed && attempts > 0 && Within(i, attempts - 1, |Framed(x.handshake.reply)|)
    ensures Pull(i, attempts) == (j, Got(x.handshake.reply)) && KeysAgreed(x, x.handshake.reply)
    ensures Ahead(j) <= Wire(Queued(x.suite, ServerCipher(x), v.log))
  {
    ReplyYieldsKeys(x);
    WithinAhead(i, attempts - 1, |Framed(x.handshake.reply)|);
    PrefixAfter(Ahead(i), Framed(x.handshake.reply), Wire(Queued(x.suite, ServerCipher(x), v.log)));
    PullFinds(i, attempts, x.handshake.reply);
    j := Pull(i, attempts).0;
  }

  /**
   Both directions together. The client sent its handshake and its frames, of which the server has read any prefix, cut
   anyhow; of what the server's socket took, any prefix is on its way back, cut anyhow. If the handshake reply is among it
   within the tries, the client derives the agreed keys, and then any number of receives bring a prefix of the handler's
   answers to the client's own frames, in order, and never one beyond the first that was sealed and found no room. It gets
   all of those exactly when each is whole within the tries of its receive; and they are all that was sent exactly when no
   send was blocked.
   */
  lemma ConversationArrives(x: Scenario, events: seq<Event>, i: Inbox, tries: nat, n: nat)
    requires Honest(x) && AnswersKnown(x.handler) && Noise.NoncesTell(x.suite, ServerCipher(x).key)
    requires Taken(events) <= Wire(Messages(x)) && Ahead(i) <= Serve(StepOf(x), Begin(x), events).state.flushed
    requires tries > 0 && Within(i, tries - 1, |Framed(x.handshake.reply)|)
    ensures
      var server := Serve(StepOf(x), Begin(x), events).state;
      var (j, pulled) := Pull(i, tries);
      var client := Client(j, ServerCipher(x), true);
      var good := Good(server.log);
      && pulled.Got? && KeysAgreed(x, pulled.message) && LogsReplies(x, server)
      && ReceiveAll(ReceiverOf(x.suite, tries), client, n).1 <= good
      && (ReceiveAll(ReceiverOf(x.suite, tries), client, |good|).1 == good
          <==> Timely(ReceiverOf(x.suite, tries), InTimeWith(tries), client, good))
      && (|good| == |server.log| <==> NoneBlocked(server.log))
  {
    var k, end, m := EndToEnd(x, events);
    var d := Serve(StepOf(x), Begin(x), events);
    WithinAhead(i, tries - 1, |Framed(x.handshake.reply)|);
    ProgressSent(x, StepOf(x), d, events, k, end, m);
    var j := AfterReply(x, d.state, i, tries);
    GoodInStep(x, d.state, j);
    var client, stray := Client(j, ServerCipher(x), true), Stray(x.suite, ServerCipher(x), d.state.log);
    ReceivesPrefix(x.suite, client, Good(d.state.log), stray, tries, n);
    ReceivesAllFrames(x.suite, client, Good(d.state.log), stray, tries);
    NoneBlockedIsGood(d.state.log);
  }

  // ---------------------------------------------------------------------------------------------
  // The connection object

  datatype Outcome = Done | GaveUp(reason: Reason)

  class ServerConnection {
    const suite: Suite
    const input: StreamBuffer
    const handshake: NoiseObjects.HandshakeInitiator<Bytes>
    var transport: NoiseObjects.TransportChannel?<Bytes>
    var arrivals: seq<Option<Bytes>>           // what the socket is going to yield
    var sent: Bytes                         // what has been put on the socket
    var isOpen: bool

    ghost function Footprint(): set<object>
      reads this
    {
      {this, input, handshake, handshake.state, handshake.state.cipher}
      + (if transport == null then {} else {transport, transport.sendState, transport.receiveState})
    }

    ghost predicate Valid()
      reads this, Footprint()
    {
      && handshake.Valid() && handshake.state.suite == suite
      && (transport != null ==>
            && transport.Valid() && transport.sendState.suite == suite
            && transport.sendState != handshake.state.cipher && transport.receiveState != handshake.state.cipher)
    }

    /** A connection whose socket has just been opened: fresh handshake, no transport, empty buffer. */
    constructor (suite: Suite, serverStaticPublic: Bytes, arrivals: seq<Option<Bytes>>)
      ensures Valid() && fresh(Footprint()) && this.suite == suite
      ensures handshake.Value() == Noise.NewInitiator(suite, serverStaticPublic)
      ensures transport == null && isOpen && sent == [] && input.data == [] && this.arrivals == arrivals
    {
      this.suite, this.arrivals, sent, isOpen := suite, arrivals, [], true;
      input := new StreamBuffer();
      handshake := new NoiseObjects.HandshakeInitiator(suite, serverStaticPublic);
      transport := null;
    }

    method PullNextMessage() returns (pulled: Pulled)
      modifies this, input
      ensures (Inbox(input.data, arrivals), pulled) == Pull(old(Inbox(input.data, arrivals)), MAX_ATTEMPTS)
      ensures isOpen == (old(isOpen) && !pulled.BadLength? && !pulled.Closed?)
      ensures sent == old(sent) && transport == old(transport)
    {
      ghost var goal := Pull(Inbox(input.data, arrivals), MAX_ATTEMPTS);
      for attempt := 0 to MAX_ATTEMPTS
        invariant Pull(Inbox(input.data, arrivals), MAX_ATTEMPTS - attempt) == goal
        invariant isOpen == old(isOpen) && sent == old(sent) && transport == old(transport)
      {
        var found, message, malformed := input.ExtractMessage(MAX_MESSAGE);
        if found {
          return Got(message);
        }
        if malformed {
          isOpen := false;
          return BadLength;
        }
        if arrivals != [] {
          var arrived := arrivals[0];
          arrivals := arrivals[1..];
          if arrived.None? {
            isOpen := false;
            return Closed;
          }
          input.Append(arrived.value);
        }
      }
      return NoAnswer;
    }

    method FinishHandshake(message: Bytes) returns (outcome: Outcome)
      requires Valid() && transport == null
      modifies this`transport, handshake, handshake.state, handshake.state.cipher
      ensures Valid() && fresh(Footprint() - old(Footprint()))
      ensures match KeysFromReply(suite, old(handshake.Value()), message)
              case Left(reason) => outcome == GaveUp(reason) && transport == null
              case Right(keys) => outcome == Done && transport != null && transport.Value() == Noise.NewTransport(keys)
    {
      var payload := handshake.ReadSecondMessage(message);
      if payload.None? {
        return GaveUp(WrongServerKey);
      }
      var keys := handshake.ExportTransportKeys();
      if keys.None? {
        return GaveUp(NoKeys);
      }
      transport := new NoiseObjects.TransportChannel(suite, keys.value.send, keys.value.receive);
      outcome := Done;
    }

    /** The client's half of the handshake, over what the socket yields. */
    method PerformHandshake(generated: Option<Bytes>) returns (outcome: Outcome)
      requires Valid() && transport == null
      modifies Footprint()
      ensures Valid() && fresh(Footprint() - old(Footprint()))
      ensures
        var (i1, first) := Noise.WriteFirst(suite, old(handshake.Value()), generated, suite.empty);
        if first.None? then
          && outcome == GaveUp(NoFirstMessage) && sent == old(sent) && transport == null
          && Inbox(input.data, arrivals) == old(Inbox(input.data, arrivals)) && isOpen == old(isOpen)
        else
          && sent == old(sent) + Framed(first.value)
          && var (inbox, pulled) := Pull(old(Inbox(input.data, arrivals)), MAX_ATTEMPTS);
             && Inbox(input.data, arrivals) == inbox
             && isOpen == (old(isOpen) && !pulled.BadLength? && !pulled.Closed?)
             && if !pulled.Got? then outcome == GaveUp(NoReply) && transport == null
                else match KeysFromReply(suite, i1, pulled.message)
                  case Left(reason) => outcome == GaveUp(reason) && transport == null
                  case Right(keys) => outcome == Done && transport != null && transport.Value() == Noise.NewTransport(keys)
    {
      var first := handshake.WriteFirstMessage(generated, suite.empty);
      if first.None? {
        return GaveUp(NoFirstMessage);
      }
      var wire := FrameMessage(first.value);
      sent := sent + wire;
      ghost var i1 := handshake.Value();
      var pulled := PullNextMessage();
      assert handshake.Value() == i1;
      if !pulled.Got? {
        return GaveUp(NoReply);
      }
      outcome := FinishHandshake(pulled.message);
    }

    method SendFrame(f: Frame) returns (ok: bool)
      requires Valid()
      modifies Footprint()
      ensures Valid() && Footprint() == old(Footprint())
      ensures isOpen == old(isOpen) && arrivals == old(arrivals) && input.data == old(input.data)
      ensures
        if !old(isOpen) || old(transport) == null then !ok && sent == old(sent)
        else
          var (c, sealed) := SealFrame(suite, old(transport.Value().send), f);
          && transport.Value() == old(transport.Value()).(send := c)
          && ok == sealed.Some?
          && sent == old(sent) + (if ok then Framed(sealed.value) else [])
    {
      if !isOpen || transport == null {
        return false;
      }
      var frame := EncodeFrame(f);
      if frame.None? {
        return false;
      }
      var sealed := transport.EncryptMessage(frame.value);
      if sealed.None? {
        return false;
      }
      var wire := FrameMessage(sealed.value);
      sent := sent + wire;
      ok := true;
    }

    method Receive() returns (got: Option<Frame>)
      requires Valid()
      modifies Footprint()
      ensures Valid() && Footprint() == old(Footprint()) && sent == old(sent)
      ensures
        if old(transport) == null then got == None && isOpen == old(isOpen)
        else
          && transport == old(transport) && transport.sendState.Value() == old(transport.sendState.Value())
          && (Client(Inbox(input.data, arrivals), transport.receiveState.Value(), isOpen), got)
             == ReceiveFrame(suite, old(Client(Inbox(input.data, arrivals), transport.receiveState.Value(), isOpen)), MAX_ATTEMPTS)
    {
      if !isOpen || transport == null {
        return None;
      }
      ghost var cipher := transport.receiveState.Value();
      var pulled := PullNextMessage();
      assert transport.receiveState.Value() == cipher;
      if !pulled.Got? {
        return None;
      }
      var plaintext := transport.DecryptMessage(pulled.message);
      if plaintext.None? {
        isOpen := false;
        return None;
      }
      got := Decode(plaintext.value);
      if got.None? {
        isOpen := false;
      }
    }
  }
}
