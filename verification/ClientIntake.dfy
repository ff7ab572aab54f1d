/** What the client makes of any bytes at all (client/net/server_connection.cpp): what a pull takes, and what a receive returns. */
module ClientIntake {
  import opened Prelude
  import opened LengthStream
  import opened Frames
  import opened SealedFrames
  import opened ClientLink
  import Noise

  /** The buffer after k more reads. */
  function BufferAfter(i: Inbox, k: nat): Bytes
    requires k <= |i.arrivals| && forall n :: 0 <= n < k ==> i.arrivals[n].Some?
    decreases k
  {
    if k == 0 then i.buffer else BufferAfter(AfterRead(i), k - 1)
  }

  /** It was worth reading k times: there were so many chunks, and what was there before each was incomplete. */
  ghost predicate Reads(i: Inbox, k: nat) {
    && k <= |i.arrivals| && (forall n :: 0 <= n < k ==> i.arrivals[n].Some?)
    && forall n :: 0 <= n < k ==> Extract(BufferAfter(i, n), MAX_MESSAGE).Incomplete?
  }

  ghost predicate Outcome(i: Inbox, attempts: nat, k: nat, j: Inbox, pulled: Pulled)
    requires Reads(i, k)
  {
    var b, rest := BufferAfter(i, k), i.arrivals[k..];
    match pulled
    case Got(message) => k < attempts && Extract(b, MAX_MESSAGE) == Message(message, j.buffer) && j.arrivals == rest
    case BadLength => k < attempts && Extract(b, MAX_MESSAGE).Malformed? && j == Inbox(b, rest)
    case Closed =>
      k < attempts && Extract(b, MAX_MESSAGE).Incomplete? && rest != [] && rest[0].None? && j == Inbox(b, rest[1..])
    case NoAnswer => j == Inbox(b, rest) && (k == attempts || (Extract(b, MAX_MESSAGE).Incomplete? && rest == []))
  }

  lemma OneMoreRead(i: Inbox, attempts: nat, k: nat, j: Inbox, pulled: Pulled)
    requires i.arrivals != [] && i.arrivals[0].Some? && Extract(i.buffer, MAX_MESSAGE).Incomplete?
    requires Reads(AfterRead(i), k) && Outcome(AfterRead(i), attempts, k, j, pulled)
    ensures Reads(i, k + 1) && Outcome(i, attempts + 1, k + 1, j, pulled)
  {
    assert forall n :: 0 < n <= k ==> i.arrivals[n] == AfterRead(i).arrivals[n - 1];
    assert i.arrivals[k + 1..] == AfterRead(i).arrivals[k..];
    forall n | 0 <= n < k + 1 ensures Extract(BufferAfter(i, n), MAX_MESSAGE).Incomplete? {
      if n > 0 {
        assert BufferAfter(i, n) == BufferAfter(AfterRead(i), n - 1);
      }
    }
  }

  /**
   Whatever is there and whatever comes: a pull reads on while the buffer is incomplete and tries are left, and ends with the first
   message, a length that is not allowed, a closed socket, or no answer. The last try reads and does not look.
   */
  lemma {:induction false} PullAny(i: Inbox, attempts: nat) returns (k: nat)
    ensures
      var (j, pulled) := Pull(i, attempts);
      Reads(i, k) && Outcome(i, attempts, k, j, pulled)
    decreases attempts
  {
    k := 0;
    if attempts > 0 && Extract(i.buffer, MAX_MESSAGE).Incomplete? {
      if i.arrivals == [] {
        k := PullAny(i, attempts - 1);
      } else if i.arrivals[0].Some? {
        var n := PullAny(AfterRead(i), attempts - 1);
        var (j, pulled) := Pull(i, attempts);
        OneMoreRead(i, attempts - 1, n, j, pulled);
        k := n + 1;
      }
    }
  }

  /**
   A receive on any bytes: it returns a frame if and only if a message was pulled that is authentic for it under the
   next counter. Everything else but no answer closes the connection, and a closed one receives nothing.
   */
  lemma ReceiveAny(s: Suite, c: Client, tries: nat)
    requires OnBytes(s) && Ready(c.receive, 0)
    ensures
      var (d, got) := ReceiveFrame(s, c, tries);
      var (j, pulled) := Pull(c.inbox, tries);
      && (forall f :: got == Some(f) <==> c.open && pulled.Got? && Authentic(s, c.receive, pulled.message, f))
      && (if c.open then d.inbox == j else d == c)
      && (d.open <==> c.open && (got.Some? || pulled.NoAnswer?))
      && (got.Some? ==> d.receive == Later(c.receive, 1)) && (!pulled.Got? ==> d.receive == c.receive)
  {
    var pulled := Pull(c.inbox, tries).1;
    if pulled.Got? {
      var f := OpenedIff(s, c.receive, pulled.message);
      forall g | Authentic(s, c.receive, pulled.message, g) ensures f == Some(g) {
        AuthenticOnce(s, c.receive, pulled.message, f.value, g);
      }
    }
  }

  /**
   Whatever the client is given as the reply to its first message: it has keys if and only if the reply carries some payload under
   the pinned key and the whole transcript, and then they are those of both exchanges; anything else is the wrong server.
   */
  lemma ReplyAny(s: Suite, pinned: Bytes, e1: Bytes, p1: Bytes, message: Bytes)
    requires Noise.Lawful(s) && Noise.WriteFirst(s, Noise.NewInitiator(s, pinned), Some(e1), p1).1.Some?
    ensures
      var (i, first) := Noise.WriteFirst(s, Noise.NewInitiator(s, pinned), Some(e1), p1);
      && s.dh(e1, pinned).Some? && s.split(first.value).Some?
      && var chaining := s.chain(s.name, s.dh(e1, pinned).value);
         var carried := exists p :: Noise.Carries(s, e1, chaining, Noise.Transcript(s, pinned, first.value), message, p);
         var keys := KeysFromReply(s, i, message);
         && (!carried ==> keys == Left(WrongServerKey))
         && (carried ==>
               && s.split(message).Some? && s.dh(e1, s.split(message).value.0).Some?
               && var last := s.chain(chaining, s.dh(e1, s.split(message).value.0).value);
                  keys == Right(Noise.KeyPair(s.chain(last, s.empty), s.derive(last, s.empty))))
  {
    var (i, first) := Noise.WriteFirst(s, Noise.NewInitiator(s, pinned), Some(e1), p1);
    Noise.FirstTranscript(s, pinned, e1, p1);
    var chaining := s.chain(s.name, s.dh(e1, pinned).value);
    forall p
      ensures
        Noise.ReadSecond(s, i, message).1 == Some(p)
        <==> Noise.Carries(s, e1, chaining, Noise.Transcript(s, pinned, first.value), message, p)
    {
      Noise.SecondAccepted(s, pinned, e1, p1, message, p);
    }
  }
}
