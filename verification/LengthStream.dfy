/**
 Message extraction over a byte stream (common/protocol/length_prefixed_stream.cpp), and the loop shape the
 server builds on it: append what was read, then take messages off the front until none is complete.
 */
module LengthStream {
  import opened Prelude
  import Endian
  import ByteStreams

  datatype Extraction =
    | Incomplete
    | Malformed
    | Message(body: Bytes, rest: Bytes)

  /** What one extraction does to a buffer. The announced length is judged before the bytes are waited for. */
  function Extract(buffer: Bytes, cap: nat): Extraction {
    if |buffer| < LENGTH_FIELD then Incomplete
    else
      var length := Endian.Load(buffer[..LENGTH_FIELD]);
      if length == 0 || length > cap then Malformed
      else if |buffer| < LENGTH_FIELD + length then Incomplete
      else Message(buffer[LENGTH_FIELD..LENGTH_FIELD + length], buffer[LENGTH_FIELD + length..])
  }

  /** A payload as it is put on the wire. */
  function Framed(payload: Bytes): (wire: Bytes)
    ensures |wire| == LENGTH_FIELD + |payload|
  {
    Endian.Store(|payload|, Endian.U32) + payload
  }

  function Wire(messages: seq<Bytes>): Bytes {
    if messages == [] then [] else Framed(messages[0]) + Wire(messages[1..])
  }

  lemma WireOfOne(message: Bytes)
    ensures Wire([message]) == Framed(message)
  {
    assert Wire([message][1..]) == [];
  }

  lemma {:induction false} WireAppend(a: seq<Bytes>, b: seq<Bytes>)
    ensures Wire(a + b) == Wire(a) + Wire(b)
    decreases |a|
  {
    if a == [] {
      assert a + b == b;
    } else {
      WireAppend(a[1..], b);
      assert (a + b)[1..] == a[1..] + b;
      AppendAssociative(Framed(a[0]), Wire(a[1..]), Wire(b));
    }
  }

  /** A message the peer is allowed to announce; caps fit the 32-bit length field. */
  predicate InCap(message: Bytes, cap: nat) {
    1 <= |message| <= cap
  }

  lemma ExtractOfFramed(payload: Bytes, tail: Bytes, cap: nat)
    requires InCap(payload, cap) && cap < 0x1_0000_0000
    ensures Extract(Framed(payload) + tail, cap) == Message(payload, tail)
  {
    var buffer := Framed(payload) + tail;
    assert buffer[..LENGTH_FIELD] == Endian.Store(|payload|, 4);
    assert Endian.Power256(4) == 0x1_0000_0000 by {
      assert Endian.Power256(1) == 256 * Endian.Power256(0);
      assert Endian.Power256(2) == 256 * Endian.Power256(1);
      assert Endian.Power256(3) == 256 * Endian.Power256(2);
    }
    Endian.LoadOfStore(|payload|, 4);
    assert buffer[LENGTH_FIELD..LENGTH_FIELD + |payload|] == payload;
    assert buffer[LENGTH_FIELD + |payload|..] == tail;
  }

  /** The inverse: an extracted message was framed at the front of the buffer, and nothing else moved. */
  lemma FramedOfExtract(buffer: Bytes, cap: nat)
    ensures
      var e := Extract(buffer, cap);
      e.Message? ==> InCap(e.body, cap) && buffer == Framed(e.body) + e.rest
  {
    var e := Extract(buffer, cap);
    if e.Message? {
      Endian.StoreOfLoad(buffer[..LENGTH_FIELD]);
      assert buffer == buffer[..LENGTH_FIELD] + buffer[LENGTH_FIELD..LENGTH_FIELD + |e.body|] + e.rest;
    }
  }

  /** Later bytes never change a verdict already reached. */
  lemma ExtractStable(buffer: Bytes, more: Bytes, cap: nat)
    ensures Extract(buffer, cap).Malformed? ==> Extract(buffer + more, cap).Malformed?
    ensures
      var e := Extract(buffer, cap);
      e.Message? ==> Extract(buffer + more, cap) == Message(e.body, e.rest + more)
  {
    if |buffer| >= LENGTH_FIELD {
      assert (buffer + more)[..LENGTH_FIELD] == buffer[..LENGTH_FIELD];
      var e := Extract(buffer, cap);
      if e.Message? {
        var n := LENGTH_FIELD + |e.body|;
        assert (buffer + more)[LENGTH_FIELD..n] == buffer[LENGTH_FIELD..n];
        assert (buffer + more)[n..] == buffer[n..] + more;
      }
    }
  }

  /** The growable byte vector that a connection reads into. */
  class StreamBuffer {
    var data: Bytes

    constructor ()
      ensures data == []
    {
      data := [];
    }

    method Append(bytes: Bytes)
      modifies this
      ensures data == old(data) + bytes
    {
      data := data + bytes;
    }

    method ExtractMessage(cap: nat) returns (found: bool, message: Bytes, malformed: bool)
      modifies this
      ensures match Extract(old(data), cap)
              case Incomplete => !found && !malformed && data == old(data)
              case Malformed => !found && malformed && data == old(data)
              case Message(body, rest) => found && !malformed && message == body && data == rest
      ensures found ==> |data| < |old(data)|
    {
      found, message, malformed := false, [], false;
      if |data| < LENGTH_FIELD {
        return;
      }
      var loaded, length := Endian.LoadLittleEndian(data, LENGTH_FIELD);
      if !loaded {
        return;
      }
      if length == 0 || length > cap {
        malformed := true;
        return;
      }
      if |data| < LENGTH_FIELD + length {
        return;
      }
      message := data[LENGTH_FIELD..LENGTH_FIELD + length];
      data := data[LENGTH_FIELD + length..];
      found := true;
    }
  }

  method AppendMessage(payload: Bytes, out: ByteStreams.ByteWriter)
    modifies out
    ensures out.target == old(out.target) + Framed(payload)
  {
    out.WriteInteger(|payload|, Endian.U32);
    out.WriteFixedBytes(payload);
  }

  /** The wire form of one message. */
  method FrameMessage(payload: Bytes) returns (wire: Bytes)
    ensures wire == Framed(payload)
  {
    var out := new ByteStreams.ByteWriter([]);
    AppendMessage(payload, out);
    wire := out.target;
  }

  // ---------------------------------------------------------------------------------------------
  // The input loop, for any state and any per-message step

  datatype Loop<S> = Loop(buffer: Bytes, state: S, open: bool)

  /** A step takes one message; `false` closes the connection. */
  type Step<!S> = (S, Bytes) -> (S, bool)

  function Drain<S>(step: Step<S>, cap: nat, l: Loop<S>): Loop<S>
    decreases |l.buffer|
  {
    match Extract(l.buffer, cap)
    case Incomplete => l
    case Malformed => l.(open := false)
    case Message(body, rest) =>
      var (next, ok) := step(l.state, body);
      if ok then Drain(step, cap, Loop(rest, next, true)) else Loop(rest, next, false)
  }

  function Feed<S>(step: Step<S>, cap: nat, l: Loop<S>, chunk: Bytes): Loop<S> {
    if l.open then Drain(step, cap, l.(buffer := l.buffer + chunk)) else l
  }

  function FeedAll<S>(step: Step<S>, cap: nat, l: Loop<S>, chunks: seq<Bytes>): Loop<S>
    decreases |chunks|
  {
    if chunks == [] then l else FeedAll(step, cap, Feed(step, cap, l, chunks[0]), chunks[1..])
  }

  lemma {:induction false} DrainExtends<S>(step: Step<S>, cap: nat, l: Loop<S>, more: Bytes)
    requires l.open
    ensures
      var d := Drain(step, cap, l);
      var e := Drain(step, cap, l.(buffer := l.buffer + more));
      if d.open then Extract(d.buffer, cap).Incomplete? && e == Drain(step, cap, d.(buffer := d.buffer + more))
      else e.state == d.state && !e.open
    decreases |l.buffer|
  {
    ExtractStable(l.buffer, more, cap);
    match Extract(l.buffer, cap)
    case Incomplete =>
    case Malformed =>
    case Message(body, rest) =>
      var (next, ok) := step(l.state, body);
      if ok {
        DrainExtends(step, cap, Loop(rest, next, true), more);
      }
  }

  /**
   Chunk independence: whatever the bytes, however they are cut into reads, the loop ends in the state and with
   the verdict of a single read of all of them; while it is open the leftover is the same as well.
   */
  lemma {:induction false} ChunkingIrrelevant<S>(step: Step<S>, cap: nat, l: Loop<S>, chunks: seq<Bytes>)
    requires l.open && Extract(l.buffer, cap).Incomplete?
    ensures
      var cut := FeedAll(step, cap, l, chunks);
      var whole := Feed(step, cap, l, Concat(chunks));
      cut.state == whole.state && cut.open == whole.open && (cut.open ==> cut.buffer == whole.buffer)
    decreases |chunks|
  {
    if chunks == [] {
      assert l.buffer + [] == l.buffer;
    } else {
      var first := l.(buffer := l.buffer + chunks[0]);
      var rest := Concat(chunks[1..]);
      assert l.buffer + Concat(chunks) == first.buffer + rest;
      DrainExtends(step, cap, first, rest);
      var d := Drain(step, cap, first);
      if d.open {
        ChunkingIrrelevant(step, cap, d, chunks[1..]);
      } else {
        ClosedStays(step, cap, d, chunks[1..]);
      }
    }
  }

  lemma {:induction false} ClosedStays<S>(step: Step<S>, cap: nat, l: Loop<S>, chunks: seq<Bytes>)
    requires !l.open
    ensures FeedAll(step, cap, l, chunks) == l
  {
    if chunks != [] {
      ClosedStays(step, cap, l, chunks[1..]);
    }
  }

  // ---------------------------------------------------------------------------------------------
  // The plain parse: the loop that only collects

  function Collect(messages: seq<Bytes>, message: Bytes): (seq<Bytes>, bool) {
    (messages + [message], true)
  }

  const CLEAN: Loop<seq<Bytes>> := Loop([], [], true)

  /**
   Meaning of the one-shot parse, without mentioning the loop: the stream is the framing of the collected
   messages followed by the leftover, every message respects the cap, and the leftover starts no message.
   */
  lemma {:induction false} ParseMeaning(cap: nat, l: Loop<seq<Bytes>>)
    requires l.open
    ensures
      var d := Drain(Collect, cap, l);
      && l.state <= d.state
      && l.buffer == Wire(d.state[|l.state|..]) + d.buffer
      && (forall i :: |l.state| <= i < |d.state| ==> InCap(d.state[i], cap))
      && Extract(d.buffer, cap) == (if d.open then Incomplete else Malformed)
    decreases |l.buffer|
  {
    match Extract(l.buffer, cap)
    case Incomplete =>
      assert l.state[|l.state|..] == [];
    case Malformed =>
      assert l.state[|l.state|..] == [];
    case Message(body, rest) =>
      FramedOfExtract(l.buffer, cap);
      var next := Loop(rest, l.state + [body], true);
      ParseMeaning(cap, next);
      var d := Drain(Collect, cap, next);
      CollectedFirst(l.state, body, d.state);
      AppendAssociative(Framed(body), Wire(d.state[|next.state|..]), d.buffer);
  }

  lemma CollectedFirst(before: seq<Bytes>, body: Bytes, after: seq<Bytes>)
    requires before + [body] <= after
    ensures before <= after && Wire(after[|before|..]) == Framed(body) + Wire(after[|before| + 1..])
    ensures after[|before|] == body
  {
    var got := after[|before|..];
    assert got[0] == after[|before|] == (before + [body])[|before|] && got[1..] == after[|before| + 1..];
  }

  /** Every stream: cut anyhow, it yields the messages and the malformed verdict of the one-shot parse. */
  lemma StreamParseUnique(cap: nat, chunks: seq<Bytes>)
    ensures
      var d := FeedAll(Collect, cap, CLEAN, chunks);
      exists tail ::
        && Concat(chunks) == Wire(d.state) + tail
        && (forall i :: 0 <= i < |d.state| ==> InCap(d.state[i], cap))
        && Extract(tail, cap) == (if d.open then Incomplete else Malformed)
        && (d.open ==> d.buffer == tail)
  {
    ChunkingIrrelevant(Collect, cap, CLEAN, chunks);
    var start := CLEAN.(buffer := Concat(chunks));
    assert CLEAN.buffer + Concat(chunks) == Concat(chunks);
    ParseMeaning(cap, start);
    var d := Drain(Collect, cap, start);
    assert d.state[0..] == d.state;
    assert Concat(chunks) == Wire(d.state) + d.buffer;
  }

  // ---------------------------------------------------------------------------------------------
  // Framing then parsing, through any loop

  /** The step run message by message, stopping at the first refusal. */
  function RunSteps<S>(step: Step<S>, s: S, messages: seq<Bytes>): (S, bool)
    decreases |messages|
  {
    if messages == [] then (s, true)
    else
      var (next, ok) := step(s, messages[0]);
      if ok then RunSteps(step, next, messages[1..]) else (next, false)
  }

  lemma {:induction false} DrainWire<S>(step: Step<S>, cap: nat, s: S, messages: seq<Bytes>, tail: Bytes)
    requires cap < 0x1_0000_0000 && Extract(tail, cap).Incomplete?
    requires forall m <- messages :: InCap(m, cap)
    ensures
      var d := Drain(step, cap, Loop(Wire(messages) + tail, s, true));
      && (d.state, d.open) == RunSteps(step, s, messages)
      && (d.open ==> d.buffer == tail)
    decreases |messages|
  {
    if messages == [] {
      assert Wire(messages) + tail == tail;
    } else {
      var rest := Wire(messages[1..]) + tail;
      assert Wire(messages) + tail == Framed(messages[0]) + rest;
      ExtractOfFramed(messages[0], rest, cap);
      var (next, ok) := step(s, messages[0]);
      if ok {
        DrainWire(step, cap, next, messages[1..], tail);
      }
    }
  }

  /** Part of a framed message is never mistaken for a whole one, nor for a malformed one. */
  lemma PartIncomplete(message: Bytes, n: nat, cap: nat)
    requires InCap(message, cap) && cap < 0x1_0000_0000 && n < |Framed(message)|
    ensures Extract(Framed(message)[..n], cap).Incomplete?
  {
    ExtractOfFramed(message, [], cap);
    var part := Framed(message)[..n];
    ExtractStable(part, Framed(message)[n..], cap);
    assert part + Framed(message)[n..] == Framed(message) == Framed(message) + [];
    if Extract(part, cap).Message? {
      FramedOfExtract(part, cap);
    }
  }

  lemma WireTake(messages: seq<Bytes>, j: nat)
    requires j < |messages|
    ensures Wire(messages[..j + 1]) == Framed(messages[0]) + Wire(messages[1..][..j])
  {
    assert messages[..j + 1][0] == messages[0] && messages[..j + 1][1..] == messages[1..][..j];
  }

  /** A prefix of two pieces is part of the first, or the first and a prefix of the second. */
  lemma PrefixOfTwo(prefix: Bytes, head: Bytes, tail: Bytes)
    requires prefix <= head + tail
    ensures |prefix| < |head| ==> prefix < head
    ensures |prefix| >= |head| ==> prefix == head + prefix[|head|..] && prefix[|head|..] <= tail
  {
    var both := head + tail;
    assert prefix == both[..|prefix|];
    if |prefix| < |head| {
      assert prefix == head[..|prefix|];
    } else {
      assert both[..|prefix|] == head + tail[..|prefix| - |head|];
    }
  }

  /** Any prefix of framed messages is some whole messages and a part of the next. */
  lemma {:induction false} PrefixSplits(messages: seq<Bytes>, prefix: Bytes) returns (k: nat, tail: Bytes)
    requires prefix <= Wire(messages)
    ensures k <= |messages| && prefix == Wire(messages[..k]) + tail
    ensures if k == |messages| then tail == [] else tail < Framed(messages[k])
    decreases |messages|
  {
    k, tail := 0, prefix;
    assert Wire(messages[..0]) + prefix == prefix;
    if messages != [] {
      var head := Framed(messages[0]);
      PrefixOfTwo(prefix, head, Wire(messages[1..]));
      if |prefix| >= |head| {
        var j, t := PrefixSplits(messages[1..], prefix[|head|..]);
        WireTake(messages, j);
        k, tail := j + 1, t;
        AppendAssociative(head, Wire(messages[1..][..j]), t);
      }
    }
  }

  lemma WireSplit(messages: seq<Bytes>, k: nat)
    requires k <= |messages|
    ensures Wire(messages) == Wire(messages[..k]) + Wire(messages[k..])
  {
    assert messages == messages[..k] + messages[k..];
    WireAppend(messages[..k], messages[k..]);
  }

  lemma CancelPrefix(a: Bytes, b: Bytes, c: Bytes)
    requires a + b <= a + c
    ensures b <= c
  {
    assert b == (a + b)[|a|..] && c == (a + c)[|a|..];
  }

  /** Of these messages k were taken off the stream, and the buffer is a proper part of the next one. */
  predicate Between(messages: seq<Bytes>, k: nat, taken: Bytes, buffer: Bytes) {
    && k <= |messages|
    && taken == Wire(messages[..k]) + buffer
    && (if k == |messages| then buffer == [] else buffer < Framed(messages[k]))
  }

  lemma PartsIncomplete(messages: seq<Bytes>, k: nat, part: Bytes, cap: nat)
    requires cap < 0x1_0000_0000 && (forall m <- messages :: InCap(m, cap)) && k <= |messages|
    requires if k == |messages| then part == [] else part < Framed(messages[k])
    ensures Extract(part, cap).Incomplete?
  {
    if k < |messages| {
      assert part == Framed(messages[k])[..|part|];
      PartIncomplete(messages[k], |part|, cap);
    }
  }

  lemma BetweenMore(messages: seq<Bytes>, j: nat, taken: Bytes, buffer: Bytes, chunk: Bytes) returns (k: nat, tail: Bytes)
    requires Between(messages, j, taken, buffer) && taken + chunk <= Wire(messages)
    ensures j <= k <= |messages| && buffer + chunk == Wire(messages[j..k]) + tail
    ensures Between(messages, k, taken + chunk, tail)
  {
    var rest := messages[j..];
    WireSplit(messages, j);
    AppendAssociative(Wire(messages[..j]), buffer, chunk);
    CancelPrefix(Wire(messages[..j]), buffer + chunk, Wire(rest));
    var n, t := PrefixSplits(rest, buffer + chunk);
    k, tail := j + n, t;
    assert rest[..n] == messages[j..k] && (n < |rest| ==> rest[n] == messages[k]);
    assert messages[..k] == messages[..j] + messages[j..k];
    WireAppend(messages[..j], messages[j..k]);
    AppendAssociative(Wire(messages[..j]), Wire(messages[j..k]), tail);
  }

  /**
   One read of a stream of in-cap messages: the step runs on exactly the messages that it completes, and while the step goes
   on the buffer is the part of the next one.
   */
  lemma ReadDelivers<S>(step: Step<S>, cap: nat, l: Loop<S>, messages: seq<Bytes>, j: nat, taken: Bytes, chunk: Bytes)
    returns (k: nat)
    requires cap < 0x1_0000_0000 && (forall m <- messages :: InCap(m, cap))
    requires l.open && Between(messages, j, taken, l.buffer) && taken + chunk <= Wire(messages)
    ensures j <= k <= |messages|
    ensures
      var d := Feed(step, cap, l, chunk);
      && (d.state, d.open) == RunSteps(step, l.state, messages[j..k])
      && (d.open ==> Between(messages, k, taken + chunk, d.buffer))
  {
    var n, tail := BetweenMore(messages, j, taken, l.buffer, chunk);
    k := n;
    PartsIncomplete(messages, k, tail, cap);
    DrainWire(step, cap, l.state, messages[j..k], tail);
  }

  /**
   Delivery through the loop: for messages within the cap, framed and cut into any reads of which only some have
   arrived, the step has run on a prefix of exactly those messages, and the buffer is the part of the next one.
   */
  lemma PrefixDelivery<S>(step: Step<S>, cap: nat, s: S, messages: seq<Bytes>, chunks: seq<Bytes>) returns (k: nat)
    requires cap < 0x1_0000_0000 && (forall m <- messages :: InCap(m, cap))
    requires Concat(chunks) <= Wire(messages)
    ensures k <= |messages|
    ensures
      var d := FeedAll(step, cap, Loop([], s, true), chunks);
      && (d.state, d.open) == RunSteps(step, s, messages[..k])
      && (d.open ==> Between(messages, k, Concat(chunks), d.buffer))
  {
    ChunkingIrrelevant(step, cap, Loop([], s, true), chunks);
    assert messages[..0] == [] && [] + Concat(chunks) == Concat(chunks);
    k := ReadDelivers(step, cap, Loop([], s, true), messages, 0, [], Concat(chunks));
  }

  // ---------------------------------------------------------------------------------------------
  // Any bytes: what holds of the messages taken off the front

  /** A step keeps an account of all messages it took, or ends with another one. */
  ghost predicate Accounts<S(!new)>(step: Step<S>, kept: (S, seq<Bytes>) -> bool, ended: (S, seq<Bytes>) -> bool) {
    forall s, messages, m {:trigger step(s, m), kept(s, messages)} ::
      kept(s, messages) ==> (if step(s, m).1 then kept(step(s, m).0, messages + [m]) else ended(step(s, m).0, messages + [m]))
  }

  /** The loop on any buffer: what it takes is framed at the front, and accounted for one by one. */
  lemma {:induction false} DrainAccounts<S(!new)>(
    step: Step<S>, cap: nat, l: Loop<S>, kept: (S, seq<Bytes>) -> bool, ended: (S, seq<Bytes>) -> bool, done: seq<Bytes>)
    returns (messages: seq<Bytes>)
    requires Accounts(step, kept, ended) && l.open && kept(l.state, done)
    ensures l.buffer == Wire(messages) + Drain(step, cap, l).buffer && (forall m <- messages :: InCap(m, cap))
    ensures
      var d := Drain(step, cap, l);
      if d.open then kept(d.state, done + messages) && Extract(d.buffer, cap).Incomplete?
      else ended(d.state, done + messages) || (kept(d.state, done + messages) && Extract(d.buffer, cap).Malformed?)
    decreases |l.buffer|
  {
    messages := [];
    assert done + [] == done && Wire([]) + l.buffer == l.buffer;
    match Extract(l.buffer, cap)
    case Incomplete =>
    case Malformed =>
    case Message(body, rest) =>
      FramedOfExtract(l.buffer, cap);
      var (next, ok) := step(l.state, body);
      WireOfOne(body);
      messages := [body];
      if ok {
        var more := DrainAccounts(step, cap, Loop(rest, next, true), kept, ended, done + [body]);
        messages := [body] + more;
        AppendAssociative(done, [body], more);
        AppendAssociative(Framed(body), Wire(more), Drain(step, cap, l).buffer);
      }
  }
}
