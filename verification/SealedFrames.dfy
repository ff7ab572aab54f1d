/**
 Frames sealed one after the other, at either end of the channel, and the log of a sender that sometimes finds no room: what
 is then on the wire, and what a receiver can still open of it.
 */
module SealedFrames {
  import opened Prelude
  import opened LengthStream
  import opened Frames
  import Noise

  const MAX_MESSAGE := MAX_FRAME + TAG_SIZE
  const HANDSHAKE_MESSAGE := Noise.PUBLIC_KEY_SIZE + TAG_SIZE
  const MAX_PENDING := 4 * 1024 * 1024

  type Suite = Noise.Suite<Bytes>
  type Cipher = Noise.Cipher<Bytes>

  function SplitHandshake(m: Bytes): Option<(Bytes, Bytes)> {
    if |m| < HANDSHAKE_MESSAGE then None
    else Some((m[..Noise.PUBLIC_KEY_SIZE], m[Noise.PUBLIC_KEY_SIZE..]))
  }

  /** A suite over byte strings: sizes are lengths, joining is concatenation, splitting cuts a 32-byte key off. */
  ghost predicate OnBytes(s: Suite) {
    && Noise.Lawful(s)
    && s.empty == []
    && (forall b :: s.size(b) == |b|)
    && (forall a, b :: s.join(a, b) == a + b)
    && (forall m :: s.split(m) == SplitHandshake(m))
  }

  /** The sealed form of a frame and the cipher after it, or None when the frame cannot be sent. */
  function SealFrame(s: Suite, c: Cipher, f: Frame): (Cipher, Option<Bytes>) {
    if |f.payload| > MAX_PAYLOAD then (c, None) else Noise.Encrypt(s, c, s.empty, Encoding(f))
  }

  function SealFrames(s: Suite, c: Cipher, frames: seq<Frame>): seq<Bytes>
    decreases |frames|
  {
    if frames == [] then []
    else
      var (next, sealed) := SealFrame(s, c, frames[0]);
      if sealed.None? then [] else [sealed.value] + SealFrames(s, next, frames[1..])
  }

  /** A cipher n messages on. */
  function Later(c: Cipher, n: nat): Cipher {
    c.(counter := c.counter + n)
  }

  predicate Short(frames: seq<Frame>) {
    forall i :: 0 <= i < |frames| ==> |frames[i].payload| <= MAX_PAYLOAD
  }

  /** Room for n more messages under this key. */
  predicate Ready(c: Cipher, n: nat) {
    c.hasKey && c.counter + n <= Noise.MAX_COUNTER
  }

  lemma SealOne(s: Suite, c: Cipher, f: Frame)
    requires OnBytes(s) && Ready(c, 1) && |f.payload| <= MAX_PAYLOAD
    ensures
      var (next, sealed) := SealFrame(s, c, f);
      && next == Later(c, 1)
      && sealed.Some? && |sealed.value| == |Encoding(f)| + TAG_SIZE <= MAX_MESSAGE
      && Noise.Decrypt(s, c, s.empty, sealed.value) == (next, Some(Encoding(f)))
  {
    var sealed := s.seal(c.key, Noise.Nonce(c.counter), s.empty, Encoding(f));
    assert s.size(sealed) == s.size(Encoding(f)) + TAG_SIZE;
  }

  lemma SealStep(s: Suite, c: Cipher, frames: seq<Frame>)
    requires Ready(c, 1) && frames != [] && |frames[0].payload| <= MAX_PAYLOAD
    ensures
      var (next, sealed) := SealFrame(s, c, frames[0]);
      next == Later(c, 1) && sealed.Some? && SealFrames(s, c, frames) == [sealed.value] + SealFrames(s, Later(c, 1), frames[1..])
  {
  }

  lemma {:induction false} SealsAll(s: Suite, c: Cipher, frames: seq<Frame>)
    requires Ready(c, |frames|) && Short(frames)
    ensures |SealFrames(s, c, frames)| == |frames|
    decreases |frames|
  {
    if frames != [] {
      SealStep(s, c, frames);
      SealsAll(s, Later(c, 1), frames[1..]);
    }
  }

  lemma {:induction false} SealedInCap(s: Suite, c: Cipher, frames: seq<Frame>)
    requires OnBytes(s) && Ready(c, |frames|) && Short(frames)
    ensures forall m <- SealFrames(s, c, frames) :: InCap(m, MAX_MESSAGE)
    decreases |frames|
  {
    if frames != [] {
      SealStep(s, c, frames);
      SealOne(s, c, frames[0]);
      SealedInCap(s, Later(c, 1), frames[1..]);
    }
  }

  lemma {:induction false} SealAppend(s: Suite, c: Cipher, a: seq<Frame>, b: seq<Frame>)
    requires Ready(c, |a|) && Short(a)
    ensures SealFrames(s, c, a + b) == SealFrames(s, c, a) + SealFrames(s, Later(c, |a|), b)
    decreases |a|
  {
    if a == [] {
      assert a + b == b;
      assert Later(c, 0) == c;
    } else {
      SealStep(s, c, a);
      SealStep(s, c, a + b);
      assert (a + b)[1..] == a[1..] + b;
      SealAppend(s, Later(c, 1), a[1..], b);
      assert Later(Later(c, 1), |a| - 1) == Later(c, |a|);
      AppendAssociative([SealFrame(s, c, a[0]).1.value], SealFrames(s, Later(c, 1), a[1..]), SealFrames(s, Later(c, |a|), b));
    }
  }

  /** The message opens, under this key, at this counter and over no associated data, to the encoding of this frame. */
  ghost predicate Authentic(s: Suite, c: Cipher, message: Bytes, f: Frame) {
    && c.counter < Noise.MAX_COUNTER && s.open(c.key, Noise.Nonce(c.counter), s.empty, message) == Some(Encoding(f))
    && Sendable(f)
  }

  lemma AuthenticOnce(s: Suite, c: Cipher, message: Bytes, f: Frame, g: Frame)
    requires Authentic(s, c, message, f) && Authentic(s, c, message, g)
    ensures f == g
  {
    FrameBijection(Encoding(f), f);
    FrameBijection(Encoding(g), g);
  }

  /** Opening and decoding, for any message: it yields exactly the frame that the message is authentic for, and moves one on. */
  lemma OpenedIff(s: Suite, c: Cipher, message: Bytes) returns (f: Option<Frame>)
    requires OnBytes(s) && Ready(c, 0)
    ensures f.None? ==> forall g :: !Authentic(s, c, message, g)
    ensures f.Some? ==> Authentic(s, c, message, f.value)
    ensures
      var (next, plaintext) := Noise.Decrypt(s, c, s.empty, message);
      f == (if plaintext.None? then None else Decode(plaintext.value)) && (f.Some? ==> next == Later(c, 1))
  {
    var plaintext := Noise.Decrypt(s, c, s.empty, message).1;
    f := if plaintext.None? then None else Decode(plaintext.value);
    if f.Some? {
      FrameBijection(plaintext.value, f.value);
    }
    forall g | Authentic(s, c, message, g) ensures f == Some(g) {
      assert s.size(message) >= TAG_SIZE;
      FrameBijection(Encoding(g), g);
    }
  }

  // ---------------------------------------------------------------------------------------------
  // A log of sends

  /** A frame to send, with the pending bytes and the counter that the send found. */
  datatype Attempt = Attempt(frame: Frame, pending: nat, counter: nat)

  /** The frame was sealed, and its counter used up: it is not too long, and a counter was left. */
  predicate Sealed(a: Attempt) {
    |a.frame.payload| <= MAX_PAYLOAD && a.counter < Noise.MAX_COUNTER
  }

  predicate NoRoom(a: Attempt) {
    a.pending + LENGTH_FIELD + |Encoding(a.frame)| + TAG_SIZE > MAX_PENDING
  }

  /** The send failed. */
  predicate Blocked(a: Attempt) {
    !Sealed(a) || NoRoom(a)
  }

  /** Sealed, but not queued: the counter is ahead of the wire from here on. */
  predicate Lost(a: Attempt) {
    Sealed(a) && NoRoom(a)
  }

  function Seals(log: seq<Attempt>): (n: nat)
    ensures n <= |log|
  {
    if log == [] then 0 else Seals(log[..|log| - 1]) + (if Sealed(log[|log| - 1]) then 1 else 0)
  }

  /** Each send found the counter that the seals before it left. */
  ghost predicate Counted(log: seq<Attempt>) {
    forall i :: 0 <= i < |log| ==> log[i].counter == Seals(log[..i])
  }

  function SealedForm(s: Suite, c: Cipher, a: Attempt): Bytes {
    var sealed := SealFrame(s, Later(c, a.counter), a.frame).1;
    if sealed.Some? then sealed.value else []
  }

  /** The queued messages, in order, under a cipher that starts at counter 0. */
  function Queued(s: Suite, c: Cipher, log: seq<Attempt>): seq<Bytes> {
    if log == [] then []
    else
      var last := log[|log| - 1];
      Queued(s, c, log[..|log| - 1]) + (if Blocked(last) then [] else [SealedForm(s, c, last)])
  }

  function FramesOf(log: seq<Attempt>): (frames: seq<Frame>)
    ensures |frames| == |log|
  {
    seq(|log|, i requires 0 <= i < |log| => log[i].frame)
  }

  predicate NoneBlocked(log: seq<Attempt>) {
    forall i :: 0 <= i < |log| ==> !Blocked(log[i])
  }

  predicate NoneLost(log: seq<Attempt>) {
    forall i :: 0 <= i < |log| ==> !Lost(log[i])
  }

  /** The frames queued before the first loss. */
  function Good(log: seq<Attempt>): seq<Frame> {
    if log == [] then []
    else
      var init, last := log[..|log| - 1], log[|log| - 1];
      Good(init) + (if NoneLost(init) && !Blocked(last) then [last.frame] else [])
  }

  /** The messages queued after it. */
  function Stray(s: Suite, c: Cipher, log: seq<Attempt>): seq<Bytes> {
    if log == [] then []
    else
      var init, last := log[..|log| - 1], log[|log| - 1];
      Stray(s, c, init) + (if NoneLost(init) || Blocked(last) then [] else [SealedForm(s, c, last)])
  }

  lemma CountedPrefix(log: seq<Attempt>)
    requires Counted(log) && log != []
    ensures Counted(log[..|log| - 1])
  {
    var init := log[..|log| - 1];
    forall i | 0 <= i < |init| ensures init[i].counter == Seals(init[..i]) {
      assert init[..i] == log[..i];
    }
  }

  lemma CountedMore(log: seq<Attempt>, a: Attempt)
    requires Counted(log) && a.counter == Seals(log)
    ensures Counted(log + [a]) && Seals(log + [a]) == Seals(log) + (if Sealed(a) then 1 else 0)
  {
    var more := log + [a];
    assert more[..|log|] == log;
    forall i | 0 <= i < |more| ensures more[i].counter == Seals(more[..i]) {
      if i < |log| {
        assert more[..i] == log[..i];
      }
    }
  }

  lemma QueuedMore(s: Suite, c: Cipher, log: seq<Attempt>, a: Attempt)
    ensures Queued(s, c, log + [a]) == Queued(s, c, log) + (if Blocked(a) then [] else [SealedForm(s, c, a)])
  {
    assert (log + [a])[..|log|] == log;
  }

  /** Counters are those of the seals, so never beyond the last. */
  lemma {:induction false} SealsBound(log: seq<Attempt>)
    requires Counted(log)
    ensures Seals(log) <= Noise.MAX_COUNTER
    decreases |log|
  {
    if log != [] {
      CountedPrefix(log);
      SealsBound(log[..|log| - 1]);
      assert log[|log| - 1].counter == Seals(log[..|log| - 1]);
    }
  }

  lemma NoneLostPrefix(log: seq<Attempt>)
    requires log != []
    ensures NoneLost(log) <==> NoneLost(log[..|log| - 1]) && !Lost(log[|log| - 1])
  {
  }

  /** Up to a loss, what is sealed is what is queued: as many seals as good frames. */
  lemma {:induction false} SealsAreGood(log: seq<Attempt>)
    requires Counted(log)
    ensures |Good(log)| <= Seals(log) && Short(Good(log))
    ensures NoneLost(log) <==> Seals(log) == |Good(log)|
    decreases |log|
  {
    if log != [] {
      CountedPrefix(log);
      SealsAreGood(log[..|log| - 1]);
      NoneLostPrefix(log);
    }
  }

  lemma {:induction false} StrayOnlyAfterLoss(s: Suite, c: Cipher, log: seq<Attempt>)
    requires NoneLost(log)
    ensures Stray(s, c, log) == []
    decreases |log|
  {
    if log != [] {
      NoneLostPrefix(log);
      StrayOnlyAfterLoss(s, c, log[..|log| - 1]);
    }
  }

  /** What is on the wire: the good frames sealed in turn, and then the strays. */
  lemma {:induction false} QueuedSplit(s: Suite, c: Cipher, log: seq<Attempt>)
    requires Counted(log) && c.hasKey && c.counter == 0
    ensures Ready(c, |Good(log)|)
    ensures Queued(s, c, log) == SealFrames(s, c, Good(log)) + Stray(s, c, log)
    decreases |log|
  {
    SealsAreGood(log);
    SealsBound(log);
    if log == [] {
      assert SealFrames(s, c, Good(log)) == [];
    } else {
      var init, last := log[..|log| - 1], log[|log| - 1];
      CountedPrefix(log);
      QueuedSplit(s, c, init);
      SealsAreGood(init);
      if NoneLost(init) && !Blocked(last) {
        StrayOnlyAfterLoss(s, c, init);
        SealOneMore(s, c, Good(init), last);
      } else {
        AppendAssociative(SealFrames(s, c, Good(init)), Stray(s, c, init), if Blocked(last) then [] else [SealedForm(s, c, last)]);
        assert Good(init) + [] == Good(init);
      }
    }
  }

  lemma SealOneMore(s: Suite, c: Cipher, good: seq<Frame>, a: Attempt)
    requires c.hasKey && c.counter == 0 && Ready(c, |good|) && Short(good) && a.counter == |good| && Sealed(a)
    ensures SealFrames(s, c, good + [a.frame]) == SealFrames(s, c, good) + [SealedForm(s, c, a)]
  {
    SealAppend(s, c, good, [a.frame]);
    SealStep(s, Later(c, |good|), [a.frame]);
    assert [a.frame][1..] == [];
    assert SealFrames(s, Later(Later(c, |good|), 1), []) == [];
  }

  /** A stray is sealed beyond the counter that the receiver of the good frames has come to. */
  lemma {:induction false} StrayCounters(s: Suite, c: Cipher, log: seq<Attempt>, i: nat) returns (a: Attempt)
    requires Counted(log) && i < |Stray(s, c, log)|
    ensures Stray(s, c, log)[i] == SealedForm(s, c, a) && !Blocked(a) && |Good(log)| < a.counter
    decreases |log|
  {
    var init, last := log[..|log| - 1], log[|log| - 1];
    CountedPrefix(log);
    if i < |Stray(s, c, init)| {
      a := StrayCounters(s, c, init, i);
      StrayOnlyWhenLost(s, c, init);
    } else {
      SealsAreGood(init);
      a := last;
      assert log[|log| - 1].counter == Seals(log[..|log| - 1]);
    }
  }

  lemma StrayOnlyWhenLost(s: Suite, c: Cipher, log: seq<Attempt>)
    requires Stray(s, c, log) != []
    ensures !NoneLost(log)
  {
    if NoneLost(log) {
      StrayOnlyAfterLoss(s, c, log);
    }
  }

  // ---------------------------------------------------------------------------------------------
  // When everything is in step

  lemma {:induction false} NoneBlockedIsGood(log: seq<Attempt>)
    ensures |Good(log)| <= |log|
    ensures NoneBlocked(log) <==> |Good(log)| == |log|
    ensures NoneBlocked(log) ==> Good(log) == FramesOf(log) && NoneLost(log)
    decreases |log|
  {
    if log != [] {
      var init := log[..|log| - 1];
      NoneBlockedIsGood(init);
      assert FramesOf(log) == FramesOf(init) + [log[|log| - 1].frame];
    }
  }

  lemma {:induction false} QueuedCount(s: Suite, c: Cipher, log: seq<Attempt>)
    ensures |Queued(s, c, log)| <= |log|
    ensures |Queued(s, c, log)| == |log| <==> NoneBlocked(log)
    decreases |log|
  {
    if log != [] {
      QueuedCount(s, c, log[..|log| - 1]);
    }
  }

  /**
   The log is in step if and only if no send was blocked: only then are all its frames on the wire, sealed in turn, with the
   counter after them.
   */
  lemma AllQueuedIff(s: Suite, c: Cipher, log: seq<Attempt>)
    requires Counted(log) && c.hasKey && c.counter == 0
    ensures Queued(s, c, log) == SealFrames(s, c, FramesOf(log)) && Seals(log) == |log| <==> NoneBlocked(log)
  {
    QueuedSplit(s, c, log);
    NoneBlockedIsGood(log);
    SealsAreGood(log);
    QueuedCount(s, c, log);
    if NoneBlocked(log) {
      StrayOnlyAfterLoss(s, c, log);
    } else if Seals(log) == |log| {
      AllSealed(log);
      SealsBound(log);
      SealsAll(s, c, FramesOf(log));
    }
  }

  lemma {:induction false} AllSealed(log: seq<Attempt>)
    requires Seals(log) == |log|
    ensures Short(FramesOf(log))
    decreases |log|
  {
    if log != [] {
      AllSealed(log[..|log| - 1]);
      assert FramesOf(log) == FramesOf(log[..|log| - 1]) + [log[|log| - 1].frame];
    }
  }

  // ---------------------------------------------------------------------------------------------
  // And the bytes tell

  /** Bytes that a frame takes on the wire. */
  function FrameSize(f: Frame): nat {
    LENGTH_FIELD + |Encoding(f)| + TAG_SIZE
  }

  function TotalSize(log: seq<Attempt>, all: bool): nat {
    if log == [] then 0
    else
      var last := log[|log| - 1];
      TotalSize(log[..|log| - 1], all) + (if all || !Blocked(last) then FrameSize(last.frame) else 0)
  }

  lemma {:induction false} SizesTell(log: seq<Attempt>)
    ensures TotalSize(log, false) <= TotalSize(log, true)
    ensures TotalSize(log, false) == TotalSize(log, true) <==> NoneBlocked(log)
    decreases |log|
  {
    if log != [] {
      SizesTell(log[..|log| - 1]);
    }
  }

  lemma SealedSize(s: Suite, c: Cipher, a: Attempt)
    requires OnBytes(s) && c.hasKey && c.counter == 0 && Sealed(a)
    ensures |Wire([SealedForm(s, c, a)])| == FrameSize(a.frame)
  {
    SealOne(s, Later(c, a.counter), a.frame);
    WireOfOne(SealedForm(s, c, a));
  }

  lemma {:induction false} QueuedSize(s: Suite, c: Cipher, log: seq<Attempt>)
    requires OnBytes(s) && c.hasKey && c.counter == 0
    ensures |Wire(Queued(s, c, log))| == TotalSize(log, false)
    decreases |log|
  {
    if log != [] {
      var init, last := log[..|log| - 1], log[|log| - 1];
      QueuedSize(s, c, init);
      if !Blocked(last) {
        SealedSize(s, c, last);
        WireAppend(Queued(s, c, init), [SealedForm(s, c, last)]);
      } else {
        assert Queued(s, c, init) + [] == Queued(s, c, init);
      }
    }
  }

  lemma LastSealed(s: Suite, c: Cipher, log: seq<Attempt>)
    requires c.hasKey && c.counter == 0 && Counted(log) && Seals(log) == |log| && log != []
    ensures
      var init, last := log[..|log| - 1], log[|log| - 1];
      && Counted(init) && Seals(init) == |init| && Sealed(last)
      && SealFrames(s, c, FramesOf(log)) == SealFrames(s, c, FramesOf(init)) + [SealedForm(s, c, last)]
  {
    var init, last := log[..|log| - 1], log[|log| - 1];
    CountedPrefix(log);
    AllSealed(init);
    SealsBound(init);
    assert last.counter == Seals(init);
    assert FramesOf(log) == FramesOf(init) + [last.frame];
    SealOneMore(s, c, FramesOf(init), last);
  }

  lemma {:induction false} SealedTotal(s: Suite, c: Cipher, log: seq<Attempt>)
    requires OnBytes(s) && c.hasKey && c.counter == 0 && Counted(log) && Seals(log) == |log|
    ensures |Wire(SealFrames(s, c, FramesOf(log)))| == TotalSize(log, true)
    decreases |log|
  {
    if log != [] {
      var init, last := log[..|log| - 1], log[|log| - 1];
      LastSealed(s, c, log);
      SealedTotal(s, c, init);
      SealedSize(s, c, last);
      WireAppend(SealFrames(s, c, FramesOf(init)), [SealedForm(s, c, last)]);
    }
  }

  /** All frames of a log are on the wire, sealed in turn, with the counter after them, if and only if no send was blocked. */
  lemma WireTells(s: Suite, c: Cipher, log: seq<Attempt>)
    requires OnBytes(s) && c.hasKey && c.counter == 0 && Counted(log)
    ensures Wire(Queued(s, c, log)) == Wire(SealFrames(s, c, FramesOf(log))) && Seals(log) == |log| <==> NoneBlocked(log)
  {
    AllQueuedIff(s, c, log);
    if Seals(log) == |log| {
      QueuedSize(s, c, log);
      SealedTotal(s, c, log);
      SizesTell(log);
    }
  }
}
