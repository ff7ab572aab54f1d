/**
 Direct messages as they travel (common/crypto/dm_envelope.cpp, dm_message_chain.cpp, client/dm/dm_courier.cpp): the letters
 of any suite, with headers, payloads and envelopes laid out in bytes, and the courier's staged steps.
 */
module DirectMessages {
  import opened Prelude
  import opened ByteStreams
  import opened Letters
  import Endian
  import Utf8
  import WireCodec

  const KEY_SIZE := 32
  const HEADER_SIZE := 1 + KEY_SIZE + KEY_SIZE + 4
  const PAYLOAD_VERSION := 1
  const MAX_SKIPPED := 1000

  type Bundle = Letters.Bundle<Bytes>
  type Header = Letters.Header<Bytes>

  // ---------------------------------------------------------------------------------------------
  // The ratchet

  /** The counter has 32 bits and wraps; the keys go on all the same. */
  const COUNTERS := 0x1_0000_0000

  class MessageChain {
    const suite: Suite<Bytes>
    ghost const root: Bytes
    ghost var steps: nat
    var chainKey: Bytes
    var counter: nat

    /** The chain stands where so many steps from its root lead. */
    ghost predicate Valid()
      reads this
    {
      chainKey == ChainKey(suite, root, steps) && counter < COUNTERS
    }

    constructor (suite: Suite<Bytes>, initial: Bytes)
      ensures Valid() && this.suite == suite && root == initial && steps == 0 && counter == 0
    {
      this.suite, root, steps, chainKey, counter := suite, initial, 0, initial, 0;
    }

    method DeriveNext() returns (key: Bytes)
      requires Valid()
      modifies this
      ensures Valid() && steps == old(steps) + 1
      ensures counter == if old(counter) == COUNTERS - 1 then 0 else old(counter) + 1
      ensures key == MessageKey(suite, root, old(steps))
    {
      key := suite.expand(chainKey, suite.messageInfo, 1);
      assert key == MessageKey(suite, root, steps);
      chainKey := suite.expand(chainKey, suite.chainInfo, 2);
      assert chainKey == ChainKey(suite, root, steps + 1);
      steps := steps + 1;
      counter := if counter == COUNTERS - 1 then 0 else counter + 1;
    }

    /** Catching up yields exactly the keys passed over, in order; it never goes back and never jumps too far. */
    method AdvanceToCounter(target: nat) returns (skipped: Option<seq<Bytes>>)
      requires Valid() && target < COUNTERS
      modifies this
      ensures Valid()
      ensures skipped.Some? <==> old(counter) <= target <= old(counter) + MAX_SKIPPED
      ensures skipped.None? ==> steps == old(steps)
      ensures skipped.Some? ==>
                && counter == target && |skipped.value| == target - old(counter) == steps - old(steps)
                && forall i :: 0 <= i < |skipped.value| ==> skipped.value[i] == MessageKey(suite, root, old(steps) + i)
    {
      if target < counter || target - counter > MAX_SKIPPED {
        return None;
      }
      var keys: seq<Bytes> := [];
      var distance := target - counter;
      for step := 0 to distance
        invariant Valid() && counter == old(counter) + step && |keys| == step
        invariant steps == old(steps) + step
        invariant forall i :: 0 <= i < step ==> keys[i] == MessageKey(suite, root, old(steps) + i)
      {
        var key := DeriveNext();
        keys := keys + [key];
      }
      skipped := Some(keys);
    }
  }

  // ---------------------------------------------------------------------------------------------
  // The envelope

  predicate HeaderOk(h: Header) {
    && h.version == ENVELOPE_VERSION && |h.senderIdentity| == KEY_SIZE && |h.senderEphemeral| == KEY_SIZE
    && h.counter <= MAX_COUNTER
  }

  function HeaderBytes(h: Header): Bytes {
    [h.version] + h.senderIdentity + h.senderEphemeral + Endian.Store(h.counter, Endian.U32)
  }

  /** Offsets of the parsed fields: version, identity, ephemeral, counter. */
  function ParseHeader(envelope: Bytes): Option<Header> {
    if |envelope| < HEADER_SIZE + TAG_SIZE || envelope[0] != ENVELOPE_VERSION then None
    else Some(Letters.Header(envelope[0], envelope[1..33], envelope[33..65], Endian.Load(envelope[65..69])))
  }

  function ParseEnvelope(envelope: Bytes): Option<(Header, Bytes)> {
    if ParseHeader(envelope).None? then None else Some((ParseHeader(envelope).value, envelope[HEADER_SIZE..]))
  }

  lemma HeaderRoundTrip(h: Header, body: Bytes)
    requires HeaderOk(h) && |body| >= TAG_SIZE
    ensures |HeaderBytes(h)| == HEADER_SIZE
    ensures ParseHeader(HeaderBytes(h) + body) == Some(h)
    ensures (HeaderBytes(h) + body)[..HEADER_SIZE] == HeaderBytes(h) && (HeaderBytes(h) + body)[HEADER_SIZE..] == body
  {
    var e := HeaderBytes(h) + body;
    assert e[1..33] == h.senderIdentity && e[33..65] == h.senderEphemeral;
    assert e[65..69] == Endian.Store(h.counter, 4);
    assert Endian.Power256(4) == MAX_COUNTER + 1 by {
      assert Endian.Power256(2) == 256 * Endian.Power256(1) == 0x1_0000;
      assert Endian.Power256(4) == 256 * Endian.Power256(3);
    }
    Endian.LoadOfStore(h.counter, 4);
  }

  /** The converse: an accepted front re-serialises to itself. */
  lemma ParsedHeaderBytes(envelope: Bytes)
    requires ParseHeader(envelope).Some?
    ensures HeaderOk(ParseHeader(envelope).value) && HeaderBytes(ParseHeader(envelope).value) == envelope[..HEADER_SIZE]
  {
    Endian.LoadBound(envelope[65..69]);
    Endian.StoreOfLoad(envelope[65..69]);
    assert Endian.Power256(4) == MAX_COUNTER + 1 by {
      assert Endian.Power256(2) == 256 * Endian.Power256(1) == 0x1_0000;
      assert Endian.Power256(4) == 256 * Endian.Power256(3);
    }
    assert envelope[..HEADER_SIZE] == [envelope[0]] + envelope[1..33] + envelope[33..65] + envelope[65..69];
  }

  /** Exactly the envelopes with this version and room for a tag have a header. */
  lemma HeaderReadIff(envelope: Bytes)
    ensures ParseHeader(envelope).Some? <==> |envelope| >= 85 && envelope[0] == 1
  {
  }

  // ---------------------------------------------------------------------------------------------
  // The payload

  function PayloadBytes(sentAt: nat, text: Bytes): Bytes {
    [PAYLOAD_VERSION] + Endian.Store(sentAt, Endian.U64) + text
  }

  function ReadStamp(payload: Bytes): Read<nat> {
    var (version, rest) :- ReadInteger(payload, Endian.U8);
    if version != PAYLOAD_VERSION then None else ReadInteger(rest, Endian.U64)
  }

  /** Version and timestamp, and all the rest as text, which must be valid. */
  function ParsePayload(payload: Bytes): Option<Letter> {
    var (sentAt, text) :- ReadStamp(payload);
    if Utf8.Valid(text) then Some(Letter(sentAt, text)) else None
  }

  lemma PayloadRoundTrip(sentAt: nat, text: Bytes)
    requires sentAt <= MAX_TIME
    ensures ParsePayload(PayloadBytes(sentAt, text)) == if Utf8.Valid(text) then Some(Letter(sentAt, text)) else None
  {
    TimeFits();
    var one: Bytes := [PAYLOAD_VERSION];
    var stamp := Endian.Store(sentAt, Endian.U64);
    assert PayloadBytes(sentAt, text) == one + (stamp + text);
    assert one == Endian.Store(1, 1) by { assert Endian.Store(1, 1) == [1 % 256] + Endian.Store(1 / 256, 0); }
    assert Endian.Power256(1) == 256 * Endian.Power256(0);
    WireCodec.ReadWrittenInteger(1, 1, stamp + text);
    WireCodec.ReadWrittenInteger(sentAt, 8, text);
  }

  /** And the converse: what is read is the payload of that letter, with a valid text. */
  lemma PayloadIff(payload: Bytes, l: Letter)
    ensures
      ParsePayload(payload) == Some(l)
      <==> l.sentAt <= MAX_TIME && Utf8.Valid(l.text) && payload == PayloadBytes(l.sentAt, l.text)
  {
    if l.sentAt <= MAX_TIME && Utf8.Valid(l.text) {
      PayloadRoundTrip(l.sentAt, l.text);
    }
    if ParsePayload(payload) == Some(l) {
      var rest := payload[1..];
      assert payload[..1] == [payload[0]];
      assert Endian.Load(payload[..1]) == payload[0] by { assert Endian.Load([payload[0]]) == payload[0] + 256 * Endian.Load([]); }
      TimeFits();
      Endian.LoadBound(rest[..8]);
      Endian.StoreOfLoad(rest[..8]);
      assert payload == [payload[0]] + rest[..8] + rest[8..];
    }
  }

  lemma TimeFits()
    ensures Endian.Power256(8) == MAX_TIME + 1
  {
    assert Endian.Power256(2) == 256 * Endian.Power256(1) == 0x1_0000;
    assert Endian.Power256(4) == 256 * Endian.Power256(3) == 0x1_0000_0000;
    assert Endian.Power256(6) == 256 * Endian.Power256(5) == 0x1_0000_0000_0000;
    assert Endian.Power256(8) == 256 * Endian.Power256(7);
  }

  // ---------------------------------------------------------------------------------------------
  // The suite over bytes

  /** The cryptographic primitives and the domain strings. */
  datatype Primitives = Primitives(
    pub: Bytes -> Bytes,
    dh: (Bytes, Bytes) -> Option<Bytes>,
    identityPublic: Bytes -> Bytes,
    seed: Bytes -> Bytes,
    secretToX: Bytes -> Option<Bytes>,
    publicToX: Bytes -> Option<Bytes>,
    extract: (Bytes, Bytes) -> Bytes,
    expand: (Bytes, Bytes, Byte) -> Bytes,
    seal: (Bytes, Bytes, Bytes) -> Bytes,
    open: (Bytes, Bytes, Bytes) -> Option<Bytes>,
    verify: (Bytes, Bytes, Bytes) -> bool,
    sign: (Bytes, Bytes) -> Bytes,
    sessionDomain: Bytes, messageInfo: Bytes, chainInfo: Bytes, prekeyInfo: Bytes, prekeyDomain: Bytes)

  /** The layouts are the ones above; joining is concatenation. */
  function OnBytes(p: Primitives): Suite<Bytes> {
    Suite(p.pub, p.dh, (k: Bytes) => |k| == KEY_SIZE, p.identityPublic, p.seed, p.secretToX, p.publicToX, p.extract, p.expand,
          (a: Bytes, b: Bytes, c: Bytes) => a + b + c, p.seal, p.open, p.verify, p.sign,
          HeaderBytes, (h: Header, body: Bytes) => HeaderBytes(h) + body, ParseEnvelope,
          (l: Letter) => PayloadBytes(l.sentAt, l.text), ParsePayload,
          p.sessionDomain, [], p.messageInfo, p.chainInfo, p.prekeyInfo, p.prekeyDomain)
  }

  ghost predicate Sound(p: Primitives) {
    && (forall a, b :: p.dh(a, p.pub(b)) == p.dh(b, p.pub(a)))
    && (forall a :: |p.pub(a)| == KEY_SIZE && |p.identityPublic(a)| == KEY_SIZE)
    && (forall k :: p.secretToX(k).Some? <==> p.publicToX(p.identityPublic(k)).Some?)
    && (forall k :: p.secretToX(k).Some? ==> p.publicToX(p.identityPublic(k)).value == p.pub(p.secretToX(k).value))
    && (forall k, ad, t :: p.open(k, ad, p.seal(k, ad, t)) == Some(t))
    && (forall k, ad, c :: p.open(k, ad, c).Some? ==> c == p.seal(k, ad, p.open(k, ad, c).value))
    && (forall k, ad, t :: |p.seal(k, ad, t)| == |t| + TAG_SIZE)
    && (forall k, m :: p.verify(p.identityPublic(k), m, p.sign(k, m)))
  }

  lemma EnvelopeRoundTrip(h: Header, body: Bytes)
    requires HeaderOk(h) && |body| >= TAG_SIZE
    ensures ParseEnvelope(HeaderBytes(h) + body) == Some((h, body))
  {
    HeaderRoundTrip(h, body);
  }

  lemma ParsedEnvelope(e: Bytes)
    requires ParseEnvelope(e).Some?
    ensures HeaderBytes(ParseEnvelope(e).value.0) + ParseEnvelope(e).value.1 == e
  {
    ParsedHeaderBytes(e);
    assert e == e[..HEADER_SIZE] + e[HEADER_SIZE..];
  }

  /** The byte layouts are faithful: with sound primitives the whole suite is lawful, and every letter arrives. */
  lemma BytesAreLawful(p: Primitives)
    requires Sound(p)
    ensures Lawful(OnBytes(p)) && Signs(OnBytes(p))
  {
    var s := OnBytes(p);
    forall h: Header, k, ad, t | Proper(s, h) ensures s.parse(s.pack(h, s.seal(k, ad, t))) == Some((h, s.seal(k, ad, t))) {
      EnvelopeRoundTrip(h, p.seal(k, ad, t));
    }
    forall e | s.parse(e).Some? ensures e == s.pack(s.parse(e).value.0, s.parse(e).value.1) {
      ParsedEnvelope(e);
    }
    forall l: Letter | l.sentAt <= MAX_TIME
      ensures s.readPayload(s.payload(l)) == if Utf8.Valid(l.text) then Some(l) else None
    {
      PayloadRoundTrip(l.sentAt, l.text);
    }
  }

  /**
   A letter in bytes: version, sender identity, ephemeral key and a zero counter in front; behind it version, time and text,
   sealed over that front under the first key of the ratchet whose root comes from the three secrets, one after the other.
   */
  lemma LetterBytes(p: Primitives, sender: Bytes, ephemeral: Bytes, b: Bundle, l: Letter)
    requires SealLetter(OnBytes(p), sender, Some(ephemeral), b, l).Ok?
    ensures
      && p.secretToX(sender).Some? && p.publicToX(b.owner).Some?
      && var first, second, third :=
           p.dh(p.secretToX(sender).value, b.prekey), p.dh(ephemeral, p.publicToX(b.owner).value), p.dh(ephemeral, b.prekey);
         && first.Some? && second.Some? && third.Some?
         && var root := p.expand(p.extract(p.sessionDomain, first.value + second.value + third.value), [], 1);
            var front := [1] + p.identityPublic(sender) + p.pub(ephemeral) + [0, 0, 0, 0];
            SealLetter(OnBytes(p), sender, Some(ephemeral), b, l).value
            == front + p.seal(p.expand(root, p.messageInfo, 1), front, [1] + Endian.Store(l.sentAt, 8) + l.text)
  {
    LetterPrescribed(OnBytes(p), sender, ephemeral, b, l);
    FourZeros();
  }

  lemma FourZeros()
    ensures Endian.Store(0, 4) == [0, 0, 0, 0]
  {
    assert Endian.Store(0, 2) == [0] + Endian.Store(0, 1) && Endian.Store(0, 1) == [0] + Endian.Store(0, 0);
    assert Endian.Store(0, 4) == [0] + Endian.Store(0, 3) && Endian.Store(0, 3) == [0] + Endian.Store(0, 2);
  }

  /** What is published and what later keys of a ratchet are, in bytes. */
  lemma KeysInBytes(p: Primitives, identity: Bytes, root: Bytes, n: nat)
    ensures
      var owner, prekey := p.identityPublic(identity), p.pub(p.expand(p.seed(identity), p.prekeyInfo, 1));
      Published(OnBytes(p), identity) == Letters.Bundle(owner, prekey, p.sign(identity, p.prekeyDomain + owner + prekey))
    ensures MessageKey(OnBytes(p), root, n + 1) == MessageKey(OnBytes(p), p.expand(root, p.chainInfo, 2), n)
    ensures MessageKey(OnBytes(p), root, 0) == p.expand(root, p.messageInfo, 1)
  {
    PublishedPrescribed(OnBytes(p), identity);
    RatchetFromFront(OnBytes(p), root, n);
  }

  /** A trivial instance, to show that the laws are consistent. */
  const TOY: Primitives := Primitives(
    (a: Bytes) => Zeros(32),
    (a: Bytes, b: Bytes) => Some(Zeros(32)),
    (a: Bytes) => Zeros(32),
    (a: Bytes) => a,
    (a: Bytes) => Some(a),
    (a: Bytes) => Some(Zeros(32)),
    (salt: Bytes, m: Bytes) => Zeros(32),
    (k: Bytes, info: Bytes, n: Byte) => Zeros(32),
    (k: Bytes, ad: Bytes, p: Bytes) => p + Zeros(16),
    (k: Bytes, ad: Bytes, c: Bytes) =>
      if |c| >= 16 && c[|c| - 16..] == Zeros(16) then Some(c[..|c| - 16]) else None,
    (k: Bytes, m: Bytes, sig: Bytes) => sig == Zeros(64),
    (a: Bytes, m: Bytes) => Zeros(64),
    [], [], [], [], [])

  lemma ToyIsSound()
    ensures Sound(TOY)
  {
    var s := TOY;
    forall k, ad, p ensures s.open(k, ad, s.seal(k, ad, p)) == Some(p) {
      assert (p + Zeros(16))[|p|..] == Zeros(16) && (p + Zeros(16))[..|p|] == p;
    }
    forall k, ad, c | s.open(k, ad, c).Some? ensures c == s.seal(k, ad, s.open(k, ad, c).value) {
      assert c == c[..|c| - 16] + c[|c| - 16..];
    }
  }

  // ---------------------------------------------------------------------------------------------
  // The staged steps

  method SerializeHeader(h: Header) returns (out: Bytes)
    ensures out == HeaderBytes(h)
  {
    out := [h.version] + h.senderIdentity + h.senderEphemeral;
    var rest: nat := h.counter;
    ghost var before := out;
    for index := 0 to 4
      invariant out == before + Endian.Store(h.counter, index)
      invariant rest == h.counter / Endian.Power256(index)
    {
      Endian.StoreSnoc(h.counter, index);
      out := out + [rest % 256];
      Endian.DivideOut(h.counter, index);
      rest := rest / 256;
    }
  }

  method BuildPayload(l: Letter) returns (out: Bytes)
    ensures out == PayloadBytes(l.sentAt, l.text)
  {
    var payload := new ByteWriter([]);
    payload.WriteInteger(PAYLOAD_VERSION, Endian.U8);
    payload.WriteInteger(l.sentAt, Endian.U64);
    payload.WriteFixedBytes(l.text);
    assert Endian.Store(1, 1) == [1] by { assert Endian.Store(1, 1) == [1 % 256] + Endian.Store(1 / 256, 0); }
    out := payload.target;
  }

  method SealDirectMessage(p: Primitives, sender: Bytes, generated: Option<Bytes>, b: Bundle, l: Letter)
    returns (out: Result<Bytes>)
    ensures out == SealLetter(OnBytes(p), sender, generated, b, l)
  {
    var s := OnBytes(p);
    if !BundleVerified(s, b) {
      return Err(Unsigned);
    }
    if generated.None? {
      return Err(NoEphemeral);
    }
    var root := SenderRoot(s, sender, generated.value, b.owner, b.prekey);
    if root.None? {
      return Err(NotSealed);
    }
    var chain := new MessageChain(s, root.value);
    var key := chain.DeriveNext();
    var header := SerializeHeader(Letters.Header(ENVELOPE_VERSION, s.identityPublic(sender), s.pub(generated.value), 0));
    var payload := BuildPayload(l);
    out := Ok(header + s.seal(key, header, payload));
  }

  method TakeStamp(reader: ByteReader) returns (out: Option<nat>)
    requires reader.Valid()
    modifies reader
    ensures reader.Valid()
    ensures match ReadStamp(old(reader.Remaining()))
            case Some((sentAt, rest)) => out == Some(sentAt) && reader.Remaining() == rest
            case None => out == None
  {
    var version := reader.ReadInt(Endian.U8);
    if version.None? || version.value != PAYLOAD_VERSION {
      return None;
    }
    out := reader.ReadInt(Endian.U64);
  }

  method ParseDirectPayload(payload: Bytes) returns (out: Option<Letter>)
    ensures out == ParsePayload(payload)
  {
    var reader := new ByteReader(payload);
    var sentAt := TakeStamp(reader);
    if sentAt.None? {
      return None;
    }
    ghost var rest := reader.Remaining();
    var text := TakeRest(reader);
    assert ReadStamp(payload) == Some((sentAt.value, rest));
    var ok := Utf8.ValidateTextField(text);
    out := if ok then Some(Letter(sentAt.value, text)) else None;
  }

  method TakeRest(reader: ByteReader) returns (out: Bytes)
    requires reader.Valid()
    modifies reader
    ensures reader.Valid() && out == old(reader.Remaining())
  {
    var left := reader.CountRemainingBytes();
    ghost var rest := reader.Remaining();
    assert rest[..left] == rest;
    var text := reader.ReadFixedBytes(left);
    out := text.value;
  }

  method OpenDirectMessage(p: Primitives, recipient: Bytes, envelope: Bytes) returns (out: Result<Letter>)
    ensures out == OpenLetter(OnBytes(p), recipient, envelope)
  {
    var s := OnBytes(p);
    var h := ParseHeader(envelope);
    if h.None? {
      return Err(Unreadable);
    }
    ParsedHeaderBytes(envelope);
    var prekeySecret := s.expand(s.seed(recipient), s.prekeyInfo, 1);
    var root := RecipientRoot(s, recipient, prekeySecret, h.value.senderIdentity, h.value.senderEphemeral);
    if root.None? {
      return Err(NotOpened);
    }
    var chain := new MessageChain(s, root.value);
    var key := chain.DeriveNext();
    var plaintext := s.open(key, envelope[..HEADER_SIZE], envelope[HEADER_SIZE..]);
    if plaintext.None? {
      return Err(NotOpened);
    }
    var letter := ParseDirectPayload(plaintext.value);
    out := if letter.None? then Err(BadContent) else Ok(letter.value);
  }
}
