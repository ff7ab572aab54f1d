/**
 Noise_NK over an arbitrary cipher suite: the CipherState, SymmetricState and HandshakeState of sections 5.1 to
 5.3 of the Noise Protocol Framework (revision 34) as common/crypto runs them, on values of any type V. With
 V = byte strings this is the wire protocol; with V = symbolic terms it is the model in which forgery is ruled out.
 */
module Noise {
  import opened Prelude
  import Endian

  const PUBLIC_KEY_SIZE := 32
  const MAX_COUNTER := 0xFFFF_FFFF_FFFF_FFFF

  /** The primitives, as functions. `dh` may refuse a low-order point; `open` refuses a bad tag. */
  datatype Suite<!V> = Suite(
    name: V,                                // the 32-byte protocol name, used as the first hash
    prologue: V,
    empty: V,
    zero: V,                                // what a wiped or unset key field holds
    size: V -> nat,
    hash: (V, V) -> V,
    chain: (V, V) -> V,                     // first HKDF output
    derive: (V, V) -> V,                    // second HKDF output
    pub: V -> V,
    dh: (V, V) -> Option<V>,
    seal: (V, Bytes, V, V) -> V,            // key, nonce, associated data, plaintext
    open: (V, Bytes, V, V) -> Option<V>,
    join: (V, V) -> V,                      // an ephemeral key followed by a sealed payload
    split: V -> Option<(V, V)>)

  /** What the primitives promise: agreement of Diffie-Hellman and an AEAD that opens exactly what it sealed. */
  ghost predicate Lawful<V(!new)>(s: Suite<V>) {
    && (forall a, b :: s.dh(a, s.pub(b)) == s.dh(b, s.pub(a)))
    && (forall a :: s.size(s.pub(a)) == PUBLIC_KEY_SIZE)
    && (forall k, n, ad, p :: s.open(k, n, ad, s.seal(k, n, ad, p)) == Some(p))
    && (forall k, n, ad, c :: s.open(k, n, ad, c).Some? ==> c == s.seal(k, n, ad, s.open(k, n, ad, c).value))
    && (forall k, n, ad, p :: s.size(s.seal(k, n, ad, p)) == s.size(p) + TAG_SIZE)
    && (forall e, c {:trigger s.join(e, c)} :: s.size(e) == PUBLIC_KEY_SIZE && s.size(c) >= TAG_SIZE ==> s.split(s.join(e, c)) == Some((e, c)))
    && (forall m :: s.split(m).Some? ==>
                      && m == s.join(s.split(m).value.0, s.split(m).value.1)
                      && s.size(s.split(m).value.0) == PUBLIC_KEY_SIZE
                      && s.size(s.split(m).value.1) >= TAG_SIZE)
  }

  /** The symbolic idealisation: no hash collision, and a ciphertext determines all that went into it. */
  ghost predicate Ideal<V(!new)>(s: Suite<V>) {
    && Lawful(s)
    && (forall a, b, c, d :: s.hash(a, b) == s.hash(c, d) ==> a == c && b == d)
    && (forall k, n, ad, p, k', n', ad', p' ::
          s.seal(k, n, ad, p) == s.seal(k', n', ad', p') ==> k == k' && n == n' && ad == ad' && p == p')
  }

  // ---------------------------------------------------------------------------------------------
  // CipherState

  datatype Cipher<V> = Cipher(key: V, counter: nat, hasKey: bool)

  /** Section 12.3: four zero bytes, then the counter as eight bytes, least significant first. */
  function Nonce(counter: nat): (n: Bytes)
    ensures |n| == 12
  {
    [0, 0, 0, 0] + Endian.Store(counter, Endian.U64)
  }

  lemma NonceInjective(a: nat, b: nat)
    requires a <= MAX_COUNTER && b <= MAX_COUNTER && Nonce(a) == Nonce(b)
    ensures a == b
  {
    assert Nonce(a)[4..] == Endian.Store(a, 8) && Nonce(b)[4..] == Endian.Store(b, 8);
    PowerOfEight();
    Endian.LoadOfStore(a, 8);
    Endian.LoadOfStore(b, 8);
  }

  /** Four zero bytes, and then the byte of weight 256 to the i at place i. */
  lemma NonceLayout(counter: nat, i: nat)
    requires i < 8
    ensures Nonce(counter)[..4] == [0, 0, 0, 0] && Nonce(counter)[4 + i] == counter / Endian.Power256(i) % 256
  {
    Endian.StoreAt(counter, Endian.U64, i);
  }

  lemma PowerOfEight()
    ensures Endian.Power256(8) == MAX_COUNTER + 1
  {
    assert Endian.Power256(2) == 256 * Endian.Power256(1) == 0x1_0000;
    assert Endian.Power256(4) == 256 * Endian.Power256(3) == 0x1_0000_0000;
    assert Endian.Power256(6) == 256 * Endian.Power256(5) == 0x1_0000_0000_0000;
    assert Endian.Power256(8) == 256 * Endian.Power256(7);
  }

  function Encrypt<V>(s: Suite<V>, c: Cipher<V>, ad: V, plaintext: V): (Cipher<V>, Option<V>) {
    if !c.hasKey then (c, Some(plaintext))
    else if c.counter == MAX_COUNTER then (c, None)
    else (c.(counter := c.counter + 1), Some(s.seal(c.key, Nonce(c.counter), ad, plaintext)))
  }

  function Decrypt<V>(s: Suite<V>, c: Cipher<V>, ad: V, ciphertext: V): (Cipher<V>, Option<V>) {
    if !c.hasKey then (c, Some(ciphertext))
    else if s.size(ciphertext) < TAG_SIZE || c.counter == MAX_COUNTER then (c, None)
    else
      var unsealed := s.open(c.key, Nonce(c.counter), ad, ciphertext);
      (if unsealed.Some? then c.(counter := c.counter + 1) else c, unsealed)
  }

  /** Sealing fails exactly at the last counter; what is sealed opens, both ends moving alike. Without a key text passes as it is. */
  lemma CipherRoundTrip<V(!new)>(s: Suite<V>, c: Cipher<V>, ad: V, plaintext: V)
    requires Lawful(s)
    ensures
      var (next, sealed) := Encrypt(s, c, ad, plaintext);
      && (sealed.None? <==> c.hasKey && c.counter == MAX_COUNTER) && (sealed.None? ==> next == c)
      && (sealed.Some? ==> Decrypt(s, c, ad, sealed.value) == (next, Some(plaintext)))
      && (!c.hasKey ==> next == c && sealed == Some(plaintext))
      && (c.hasKey && sealed.Some? ==> sealed.value == s.seal(c.key, Nonce(c.counter), ad, plaintext))
  {
    assert s.size(s.seal(c.key, Nonce(c.counter), ad, plaintext)) >= TAG_SIZE;
  }

  // ---------------------------------------------------------------------------------------------
  // SymmetricState

  datatype Symmetric<V> = Symmetric(chainingKey: V, hash: V, cipher: Cipher<V>)

  function Initialize<V>(s: Suite<V>): Symmetric<V> {
    Symmetric(s.name, s.name, Cipher(s.zero, 0, false))
  }

  function MixHash<V>(s: Suite<V>, y: Symmetric<V>, data: V): Symmetric<V> {
    y.(hash := s.hash(y.hash, data))
  }

  function MixKey<V>(s: Suite<V>, y: Symmetric<V>, material: V): Symmetric<V> {
    y.(chainingKey := s.chain(y.chainingKey, material), cipher := Cipher(s.derive(y.chainingKey, material), 0, true))
  }

  function EncryptAndHash<V>(s: Suite<V>, y: Symmetric<V>, plaintext: V): (Symmetric<V>, Option<V>) {
    var (cipher, sealed) := Encrypt(s, y.cipher, y.hash, plaintext);
    var after := y.(cipher := cipher);
    (if sealed.Some? then MixHash(s, after, sealed.value) else after, sealed)
  }

  function DecryptAndHash<V>(s: Suite<V>, y: Symmetric<V>, ciphertext: V): (Symmetric<V>, Option<V>) {
    var (cipher, unsealed) := Decrypt(s, y.cipher, y.hash, ciphertext);
    var after := y.(cipher := cipher);
    (if unsealed.Some? then MixHash(s, after, ciphertext) else after, unsealed)
  }

  /** A ciphertext that is refused moves nothing, and neither does a seal that fails; otherwise the ciphertext is hashed in. */
  lemma RefusalMovesNothing<V>(s: Suite<V>, y: Symmetric<V>, text: V)
    ensures
      var (z, unsealed) := DecryptAndHash(s, y, text);
      if unsealed.None? then z == y else z.hash == s.hash(y.hash, text) && z.chainingKey == y.chainingKey
    ensures
      var (z, sealed) := EncryptAndHash(s, y, text);
      if sealed.None? then z == y else z.hash == s.hash(y.hash, sealed.value) && z.chainingKey == y.chainingKey
  {
  }

  datatype KeyPair<V> = KeyPair(send: V, receive: V)

  // ---------------------------------------------------------------------------------------------
  // The initiator (client)

  datatype Initiator<V> = Initiator(
    state: Symmetric<V>, remoteStatic: V, ephemeralPublic: V, ephemeralSecret: V, sent: bool, complete: bool)

  function NewInitiator<V>(s: Suite<V>, pinned: V): Initiator<V> {
    Initiator(MixHash(s, MixHash(s, Initialize(s), s.prologue), pinned), pinned, s.zero, s.zero, false, false)
  }

  /** `ephemeral` is the fresh secret key, or None when key generation failed. */
  function WriteFirst<V>(s: Suite<V>, i: Initiator<V>, ephemeral: Option<V>, payload: V): (Initiator<V>, Option<V>) {
    if i.sent || ephemeral.None? then (i, None)
    else
      var e := ephemeral.value;
      var keyed := i.(ephemeralPublic := s.pub(e), ephemeralSecret := e, state := MixHash(s, i.state, s.pub(e)));
      match s.dh(e, i.remoteStatic)
      case None => (keyed, None)
      case Some(shared) =>
        var (state, sealed) := EncryptAndHash(s, MixKey(s, keyed.state, shared), payload);
        if sealed.None? then (keyed.(state := state), None)
        else (keyed.(state := state, sent := true), Some(s.join(s.pub(e), sealed.value)))
  }

  function ReadSecond<V>(s: Suite<V>, i: Initiator<V>, input: V): (Initiator<V>, Option<V>) {
    if !i.sent || i.complete || s.split(input).None? then (i, None)
    else
      var (remote, sealed) := s.split(input).value;
      var mixed := i.(state := MixHash(s, i.state, remote), ephemeralSecret := s.zero);
      match s.dh(i.ephemeralSecret, remote)
      case None => (mixed, None)
      case Some(shared) =>
        var (state, unsealed) := DecryptAndHash(s, MixKey(s, mixed.state, shared), sealed);
        (mixed.(state := state, complete := unsealed.Some?), unsealed)
  }

  function InitiatorKeys<V>(s: Suite<V>, i: Initiator<V>): Option<KeyPair<V>> {
    if !i.complete then None
    else Some(KeyPair(s.chain(i.state.chainingKey, s.empty), s.derive(i.state.chainingKey, s.empty)))
  }

  // ---------------------------------------------------------------------------------------------
  // The responder (server)

  datatype Responder<V> = Responder(
    state: Symmetric<V>, staticSecret: V, remoteEphemeral: V, read: bool, complete: bool)

  function NewResponder<V>(s: Suite<V>, staticPublic: V, staticSecret: V): Responder<V> {
    Responder(MixHash(s, MixHash(s, Initialize(s), s.prologue), staticPublic), staticSecret, s.zero, false, false)
  }

  function ReadFirst<V>(s: Suite<V>, r: Responder<V>, input: V): (Responder<V>, Option<V>) {
    if r.read || s.split(input).None? then (r, None)
    else
      var (remote, sealed) := s.split(input).value;
      var mixed := r.(remoteEphemeral := remote, state := MixHash(s, r.state, remote));
      match s.dh(r.staticSecret, remote)
      case None => (mixed, None)
      case Some(shared) =>
        var (state, unsealed) := DecryptAndHash(s, MixKey(s, mixed.state, shared), sealed);
        (mixed.(state := state, read := unsealed.Some?), unsealed)
  }

  function WriteSecond<V>(s: Suite<V>, r: Responder<V>, ephemeral: Option<V>, payload: V): (Responder<V>, Option<V>) {
    if !r.read || r.complete || ephemeral.None? then (r, None)
    else
      var e := ephemeral.value;
      var mixed := r.(state := MixHash(s, r.state, s.pub(e)));
      match s.dh(e, r.remoteEphemeral)
      case None => (mixed, None)
      case Some(shared) =>
        var (state, sealed) := EncryptAndHash(s, MixKey(s, mixed.state, shared), payload);
        if sealed.None? then (mixed.(state := state), None)
        else (mixed.(state := state, complete := true), Some(s.join(s.pub(e), sealed.value)))
  }

  function ResponderKeys<V>(s: Suite<V>, r: Responder<V>): Option<KeyPair<V>> {
    if !r.complete then None
    else Some(KeyPair(s.derive(r.state.chainingKey, s.empty), s.chain(r.state.chainingKey, s.empty)))
  }

  /** Each step of a handshake is taken once and in its turn: out of turn it fails and changes nothing. */
  lemma InitiatorInTurn<V>(s: Suite<V>, i: Initiator<V>, ephemeral: Option<V>, text: V)
    ensures i.sent ==> WriteFirst(s, i, ephemeral, text) == (i, None)
    ensures !i.sent || i.complete ==> ReadSecond(s, i, text) == (i, None)
    ensures WriteFirst(s, i, ephemeral, text).0.sent == (i.sent || WriteFirst(s, i, ephemeral, text).1.Some?)
    ensures ReadSecond(s, i, text).0.complete == (i.complete || ReadSecond(s, i, text).1.Some?)
    ensures InitiatorKeys(s, i).Some? <==> i.complete
  {
  }

  lemma ResponderInTurn<V>(s: Suite<V>, r: Responder<V>, ephemeral: Option<V>, text: V)
    ensures r.read ==> ReadFirst(s, r, text) == (r, None)
    ensures !r.read || r.complete ==> WriteSecond(s, r, ephemeral, text) == (r, None)
    ensures ReadFirst(s, r, text).0.read == (r.read || ReadFirst(s, r, text).1.Some?)
    ensures WriteSecond(s, r, ephemeral, text).0.complete == (r.complete || WriteSecond(s, r, ephemeral, text).1.Some?)
    ensures ResponderKeys(s, r).Some? <==> r.complete
  {
  }

  // ---------------------------------------------------------------------------------------------
  // Agreement

  /** The first half: an unmodified first message reaches the pinned responder, which recovers the payload. */
  lemma FirstMessageAgrees<V(!new)>(s: Suite<V>, secret: V, e: V, payload: V)
    requires Lawful(s)
    ensures
      var (i, m) := WriteFirst(s, NewInitiator(s, s.pub(secret)), Some(e), payload);
      if s.dh(e, s.pub(secret)).None? then m.None?
      else
        && m.Some?
        && var (r, p) := ReadFirst(s, NewResponder(s, s.pub(secret), secret), m.value);
           && p == Some(payload)
           && r.state == i.state
           && i.sent && !i.complete && i.ephemeralSecret == e
           && r.read && !r.complete && r.remoteEphemeral == s.pub(e)
  {
    var pinned := s.pub(secret);
    var (i, m) := WriteFirst(s, NewInitiator(s, pinned), Some(e), payload);
    if s.dh(e, pinned).Some? {
      assert s.dh(secret, s.pub(e)) == s.dh(e, pinned);
      var y := MixKey(s, MixHash(s, NewInitiator(s, pinned).state, s.pub(e)), s.dh(e, pinned).value);
      var sealed := s.seal(y.cipher.key, Nonce(0), y.hash, payload);
      assert s.size(sealed) >= TAG_SIZE;
      assert s.split(m.value) == Some((s.pub(e), sealed));
    }
  }

  /**
   Agreement of a whole NK run with the right pinned key and unmodified messages. It completes unless an exchange
   hits a low-order point; then both transcripts and chaining keys coincide, each side has the other's payload,
   and what one side sends with is what the other receives with.
   */
  lemma HandshakeAgrees<V(!new)>(s: Suite<V>, secret: V, e1: V, e2: V, p1: V, p2: V)
    requires Lawful(s)
    requires s.dh(e1, s.pub(secret)).Some? && s.dh(e2, s.pub(e1)).Some?
    ensures
      var (i1, m1) := WriteFirst(s, NewInitiator(s, s.pub(secret)), Some(e1), p1);
      && m1.Some?
      && var (r1, got1) := ReadFirst(s, NewResponder(s, s.pub(secret), secret), m1.value);
         var (r2, m2) := WriteSecond(s, r1, Some(e2), p2);
         && m2.Some?
         && var (i2, got2) := ReadSecond(s, i1, m2.value);
            && got1 == Some(p1) && got2 == Some(p2)
            && i2.complete && r2.complete
            && i2.state.hash == r2.state.hash && i2.state.chainingKey == r2.state.chainingKey
            && InitiatorKeys(s, i2).Some? && ResponderKeys(s, r2).Some?
            && InitiatorKeys(s, i2).value.send == ResponderKeys(s, r2).value.receive
            && InitiatorKeys(s, i2).value.receive == ResponderKeys(s, r2).value.send
  {
    FirstMessageAgrees(s, secret, e1, p1);
    var (i1, m1) := WriteFirst(s, NewInitiator(s, s.pub(secret)), Some(e1), p1);
    var (r1, got1) := ReadFirst(s, NewResponder(s, s.pub(secret), secret), m1.value);
    var (r2, m2) := WriteSecond(s, r1, Some(e2), p2);
    assert s.dh(e1, s.pub(e2)) == s.dh(e2, s.pub(e1));
    var y := MixKey(s, MixHash(s, r1.state, s.pub(e2)), s.dh(e2, s.pub(e1)).value);
    var sealed := s.seal(y.cipher.key, Nonce(0), y.hash, p2);
    assert s.size(sealed) >= TAG_SIZE;
    assert s.split(m2.value) == Some((s.pub(e2), sealed));
  }

  /** What section 7.5 prescribes for NK, written out: every key, hash and ciphertext of an honest run. */
  datatype NkRun<V> = NkRun(sealed1: V, sealed2: V, hash: V, chainingKey: V)

  ghost function Prescribed<V>(s: Suite<V>, staticKey: V, ephemeral1: V, ephemeral2: V, es: V, ee: V, p1: V, p2: V): NkRun<V> {
    var h0 := s.hash(s.hash(s.hash(s.name, s.prologue), staticKey), ephemeral1);
    var sealed1 := s.seal(s.derive(s.name, es), Nonce(0), h0, p1);
    var h1 := s.hash(s.hash(h0, sealed1), ephemeral2);
    var sealed2 := s.seal(s.derive(s.chain(s.name, es), ee), Nonce(0), h1, p2);
    NkRun(sealed1, sealed2, s.hash(h1, sealed2), s.chain(s.chain(s.name, es), ee))
  }

  /** The run is the prescribed one: its two messages, its final hash, and the direction of its transport keys. */
  lemma HandshakeFollowsPattern<V(!new)>(s: Suite<V>, secret: V, e1: V, e2: V, p1: V, p2: V)
    requires Lawful(s)
    requires s.dh(e1, s.pub(secret)).Some? && s.dh(e2, s.pub(e1)).Some?
    ensures
      var (i1, m1) := WriteFirst(s, NewInitiator(s, s.pub(secret)), Some(e1), p1);
      && m1.Some?
      && var r1 := ReadFirst(s, NewResponder(s, s.pub(secret), secret), m1.value).0;
         var (r2, m2) := WriteSecond(s, r1, Some(e2), p2);
         var nk := Prescribed(s, s.pub(secret), s.pub(e1), s.pub(e2), s.dh(e1, s.pub(secret)).value, s.dh(e2, s.pub(e1)).value, p1, p2);
         && m1 == Some(s.join(s.pub(e1), nk.sealed1))
         && m2 == Some(s.join(s.pub(e2), nk.sealed2))
         && ReadSecond(s, i1, m2.value).0.state.hash == nk.hash
         && InitiatorKeys(s, ReadSecond(s, i1, m2.value).0)
            == Some(KeyPair(s.chain(nk.chainingKey, s.empty), s.derive(nk.chainingKey, s.empty)))
  {
    FirstMessageAgrees(s, secret, e1, p1);
    HandshakeAgrees(s, secret, e1, e2, p1, p2);
  }

  // ---------------------------------------------------------------------------------------------
  // Authentication: acceptance means the same transcript

  /** Everything mixed into the hash before the first message. */
  ghost function Opening<V>(s: Suite<V>, staticKey: V): V {
    s.hash(s.hash(s.name, s.prologue), staticKey)
  }

  /** Everything mixed into the hash up to and including the first message. */
  ghost function Transcript<V>(s: Suite<V>, staticKey: V, first: V): V
    requires s.split(first).Some?
  {
    var (e, c) := s.split(first).value;
    s.hash(s.hash(Opening(s, staticKey), e), c)
  }

  /**
   A handshake message that seals this payload for a reader: the exchange succeeds, and the ciphertext is sealed under the
   key it gives, the first nonce, and the transcript up to and including the ephemeral key shown.
   */
  ghost predicate Carries<V(!new)>(s: Suite<V>, readerSecret: V, chainingKey: V, transcript: V, m: V, payload: V) {
    && s.split(m).Some?
    && var (shown, c) := s.split(m).value;
       var shared := s.dh(readerSecret, shown);
       shared.Some? && c == s.seal(s.derive(chainingKey, shared.value), Nonce(0), s.hash(transcript, shown), payload)
  }

  /** Acceptance of a first message, for every input: a responder reads a payload exactly out of what carries it. */
  lemma FirstAccepted<V(!new)>(s: Suite<V>, secret: V, m: V, payload: V)
    requires Lawful(s)
    ensures
      ReadFirst(s, NewResponder(s, s.pub(secret), secret), m).1 == Some(payload)
      <==> Carries(s, secret, s.name, Opening(s, s.pub(secret)), m, payload)
  {
    if s.split(m).Some? {
      var (shown, c) := s.split(m).value;
      assert s.size(c) >= TAG_SIZE;
    }
  }

  /** Acceptance of a second message, for every input at an initiator that has sent its first. */
  lemma SecondAccepted<V(!new)>(s: Suite<V>, pinned: V, e1: V, p1: V, m: V, payload: V)
    requires Lawful(s) && WriteFirst(s, NewInitiator(s, pinned), Some(e1), p1).1.Some?
    ensures
      var (i1, m1) := WriteFirst(s, NewInitiator(s, pinned), Some(e1), p1);
      && s.dh(e1, pinned).Some? && s.split(m1.value).Some?
      && (ReadSecond(s, i1, m).1 == Some(payload)
          <==> Carries(s, e1, s.chain(s.name, s.dh(e1, pinned).value), Transcript(s, pinned, m1.value), m, payload))
  {
    FirstTranscript(s, pinned, e1, p1);
    if s.split(m).Some? {
      var (shown, c) := s.split(m).value;
      assert s.size(c) >= TAG_SIZE;
    }
  }

  /** What an initiator holds after its first message. */
  lemma FirstTranscript<V(!new)>(s: Suite<V>, pinned: V, e: V, payload: V)
    requires Lawful(s) && WriteFirst(s, NewInitiator(s, pinned), Some(e), payload).1.Some?
    ensures
      var (i, m) := WriteFirst(s, NewInitiator(s, pinned), Some(e), payload);
      && s.dh(e, pinned).Some? && s.split(m.value).Some?
      && s.split(m.value).value.0 == s.pub(e)
      && s.split(m.value).value.1
         == s.seal(s.derive(s.name, s.dh(e, pinned).value), Nonce(0), s.hash(Opening(s, pinned), s.pub(e)), payload)
      && i.state.hash == Transcript(s, pinned, m.value) && i.state.chainingKey == s.chain(s.name, s.dh(e, pinned).value)
      && i.sent && !i.complete && i.ephemeralSecret == e
  {
    var y := MixKey(s, MixHash(s, NewInitiator(s, pinned).state, s.pub(e)), s.dh(e, pinned).value);
    var sealed := s.seal(y.cipher.key, Nonce(0), y.hash, payload);
    assert s.size(sealed) >= TAG_SIZE;
    assert s.split(s.join(s.pub(e), sealed)) == Some((s.pub(e), sealed));
  }

  /** What a responder holds after a first message it accepts. */
  lemma HeardTranscript<V(!new)>(s: Suite<V>, secret: V, heard: V)
    requires Lawful(s) && ReadFirst(s, NewResponder(s, s.pub(secret), secret), heard).1.Some?
    ensures
      var r := ReadFirst(s, NewResponder(s, s.pub(secret), secret), heard).0;
      && s.split(heard).Some? && s.dh(secret, s.split(heard).value.0).Some?
      && r.state.hash == Transcript(s, s.pub(secret), heard)
      && r.state.chainingKey == s.chain(s.name, s.dh(secret, s.split(heard).value.0).value)
      && r.read && !r.complete && r.remoteEphemeral == s.split(heard).value.0
  {
  }

  /** The reply a responder gives to what it heard. */
  lemma ReplyTranscript<V(!new)>(s: Suite<V>, secret: V, heard: V, e2: V, p2: V)
    requires Lawful(s) && ReadFirst(s, NewResponder(s, s.pub(secret), secret), heard).1.Some?
    requires WriteSecond(s, ReadFirst(s, NewResponder(s, s.pub(secret), secret), heard).0, Some(e2), p2).1.Some?
    ensures
      var r1 := ReadFirst(s, NewResponder(s, s.pub(secret), secret), heard).0;
      var m2 := WriteSecond(s, r1, Some(e2), p2).1.value;
      && s.split(heard).Some? && s.split(m2).Some?
      && var remote := s.split(heard).value.0;
         && s.dh(secret, remote).Some? && s.dh(e2, remote).Some?
         && s.split(m2).value.0 == s.pub(e2)
         && s.split(m2).value.1
            == s.seal(s.derive(s.chain(s.name, s.dh(secret, remote).value), s.dh(e2, remote).value), Nonce(0),
                      s.hash(Transcript(s, s.pub(secret), heard), s.pub(e2)), p2)
  {
    HeardTranscript(s, secret, heard);
    var r1 := ReadFirst(s, NewResponder(s, s.pub(secret), secret), heard).0;
    var z := MixKey(s, MixHash(s, r1.state, s.pub(e2)), s.dh(e2, r1.remoteEphemeral).value);
    var sealed := s.seal(z.cipher.key, Nonce(0), z.hash, p2);
    assert s.size(sealed) >= TAG_SIZE;
    assert s.split(s.join(s.pub(e2), sealed)) == Some((s.pub(e2), sealed));
  }

  lemma SameParts<V(!new)>(s: Suite<V>, m: V, n: V)
    requires Lawful(s) && s.split(m).Some? && s.split(n).Some? && s.split(m) == s.split(n)
    ensures m == n
  {
    assert m == s.join(s.split(m).value.0, s.split(m).value.1);
    assert n == s.join(s.split(n).value.0, s.split(n).value.1);
  }

  ghost predicate SameCiphertext<V>(s: Suite<V>, m: V, n: V) {
    s.split(m).Some? && s.split(n).Some? && s.split(m).value.1 == s.split(n).value.1
  }

  ghost predicate SameEphemeral<V>(s: Suite<V>, m: V, n: V) {
    s.split(m).Some? && s.split(n).Some? && s.split(m).value.0 == s.split(n).value.0
  }

  /**
   Of all messages that show an initiator's ciphertext, a responder accepts exactly the unchanged one, and only if the
   initiator pinned its key; and a changed ciphertext under the initiator's own ephemeral key never yields its payload.
   */
  lemma FirstMessageBinds<V(!new)>(s: Suite<V>, pinned: V, e: V, payload: V, secret: V, m: V)
    requires Ideal(s) && WriteFirst(s, NewInitiator(s, pinned), Some(e), payload).1.Some?
    ensures
      var m1 := WriteFirst(s, NewInitiator(s, pinned), Some(e), payload).1.value;
      var got := ReadFirst(s, NewResponder(s, s.pub(secret), secret), m).1;
      && (got.Some? && SameCiphertext(s, m, m1) <==> m == m1 && pinned == s.pub(secret))
      && (got == Some(payload) && SameEphemeral(s, m, m1) && pinned == s.pub(secret) ==> m == m1)
  {
    var m1 := WriteFirst(s, NewInitiator(s, pinned), Some(e), payload).1.value;
    var got := ReadFirst(s, NewResponder(s, s.pub(secret), secret), m).1;
    FirstTranscript(s, pinned, e, payload);
    if m == m1 && pinned == s.pub(secret) {
      FirstMessageAgrees(s, secret, e, payload);
    }
    if got.Some? {
      FirstAccepted(s, secret, m, got.value);
      var (shown, c) := s.split(m).value;
      if SameCiphertext(s, m, m1) {
        assert s.hash(Opening(s, s.pub(secret)), shown) == s.hash(Opening(s, pinned), s.pub(e));
        assert Opening(s, s.pub(secret)) == Opening(s, pinned);
        SameParts(s, m, m1);
      }
      if got == Some(payload) && SameEphemeral(s, m, m1) && pinned == s.pub(secret) {
        assert s.dh(secret, s.pub(e)) == s.dh(e, s.pub(secret));
        SameParts(s, m, m1);
      }
    }
  }

  /**
   Of all messages that show a responder's ciphertext, an initiator accepts exactly the unchanged one, and only if that
   responder holds the pinned key and heard this initiator's own first message unchanged; and a changed ciphertext
   under the responder's own ephemeral key never yields its payload.
   */
  lemma SecondMessageBinds<V(!new)>(s: Suite<V>, pinned: V, e1: V, p1: V, secret: V, heard: V, e2: V, p2: V, m: V)
    requires Ideal(s) && WriteFirst(s, NewInitiator(s, pinned), Some(e1), p1).1.Some?
    requires ReadFirst(s, NewResponder(s, s.pub(secret), secret), heard).1.Some?
    requires WriteSecond(s, ReadFirst(s, NewResponder(s, s.pub(secret), secret), heard).0, Some(e2), p2).1.Some?
    ensures
      var (i1, m1) := WriteFirst(s, NewInitiator(s, pinned), Some(e1), p1);
      var m2 := WriteSecond(s, ReadFirst(s, NewResponder(s, s.pub(secret), secret), heard).0, Some(e2), p2).1.value;
      var got := ReadSecond(s, i1, m).1;
      var same := Some(heard) == m1 && pinned == s.pub(secret);
      && (got.Some? && SameCiphertext(s, m, m2) <==> m == m2 && same)
      && (got == Some(p2) && SameEphemeral(s, m, m2) && same ==> m == m2)
  {
    var (i1, m1) := WriteFirst(s, NewInitiator(s, pinned), Some(e1), p1);
    var m2 := WriteSecond(s, ReadFirst(s, NewResponder(s, s.pub(secret), secret), heard).0, Some(e2), p2).1.value;
    var got := ReadSecond(s, i1, m).1;
    FirstTranscript(s, pinned, e1, p1);
    ReplyTranscript(s, secret, heard, e2, p2);
    if Some(heard) == m1 && pinned == s.pub(secret) {
      ReplyCarries(s, secret, e1, p1, e2, p2);
      SecondAccepted(s, pinned, e1, p1, m2, p2);
    }
    if got.Some? {
      SecondAccepted(s, pinned, e1, p1, m, got.value);
      if SameCiphertext(s, m, m2) {
        SameTranscript(s, pinned, m1.value, s.pub(secret), heard, s.split(m).value.0, s.pub(e2));
        SameParts(s, m, m2);
      }
      if got == Some(p2) && SameEphemeral(s, m, m2) && Some(heard) == m1 && pinned == s.pub(secret) {
        ReplyCarries(s, secret, e1, p1, e2, p2);
        SameParts(s, m, m2);
      }
    }
  }

  lemma SameTranscript<V(!new)>(s: Suite<V>, pinned: V, first: V, key: V, heard: V, shown: V, ephemeral: V)
    requires Ideal(s) && s.split(first).Some? && s.split(heard).Some?
    requires s.hash(Transcript(s, pinned, first), shown) == s.hash(Transcript(s, key, heard), ephemeral)
    ensures pinned == key && first == heard && shown == ephemeral
  {
    assert Transcript(s, pinned, first) == Transcript(s, key, heard);
    assert s.hash(Opening(s, pinned), s.split(first).value.0) == s.hash(Opening(s, key), s.split(heard).value.0);
    assert Opening(s, pinned) == Opening(s, key);
    SameParts(s, first, heard);
  }

  /** The pinned responder's reply to the unchanged first message carries its payload to the initiator. */
  lemma ReplyCarries<V(!new)>(s: Suite<V>, secret: V, e1: V, p1: V, e2: V, p2: V)
    requires Lawful(s) && WriteFirst(s, NewInitiator(s, s.pub(secret)), Some(e1), p1).1.Some?
    requires
      var m1 := WriteFirst(s, NewInitiator(s, s.pub(secret)), Some(e1), p1).1.value;
      && ReadFirst(s, NewResponder(s, s.pub(secret), secret), m1).1.Some?
      && WriteSecond(s, ReadFirst(s, NewResponder(s, s.pub(secret), secret), m1).0, Some(e2), p2).1.Some?
    ensures
      var m1 := WriteFirst(s, NewInitiator(s, s.pub(secret)), Some(e1), p1).1.value;
      var m2 := WriteSecond(s, ReadFirst(s, NewResponder(s, s.pub(secret), secret), m1).0, Some(e2), p2).1.value;
      && s.dh(e1, s.pub(secret)).Some? && s.split(m1).Some?
      && Carries(s, e1, s.chain(s.name, s.dh(e1, s.pub(secret)).value), Transcript(s, s.pub(secret), m1), m2, p2)
  {
    FirstTranscript(s, s.pub(secret), e1, p1);
    var m1 := WriteFirst(s, NewInitiator(s, s.pub(secret)), Some(e1), p1).1.value;
    ReplyTranscript(s, secret, m1, e2, p2);
    assert s.dh(secret, s.pub(e1)) == s.dh(e1, s.pub(secret));
    assert s.dh(e2, s.pub(e1)) == s.dh(e1, s.pub(e2));
  }

  // ---------------------------------------------------------------------------------------------
  // The transport phase

  datatype Transport<V> = Transport(send: Cipher<V>, receive: Cipher<V>)

  function NewTransport<V>(keys: KeyPair<V>): Transport<V> {
    Transport(Cipher(keys.send, 0, true), Cipher(keys.receive, 0, true))
  }

  function SealMessage<V>(s: Suite<V>, t: Transport<V>, plaintext: V): (Transport<V>, Option<V>) {
    var (c, out) := Encrypt(s, t.send, s.empty, plaintext);
    (t.(send := c), out)
  }

  function OpenMessage<V>(s: Suite<V>, t: Transport<V>, ciphertext: V): (Transport<V>, Option<V>) {
    var (c, out) := Decrypt(s, t.receive, s.empty, ciphertext);
    (t.(receive := c), out)
  }

  datatype Use<V> = Seal(plaintext: V) | Open(ciphertext: V)

  /** A use of the transport, and the counters consumed so far by successful seals. */
  function UseTransport<V>(s: Suite<V>, t: Transport<V>, uses: seq<Use<V>>): (Transport<V>, seq<nat>)
    decreases |uses|
  {
    if uses == [] then (t, [])
    else
      var (t1, counters) := match uses[0]
        case Seal(p) => (SealMessage(s, t, p).0, if SealMessage(s, t, p).1.Some? then [t.send.counter] else [])
        case Open(c) => (OpenMessage(s, t, c).0, []);
      var (t2, more) := UseTransport(s, t1, uses[1..]);
      (t2, counters + more)
  }

  /**
   Nonce discipline over every run of seals and opens: successful seals consume consecutive counters from the
   starting one, so no two of them share a 12-byte nonce, and the last counter value is never used.
   */
  lemma {:induction false} NoncesNeverRepeat<V>(s: Suite<V>, t: Transport<V>, uses: seq<Use<V>>)
    requires t.send.hasKey && t.receive.hasKey && t.send.counter <= MAX_COUNTER && t.receive.counter <= MAX_COUNTER
    ensures
      var (end, used) := UseTransport(s, t, uses);
      && end.send.counter == t.send.counter + |used| <= MAX_COUNTER
      && end.send.key == t.send.key && end.receive.key == t.receive.key
      && (forall i :: 0 <= i < |used| ==> used[i] == t.send.counter + i && used[i] < MAX_COUNTER)
      && (forall i, j :: 0 <= i < j < |used| ==> Nonce(used[i]) != Nonce(used[j]))
    decreases |uses|
  {
    if uses != [] {
      var t1 := match uses[0] case Seal(p) => SealMessage(s, t, p).0 case Open(c) => OpenMessage(s, t, c).0;
      NoncesNeverRepeat(s, t1, uses[1..]);
      var (end, used) := UseTransport(s, t, uses);
      forall i, j | 0 <= i < j < |used| ensures Nonce(used[i]) != Nonce(used[j]) {
        if Nonce(used[i]) == Nonce(used[j]) {
          NonceInjective(used[i], used[j]);
        }
      }
    }
  }

  /** What reaches a receiver: the sender's next message, or something else. */
  datatype Arrival<V> = Genuine | Forged(ciphertext: V)

  /** Sender and receiver side by side; a genuine arrival seals and delivers the next plaintext. */
  function Exchange<V>(s: Suite<V>, sender: Cipher<V>, receiver: Cipher<V>, plain: seq<V>, tape: seq<Arrival<V>>)
    : seq<Option<V>>
    decreases |tape|
  {
    if tape == [] then []
    else match tape[0]
      case Forged(c) =>
        var (r, out) := Decrypt(s, receiver, s.empty, c);
        [out] + Exchange(s, sender, r, plain, tape[1..])
      case Genuine =>
        if plain == [] then []
        else
          var (next, sealed) := Encrypt(s, sender, s.empty, plain[0]);
          if sealed.None? then []
          else
            var (r, out) := Decrypt(s, receiver, s.empty, sealed.value);
            [out] + Exchange(s, next, r, plain[1..], tape[1..])
  }

  /** Each forged arrival is unsealed by the key and nonce it meets; the nonce advances with genuine ones only. */
  ghost predicate Unsealed<V(!new)>(s: Suite<V>, key: V, counter: nat, tape: seq<Arrival<V>>)
    decreases |tape|
  {
    tape != [] ==>
      && (tape[0].Forged? ==> forall p :: tape[0].ciphertext != s.seal(key, Nonce(counter), s.empty, p))
      && Unsealed(s, key, if tape[0].Genuine? then counter + 1 else counter, tape[1..])
  }

  /** Under this key no ciphertext belongs to two counters: what a tag that covers the nonce is there to ensure. */
  ghost predicate NoncesTell<V(!new)>(s: Suite<V>, key: V) {
    forall i: nat, j: nat, p, q :: i <= MAX_COUNTER && j <= MAX_COUNTER && s.seal(key, Nonce(i), s.empty, p) == s.seal(key, Nonce(j), s.empty, q)
                   ==> i == j
  }

  lemma IdealNoncesTell<V(!new)>(s: Suite<V>, key: V)
    requires Ideal(s)
    ensures NoncesTell(s, key)
  {
    forall i: nat, j: nat, p, q
      | i <= MAX_COUNTER && j <= MAX_COUNTER && s.seal(key, Nonce(i), s.empty, p) == s.seal(key, Nonce(j), s.empty, q)
      ensures i == j
    {
      NonceInjective(i, j);
    }
  }

  /** Then a message sealed at any other counter is refused, whether recorded or too early, and moves nothing. */
  lemma ReplayRefused<V(!new)>(s: Suite<V>, c: Cipher<V>, other: nat, plaintext: V)
    requires Lawful(s) && NoncesTell(s, c.key) && c.hasKey && c.counter <= MAX_COUNTER && other <= MAX_COUNTER && other != c.counter
    ensures Decrypt(s, c, s.empty, s.seal(c.key, Nonce(other), s.empty, plaintext)) == (c, None)
  {
    var sealed := s.seal(c.key, Nonce(other), s.empty, plaintext);
    var unsealed := s.open(c.key, Nonce(c.counter), s.empty, sealed);
    if unsealed.Some? {
      assert sealed == s.seal(c.key, Nonce(c.counter), s.empty, unsealed.value);
    }
  }

  function Expected<V>(plain: seq<V>, tape: seq<Arrival<V>>): seq<Option<V>> {
    if tape == [] then []
    else if tape[0].Forged? then [None] + Expected(plain, tape[1..])
    else if plain == [] then []
    else [Some(plain[0])] + Expected(plain[1..], tape[1..])
  }

  /** Forgeries do not desynchronise: each is refused and every genuine message, in order, still opens. */
  lemma {:induction false} ForgeriesHarmless<V(!new)>(s: Suite<V>, c: Cipher<V>, plain: seq<V>, tape: seq<Arrival<V>>)
    requires Lawful(s) && c.hasKey && Unsealed(s, c.key, c.counter, tape)
    requires c.counter + |plain| <= MAX_COUNTER
    ensures Exchange(s, c, c, plain, tape) == Expected(plain, tape)
    decreases |tape|
  {
    if tape != [] {
      match tape[0]
      case Forged(x) =>
        assert s.open(c.key, Nonce(c.counter), s.empty, x).None?;
        ForgeriesHarmless(s, c, plain, tape[1..]);
      case Genuine =>
        if plain != [] {
          var sealed := s.seal(c.key, Nonce(c.counter), s.empty, plain[0]);
          assert s.size(sealed) >= TAG_SIZE;
          ForgeriesHarmless(s, c.(counter := c.counter + 1), plain[1..], tape[1..]);
        }
    }
  }

  // ---------------------------------------------------------------------------------------------
  // The laws are consistent: a symbolic suite meets the ideal ones, a trivial byte suite the lawful ones

  datatype Term =
    | Atom(bytes: Bytes)
    | Secret(owner: nat)
    | Public(owner: nat)
    | Shared(low: nat, high: nat)           // an unordered pair of secrets, kept in order
    | Hash(of: Term, data: Term)
    | Chain(ck: Term, material: Term)
    | Derive(ck: Term, material: Term)
    | Sealed(key: Term, nonce: Bytes, ad: Term, plaintext: Term)
    | Joined(ephemeral: Term, sealed: Term)

  function TermSize(t: Term): nat {
    match t
    case Atom(bytes) => |bytes|
    case Sealed(_, _, _, plaintext) => TermSize(plaintext) + TAG_SIZE
    case Joined(e, c) => TermSize(e) + TermSize(c)
    case _ => PUBLIC_KEY_SIZE
  }

  function TermExchange(a: Term, b: Term): Option<Term> {
    match (a, b)
    case (Secret(x), Public(y)) => Some(if x <= y then Shared(x, y) else Shared(y, x))
    case _ => None
  }

  function TermOpen(key: Term, nonce: Bytes, ad: Term, c: Term): Option<Term> {
    if c.Sealed? && c.key == key && c.nonce == nonce && c.ad == ad then Some(c.plaintext) else None
  }

  function TermSplit(m: Term): Option<(Term, Term)> {
    if m.Joined? && TermSize(m.ephemeral) == PUBLIC_KEY_SIZE && TermSize(m.sealed) >= TAG_SIZE
    then Some((m.ephemeral, m.sealed)) else None
  }

  const SYMBOLIC: Suite<Term> := Suite(
    Atom(Zeros(PUBLIC_KEY_SIZE)), Atom([]), Atom([]), Atom(Zeros(PUBLIC_KEY_SIZE)),
    TermSize,
    (h: Term, d: Term) => Hash(h, d),
    (ck: Term, m: Term) => Chain(ck, m),
    (ck: Term, m: Term) => Derive(ck, m),
    (a: Term) => if a.Secret? then Public(a.owner) else Atom(Zeros(PUBLIC_KEY_SIZE)),
    TermExchange,
    (k: Term, n: Bytes, ad: Term, p: Term) => Sealed(k, n, ad, p),
    TermOpen,
    (e: Term, c: Term) => Joined(e, c),
    TermSplit)

  lemma SymbolicIsIdeal()
    ensures Ideal(SYMBOLIC)
  {
    var s := SYMBOLIC;
    forall a, b ensures s.dh(a, s.pub(b)) == s.dh(b, s.pub(a)) {}
    forall m | s.split(m).Some? ensures m == s.join(s.split(m).value.0, s.split(m).value.1) {}
  }
}
