/**
 End-to-end encrypted letters over an arbitrary suite: key agreement (common/crypto/dm_session_keys.cpp), first ratchet key
 (dm_message_chain.cpp), envelope (dm_envelope.cpp) and the courier that seals and opens (client/dm/dm_courier.cpp), on values
 of any type V. With V = byte strings this is what travels; with V = symbolic terms it is the model in which forgery
 is ruled out.
 */
module Letters {
  import opened Prelude
  import Utf8

  const ENVELOPE_VERSION := 1
  const MAX_COUNTER := 0xFFFF_FFFF
  const MAX_TIME := 0xFFFF_FFFF_FFFF_FFFF

  datatype Header<V> = Header(version: Byte, senderIdentity: V, senderEphemeral: V, counter: nat)

  datatype Letter = Letter(sentAt: nat, text: Bytes)

  /** The primitives, codecs and domain strings. An identity is known by its secret key. */
  datatype Suite<!V> = Suite(
    pub: V -> V,
    dh: (V, V) -> Option<V>,
    isKey: V -> bool,
    identityPublic: V -> V,
    seed: V -> V,
    secretToX: V -> Option<V>,
    publicToX: V -> Option<V>,
    extract: (V, V) -> V,
    expand: (V, V, Byte) -> V,
    join: (V, V, V) -> V,
    seal: (V, V, V) -> V,                   // key, associated data, plaintext; the nonce is all zero
    open: (V, V, V) -> Option<V>,
    verify: (V, V, V) -> bool,              // public identity, text, signature
    sign: (V, V) -> V,
    header: Header<V> -> V,
    pack: (Header<V>, V) -> V,
    parse: V -> Option<(Header<V>, V)>,
    payload: Letter -> V,
    readPayload: V -> Option<Letter>,
    sessionDomain: V, noInfo: V, messageInfo: V, chainInfo: V, prekeyInfo: V, prekeyDomain: V)

  predicate Proper<V>(s: Suite<V>, h: Header<V>) {
    h.version == ENVELOPE_VERSION && s.isKey(h.senderIdentity) && s.isKey(h.senderEphemeral) && h.counter <= MAX_COUNTER
  }

  /** Diffie-Hellman agrees, and an identity's two halves convert to the two halves of a key pair. */
  ghost predicate KeysAgree<V(!new)>(s: Suite<V>) {
    && (forall a, b :: s.dh(a, s.pub(b)) == s.dh(b, s.pub(a)))
    && (forall a :: s.isKey(s.pub(a)) && s.isKey(s.identityPublic(a)))
    && (forall k :: s.secretToX(k).Some? <==> s.publicToX(s.identityPublic(k)).Some?)
    && (forall k :: s.secretToX(k).Some? ==> s.publicToX(s.identityPublic(k)).value == s.pub(s.secretToX(k).value))
  }

  /** The AEAD opens exactly what it sealed, and envelopes and payloads are read back as they were written. */
  ghost predicate ReadsBack<V(!new)>(s: Suite<V>) {
    && (forall k, ad, p :: s.open(k, ad, s.seal(k, ad, p)) == Some(p))
    && (forall k, ad, c :: s.open(k, ad, c).Some? ==> c == s.seal(k, ad, s.open(k, ad, c).value))
    && (forall h, k, ad, p {:trigger s.pack(h, s.seal(k, ad, p))} :: Proper(s, h) ==> s.parse(s.pack(h, s.seal(k, ad, p))) == Some((h, s.seal(k, ad, p))))
    && (forall e :: s.parse(e).Some? ==> e == s.pack(s.parse(e).value.0, s.parse(e).value.1))
    && (forall l: Letter :: l.sentAt <= MAX_TIME ==> s.readPayload(s.payload(l)) == if Utf8.Valid(l.text) then Some(l) else None)
  }

  ghost predicate Lawful<V(!new)>(s: Suite<V>) {
    KeysAgree(s) && ReadsBack(s)
  }

  /** What an identity signs verifies, */
  ghost predicate Signs<V(!new)>(s: Suite<V>) {
    forall k, m :: s.verify(s.identityPublic(k), m, s.sign(k, m))
  }

  /** and under one identity a signature is over one text. */
  ghost predicate SignaturesBind<V(!new)>(s: Suite<V>) {
    forall k, m, n, signature :: s.verify(k, m, signature) && s.verify(k, n, signature) ==> m == n
  }

  /** The idealisation: hashes and ciphertexts determine what went into them, a shared secret its two owners. */
  ghost predicate Ideal<V(!new)>(s: Suite<V>) {
    && Lawful(s)
    && (forall k, ad, p, k', ad', p' :: s.seal(k, ad, p) == s.seal(k', ad', p') ==> k == k' && ad == ad' && p == p')
    && (forall g, h :: s.header(g) == s.header(h) ==> g == h)
    && (forall a, b, c, d :: s.dh(a, s.pub(b)).Some? && s.dh(a, s.pub(b)) == s.dh(c, s.pub(d)) ==>
                               (a == c && b == d) || (a == d && b == c))
    && (forall a, b, i, n :: s.expand(a, i, n) == s.expand(b, i, n) ==> a == b)
    && (forall d, a, b :: s.extract(d, a) == s.extract(d, b) ==> a == b)
    && (forall a, b, c, x, y, z :: s.join(a, b, c) == s.join(x, y, z) ==> a == x && b == y && c == z)
    && (forall a, b :: s.seed(a) == s.seed(b) ==> a == b)
  }

  // ---------------------------------------------------------------------------------------------
  // Key agreement

  function Combine<V>(s: Suite<V>, first: V, second: V, third: V): V {
    s.expand(s.extract(s.sessionDomain, s.join(first, second, third)), s.noInfo, 1)
  }

  function SenderRoot<V>(s: Suite<V>, sender: V, ephemeral: V, recipient: V, prekey: V): Option<V> {
    var senderX :- s.secretToX(sender);
    var recipientX :- s.publicToX(recipient);
    var first :- s.dh(senderX, prekey);
    var second :- s.dh(ephemeral, recipientX);
    var third :- s.dh(ephemeral, prekey);
    Some(Combine(s, first, second, third))
  }

  function RecipientRoot<V>(s: Suite<V>, recipient: V, prekeySecret: V, sender: V, ephemeral: V): Option<V> {
    var recipientX :- s.secretToX(recipient);
    var senderX :- s.publicToX(sender);
    var first :- s.dh(prekeySecret, senderX);
    var second :- s.dh(recipientX, ephemeral);
    var third :- s.dh(prekeySecret, ephemeral);
    Some(Combine(s, first, second, third))
  }

  /** The prekey is derived from the identity, so the identity alone opens. */
  function PrekeySecret<V>(s: Suite<V>, identity: V): V {
    s.expand(s.seed(identity), s.prekeyInfo, 1)
  }

  /** Both sides compute the same three shared secrets, hence the same root, or both fail. */
  lemma RootsAgree<V(!new)>(s: Suite<V>, sender: V, ephemeral: V, recipient: V)
    requires Lawful(s)
    ensures
      SenderRoot(s, sender, ephemeral, s.identityPublic(recipient), s.pub(PrekeySecret(s, recipient)))
      == RecipientRoot(s, recipient, PrekeySecret(s, recipient), s.identityPublic(sender), s.pub(ephemeral))
  {
    var prekey := PrekeySecret(s, recipient);
    var sx, rx := s.secretToX(sender), s.secretToX(recipient);
    assert s.publicToX(s.identityPublic(sender)).Some? <==> sx.Some?;
    assert s.publicToX(s.identityPublic(recipient)).Some? <==> rx.Some?;
    if sx.Some? && rx.Some? {
      assert s.dh(sx.value, s.pub(prekey)) == s.dh(prekey, s.pub(sx.value));
      assert s.dh(ephemeral, s.pub(rx.value)) == s.dh(rx.value, s.pub(ephemeral));
      assert s.dh(ephemeral, s.pub(prekey)) == s.dh(prekey, s.pub(ephemeral));
    }
  }

  /** The chain key after n steps from a root. */
  function ChainKey<V>(s: Suite<V>, root: V, n: nat): V {
    if n == 0 then root else s.expand(ChainKey(s, root, n - 1), s.chainInfo, 2)
  }

  function MessageKey<V>(s: Suite<V>, root: V, n: nat): V {
    s.expand(ChainKey(s, root, n), s.messageInfo, 1)
  }

  /** The ratchet from its front: the first key comes from the root, the later ones are those of the next chain key. */
  lemma {:induction false} RatchetFromFront<V>(s: Suite<V>, root: V, n: nat)
    ensures MessageKey(s, root, 0) == s.expand(root, s.messageInfo, 1)
    ensures ChainKey(s, root, n + 1) == ChainKey(s, s.expand(root, s.chainInfo, 2), n)
    ensures MessageKey(s, root, n + 1) == MessageKey(s, s.expand(root, s.chainInfo, 2), n)
  {
    if n > 0 {
      RatchetFromFront(s, root, n - 1);
    }
  }

  // ---------------------------------------------------------------------------------------------
  // The courier

  datatype Bundle<V> = Bundle(owner: V, prekey: V, signature: V)

  predicate BundleVerified<V>(s: Suite<V>, b: Bundle<V>) {
    s.verify(b.owner, s.join(s.prekeyDomain, b.owner, b.prekey), b.signature)
  }

  /** The bundle a recipient publishes, whatever its signature. */
  ghost predicate BundleOf<V>(s: Suite<V>, recipient: V, b: Bundle<V>) {
    b.owner == s.identityPublic(recipient) && b.prekey == s.pub(PrekeySecret(s, recipient))
  }

  /** What an identity publishes: its derived prekey, signed. */
  function Published<V>(s: Suite<V>, identity: V): Bundle<V> {
    var owner, prekey := s.identityPublic(identity), s.pub(PrekeySecret(s, identity));
    Bundle(owner, prekey, s.sign(identity, s.join(s.prekeyDomain, owner, prekey)))
  }

  datatype Trouble = Unsigned | NoEphemeral | NotSealed | Unreadable | NotOpened | BadContent

  datatype Result<T> = Ok(value: T) | Err(trouble: Trouble)

  /** `ephemeral` is the fresh secret, or None when generation failed. */
  function SealLetter<V>(s: Suite<V>, sender: V, ephemeral: Option<V>, b: Bundle<V>, l: Letter): Result<V> {
    if !BundleVerified(s, b) then Err(Unsigned)
    else if ephemeral.None? then Err(NoEphemeral)
    else match SenderRoot(s, sender, ephemeral.value, b.owner, b.prekey)
      case None => Err(NotSealed)
      case Some(root) =>
        var h := Header(ENVELOPE_VERSION, s.identityPublic(sender), s.pub(ephemeral.value), 0);
        Ok(s.pack(h, s.seal(MessageKey(s, root, 0), s.header(h), s.payload(l))))
  }

  function OpenLetter<V>(s: Suite<V>, recipient: V, envelope: V): Result<Letter> {
    match s.parse(envelope)
    case None => Err(Unreadable)
    case Some((h, body)) =>
      match RecipientRoot(s, recipient, PrekeySecret(s, recipient), h.senderIdentity, h.senderEphemeral)
      case None => Err(NotOpened)
      case Some(root) =>
        match s.open(MessageKey(s, root, 0), s.header(h), body)
        case None => Err(NotOpened)
        case Some(plaintext) =>
          match s.readPayload(plaintext)
          case None => Err(BadContent)
          case Some(l) => Ok(l)
  }

  /**
   A letter written out: the root is extracted, under the session domain, from the secrets of sender identity and prekey, of
   ephemeral and recipient identity, and of ephemeral and prekey, in this order; the message key is the first of its ratchet;
   and the header that names sender and ephemeral goes in front and is sealed along.
   */
  lemma LetterPrescribed<V>(s: Suite<V>, sender: V, ephemeral: V, b: Bundle<V>, l: Letter)
    requires SealLetter(s, sender, Some(ephemeral), b, l).Ok?
    ensures
      && s.secretToX(sender).Some? && s.publicToX(b.owner).Some?
      && var first, second, third :=
           s.dh(s.secretToX(sender).value, b.prekey), s.dh(ephemeral, s.publicToX(b.owner).value), s.dh(ephemeral, b.prekey);
         && first.Some? && second.Some? && third.Some?
         && var root := s.expand(s.extract(s.sessionDomain, s.join(first.value, second.value, third.value)), s.noInfo, 1);
            var h := Header(1, s.identityPublic(sender), s.pub(ephemeral), 0);
            SealLetter(s, sender, Some(ephemeral), b, l).value
            == s.pack(h, s.seal(s.expand(root, s.messageInfo, 1), s.header(h), s.payload(l)))
  {
    RatchetFromFront(s, SenderRoot(s, sender, ephemeral, b.owner, b.prekey).value, 0);
  }

  /** And what is published for it. */
  lemma PublishedPrescribed<V>(s: Suite<V>, identity: V)
    ensures
      var owner, prekey := s.identityPublic(identity), s.pub(s.expand(s.seed(identity), s.prekeyInfo, 1));
      Published(s, identity) == Bundle(owner, prekey, s.sign(identity, s.join(s.prekeyDomain, owner, prekey)))
  {
  }

  /** What a sealed letter consists of. */
  lemma SealedLetter<V(!new)>(s: Suite<V>, sender: V, ephemeral: V, recipient: V, b: Bundle<V>, l: Letter)
    requires Lawful(s) && BundleOf(s, recipient, b) && SealLetter(s, sender, Some(ephemeral), b, l).Ok?
    ensures
      var root := RecipientRoot(s, recipient, PrekeySecret(s, recipient), s.identityPublic(sender), s.pub(ephemeral));
      var h := Header(ENVELOPE_VERSION, s.identityPublic(sender), s.pub(ephemeral), 0);
      && root.Some?
      && s.parse(SealLetter(s, sender, Some(ephemeral), b, l).value)
         == Some((h, s.seal(MessageKey(s, root.value, 0), s.header(h), s.payload(l))))
  {
    RootsAgree(s, sender, ephemeral, recipient);
    assert Proper(s, Header(ENVELOPE_VERSION, s.identityPublic(sender), s.pub(ephemeral), 0));
  }

  /**
   Delivery: a letter sealed for a recipient's own signed prekey opens, with the recipient's identity alone, to the same text
   and time exactly when the text is valid; the sender does not check it, the reader does. Sealing succeeds exactly when the
   prekey is signed and the recipient too can compute the root.
   */
  lemma LetterArrives<V(!new)>(s: Suite<V>, sender: V, ephemeral: V, recipient: V, b: Bundle<V>, l: Letter)
    requires Lawful(s) && BundleOf(s, recipient, b) && l.sentAt <= MAX_TIME
    ensures
      var sealed := SealLetter(s, sender, Some(ephemeral), b, l);
      var shared := RecipientRoot(s, recipient, PrekeySecret(s, recipient), s.identityPublic(sender), s.pub(ephemeral));
      && (sealed.Ok? <==> s.verify(b.owner, s.join(s.prekeyDomain, b.owner, b.prekey), b.signature) && shared.Some?)
      && (sealed.Ok? ==> OpenLetter(s, recipient, sealed.value) == if Utf8.Valid(l.text) then Ok(l) else Err(BadContent))
  {
    RootsAgree(s, sender, ephemeral, recipient);
    if SealLetter(s, sender, Some(ephemeral), b, l).Ok? {
      SealedLetter(s, sender, ephemeral, recipient, b, l);
    }
  }

  /** A bundle is accepted as it was published. */
  lemma PublishedArrives<V(!new)>(s: Suite<V>, sender: V, ephemeral: V, recipient: V, l: Letter)
    requires Lawful(s) && Signs(s) && l.sentAt <= MAX_TIME
    ensures
      var sealed := SealLetter(s, sender, Some(ephemeral), Published(s, recipient), l);
      var shared := RecipientRoot(s, recipient, PrekeySecret(s, recipient), s.identityPublic(sender), s.pub(ephemeral));
      && (sealed.Ok? <==> shared.Some?)
      && (sealed.Ok? ==> OpenLetter(s, recipient, sealed.value) == if Utf8.Valid(l.text) then Ok(l) else Err(BadContent))
  {
    LetterArrives(s, sender, ephemeral, recipient, Published(s, recipient), l);
  }

  // ---------------------------------------------------------------------------------------------
  // Authenticity

  /**
   What the signature of a bundle covers: whatever its owner signed, it vouches for a bundle if and only if it was made for
   this purpose, for this owner and for this prekey.
   */
  lemma SignatureCovers<V(!new)>(s: Suite<V>, sender: V, ephemeral: Option<V>, b: Bundle<V>, l: Letter, domain: V, x: V, y: V)
    requires Ideal(s) && SignaturesBind(s) && s.verify(b.owner, s.join(domain, x, y), b.signature)
    ensures SealLetter(s, sender, ephemeral, b, l) != Err(Unsigned) <==> domain == s.prekeyDomain && x == b.owner && y == b.prekey
  {
    if SealLetter(s, sender, ephemeral, b, l) != Err(Unsigned) {
      assert s.join(domain, x, y) == s.join(s.prekeyDomain, b.owner, b.prekey);
    }
  }

  /** So no other prekey is ever sealed for under a signature that was accepted. */
  lemma OtherPrekeyRefused<V(!new)>(s: Suite<V>, sender: V, ephemeral: Option<V>, b: Bundle<V>, l: Letter, other: V)
    requires Ideal(s) && SignaturesBind(s) && SealLetter(s, sender, ephemeral, b, l).Ok?
    ensures SealLetter(s, sender, ephemeral, b.(prekey := other), l) == Err(Unsigned) <==> other != b.prekey
  {
    SignatureCovers(s, sender, ephemeral, b.(prekey := other), l, s.prekeyDomain, b.owner, b.prekey);
  }

  /** Acceptance, for every envelope and reader: the body is a seal, under the root that both keys give, of that letter. */
  lemma LetterAccepted<V(!new)>(s: Suite<V>, recipient: V, envelope: V, l: Letter)
    requires Lawful(s)
    ensures
      OpenLetter(s, recipient, envelope) == Ok(l)
      <==>
      && s.parse(envelope).Some?
      && var (h, body) := s.parse(envelope).value;
         var root := RecipientRoot(s, recipient, PrekeySecret(s, recipient), h.senderIdentity, h.senderEphemeral);
         && root.Some?
         && exists p :: s.readPayload(p) == Some(l) && body == s.seal(MessageKey(s, root.value, 0), s.header(h), p)
  {
    if s.parse(envelope).Some? {
      var (h, body) := s.parse(envelope).value;
      var root := RecipientRoot(s, recipient, PrekeySecret(s, recipient), h.senderIdentity, h.senderEphemeral);
      if root.Some? {
        var key := MessageKey(s, root.value, 0);
        forall p | body == s.seal(key, s.header(h), p) ensures s.open(key, s.header(h), body) == Some(p) {
        }
      }
    }
  }

  /** Why a letter does not open, for every envelope and reader. */
  lemma OpeningTroubles<V(!new)>(s: Suite<V>, recipient: V, envelope: V)
    requires Lawful(s)
    ensures OpenLetter(s, recipient, envelope) == Err(Unreadable) <==> s.parse(envelope).None?
    ensures
      s.parse(envelope).Some? ==>
        var (h, body) := s.parse(envelope).value;
        var root := RecipientRoot(s, recipient, PrekeySecret(s, recipient), h.senderIdentity, h.senderEphemeral);
        var sealed := root.Some? && exists p :: body == s.seal(MessageKey(s, root.value, 0), s.header(h), p);
        && (OpenLetter(s, recipient, envelope) == Err(NotOpened) <==> !sealed)
        && (OpenLetter(s, recipient, envelope).Err? && sealed ==> OpenLetter(s, recipient, envelope) == Err(BadContent))
  {
    if s.parse(envelope).Some? {
      var (h, body) := s.parse(envelope).value;
      var root := RecipientRoot(s, recipient, PrekeySecret(s, recipient), h.senderIdentity, h.senderEphemeral);
      if root.Some? {
        var key := MessageKey(s, root.value, 0);
        forall p | body == s.seal(key, s.header(h), p) ensures s.open(key, s.header(h), body) == Some(p) {
        }
      }
    }
  }

  /** Why a letter is not sealed. */
  lemma SealingTroubles<V>(s: Suite<V>, sender: V, ephemeral: Option<V>, b: Bundle<V>, l: Letter)
    ensures
      var sealed := SealLetter(s, sender, ephemeral, b, l);
      var signed := s.verify(b.owner, s.join(s.prekeyDomain, b.owner, b.prekey), b.signature);
      && (sealed == Err(Unsigned) <==> !signed)
      && (sealed == Err(NoEphemeral) <==> signed && ephemeral.None?)
      && (sealed.Err? && signed && ephemeral.Some? ==> sealed == Err(NotSealed))
  {
  }

  lemma CombineInjective<V(!new)>(s: Suite<V>, a: V, b: V, c: V, x: V, y: V, z: V)
    requires Ideal(s) && Combine(s, a, b, c) == Combine(s, x, y, z)
    ensures a == x && b == y && c == z
  {
    assert s.extract(s.sessionDomain, s.join(a, b, c)) == s.extract(s.sessionDomain, s.join(x, y, z));
    assert s.join(a, b, c) == s.join(x, y, z);
  }

  lemma SharedNamesOwner<V(!new)>(s: Suite<V>, a: V, b: V, x: V)
    requires Ideal(s) && s.dh(a, s.pub(x)).Some? && s.dh(a, s.pub(x)) == s.dh(b, s.pub(x))
    ensures a == b
  {
  }

  lemma PrekeyNamesOwner<V(!new)>(s: Suite<V>, a: V, b: V)
    requires Ideal(s) && PrekeySecret(s, a) == PrekeySecret(s, b)
    ensures a == b
  {
    assert s.seed(a) == s.seed(b);
  }

  /** The first of the three secrets in a recipient's root. */
  lemma RootFirst<V(!new)>(s: Suite<V>, sender: V, ephemeral: V, recipient: V) returns (second: V, third: V)
    requires Lawful(s)
    requires RecipientRoot(s, recipient, PrekeySecret(s, recipient), s.identityPublic(sender), s.pub(ephemeral)).Some?
    ensures
      && s.secretToX(sender).Some? && s.dh(PrekeySecret(s, recipient), s.pub(s.secretToX(sender).value)).Some?
      && RecipientRoot(s, recipient, PrekeySecret(s, recipient), s.identityPublic(sender), s.pub(ephemeral))
         == Some(Combine(s, s.dh(PrekeySecret(s, recipient), s.pub(s.secretToX(sender).value)).value, second, third))
  {
    second := s.dh(s.secretToX(recipient).value, s.pub(ephemeral)).value;
    third := s.dh(PrekeySecret(s, recipient), s.pub(ephemeral)).value;
  }

  /** A root gives away the three shared secrets, and they the recipient. */
  lemma RootNamesRecipient<V(!new)>(s: Suite<V>, sender: V, ephemeral: V, recipient: V, other: V)
    requires Ideal(s)
    requires
      var mine := RecipientRoot(s, recipient, PrekeySecret(s, recipient), s.identityPublic(sender), s.pub(ephemeral));
      var theirs := RecipientRoot(s, other, PrekeySecret(s, other), s.identityPublic(sender), s.pub(ephemeral));
      mine.Some? && theirs == mine
    ensures recipient == other
  {
    var a, b, x := PrekeySecret(s, recipient), PrekeySecret(s, other), s.pub(s.secretToX(sender).value);
    var second, third := RootFirst(s, sender, ephemeral, recipient);
    var second', third' := RootFirst(s, sender, ephemeral, other);
    CombineInjective(s, s.dh(a, x).value, second, third, s.dh(b, x).value, second', third');
    SharedNamesOwner(s, a, b, s.secretToX(sender).value);
    PrekeyNamesOwner(s, recipient, other);
  }

  /**
   Confidentiality and authenticity of delivery: whatever envelope shows the body of a sealed letter, and whoever tries, it
   opens exactly if the envelope is unchanged and the reader is the recipient it was sealed for; and it names its sender.
   */
  lemma OpensOnlyForRecipient<V(!new)>(s: Suite<V>, sender: V, ephemeral: V, recipient: V, b: Bundle<V>, l: Letter,
                                       anyone: V, shown: V)
    requires Ideal(s) && BundleOf(s, recipient, b) && l.sentAt <= MAX_TIME && Utf8.Valid(l.text)
    requires SealLetter(s, sender, Some(ephemeral), b, l).Ok?
    ensures
      var envelope := SealLetter(s, sender, Some(ephemeral), b, l).value;
      && s.parse(envelope).Some? && s.parse(envelope).value.0.senderIdentity == s.identityPublic(sender)
      && (s.parse(shown).Some? && s.parse(shown).value.1 == s.parse(envelope).value.1 ==>
            (OpenLetter(s, anyone, shown).Ok? <==> shown == envelope && anyone == recipient))
  {
    var envelope := SealLetter(s, sender, Some(ephemeral), b, l).value;
    SealedLetter(s, sender, ephemeral, recipient, b, l);
    LetterArrives(s, sender, ephemeral, recipient, b, l);
    if s.parse(shown).Some? && s.parse(shown).value.1 == s.parse(envelope).value.1 && OpenLetter(s, anyone, shown).Ok? {
      LetterAccepted(s, anyone, shown, OpenLetter(s, anyone, shown).value);
      assert s.header(s.parse(shown).value.0) == s.header(s.parse(envelope).value.0);
      assert s.parse(shown) == s.parse(envelope);
      RootNamesRecipient(s, sender, ephemeral, recipient, anyone);
    }
  }

  // ---------------------------------------------------------------------------------------------
  // The ideal laws hold of some suite

  datatype Term =
    | Data(bytes: Bytes)
    | Seed(of: Term)
    | IdentityKey(of: Term)
    | XSecret(of: Term)
    | Pub(of: Term)
    | Shared(owners: multiset<Term>)
    | Extract(salt: Term, material: Term)
    | Expand(key: Term, info: Term, block: Byte)
    | Join(a: Term, b: Term, c: Term)
    | Sealed(key: Term, ad: Term, plaintext: Term)
    | HeaderTerm(header: Header<Term>)
    | Packed(front: Header<Term>, body: Term)
    | Payload(letter: Letter)
    | Signed(signer: Term, text: Term)

  function TermExchange(a: Term, b: Term): Option<Term> {
    if b.Pub? then Some(Shared(multiset{a, b.of})) else None
  }

  function TermOpen(k: Term, ad: Term, c: Term): Option<Term> {
    if c.Sealed? && c.key == k && c.ad == ad then Some(c.plaintext) else None
  }

  const SYMBOLIC: Suite<Term> := Suite(
    (a: Term) => Pub(a),
    TermExchange,
    (a: Term) => a.Pub? || a.IdentityKey?,
    (a: Term) => IdentityKey(a),
    (a: Term) => Seed(a),
    (a: Term) => Some(XSecret(a)),
    (a: Term) => if a.IdentityKey? then Some(Pub(XSecret(a.of))) else None,
    (salt: Term, m: Term) => Extract(salt, m),
    (k: Term, info: Term, n: Byte) => Expand(k, info, n),
    (a: Term, b: Term, c: Term) => Join(a, b, c),
    (k: Term, ad: Term, p: Term) => Sealed(k, ad, p),
    TermOpen,
    (k: Term, m: Term, sig: Term) => k.IdentityKey? && sig == Signed(k.of, m),
    (a: Term, m: Term) => Signed(a, m),
    (h: Header<Term>) => HeaderTerm(h),
    (h: Header<Term>, body: Term) => Packed(h, body),
    (e: Term) => if e.Packed? && e.front.version == ENVELOPE_VERSION then Some((e.front, e.body)) else None,
    (l: Letter) => Payload(l),
    (t: Term) => if t.Payload? && Utf8.Valid(t.letter.text) then Some(t.letter) else None,
    Data([]), Data([]), Data([1]), Data([2]), Data([3]), Data([4]))

  lemma PairsMatch(a: Term, b: Term, c: Term, d: Term)
    requires multiset{a, b} == multiset{c, d}
    ensures (a == c && b == d) || (a == d && b == c)
  {
    assert a in multiset{c, d} && b in multiset{c, d} && c in multiset{a, b} && d in multiset{a, b};
  }

  lemma SymbolicAgrees(a: Term, b: Term, c: Term, d: Term)
    ensures TermExchange(a, Pub(b)) == TermExchange(b, Pub(a))
    ensures TermExchange(a, Pub(b)) == TermExchange(c, Pub(d)) ==> (a == c && b == d) || (a == d && b == c)
  {
    assert multiset{a, b} == multiset{b, a};
    if multiset{a, b} == multiset{c, d} {
      PairsMatch(a, b, c, d);
    }
  }

  lemma SymbolicKeysAgree()
    ensures KeysAgree(SYMBOLIC)
  {
    var s := SYMBOLIC;
    forall a, b ensures s.dh(a, s.pub(b)) == s.dh(b, s.pub(a)) {
      SymbolicAgrees(a, b, a, b);
    }
  }

  lemma SymbolicReadsBack()
    ensures ReadsBack(SYMBOLIC)
  {
  }

  /** A term model meets all the ideal laws. */
  lemma SymbolicIsIdeal()
    ensures Ideal(SYMBOLIC) && Signs(SYMBOLIC) && SignaturesBind(SYMBOLIC)
  {
    var s := SYMBOLIC;
    SymbolicKeysAgree();
    SymbolicReadsBack();
    forall a, b, c, d | s.dh(a, s.pub(b)).Some? && s.dh(a, s.pub(b)) == s.dh(c, s.pub(d))
      ensures (a == c && b == d) || (a == d && b == c)
    {
      SymbolicAgrees(a, b, c, d);
    }
  }
}
