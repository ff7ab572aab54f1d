/**
 A forger of letters, over the symbolic suite of `Letters`. It takes envelopes apart and makes up its own, holds every secret
 except the identities of one sender and one recipient, knows the sender's ephemeral secrets, and may have the sender write
 whatever it likes for whatever bundle it supplies. Both identities publish their prekeys and sign any challenge.
 */
module Forger {
  import opened Prelude
  import opened Letters
  import Utf8

  /** The two identities whose secrets are kept. */
  datatype Pair = Pair(sender: Bytes, recipient: Bytes)

  function Sender(g: Pair): Term {
    Data(g.sender)
  }

  function Recipient(g: Pair): Term {
    Data(g.recipient)
  }

  /** An envelope the sender seals, for any bundle and with any ephemeral secret. */
  function Writes(g: Pair, ephemeral: Term, b: Bundle<Term>, l: Letter): Result<Term> {
    SealLetter(SYMBOLIC, Sender(g), Some(ephemeral), b, l)
  }

  // ---------------------------------------------------------------------------------------------
  // What the forger can learn

  ghost predicate Written(g: Pair, t: Term) {
    exists ephemeral, b, l :: Writes(g, ephemeral, b, l) == Ok(t)
  }

  /** A bundle out of what the forger knows. */
  ghost predicate Supplied(known: seq<Term>, b: Bundle<Term>) {
    b.owner in known && b.prekey in known && b.signature in known
  }

  /** What the sender writes for such a bundle. */
  ghost predicate WrittenFor(g: Pair, known: seq<Term>, t: Term) {
    exists ephemeral, b, l :: Supplied(known, b) && Writes(g, ephemeral, b, l) == Ok(t)
  }

  /** The domain under which challenges are signed on entry, another than that of prekeys. */
  const ENTRY_DOMAIN := Data([5])

  /** What either of the two signs: its published prekey, and challenges. */
  ghost predicate Signature(g: Pair, known: seq<Term>, t: Term) {
    && t.Signed? && (t.signer == Sender(g) || t.signer == Recipient(g))
    && (|| t == Published(SYMBOLIC, t.signer).signature
        || exists nonce :: nonce in known && t.text == Join(ENTRY_DOMAIN, nonce, IdentityKey(t.signer)))
  }

  ghost predicate Makes(known: seq<Term>, t: Term) {
    match t
    case Seed(of) => of in known
    case XSecret(of) => of in known
    case Shared(_) => exists a, b :: a in known && b in known && TermExchange(a, b) == Some(t)
    case Extract(salt, m) => salt in known && m in known
    case Expand(k, info, _) => k in known && info in known
    case Join(a, b, c) => a in known && b in known && c in known
    case Sealed(k, ad, p) => k in known && ad in known && p in known
    case Packed(_, body) => body in known
    case Signed(signer, text) => signer in known && text in known
    case _ => false
  }

  ghost predicate Extracts(known: seq<Term>, t: Term) {
    || (exists e :: e in known && e.Packed? && e.body == t)
    || (exists c :: c in known && c.Sealed? && c.key in known && c.plaintext == t)
  }

  /** Public values, all other secrets, what the sender writes, and what can be made or extracted. */
  ghost predicate Learns(g: Pair, known: seq<Term>, t: Term) {
    || t.Pub? || t.IdentityKey? || t.HeaderTerm? || t.Payload?
    || (t.Data? && t.bytes != g.sender && t.bytes != g.recipient)
    || WrittenFor(g, known, t) || Signature(g, known, t) || Makes(known, t) || Extracts(known, t)
  }

  ghost predicate Forgery(g: Pair, trace: seq<Term>) {
    trace != [] ==>
      var before := trace[..|trace| - 1];
      Forgery(g, before) && Learns(g, before, trace[|trace| - 1])
  }

  // ---------------------------------------------------------------------------------------------
  // What it never learns

  /** The secret that the sender's identity and the recipient's prekey share. */
  function Core(g: Pair): Term {
    Shared(multiset{XSecret(Sender(g)), PrekeySecret(SYMBOLIC, Recipient(g))})
  }

  /** Sealed by the sender, as the body of some envelope. */
  ghost predicate WrittenBody(g: Pair, c: Term) {
    exists e :: Written(g, e) && e.Packed? && e.body == c
  }

  predicate ForEntry(text: Term) {
    text.Join? && text.a == ENTRY_DOMAIN
  }

  ghost predicate Safe(g: Pair, t: Term) {
    match t
    case Data(bytes) => bytes != g.sender && bytes != g.recipient
    case Seed(of) => Safe(g, of)
    case XSecret(of) => Safe(g, of)
    case Shared(_) => t != Core(g)
    case Extract(_, m) => Safe(g, m)
    case Expand(k, _, _) => Safe(g, k)
    case Join(a, b, c) => Safe(g, a) && Safe(g, b) && Safe(g, c)
    case Sealed(k, _, p) => Safe(g, p) && (Safe(g, k) || WrittenBody(g, t))
    case Packed(_, body) => Safe(g, body)
    case Signed(signer, text) => Safe(g, signer) || t == Published(SYMBOLIC, signer).signature || ForEntry(text)
    case _ => true
  }

  lemma WrittenSafe(g: Pair, t: Term)
    requires Written(g, t)
    ensures Safe(g, t)
  {
    WrittenShape(g, t);
    PackedSafe(g, t, t.body);
  }

  lemma PackedSafe(g: Pair, t: Term, c: Term)
    requires Written(g, t) && t.Packed? && t.body == c && c.Sealed? && c.plaintext.Payload?
    ensures Safe(g, t)
  {
    assert WrittenBody(g, c);
    assert Safe(g, c.plaintext);
    assert Safe(g, c);
  }

  lemma WrittenShape(g: Pair, t: Term)
    requires Written(g, t)
    ensures t.Packed? && t.body.Sealed? && t.body.plaintext.Payload?
  {
  }

  lemma OwnersUnsafe(g: Pair, info: Term)
    ensures !Safe(g, XSecret(Sender(g))) && !Safe(g, Expand(Seed(Recipient(g)), info, 1))
  {
    assert !Safe(g, Sender(g)) && !Safe(g, Recipient(g)) && !Safe(g, Seed(Recipient(g)));
  }

  lemma SharedSafe(g: Pair, a: Term, b: Term)
    requires Safe(g, a) && b.Pub?
    ensures TermExchange(a, b).value != Core(g)
  {
    var x, y := XSecret(Sender(g)), PrekeySecret(SYMBOLIC, Recipient(g));
    OwnersUnsafe(g, SYMBOLIC.prekeyInfo);
    assert y == Expand(Seed(Recipient(g)), SYMBOLIC.prekeyInfo, 1);
    assert a !in multiset{x, y} && a in multiset{a, b.of};
  }

  lemma MakesSafe(g: Pair, known: seq<Term>, t: Term)
    requires Makes(known, t) && (forall k <- known :: Safe(g, k))
    ensures Safe(g, t)
  {
    if t.Shared? {
      var a, b :| a in known && b in known && TermExchange(a, b) == Some(t);
      SharedSafe(g, a, b);
    }
  }

  lemma ExtractsSafe(g: Pair, known: seq<Term>, t: Term)
    requires Extracts(known, t) && (forall k <- known :: Safe(g, k))
    ensures Safe(g, t)
  {
    if e :| e in known && e.Packed? && e.body == t {
      assert Safe(g, e);
    } else {
      var c :| c in known && c.Sealed? && c.key in known && c.plaintext == t;
      assert Safe(g, c);
    }
  }

  /** Whatever the forger does, all it learns is safe. */
  lemma {:induction false} OnlySafeLearned(g: Pair, trace: seq<Term>)
    requires Forgery(g, trace)
    ensures forall t <- trace :: Safe(g, t)
    decreases |trace|
  {
    if trace != [] {
      var before, last := trace[..|trace| - 1], trace[|trace| - 1];
      OnlySafeLearned(g, before);
      if WrittenFor(g, before, last) {
        WrittenSafe(g, last);
      } else if Makes(before, last) {
        MakesSafe(g, before, last);
      } else if Extracts(before, last) {
        ExtractsSafe(g, before, last);
      }
      assert Safe(g, last);
      LastApart(trace);
    }
  }

  // ---------------------------------------------------------------------------------------------
  // What follows for the recipient

  /** The parts of an envelope that opens, for any reader. */
  lemma OpenedParts(recipient: Term, envelope: Term, l: Letter)
    requires OpenLetter(SYMBOLIC, recipient, envelope) == Ok(l)
    ensures envelope.Packed? && envelope.body.Sealed? && envelope.body.ad == HeaderTerm(envelope.front)
    ensures SYMBOLIC.readPayload(envelope.body.plaintext) == Some(l)
    ensures
      var h := envelope.front;
      var root := RecipientRoot(SYMBOLIC, recipient, PrekeySecret(SYMBOLIC, recipient), h.senderIdentity, h.senderEphemeral);
      root.Some? && envelope.body.key == MessageKey(SYMBOLIC, root.value, 0)
  {
  }

  /** The key of a letter that opens at the recipient and names the sender: the core secret went into it. */
  lemma OpenedKey(g: Pair, envelope: Term, l: Letter) returns (second: Term, third: Term)
    requires OpenLetter(SYMBOLIC, Recipient(g), envelope) == Ok(l)
    requires envelope.Packed? && envelope.front.senderIdentity == IdentityKey(Sender(g))
    ensures envelope.body.Sealed?
    ensures envelope.body.key == MessageKey(SYMBOLIC, Combine(SYMBOLIC, Core(g), second, third), 0)
  {
    OpenedParts(Recipient(g), envelope, l);
    CoreInRoot(g, envelope.front.senderEphemeral);
    second, third :| RecipientRoot(SYMBOLIC, Recipient(g), PrekeySecret(SYMBOLIC, Recipient(g)), IdentityKey(Sender(g)),
                                   envelope.front.senderEphemeral) == Some(Combine(SYMBOLIC, Core(g), second, third));
  }

  lemma CoreInRoot(g: Pair, ephemeral: Term)
    requires RecipientRoot(SYMBOLIC, Recipient(g), PrekeySecret(SYMBOLIC, Recipient(g)), IdentityKey(Sender(g)), ephemeral).Some?
    ensures
      exists second, third ::
        RecipientRoot(SYMBOLIC, Recipient(g), PrekeySecret(SYMBOLIC, Recipient(g)), IdentityKey(Sender(g)), ephemeral)
        == Some(Combine(SYMBOLIC, Core(g), second, third))
  {
    var r := Recipient(g);
    var prekey := PrekeySecret(SYMBOLIC, r);
    assert multiset{prekey, XSecret(Sender(g))} == multiset{XSecret(Sender(g)), prekey};
    assert TermExchange(prekey, Pub(XSecret(Sender(g)))) == Some(Core(g));
    var second, third := TermExchange(XSecret(r), ephemeral).value, TermExchange(prekey, ephemeral).value;
    assert RecipientRoot(SYMBOLIC, r, prekey, IdentityKey(Sender(g)), ephemeral) == Some(Combine(SYMBOLIC, Core(g), second, third));
  }

  lemma NestedUnsafe(g: Pair, domain: Term, second: Term, third: Term, info: Term, other: Term)
    ensures !Safe(g, Expand(Expand(Extract(domain, Join(Core(g), second, third)), info, 1), other, 1))
  {
    var joined := Join(Core(g), second, third);
    assert !Safe(g, Core(g)) && !Safe(g, joined) && !Safe(g, Extract(domain, joined));
    assert !Safe(g, Expand(Extract(domain, joined), info, 1));
  }

  lemma CoreKeyUnsafe(g: Pair, key: Term, second: Term, third: Term)
    requires key == MessageKey(SYMBOLIC, Combine(SYMBOLIC, Core(g), second, third), 0)
    ensures !Safe(g, key)
  {
    NestedUnsafe(g, SYMBOLIC.sessionDomain, second, third, SYMBOLIC.noInfo, SYMBOLIC.messageInfo);
  }

  /** The sender wrote exactly this envelope, with this letter, for the recipient's own prekey. */
  ghost predicate WroteFor(g: Pair, envelope: Term, l: Letter) {
    exists ephemeral, b ::
      Writes(g, ephemeral, b, l) == Ok(envelope) && b.prekey == Pub(PrekeySecret(SYMBOLIC, Recipient(g)))
  }

  lemma WrittenKey(g: Pair, ephemeral: Term, b: Bundle<Term>, l: Letter)
    requires Writes(g, ephemeral, b, l).Ok?
    ensures b.prekey.Pub? && Writes(g, ephemeral, b, l).value.Packed?
    ensures
      var e := Writes(g, ephemeral, b, l).value;
      && e.body.Sealed? && e.body.ad == HeaderTerm(e.front) && e.body.plaintext == Payload(l)
      && exists second, third ::
           e.body.key == MessageKey(SYMBOLIC, Combine(SYMBOLIC, Shared(multiset{XSecret(Sender(g)), b.prekey.of}), second, third), 0)
  {
    var first := TermExchange(XSecret(Sender(g)), b.prekey).value;
    var second := TermExchange(ephemeral, SYMBOLIC.publicToX(b.owner).value).value;
    var third := TermExchange(ephemeral, b.prekey).value;
    assert SenderRoot(SYMBOLIC, Sender(g), ephemeral, b.owner, b.prekey) == Some(Combine(SYMBOLIC, first, second, third));
  }

  lemma SameKeySamePrekey(g: Pair, of: Term, key: Term, a: Term, b: Term, c: Term, d: Term)
    requires key == MessageKey(SYMBOLIC, Combine(SYMBOLIC, Core(g), a, b), 0)
    requires key == MessageKey(SYMBOLIC, Combine(SYMBOLIC, Shared(multiset{XSecret(Sender(g)), of}), c, d), 0)
    ensures of == PrekeySecret(SYMBOLIC, Recipient(g))
  {
    var x, y := XSecret(Sender(g)), PrekeySecret(SYMBOLIC, Recipient(g));
    assert multiset{x, of} == multiset{x, y};
    PairsMatch(x, of, x, y);
  }

  /**
   Nobody forges a letter between the two: whatever envelope the forger can make, if it opens at the recipient and names the
   sender, then the sender wrote exactly that envelope, with that letter, for the recipient's own prekey.
   */
  lemma LettersAreWritten(g: Pair, trace: seq<Term>, envelope: Term, l: Letter)
    requires Forgery(g, trace) && envelope in trace && OpenLetter(SYMBOLIC, Recipient(g), envelope) == Ok(l)
    requires envelope.Packed? && envelope.front.senderIdentity == IdentityKey(Sender(g))
    ensures WroteFor(g, envelope, l)
  {
    OpenedParts(Recipient(g), envelope, l);
    var second, third := OpenedKey(g, envelope, l);
    SealedByWriter(g, trace, envelope, envelope.body, second, third);
    BodyIsEnvelopes(g, envelope, l, second, third);
  }

  lemma SealedByWriter(g: Pair, trace: seq<Term>, envelope: Term, c: Term, second: Term, third: Term)
    requires Forgery(g, trace) && envelope in trace && envelope.Packed? && envelope.body == c && c.Sealed?
    requires c.key == MessageKey(SYMBOLIC, Combine(SYMBOLIC, Core(g), second, third), 0)
    ensures WrittenBody(g, c)
  {
    OnlySafeLearned(g, trace);
    CoreKeyUnsafe(g, c.key, second, third);
    UnsafeKeyWritten(g, envelope, c);
  }

  lemma UnsafeKeyWritten(g: Pair, envelope: Term, c: Term)
    requires Safe(g, envelope) && envelope.Packed? && envelope.body == c && c.Sealed? && !Safe(g, c.key)
    ensures WrittenBody(g, c)
  {
    assert Safe(g, c);
  }

  lemma BodyIsEnvelopes(g: Pair, envelope: Term, l: Letter, second: Term, third: Term)
    requires envelope.Packed? && envelope.body.Sealed? && envelope.body.ad == HeaderTerm(envelope.front)
    requires envelope.body.key == MessageKey(SYMBOLIC, Combine(SYMBOLIC, Core(g), second, third), 0)
    requires WrittenBody(g, envelope.body) && SYMBOLIC.readPayload(envelope.body.plaintext) == Some(l)
    ensures WroteFor(g, envelope, l)
  {
    var e :| Written(g, e) && e.Packed? && e.body == envelope.body;
    var ephemeral, b, written :| Writes(g, ephemeral, b, written) == Ok(e);
    WrittenKey(g, ephemeral, b, written);
    var c, d :| e.body.key
                == MessageKey(SYMBOLIC, Combine(SYMBOLIC, Shared(multiset{XSecret(Sender(g)), b.prekey.of}), c, d), 0);
    SameKeySamePrekey(g, b.prekey.of, e.body.key, second, third, c, d);
    assert e.front == envelope.front && e == envelope && written == l;
  }

  /** The forger supplies the bundle, but the signature in it is the recipient's own: so the prekey is. */
  lemma SuppliedIsPublished(g: Pair, trace: seq<Term>, b: Bundle<Term>)
    requires Forgery(g, trace) && Supplied(trace, b) && b.owner == IdentityKey(Recipient(g)) && BundleVerified(SYMBOLIC, b)
    ensures b == Published(SYMBOLIC, Recipient(g))
  {
    OnlySafeLearned(g, trace);
    assert Safe(g, b.signature);
    SignatureShape(b);
    assert !Safe(g, Recipient(g));
  }

  lemma SignatureShape(b: Bundle<Term>)
    requires BundleVerified(SYMBOLIC, b)
    ensures b.owner.IdentityKey? && b.signature == Signed(b.owner.of, Join(SYMBOLIC.prekeyDomain, b.owner, b.prekey))
    ensures b.signature.text.a != ENTRY_DOMAIN
  {
  }

  /**
   Nobody comes between the two: whatever bundle naming the recipient the forger supplies, if the sender seals a letter for it
   then it is the one the recipient published, the letter opens there, and its key is never learned.
   */
  lemma SealedForRecipient(g: Pair, trace: seq<Term>, ephemeral: Term, b: Bundle<Term>, l: Letter)
    requires Forgery(g, trace) && Supplied(trace, b) && b.owner == IdentityKey(Recipient(g)) && Writes(g, ephemeral, b, l).Ok?
    ensures
      var envelope := Writes(g, ephemeral, b, l).value;
      && b == Published(SYMBOLIC, Recipient(g))
      && envelope.Packed? && envelope.body.Sealed? && envelope.body.key !in trace
      && (Utf8.Valid(l.text) ==> OpenLetter(SYMBOLIC, Recipient(g), envelope) == Ok(l))
  {
    SuppliedIsPublished(g, trace, b);
    WrittenKey(g, ephemeral, b, l);
    var key := Writes(g, ephemeral, b, l).value.body.key;
    var second, third
      :| key == MessageKey(SYMBOLIC, Combine(SYMBOLIC, Shared(multiset{XSecret(Sender(g)), b.prekey.of}), second, third), 0);
    CoreKeyUnsafe(g, key, second, third);
    OnlySafeLearned(g, trace);
    if Utf8.Valid(l.text) {
      var envelope := WrittenOpens(g, ephemeral, b, l);
    }
  }

  /** Such letters exist: what the sender writes for the recipient's bundle opens there, and the forger may relay it. */
  lemma RelayedLetterOpens(g: Pair, ephemeral: Term, l: Letter) returns (envelope: Term)
    requires Utf8.Valid(l.text)
    ensures
      var b := Published(SYMBOLIC, Recipient(g));
      Forgery(g, [b.owner, b.prekey, b.signature, envelope]) && OpenLetter(SYMBOLIC, Recipient(g), envelope) == Ok(l)
  {
    envelope := WrittenOpens(g, ephemeral, Published(SYMBOLIC, Recipient(g)), l);
    Relayed(g, ephemeral, Published(SYMBOLIC, Recipient(g)), l, envelope);
  }

  lemma WrittenOpens(g: Pair, ephemeral: Term, b: Bundle<Term>, l: Letter) returns (envelope: Term)
    requires b == Published(SYMBOLIC, Recipient(g)) && Utf8.Valid(l.text)
    ensures Writes(g, ephemeral, b, l) == Ok(envelope) && OpenLetter(SYMBOLIC, Recipient(g), envelope) == Ok(l)
  {
    RootsCommute(Sender(g), ephemeral, Recipient(g));
    var root := SenderRoot(SYMBOLIC, Sender(g), ephemeral, b.owner, b.prekey).value;
    var h := Letters.Header(ENVELOPE_VERSION, IdentityKey(Sender(g)), Pub(ephemeral), 0);
    envelope := Packed(h, Sealed(MessageKey(SYMBOLIC, root, 0), HeaderTerm(h), Payload(l)));
    PackedOpens(Recipient(g), h, root, l);
  }

  lemma SymbolicOperations(h: Header<Term>, key: Term, l: Letter)
    requires h.version == ENVELOPE_VERSION && Utf8.Valid(l.text)
    ensures
      var body := Sealed(key, HeaderTerm(h), Payload(l));
      && SYMBOLIC.parse(Packed(h, body)) == Some((h, body)) && SYMBOLIC.header(h) == HeaderTerm(h)
      && SYMBOLIC.open(key, HeaderTerm(h), body) == Some(Payload(l)) && SYMBOLIC.readPayload(Payload(l)) == Some(l)
  {
  }

  lemma PackedOpens(recipient: Term, h: Header<Term>, root: Term, l: Letter)
    requires h.version == ENVELOPE_VERSION && Utf8.Valid(l.text)
    requires RecipientRoot(SYMBOLIC, recipient, PrekeySecret(SYMBOLIC, recipient), h.senderIdentity, h.senderEphemeral) == Some(root)
    ensures OpenLetter(SYMBOLIC, recipient, Packed(h, Sealed(MessageKey(SYMBOLIC, root, 0), HeaderTerm(h), Payload(l)))) == Ok(l)
  {
    SymbolicOperations(h, MessageKey(SYMBOLIC, root, 0), l);
    OpenInSteps(SYMBOLIC, recipient, Packed(h, Sealed(MessageKey(SYMBOLIC, root, 0), HeaderTerm(h), Payload(l))),
                h, Sealed(MessageKey(SYMBOLIC, root, 0), HeaderTerm(h), Payload(l)), root, Payload(l), l);
  }

  lemma OpenInSteps<V>(s: Suite<V>, recipient: V, envelope: V, h: Header<V>, body: V, root: V, plaintext: V, l: Letter)
    requires s.parse(envelope) == Some((h, body))
    requires RecipientRoot(s, recipient, PrekeySecret(s, recipient), h.senderIdentity, h.senderEphemeral) == Some(root)
    requires s.open(MessageKey(s, root, 0), s.header(h), body) == Some(plaintext) && s.readPayload(plaintext) == Some(l)
    ensures OpenLetter(s, recipient, envelope) == Ok(l)
  {
  }

  lemma RootsCommute(sender: Term, ephemeral: Term, recipient: Term)
    ensures
      var prekey := PrekeySecret(SYMBOLIC, recipient);
      && SenderRoot(SYMBOLIC, sender, ephemeral, IdentityKey(recipient), Pub(prekey)).Some?
      && SenderRoot(SYMBOLIC, sender, ephemeral, IdentityKey(recipient), Pub(prekey))
         == RecipientRoot(SYMBOLIC, recipient, prekey, IdentityKey(sender), Pub(ephemeral))
  {
    var prekey, x, y := PrekeySecret(SYMBOLIC, recipient), XSecret(sender), XSecret(recipient);
    assert multiset{x, prekey} == multiset{prekey, x};
    assert multiset{ephemeral, y} == multiset{y, ephemeral};
    assert multiset{ephemeral, prekey} == multiset{prekey, ephemeral};
  }

  lemma LearnsNext(g: Pair, trace: seq<Term>, t: Term)
    requires Forgery(g, trace) && Learns(g, trace, t)
    ensures Forgery(g, trace + [t])
  {
    assert (trace + [t])[..|trace|] == trace;
  }

  lemma BundleLearned(g: Pair, b: Bundle<Term>)
    requires b == Published(SYMBOLIC, Recipient(g))
    ensures Forgery(g, [b.owner, b.prekey, b.signature])
  {
    LearnsNext(g, [], b.owner);
    LearnsNext(g, [b.owner], b.prekey);
    assert Signature(g, [b.owner, b.prekey], b.signature);
    LearnsNext(g, [b.owner, b.prekey], b.signature);
  }

  lemma LetterLearned(g: Pair, known: seq<Term>, ephemeral: Term, b: Bundle<Term>, l: Letter, envelope: Term)
    requires Supplied(known, b) && Writes(g, ephemeral, b, l) == Ok(envelope)
    ensures Learns(g, known, envelope)
  {
    assert WrittenFor(g, known, envelope);
  }

  lemma Relayed(g: Pair, ephemeral: Term, b: Bundle<Term>, l: Letter, envelope: Term)
    requires b == Published(SYMBOLIC, Recipient(g)) && Writes(g, ephemeral, b, l) == Ok(envelope)
    ensures Forgery(g, [b.owner, b.prekey, b.signature, envelope])
  {
    var known := [b.owner, b.prekey, b.signature];
    BundleLearned(g, b);
    LetterLearned(g, known, ephemeral, b, l, envelope);
    LearnsNext(g, known, envelope);
    assert known + [envelope] == [b.owner, b.prekey, b.signature, envelope];
  }
}
