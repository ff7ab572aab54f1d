/**
 The stateful objects of common/crypto that carry a Noise session. Every method is tied to the value-level
 operation of module Noise: the object's value after the call is that operation applied to the value before it.
 */
module NoiseObjects {
  import opened Prelude
  import Endian
  import Noise

  class CipherState<V> {
    const suite: Noise.Suite<V>
    var key: V
    var counter: nat
    var hasKey: bool

    ghost predicate Valid()
      reads this
    {
      counter <= Noise.MAX_COUNTER
    }

    ghost function Value(): Noise.Cipher<V>
      reads this
    {
      Noise.Cipher(key, counter, hasKey)
    }

    constructor (suite: Noise.Suite<V>)
      ensures Valid() && this.suite == suite
      ensures Value() == Noise.Cipher(suite.zero, 0, false)
    {
      this.suite := suite;
      key, counter, hasKey := suite.zero, 0, false;
    }

    method InitializeKey(newKey: V)
      modifies this
      ensures Valid() && Value() == Noise.Cipher(newKey, 0, true)
    {
      key, counter, hasKey := newKey, 0, true;
    }

    method BuildNonce() returns (nonce: Bytes)
      requires Valid()
      ensures nonce == Noise.Nonce(counter)
    {
      var out := new Byte[12](_ => 0);
      var weight: nat := 1;
      for index := 0 to 8
        invariant weight == Endian.Power256(index)
        invariant out[..4] == [0, 0, 0, 0]
        invariant out[4..4 + index] == Endian.Store(counter, index)
      {
        Endian.StoreSnoc(counter, index);
        out[4 + index] := (counter / weight) % 256;
        assert out[4..4 + index + 1] == out[4..4 + index] + [out[4 + index]];
        weight := 256 * weight;
      }
      nonce := out[..];
      assert nonce == out[..4] + out[4..12];
    }

    method EncryptWithAd(ad: V, plaintext: V) returns (out: Option<V>)
      requires Valid()
      modifies this
      ensures Valid() && (Value(), out) == Noise.Encrypt(suite, old(Value()), ad, plaintext)
    {
      if !hasKey {
        return Some(plaintext);
      }
      if counter == Noise.MAX_COUNTER {
        return None;
      }
      var nonce := BuildNonce();
      out := Some(suite.seal(key, nonce, ad, plaintext));
      counter := counter + 1;
    }

    method DecryptWithAd(ad: V, ciphertext: V) returns (out: Option<V>)
      requires Valid()
      modifies this
      ensures Valid() && (Value(), out) == Noise.Decrypt(suite, old(Value()), ad, ciphertext)
    {
      if !hasKey {
        return Some(ciphertext);
      }
      if suite.size(ciphertext) < TAG_SIZE {
        return None;
      }
      if counter == Noise.MAX_COUNTER {
        return None;
      }
      var nonce := BuildNonce();
      out := suite.open(key, nonce, ad, ciphertext);
      if out.Some? {
        counter := counter + 1;
      }
    }
  }

  class SymmetricState<V> {
    const suite: Noise.Suite<V>
    const cipher: CipherState<V>
    var chainingKey: V
    var hash: V

    ghost predicate Valid()
      reads this, cipher
    {
      cipher.Valid() && cipher.suite == suite
    }

    ghost function Value(): Noise.Symmetric<V>
      reads this, cipher
    {
      Noise.Symmetric(chainingKey, hash, cipher.Value())
    }

    constructor (suite: Noise.Suite<V>)
      ensures Valid() && fresh(cipher) && this.suite == suite
      ensures Value() == Noise.Initialize(suite)
    {
      this.suite := suite;
      cipher := new CipherState(suite);
      hash, chainingKey := suite.name, suite.name;
    }

    method MixHash(data: V)
      requires Valid()
      modifies this
      ensures Valid() && Value() == Noise.MixHash(suite, old(Value()), data)
    {
      hash := suite.hash(hash, data);
    }

    method MixKey(material: V)
      requires Valid()
      modifies this, cipher
      ensures Valid() && Value() == Noise.MixKey(suite, old(Value()), material)
    {
      var temporary := suite.derive(chainingKey, material);
      chainingKey := suite.chain(chainingKey, material);
      cipher.InitializeKey(temporary);
    }

    method EncryptAndHash(plaintext: V) returns (out: Option<V>)
      requires Valid()
      modifies this, cipher
      ensures Valid() && (Value(), out) == Noise.EncryptAndHash(suite, old(Value()), plaintext)
    {
      out := cipher.EncryptWithAd(hash, plaintext);
      if out.Some? {
        MixHash(out.value);
      }
    }

    method DecryptAndHash(ciphertext: V) returns (out: Option<V>)
      requires Valid()
      modifies this, cipher
      ensures Valid() && (Value(), out) == Noise.DecryptAndHash(suite, old(Value()), ciphertext)
    {
      out := cipher.DecryptWithAd(hash, ciphertext);
      if out.Some? {
        MixHash(ciphertext);
      }
    }
  }

  class HandshakeInitiator<V> {
    const state: SymmetricState<V>
    const remoteStatic: V
    var ephemeralPublic: V
    var ephemeralSecret: V
    var firstMessageSent: bool
    var complete: bool

    ghost predicate Valid()
      reads this, state, state.cipher
    {
      state.Valid()
    }

    ghost function Value(): Noise.Initiator<V>
      reads this, state, state.cipher
    {
      Noise.Initiator(state.Value(), remoteStatic, ephemeralPublic, ephemeralSecret, firstMessageSent, complete)
    }

    constructor (suite: Noise.Suite<V>, serverStaticPublic: V)
      ensures Valid() && fresh(state) && fresh(state.cipher) && state.suite == suite
      ensures Value() == Noise.NewInitiator(suite, serverStaticPublic)
    {
      var symmetric := new SymmetricState(suite);
      symmetric.MixHash(suite.prologue);
      symmetric.MixHash(serverStaticPublic);
      state, remoteStatic := symmetric, serverStaticPublic;
      ephemeralPublic, ephemeralSecret := suite.zero, suite.zero;
      firstMessageSent, complete := false, false;
    }

    method WriteFirstMessage(generated: Option<V>, payload: V) returns (out: Option<V>)
      requires Valid()
      modifies this, state, state.cipher
      ensures Valid() && (Value(), out) == Noise.WriteFirst(state.suite, old(Value()), generated, payload)
    {
      if firstMessageSent || generated.None? {
        return None;
      }
      ephemeralSecret := generated.value;
      ephemeralPublic := state.suite.pub(ephemeralSecret);
      state.MixHash(ephemeralPublic);
      var shared := state.suite.dh(ephemeralSecret, remoteStatic);
      if shared.None? {
        return None;
      }
      state.MixKey(shared.value);
      var sealed := state.EncryptAndHash(payload);
      if sealed.None? {
        return None;
      }
      out := Some(state.suite.join(ephemeralPublic, sealed.value));
      firstMessageSent := true;
    }

    method ReadSecondMessage(input: V) returns (payload: Option<V>)
      requires Valid()
      modifies this, state, state.cipher
      ensures Valid() && (Value(), payload) == Noise.ReadSecond(state.suite, old(Value()), input)
    {
      if !firstMessageSent || complete {
        return None;
      }
      var parts := state.suite.split(input);
      if parts.None? {
        return None;
      }
      var (remoteEphemeral, sealed) := parts.value;
      state.MixHash(remoteEphemeral);
      var shared := state.suite.dh(ephemeralSecret, remoteEphemeral);
      ephemeralSecret := state.suite.zero;
      if shared.None? {
        return None;
      }
      state.MixKey(shared.value);
      payload := state.DecryptAndHash(sealed);
      if payload.Some? {
        complete := true;
      }
    }

    method ExportTransportKeys() returns (keys: Option<Noise.KeyPair<V>>)
      requires Valid()
      ensures keys == Noise.InitiatorKeys(state.suite, Value())
    {
      if !complete {
        return None;
      }
      var first := state.suite.chain(state.chainingKey, state.suite.empty);
      var second := state.suite.derive(state.chainingKey, state.suite.empty);
      keys := Some(Noise.KeyPair(first, second));
    }
  }

  class HandshakeResponder<V> {
    const state: SymmetricState<V>
    const staticSecret: V
    var remoteEphemeral: V
    var firstMessageRead: bool
    var complete: bool

    ghost predicate Valid()
      reads this, state, state.cipher
    {
      state.Valid()
    }

    ghost function Value(): Noise.Responder<V>
      reads this, state, state.cipher
    {
      Noise.Responder(state.Value(), staticSecret, remoteEphemeral, firstMessageRead, complete)
    }

    constructor (suite: Noise.Suite<V>, staticPublic: V, staticSecret: V)
      ensures Valid() && fresh(state) && fresh(state.cipher) && state.suite == suite
      ensures Value() == Noise.NewResponder(suite, staticPublic, staticSecret)
    {
      var symmetric := new SymmetricState(suite);
      symmetric.MixHash(suite.prologue);
      symmetric.MixHash(staticPublic);
      this.state, this.staticSecret := symmetric, staticSecret;
      remoteEphemeral := suite.zero;
      firstMessageRead, complete := false, false;
    }

    method ReadFirstMessage(input: V) returns (payload: Option<V>)
      requires Valid()
      modifies this, state, state.cipher
      ensures Valid() && (Value(), payload) == Noise.ReadFirst(state.suite, old(Value()), input)
    {
      if firstMessageRead {
        return None;
      }
      var parts := state.suite.split(input);
      if parts.None? {
        return None;
      }
      remoteEphemeral := parts.value.0;
      state.MixHash(remoteEphemeral);
      var shared := state.suite.dh(staticSecret, remoteEphemeral);
      if shared.None? {
        return None;
      }
      state.MixKey(shared.value);
      payload := state.DecryptAndHash(parts.value.1);
      if payload.Some? {
        firstMessageRead := true;
      }
    }

    method WriteSecondMessage(generated: Option<V>, payload: V) returns (out: Option<V>)
      requires Valid()
      modifies this, state, state.cipher
      ensures Valid() && (Value(), out) == Noise.WriteSecond(state.suite, old(Value()), generated, payload)
    {
      if !firstMessageRead || complete || generated.None? {
        return None;
      }
      var ephemeralPublic := state.suite.pub(generated.value);
      state.MixHash(ephemeralPublic);
      var shared := state.suite.dh(generated.value, remoteEphemeral);
      if shared.None? {
        return None;
      }
      state.MixKey(shared.value);
      var sealed := state.EncryptAndHash(payload);
      if sealed.None? {
        return None;
      }
      out := Some(state.suite.join(ephemeralPublic, sealed.value));
      complete := true;
    }

    method ExportTransportKeys() returns (keys: Option<Noise.KeyPair<V>>)
      requires Valid()
      ensures keys == Noise.ResponderKeys(state.suite, Value())
    {
      if !complete {
        return None;
      }
      var first := state.suite.chain(state.chainingKey, state.suite.empty);
      var second := state.suite.derive(state.chainingKey, state.suite.empty);
      keys := Some(Noise.KeyPair(second, first));
    }
  }

  class TransportChannel<V> {
    const sendState: CipherState<V>
    const receiveState: CipherState<V>

    ghost predicate Valid()
      reads this, sendState, receiveState
    {
      && sendState != receiveState
      && sendState.Valid() && receiveState.Valid()
      && sendState.suite == receiveState.suite
    }

    ghost function Value(): Noise.Transport<V>
      reads this, sendState, receiveState
    {
      Noise.Transport(sendState.Value(), receiveState.Value())
    }

    constructor (suite: Noise.Suite<V>, sendKey: V, receiveKey: V)
      ensures Valid() && fresh(sendState) && fresh(receiveState) && sendState.suite == suite
      ensures Value() == Noise.NewTransport(Noise.KeyPair(sendKey, receiveKey))
    {
      var outgoing := new CipherState(suite);
      outgoing.InitializeKey(sendKey);
      var incoming := new CipherState(suite);
      incoming.InitializeKey(receiveKey);
      sendState, receiveState := outgoing, incoming;
    }

    method EncryptMessage(plaintext: V) returns (out: Option<V>)
      requires Valid()
      modifies sendState
      ensures Valid() && (Value(), out) == Noise.SealMessage(sendState.suite, old(Value()), plaintext)
    {
      out := sendState.EncryptWithAd(sendState.suite.empty, plaintext);
    }

    method DecryptMessage(ciphertext: V) returns (out: Option<V>)
      requires Valid()
      modifies receiveState
      ensures Valid() && (Value(), out) == Noise.OpenMessage(sendState.suite, old(Value()), ciphertext)
    {
      out := receiveState.DecryptWithAd(receiveState.suite.empty, ciphertext);
    }
  }
}
