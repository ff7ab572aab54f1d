# HyperCom, modelled and proved in Dafny

HyperCom is an encrypted social network: an epoll server, a native client and a hand-written protocol stack between them. This
project models the parts of it that carry state or arithmetic and proves what each of them is for. `dafny verify dfyconfig.toml`
checks everything.

## The results in one page

* **Channel** (`Noise`, `NoiseObjects`, `Frames`, `LengthStream`, `SealedFrames`, `Pipeline`, `PipelineObjects`, `Intake`,
  `ClientLink`, `ClientIntake`). For every list of frames a client sends after an NK handshake with the right pinned key, every
  cut of any prefix of its byte stream into reads, every flush in between and every handler, the server loop hands the handler
  exactly those frames, in order, sends its answers in order, and keeps just the incomplete tail (`Pipeline.EndToEnd`). Of what
  the socket took, cut anyhow, the client receives a prefix of the handler's answers to its own frames, up to the first that
  found no room, and all of those exactly when each comes in time (`ClientLink.ConversationArrives`). This rests on agreement of
  the handshake for every lawful suite (`Noise.HandshakeAgrees`), on what one read delivers (`LengthStream.ReadDelivers`) and on
  the frame codec being a bijection. For arbitrary bytes, honest or not, the handler is given exactly the frames that the
  messages taken off the stream are authentic for, and the first that is not ends the connection (`Intake.AnyStream`), however
  the bytes are cut (`LengthStream.ChunkingIrrelevant`). The server and client classes refine the functions these are about.
* **Authentication of the server** (`Noise`, `Attacker`). What a handshake message must be to be accepted, for every input
  (`Noise.FirstAccepted`, `Noise.SecondAccepted`). Against an attacker who holds every secret but two and may have the server
  answer anything, a client completes only if the server answered that client's own first message with that very reply, then
  opens only what that session of the server said, in order, and the transport keys stay secret
  (`Attacker.ClientOnlyCompletesWithServer`, `Attacker.ClientHearsOnlyServer`, `Attacker.TransportKeysSecret`).
* **Sessions** (`Sessions`, `SessionObjects`, `Accounts`, `Mailbox`, `Correspondence`). One world of sessions, accounts and
  letters; events of any number of connections interleave. Over every run an authenticated connection has proved possession of
  its own key over its own nonce, an account id names the row with that key, and with fresh nonces and binding signatures no
  signature is ever good twice. Who gets in, as whom, is characterised exactly, bans included (`Accounts`). What is sent to a
  key is fetched by the session that proved that key, under the sender's proven key, until that account acknowledges it, and
  nothing else is (`Correspondence.LetterDelivered`, `Correspondence.OnlyOwnLetters`).
* **Shared tables** (`RateLimit`, `RateLayers`, `Registry`). Purging never changes a decision; how much each limit lets through
  in a minute, with bounds that are reached for every limit, whatever the clock does; connection counts agree with the
  connections over every run.
* **Comment threads** (`TextOrder`, `ThreadPaths`, `Threads`, `ThreadEdits`). Sorting the recursive query's rows by their path
  text is the bounded preorder traversal of the forest that the create path builds, exactly when sibling ids sort as texts as
  they do as numbers; for all threads together, exactly while ids stay below 10^10. A comment is blank exactly if its own author
  deleted it after it was posted.
* **Codecs** (`Endian`, `ByteStreams`, `Utf8`, `WireCodec`, `WireLayouts`, `WireObjects`). One theorem makes every message
  layout a bijection between in-cap messages and accepted bytes; the UTF-8 check is exactly section 4 of RFC 3629 minus the
  forbidden controls.
* **Recovery phrase** (`BitStrings`, `Recovery`). Round trip both ways between 16 bytes and 12 words, and the number that the
  words count to.
* **Direct messages** (`Letters`, `DirectMessages`, `Forger`). A sealed letter opens to what was sealed, with the recipient's
  identity alone; under ideal primitives it opens for nobody else and in no other envelope, and nobody without the secrets of
  sender or recipient makes a letter between the two (`Forger.LettersAreWritten`) or passes another prekey off as the
  recipient's (`Forger.SealedForRecipient`).
* **Admin line** (`AdminLine`). Which argument lists survive adminctl's quoting and the server's tokenizer, exactly.

## How the code is modelled

* What the source computes becomes a function; what it updates in place becomes a class or a method with a loop whose `ensures`
  ties the new state to that function, about which the laws are proved.
* A byte is an integer from 0 to 255. Shifts and masks are divisions and remainders by powers of two; setting a clear bit is
  adding its weight.
* Cryptographic primitives are function values with stated laws: `Lawful` (Diffie-Hellman agrees, an AEAD opens exactly what it
  sealed and adds 16 bytes) and `Ideal` (no hash collision; a ciphertext determines its key, nonce, associated data and
  plaintext). What an identity signs verifies, and one signature is over one text (`Letters.Signs`, `Letters.SignaturesBind`).
  On bytes, where that cannot hold of all keys and texts at once, one key's tags are asked to tell its nonces apart
  (`Noise.NoncesTell`, met by `Pipeline.ToyNoncesTell`). `Noise.SymbolicIsIdeal`, `Letters.SymbolicIsIdeal`,
  `Pipeline.ToyIsLawful` and `DirectMessages.ToyIsSound` give instances, so no theorem rests on contradictory laws. In the
  symbolic ones a shared secret is an unordered pair of secrets. Key derivation, hashing and sealing are taken as total. A fresh
  secret is a parameter that may be missing.
* A socket yields arbitrary chunks, possibly with its closing in the same call, and takes as much pending output as it likes. In
  the pipeline the rate check and the router together are an arbitrary function, from the frames seen so far and the new one to
  the frames sent back, one after the other, and whether the connection goes on. Each is marked with whether the code looks at
  the result of sending it: the session guard does not, all other senders do. The model logs every send with the room and
  the counter it found.
* SQL tables are maps from ids, with ids that only grow. The assumed schema is that of `db/migrations`: unique public keys,
  handles unique up to ASCII case, comment rows never removed. The recursive query is modelled level by level; the final sort is
  any sequence with the right members in the right order.
* Handles, admin lines and recovery phrases are strings of characters; what the wire carries is bytes.

## Where the code is not what one would expect

* The error reader stops at code 14, so the code for a banned account, 15, is written but refused (`WireCodec.ErrorRoundTrip`).
* A per-address cap of 0 still admits a first connection (`Registry.AdmittedIff`), and inserting over a live descriptor would
  break the counts (`Registry.InsertConsistent`).
* `read_length_prefixed` leaves the length field consumed when it fails on the length (`ByteStreams.ByteReader.ReadPrefixed`).
* Comments deeper than 24 are dropped without the truncated flag (`Threads.CompleteListing`, `Threads.DeepCommentsUnflagged`).
* Path texts are ten digits wide: `Threads.TenDigitsExactly` says for which ids sorting is right, `ThreadPaths.FormatOrderIff` for
  which two of them.
* A fetch from an id of 2^63 or more starts over from the beginning (`Mailbox.SinceHonoured`).
* Twice the limit passes when the sixty seconds are counted inclusively, one less to the second, and the limit alone is a
  bound for a limit of one only (`RateLimit.DoublingHappens`, `RateLimit.StrictBoundReached`, `RateLimit.SingleBoundIff`).
* The client's fifty tries read at most 16 KiB each and the last one no longer looks, so a frame may be too large for one
  receive; nothing is lost, the next receive goes on (`ClientLink.OneReceiveBrings`, `ClientLink.ReceivesIff`).
* Frames that arrive in the same call as the close are appended and never looked at; `Pipeline.HangupLoses` says which are lost.
* The session guard ignores whether its refusal could be queued. With the queue full the reply is dropped after its counter was
  used up, the connection goes on, and the client refuses every later reply: `Pipeline.RefusalDropped`, and
  `Pipeline.ServingInFullStepIff` for exactly when both ends stay in step. The comment in server/handlers/session_guard.cpp says
  that the next failed flush closes the connection; a full socket is not a failed flush.
* A clock that is set back lets two more limits' worth through each time (`RateLimit.SetBackBound`).
* The ratchet's 32-bit counter wraps while its keys go on (`DirectMessages.MessageChain.DeriveNext`).
* adminctl does not refuse arguments that its quoting cannot carry (`AdminLine.ArrivesIffCarried`).
* The courier seals any bytes as text, but opens only valid text (`Letters.LetterArrives`).

## Model

| member | source | states |
|---|---|---|
| Endian.LoadOfStore | common/protocol/endian_codec.hpp:32-45 | every integer below 256^width is loaded back from the bytes it was stored as |
| Endian.StoreOfLoad | common/protocol/endian_codec.hpp:14-30 | every byte string is the stored form of the integer loaded from it |
| Endian.LoadLittleEndian | common/protocol/endian_codec.hpp:14-30 | the byte loop refuses exactly the short sources and otherwise yields the little-endian value, which fits the width |
| Endian.StoreLittleEndian | common/protocol/endian_codec.hpp:32-45 | refuses exactly the short targets, untouched; otherwise fills the first bytes and leaves the rest |
| ByteStreams.ByteReader.ReadFixedBytes | common/protocol/byte_reader.cpp:16-35 | takes the next n bytes, or fails and leaves the cursor where it was |
| ByteStreams.ByteReader.ReadInt | common/protocol/byte_reader.hpp:25-33 | takes the next integer, or fails and leaves the cursor where it was |
| ByteStreams.ByteReader.ReadPrefixed | common/protocol/byte_reader.cpp:37-58 | takes a length within the cap and that many bytes; on failure exactly the length field, if it was there, is consumed |
| ByteStreams.ByteWriter.WriteInteger | common/protocol/byte_writer.hpp:23-31 | appends the stored integer and changes nothing before it |
| ByteStreams.ByteWriter.WriteLengthPrefixed | common/protocol/byte_writer.cpp:15-19 | appends the 32-bit length and the bytes |
| LengthStream.ExtractOfFramed | common/protocol/length_prefixed_stream.cpp:9-46 | an in-cap message framed in front of any tail is extracted, leaving exactly the tail |
| LengthStream.FramedOfExtract | common/protocol/length_prefixed_stream.cpp:9-38 | whatever is extracted was in cap and framed at the front of the buffer |
| LengthStream.ExtractStable | common/protocol/length_prefixed_stream.cpp:9-38 | a message or malformed verdict is never changed by bytes that come later |
| LengthStream.StreamBuffer.ExtractMessage | common/protocol/length_prefixed_stream.cpp:9-38 | erases exactly an extracted message, leaves the buffer alone otherwise, and shrinks it on success |
| LengthStream.AppendMessage | common/protocol/length_prefixed_stream.cpp:40-46 | appends the framed payload to the output |
| LengthStream.DrainExtends | server/handlers/connection_processor.cpp:70-91 | draining and then reading more is draining once what arrived in two parts, for any step |
| LengthStream.ChunkingIrrelevant | server/handlers/connection_processor.cpp:64-92 | for all bytes and cuts the loop has the state, verdict and leftover of a single read |
| LengthStream.ParseMeaning | common/protocol/length_prefixed_stream.cpp:9-46 | a one-shot parse splits the stream into framed in-cap messages and a leftover that is incomplete or malformed as the verdict says |
| LengthStream.StreamParseUnique | server/handlers/connection_processor.cpp:64-92 | every stream, cut anyhow, yields that split |
| LengthStream.DrainWire | server/handlers/connection_processor.cpp:70-91 | framed messages reach the step one by one until it refuses one |
| LengthStream.ReadDelivers | server/handlers/connection_processor.cpp:67-91 | one read runs the step on exactly the messages it completes and keeps a proper part of the next |
| LengthStream.PrefixDelivery | server/handlers/connection_processor.cpp:64-92 | of any prefix of framed messages, cut anyhow, the whole ones were delivered and the buffer is a proper part of the next |
| LengthStream.DrainAccounts | server/handlers/connection_processor.cpp:70-91 | of any buffer the loop takes the framed messages at the front, one account of all of them kept step by step, until the rest is incomplete, malformed, or a step ends it |
| Noise.NonceInjective | common/crypto/noise_cipher_state.cpp:24-34 | different 64-bit counters have different 12-byte nonces |
| Noise.NonceLayout | common/crypto/noise_cipher_state.cpp:24-34 | a nonce is four zero bytes and the counter, least significant byte first |
| Noise.CipherRoundTrip | common/crypto/noise_cipher_state.cpp:36-92 | sealing fails exactly at the last counter, what is sealed opens and moves both ends alike, and without a key text passes as it is |
| Noise.RefusalMovesNothing | common/crypto/noise_payload_codec.cpp:5-29 | a refused ciphertext or failed seal leaves the whole state alone; otherwise the ciphertext is hashed in |
| Noise.InitiatorInTurn | common/crypto/noise_handshake_initiator.cpp:38-109 | each step is taken once and in its turn, and keys exist after the last |
| Noise.ResponderInTurn | common/crypto/noise_handshake_responder.cpp:35-111 | the same for the responder |
| Noise.FirstMessageAgrees | common/crypto/noise_handshake_initiator.cpp:38-65 | the pinned responder recovers the payload and both sides hold the same state; no message exists when the exchange fails |
| Noise.HandshakeAgrees | common/crypto/noise_handshake_responder.cpp:21-111 | an unmodified run ends with equal hash and chaining key, both payloads recovered and crossed transport keys |
| Noise.HandshakeFollowsPattern | common/crypto/noise_symmetric_state.cpp:11-63 | messages, final hash and key directions are those section 7.5 of the Noise framework prescribes for NK, written out |
| Noise.FirstAccepted | common/crypto/noise_handshake_responder.cpp:35-62 | for every input: a payload is read if and only if the message seals it under the key of the exchange, the first nonce and the transcript |
| Noise.SecondAccepted | common/crypto/noise_handshake_initiator.cpp:67-100 | the same for every reply, under both exchanges and the transcript with the initiator's own first message |
| Noise.FirstMessageBinds | common/crypto/noise_payload_codec.cpp:18-29 | of all messages that show an initiator's ciphertext a responder accepts exactly the unchanged one, and only with the pinned key; a changed ciphertext under the same ephemeral never yields the payload |
| Noise.SecondMessageBinds | common/crypto/noise_payload_codec.cpp:5-29 | of all messages that show a responder's ciphertext an initiator accepts exactly the unchanged one, and only if that responder holds the pinned key and heard the first message unchanged; a changed ciphertext never yields the payload |
| Noise.FirstTranscript | common/crypto/noise_symmetric_state.cpp:31-57 | the initiator's hash covers name, prologue, pinned key, ephemeral and ciphertext |
| Noise.ReplyTranscript | common/crypto/noise_handshake_responder.cpp:64-96 | a responder's reply is sealed under both exchanges and the transcript of what it heard |
| Noise.NoncesNeverRepeat | common/crypto/noise_cipher_state.cpp:36-60 | over every run of a transport seals use consecutive counters, distinct nonces, and never the last value |
| Noise.ForgeriesHarmless | common/crypto/noise_cipher_state.cpp:62-92 | with any forgeries interleaved, each is refused and every genuine message still opens in order |
| Noise.ReplayRefused | common/crypto/noise_cipher_state.cpp:62-92 | where tags tell the nonces, a message sealed at any other counter, recorded or too early, is refused and the receiver is unchanged |
| Noise.IdealNoncesTell | common/crypto/noise_cipher_state.cpp:24-34 | under ideal primitives tags tell the nonces of every key |
| Noise.SymbolicIsIdeal | common/crypto/noise_symmetric_state.cpp:31-63 | a term model meets all the ideal laws, so they are consistent |
| Attacker.OnlySafeLearned | common/crypto/noise_symmetric_state.cpp:31-63 | whatever an attacker relays, makes, opens or has answered, it learns nothing that the shared secret of client and server went into |
| Attacker.ClientOnlyCompletesWithServer | common/crypto/noise_handshake_initiator.cpp:67-100 | a client completes on an attacker's message only if the pinned server answered exactly this client's first message with exactly that reply |
| Attacker.TransportKeysSecret | common/crypto/noise_symmetric_state.cpp:59-63 | and the attacker learns neither transport key |
| Attacker.ClientHearsOnlyServer | common/crypto/noise_transport.cpp:22-26 | whatever transport messages the client opens one after the other, the session of the server that answered it said exactly that, in that order, from its first message on |
| Attacker.MessagesAreSealed | common/crypto/noise_transport.cpp:5-20 | the transport messages of the model are what transports over the exported keys seal |
| Attacker.RelayCompletes | common/crypto/noise_handshake_responder.cpp:35-96 | the honest exchange is one of the attacker's runs and completes |
| Attacker.RelaySpeaks | common/crypto/noise_transport.cpp:5-26 | relayed on, the server's first transport message opens too |
| NoiseObjects.CipherState.InitializeKey | common/crypto/noise_cipher_state.cpp:12-17 | sets the key and restarts the counter |
| NoiseObjects.CipherState.BuildNonce | common/crypto/noise_cipher_state.cpp:24-34 | the byte loop yields four zero bytes and the counter, least significant byte first |
| NoiseObjects.CipherState.EncryptWithAd | common/crypto/noise_cipher_state.cpp:36-60 | refines the cipher whose nonces never repeat |
| NoiseObjects.CipherState.DecryptWithAd | common/crypto/noise_cipher_state.cpp:62-92 | refines the cipher that forgeries do not move |
| NoiseObjects.SymmetricState.constructor | common/crypto/noise_symmetric_state.cpp:11-29 | hash and chaining key start as the 32-byte protocol name, without a cipher key |
| NoiseObjects.SymmetricState.MixHash | common/crypto/noise_symmetric_state.cpp:31-41 | only the hash changes |
| NoiseObjects.SymmetricState.MixKey | common/crypto/noise_symmetric_state.cpp:43-57 | chaining key and cipher change, the cipher restarting at counter 0, the hash does not |
| NoiseObjects.SymmetricState.EncryptAndHash | common/crypto/noise_payload_codec.cpp:5-16 | seals under the running hash, then mixes in the ciphertext |
| NoiseObjects.SymmetricState.DecryptAndHash | common/crypto/noise_payload_codec.cpp:18-29 | opens under the running hash and mixes in the ciphertext only on success |
| NoiseObjects.HandshakeInitiator.constructor | common/crypto/noise_handshake_initiator.cpp:21-36 | starts with prologue and pinned key hashed |
| NoiseObjects.HandshakeInitiator.WriteFirstMessage | common/crypto/noise_handshake_initiator.cpp:38-65 | refines the initiator's first step, failures and their partial state included |
| NoiseObjects.HandshakeInitiator.ReadSecondMessage | common/crypto/noise_handshake_initiator.cpp:67-100 | refines the initiator's second step, failures and the wiped ephemeral included |
| NoiseObjects.HandshakeInitiator.ExportTransportKeys | common/crypto/noise_handshake_initiator.cpp:102-109 | keys only after completion, first output to send |
| NoiseObjects.HandshakeResponder.constructor | common/crypto/noise_handshake_responder.cpp:21-33 | starts with prologue and own key hashed |
| NoiseObjects.HandshakeResponder.ReadFirstMessage | common/crypto/noise_handshake_responder.cpp:35-62 | refines the responder's first step, failures included |
| NoiseObjects.HandshakeResponder.WriteSecondMessage | common/crypto/noise_handshake_responder.cpp:64-96 | refines the responder's second step, failures included |
| NoiseObjects.HandshakeResponder.ExportTransportKeys | common/crypto/noise_handshake_responder.cpp:98-111 | keys only after completion, first output to receive |
| NoiseObjects.TransportChannel.EncryptMessage | common/crypto/noise_transport.cpp:13-20 | advances only the sending cipher |
| NoiseObjects.TransportChannel.DecryptMessage | common/crypto/noise_transport.cpp:22-26 | advances only the receiving cipher |
| Frames.EncodeFrame | common/protocol/frame_codec.cpp:41-55 | refuses exactly the payloads over the cap, otherwise yields the encoding the bijection is about |
| Frames.FrameBijection | common/protocol/frame_codec.cpp:9-55 | header checks and exact length accept precisely the encodings of sendable frames, each of which fits a frame |
| Frames.KnownTypesListed | common/protocol/message_type.hpp:9-72 | the known types are exactly the enumerators of the source, one by one |
| Frames.HeaderIff | common/protocol/frame_codec.cpp:9-39 | a header is accepted exactly if whole, with a body size from 1 to the cap and a known type |
| SealedFrames.AllQueuedIff | server/handlers/response_builder.cpp:9-23 | a log of sends has all its frames queued, sealed in turn, with the counter after them, if and only if none was blocked |
| SealedFrames.WireTells | server/net/connection_socket.cpp:107-114 | the bytes alone tell: they are those of all frames, with the counter after them, if and only if no send was blocked |
| SealedFrames.QueuedSplit | server/handlers/response_builder.cpp:9-23 | what is queued is the frames before the first loss, sealed in turn, and then strays |
| SealedFrames.StrayCounters | common/crypto/noise_cipher_state.cpp:36-60 | a stray is sealed beyond the counter a receiver of the frames before the loss has come to |
| SealedFrames.OpenedIff | common/crypto/noise_transport.cpp:22-26 | any message opens and decodes to exactly the frame it is authentic for, if there is one |
| Pipeline.FrameArrives | server/handlers/connection_processor.cpp:35-60 | a frame sealed by a client in step opens, is dispatched unchanged, and its answers are sent one after the other until a checked one fails |
| Pipeline.SendsKeep | server/handlers/response_builder.cpp:9-23 | a run of sends logs the replies in order, all of them or up to a checked one that failed, and the queue is the unblocked ones, each sealed under its counter |
| Pipeline.FrameServed | server/handlers/connection_processor.cpp:77-90 | one more frame is dispatched with all its answers sent and every checked one queued, or stops the server for a named reason |
| Pipeline.HandshakeOnce | server/net/noise_channel.cpp:12-36 | a channel reads one first message in its life, whether it can answer it or not |
| Pipeline.HandshakeEstablishes | server/net/noise_channel.cpp:12-36 | short of a low-order point, two 48-byte messages leave the server ready, the reply pending and ciphers in step both ways |
| Pipeline.EndToEnd | server/handlers/connection_processor.cpp:19-92 | from connect on, for every frame list, prefix, cut, flushing and handler: exactly the frames sent, in order, all answers sent in order and every checked one queued and sealed, only the incomplete tail kept; closed only by the handler, a failed checked reply or a hangup, which leaves the server as it found it |
| Pipeline.HangupLoses | server/net/connection_socket.cpp:26-64 | bytes read with the close stay in the buffer, and every whole message read was processed if and only if they did not complete the next one |
| Pipeline.FullStepIff | server/handlers/response_builder.cpp:9-23 | all that was sent is queued, sealed in turn, with the cipher in step, if and only if no send was blocked |
| Pipeline.ServingInFullStepIff | server/handlers/session_guard.cpp:7-18 | while the server serves that is so if and only if no unchecked refusal was blocked when it was sent |
| Pipeline.RefusalDropped | server/handlers/session_guard.cpp:13-17 | a refusal at a full queue is dropped, the connection goes on, and the cipher is one ahead of the wire |
| Pipeline.ToyIsLawful | server/net/noise_channel.cpp:12-59 | some byte suite meets every law assumed of the primitives |
| Pipeline.ToyNoncesTell | common/crypto/noise_cipher_state.cpp:24-34 | under each of its keys tags tell the nonces |
| Pipeline.ToyCompletes | client/net/server_connection.cpp:62-98 | with that suite every handler and frame list has an honest scenario, so the end-to-end theorem's premises can be met |
| PipelineObjects.NoiseChannel.AcceptHandshakeMessage | server/net/noise_channel.cpp:12-36 | refines the server's handshake step; an established channel refuses another |
| PipelineObjects.NoiseChannel.OpenMessage | server/net/noise_channel.cpp:43-50 | opens only once established, advancing only the receiving cipher |
| PipelineObjects.NoiseChannel.SealMessage | server/net/noise_channel.cpp:52-59 | seals only once established, advancing only the sending cipher |
| PipelineObjects.Connection.QueueBytes | server/net/connection_socket.cpp:107-114 | appends within the cap on pending output, or changes nothing |
| PipelineObjects.Connection.FlushPendingWrites | server/net/connection_socket.cpp:66-105 | moves a front of the pending output to the socket, losing and reordering nothing |
| PipelineObjects.Connection.SendRawMessage | server/handlers/response_builder.cpp:9-23 | refines the send of the theorem; the cipher has advanced even if the queue refuses |
| PipelineObjects.Connection.SendReplies | server/handlers/session_guard.cpp:7-18 | sends in order, gives up at the first checked failure, and goes on after an unchecked one |
| PipelineObjects.Connection.DispatchInPlace | server/handlers/connection_processor.cpp:35-60 | refines the dispatch of the theorem: checked frame, answer sent, verdict |
| PipelineObjects.Connection.AdvanceHandshakeInPlace | server/handlers/connection_processor.cpp:19-33 | queues the framed reply within the output cap and leaves the handshake phase, or fails |
| PipelineObjects.Connection.ReceiveInPlace | server/handlers/connection_processor.cpp:77-90 | refines the step of the delivery theorem: handshake first, then open, check and dispatch |
| PipelineObjects.Connection.DrainOnce | server/handlers/connection_processor.cpp:70-91 | one round makes the drain's remaining work smaller without changing its result |
| PipelineObjects.Connection.DrainBuffer | server/handlers/connection_processor.cpp:70-91 | the loop ends, in the drain's state and verdict |
| PipelineObjects.Connection.ProcessInput | server/handlers/connection_processor.cpp:64-92 | one readiness event refines the event of the theorem; bytes read together with a close are kept and never drained |
| PipelineObjects.Connection.ServiceEvents | server/net/server_runtime.cpp:158-185 | over all its events the connection is in the state and verdict that the end-to-end theorem describes |
| Intake.EveryMessage | server/handlers/connection_processor.cpp:77-90 | whatever message an established connection takes: if no frame makes it authentic under the key, counter and empty data, the connection ends, nothing reaches the handler and nothing is sent; else its frame is dispatched and only the answer may end it |
| Intake.FirstMessage | server/handlers/connection_processor.cpp:19-33 | a first message that establishes no transport ends the connection, and nothing is sent |
| Intake.CarriedOnce | server/handlers/connection_processor.cpp:35-46 | the frames are determined by the messages |
| Intake.AnyStream | server/handlers/connection_processor.cpp:64-92 | for all bytes, cuts, flushes and handlers: the handler was given exactly the frames that the messages taken are authentic for, in order; an open connection took every whole message; a closed one ended at its last message, at a length not allowed, or by a hangup |
| ClientLink.PullFinds | client/net/server_connection.cpp:37-60 | however the bytes are cut, the next framed message is pulled if it is whole within the attempts, leaving what follows |
| ClientLink.PullMisses | client/net/server_connection.cpp:37-60 | if it is not whole within the attempts nothing is pulled, and nothing lost unless the peer closed |
| ClientLink.ReceivesIff | client/net/server_connection.cpp:149-175 | in step with the server, a receive returns the next frame if and only if it is whole within the tries; a stray closes; an open client stays in step |
| ClientLink.ReceivesPrefix | client/net/server_connection.cpp:149-175 | any number of receives bring a prefix of the frames the server sealed, in order |
| ClientLink.ReceivesAllFrames | client/net/server_connection.cpp:149-175 | one receive per frame gets them all if and only if each is whole within the tries of its own receive |
| ClientLink.OneReceiveBrings | client/net/tcp_client_socket.cpp:191-213 | with reads of at most 16 KiB one receive from an empty buffer can bring a frame if and only if its message is at most 49 reads long |
| ClientLink.LargestFrameMissed | client/net/server_connection.cpp:40-59 | the largest sendable frame is not brought by any such receive |
| ClientLink.ConversationArrives | client/net/server_connection.cpp:62-175 | over any reads, flushes and cuts in both directions the client derives the agreed keys and receives a prefix of the handler's answers to its own frames, never beyond the first lost one; all of those if and only if each is timely; and they are all that was sent if and only if no send was blocked |
| ClientIntake.PullAny | client/net/server_connection.cpp:37-60 | whatever comes, a pull reads on while the buffer is incomplete and tries are left, and ends with the first message, a bad length, a closed peer or no answer; the last try reads and does not look |
| ClientIntake.ReceiveAny | client/net/server_connection.cpp:149-175 | a receive returns a frame if and only if a message was pulled that is authentic for it under the next counter; all else but no answer closes |
| ClientIntake.ReplyAny | client/net/server_connection.cpp:75-98 | on any reply the client has keys if and only if it carries a payload under the pinned key and the transcript, and then those of both exchanges; else it is the wrong server |
| ClientLink.ServerConnection.PullNextMessage | client/net/server_connection.cpp:37-60 | refines the pull, and closes exactly on a bad length or a closed peer |
| ClientLink.ServerConnection.FinishHandshake | client/net/server_connection.cpp:80-98 | a transport with the exported keys, or the reason why not |
| ClientLink.ServerConnection.PerformHandshake | client/net/server_connection.cpp:62-98 | sends the framed first message, takes the reply, has the agreed keys or the right failure, and closes on a bad length or a closed peer |
| ClientLink.ServerConnection.SendFrame | client/net/server_connection.cpp:130-147 | puts the framed sealed frame on the wire, or nothing |
| ClientLink.ServerConnection.Receive | client/net/server_connection.cpp:149-175 | refines the receive above, open flag included: a bad length, a closed peer or what is not a frame closes, a timeout does not |
| Sessions.StepKeepsInvariant | server/handlers/session_handler.cpp:48-153 | every event keeps the world's invariant, touches no other connection, and moves sessions only forward |
| Sessions.RunKeepsInvariant | server/handlers/session_handler.cpp:19-153 | every reachable world: unique keys and handles, and an account id only on an authenticated session whose key and handle the row holds |
| Sessions.RunAdvances | server/handlers/session_handler.cpp:48-115 | over any stretch of any run phases only move forward, key and nonce are frozen after hello, the account once acquired |
| Sessions.OnlyHelloAnnounces | server/handlers/session_handler.cpp:48-75 | only an accepted hello brings a session to a challenge, with the key it names and the nonce drawn for it |
| Sessions.OnlyProofAuthenticates | server/handlers/session_handler.cpp:77-115 | only a signature verifying over the session's own nonce and key authenticates it |
| Sessions.AuthenticatedOnlyByProof | server/handlers/session_handler.cpp:77-115 | in every interleaving an authenticated connection said hello with its key and later proved it, nonce and key unchanged between |
| Sessions.AccountHoldsProvenKey | server/db/user_repository.cpp:30-75 | a session's account is the one row with the key it proved |
| Sessions.SignatureUsedOnce | server/handlers/session_handler.cpp:77-115 | with fresh nonces and signatures that bind key and text, one signature authenticates one connection once, in every run |
| Sessions.BindingExists | server/handlers/session_handler.cpp:77-115 | some verification meets that law |
| Sessions.OnlySendDeposits | server/handlers/dm_handler.cpp:15-47 | letters appear only through a send by a registered session: its ciphertext, under its key, for the account that has the key it names |
| Sessions.SenderIsProven | server/handlers/dm_handler.cpp:36-41 | over every run each stored letter was sent to the key of the account it is for, and carries the key its depositing connection had proved |
| Accounts.ChallengedIff | server/handlers/session_handler.cpp:48-75 | a hello is challenged if and only if it is the first, decodes and names this version; key and nonce are then the session's, and whether an account has the key is told truly |
| Accounts.AuthenticatedIff | server/handlers/session_handler.cpp:77-115 | a proof over domain, own nonce and own key lets the session in if and only if no banned account has the key, as the account that has it or as none, with the active announcement; a banned one is told so; no proof ends the connection |
| Accounts.RegisteredIff | server/handlers/session_handler.cpp:117-153 | a registration makes exactly one account, under the next number, for the proven key, if and only if registration is open and nobody has the handle or the key; else nothing, with the refusal of the source |
| Accounts.HandleMeaning | common/protocol/register_message.cpp:35-53 | a handle is 3 to 32 letters, digits, hyphens and underscores, not starting with a digit |
| Accounts.HandlesCollide | db/migrations/0002_handle_case_insensitive.sql:23-23 | two handles collide if and only if they differ in the case of letters at most |
| Accounts.GuardedRequests | server/handlers/session_guard.cpp:7-18 | without an account nothing of the mailbox is seen or changed |
| Accounts.ClosedIff | server/handlers/session_handler.cpp:48-153 | a connection hears that it is closed if and only if it is |
| Accounts.HonestEntry | server/handlers/session_handler.cpp:48-115 | in every interleaving a connection that shakes hands, says hello and signs its challenge is authenticated under its key, unless a banned account has it |
| Accounts.BannedIff | server/db/user_repository.cpp:77-86 | over every run an account is banned if and only if the last ban that met it was not lifted |
| Accounts.BoardShows | server/db/motd_repository.cpp:16-61 | over every run what sessions are shown is the last announcement unless withdrawn, numbered by how many there were |
| Correspondence.SendStores | server/handlers/dm_handler.cpp:15-47 | a letter to a known key is stored under the next number for the account that has it, with the sender's key and the ciphertext, and nothing else changes; to an unknown one nothing is |
| Correspondence.AckConfirmed | server/handlers/dm_handler.cpp:73-92 | an acknowledgment is confirmed with its number of ids, or rolled back as a whole |
| Correspondence.UnreadableCloses | server/handlers/dm_handler.cpp:22-84 | a request that does not decode ends the connection and changes nothing else |
| Correspondence.OnlyRecipientRemoves | server/db/dm_repository.cpp:75-102 | a letter stays as it is through every event but an acknowledgment by a session of its own recipient |
| Correspondence.LetterWaits | server/db/dm_repository.cpp:15-102 | over any stretch of any run a letter is still there, unchanged, if and only if its recipient has not acknowledged it |
| Correspondence.PageHolds | server/handlers/dm_handler.cpp:49-71 | a fetch changes nothing and lists letters of the session's own account after the named id, as many as asked for within 1 to 100, none passed over |
| Correspondence.LetterDelivered | server/handlers/dm_handler.cpp:15-92 | over every run what was sent to a key is listed to the session that proved it, with its sender's proven key and its ciphertext, until the account acknowledges it, and never after |
| Correspondence.OnlyOwnLetters | server/handlers/dm_handler.cpp:49-71 | over every run whatever is listed was sent to the key the session proved, by a session that had proved its own |
| SessionObjects.Application.FinishHandshake | server/handlers/connection_processor.cpp:19-33 | leaves the handshake phase, once |
| SessionObjects.Application.SetBanned | server/db/user_repository.cpp:77-86 | changes one flag of one existing row |
| SessionObjects.Application.PublishNotice | server/db/motd_repository.cpp:31-62 | withdraws the active announcement and puts the new one, if any, under the next number |
| SessionObjects.Application.CreateUser | server/db/user_repository.cpp:57-75 | adds a row under the next id unless handle or key is taken, and then changes nothing |
| SessionObjects.Application.AcceptSession | server/handlers/session_handler.cpp:19-44 | authenticates as the account and answers with its id and handle, and with the active announcement if there is one |
| SessionObjects.Application.HandleHello | server/handlers/session_handler.cpp:48-75 | refines the hello step of the run theorems, refusals included |
| SessionObjects.Application.HandleAuth | server/handlers/session_handler.cpp:77-115 | refines the proof step, with closed, banned, known and unknown outcomes |
| SessionObjects.Application.HandleRegister | server/handlers/session_handler.cpp:117-153 | refines the registration step, refusals included |
| SessionObjects.Application.RequireRegisteredSession | server/handlers/session_guard.cpp:7-18 | lets exactly authenticated sessions with an account pass |
| SessionObjects.Application.HandleSend | server/handlers/dm_handler.cpp:15-47 | refines the deposit step, refusals included |
| SessionObjects.Application.HandleFetch | server/handlers/dm_handler.cpp:49-71 | refines the page step, changing no letter |
| SessionObjects.Application.HandleAck | server/handlers/dm_handler.cpp:73-92 | refines the acknowledgment step, a database fault included |
| SessionObjects.Application.Handle | server/handlers/request_router.cpp:138-168 | each request gets its step |
| SessionObjects.Application.OnEvent | server/net/server_runtime.cpp:118-221 | connections, disconnections, bans and messages take the world's step |
| SessionObjects.Application.Serve | server/net/server_runtime.cpp:118-221 | over any events the server's tables are the world of the run theorems, and its invariant holds |
| Mailbox.CursorMeaning | server/db/dm_repository.cpp:39-73 | the listing is exactly the recipient's letters in range, with sender and ciphertext as stored, strictly ascending |
| Mailbox.NonePassedOver | server/db/dm_repository.cpp:39-73 | a page lists letters of the recipient after the named id, and any such letter is on it or after its last, of a full page |
| Mailbox.PagingComplete | server/db/dm_repository.cpp:39-73 | fetching from the last id until no more is announced returns all pending letters, each once and in order, whatever the page sizes |
| Mailbox.AcknowledgeEffect | server/db/dm_repository.cpp:75-102 | an acknowledgment removes exactly the listed ids from the recipient's list and nobody else's |
| Mailbox.HugeSinceFetchesAll | server/handlers/dm_handler.cpp:49-71 | an id from 2^63 on turns negative and the fetch starts over |
| Mailbox.SinceHonoured | server/handlers/dm_handler.cpp:49-71 | a fetch lists what lies after its id if and only if the id is below 2^63 or nothing is pending |
| Mailbox.MailTable.InsertEnvelope | server/db/dm_repository.cpp:15-37 | adds one row under an id above all earlier ones |
| Mailbox.MailTable.ListForRecipient | server/db/dm_repository.cpp:39-73 | the stepping loop yields the first page, letters and all, and says exactly whether more follows |
| Mailbox.MailTable.DeleteAcknowledged | server/db/dm_repository.cpp:75-102 | deletes all listed rows of that recipient, or on a fault restores them all |
| RateLimit.PurgeTransparent | server/net/rate_tracker.cpp:31-45 | on every schedule with a clock that does not run backwards, purging anywhere leaves every decision as without purging |
| RateLimit.MinuteBound | server/net/rate_limiter.cpp:15-30 | on every such schedule at most twice the limit passes in any sixty seconds, per address and per identity |
| RateLimit.WindowBound | server/net/rate_limiter.cpp:15-30 | within a window at most the limit passes |
| RateLimit.QuietGetsThrough | server/net/rate_tracker.cpp:12-29 | on every schedule a request a minute after all earlier ones of its address and identity is allowed |
| RateLimit.DoublingHappens | server/net/rate_limiter.cpp:15-30 | for every limit, subject and second, twice the limit does pass between a second and the sixtieth after it |
| RateLimit.StrictMinuteBound | server/net/rate_limiter.cpp:15-30 | in sixty seconds to the second, at any date after the clock's first minute, at most one less than twice the limit passes |
| RateLimit.StrictBoundReached | server/net/rate_limiter.cpp:15-30 | and so many do pass, for every limit and subject |
| RateLimit.SingleBoundIff | server/net/rate_limiter.cpp:15-30 | the limit itself bounds sixty seconds on every schedule if and only if it is one |
| RateLimit.SingleBound | server/net/rate_limiter.cpp:15-30 | for any limit it bounds them on a schedule whose window does not restart inside them |
| RateLimit.SetBackBound | server/net/rate_limiter.cpp:15-30 | for any clock and any sweeps, at most twice the limit passes in a minute for each stretch between set-backs |
| RateLimit.SetBackBoundReached | server/net/rate_limiter.cpp:18-21 | and so much does pass, for every limit, subject and number of set-backs |
| RateLimit.RateTracker.RegisterEvent | server/net/rate_limiter.cpp:15-30 | updates counter and start as the window the bounds are about |
| RateLimit.RateTracker.AllowAddress | server/net/rate_tracker.cpp:12-18 | charges that address alone |
| RateLimit.RateTracker.AllowIdentity | server/net/rate_tracker.cpp:20-29 | charges that identity alone; user 0 passes uncharged |
| RateLimit.RateTracker.Check | server/handlers/connection_processor.cpp:47-57 | address first, identity only if the address may proceed: the policy of the run theorems |
| RateLimit.RateTracker.Forget | server/net/rate_tracker.cpp:31-45 | erasing while walking removes exactly the expired windows |
| RateLimit.RateTracker.ForgetExpiredWindows | server/net/rate_tracker.cpp:31-45 | purges both tables |
| RateLayers.Layered | server/net/rate_tracker.cpp:12-29 | the policy is the two limits counting on their own: the identity counts exactly the requests of an account that their address let through, and a request passes if and only if both let it |
| RateLayers.SweepLeaves | server/net/rate_tracker.cpp:31-45 | a sweep leaves exactly the windows that began less than two minutes before, unchanged |
| Registry.InsertConsistent | server/net/connection_registry.cpp:5-24 | an insertion keeps the counts right if and only if it is refused or the descriptor is fresh |
| Registry.AdmittedIff | server/net/connection_registry.cpp:11-21 | admission in terms of live connections: room in all, and none from the address yet or fewer than the cap |
| Registry.RemoveKeeps | server/net/connection_registry.cpp:26-44 | a removal keeps counts and caps and takes out exactly that descriptor |
| Registry.RunConsistent | server/net/connection_registry.cpp:5-79 | over every run with fresh descriptors counts equal live connections, with no zero entries, and both caps hold |
| Registry.ExpiredIff | server/net/connection_registry.cpp:53-79 | until it is authenticated a connection expires after the handshake budget, then after the idle one, where 0 is none |
| Registry.LastSeen | server/net/connection_registry.cpp:5-79 | over every run a live connection is as its last sign of life left it, from the address it came in with, and nothing has taken it out |
| Registry.ConnectionRegistry.InsertConnection | server/net/connection_registry.cpp:5-24 | refines insertion and keeps the agreement for a fresh descriptor |
| Registry.ConnectionRegistry.RemoveConnection | server/net/connection_registry.cpp:26-44 | refines removal and keeps the agreement |
| Registry.ConnectionRegistry.CollectExpired | server/net/connection_registry.cpp:53-79 | lists exactly the expired descriptors |
| Registry.ConnectionRegistry.SweepExpired | server/net/server_runtime.cpp:217-233 | exactly the expired connections go, and the counts follow |
| ThreadPaths.FormatIsFixed | server/db/comment_repository.cpp:16-33 | an id below 10^10 is printed as its ten decimal digits |
| ThreadPaths.FormatOrderIff | server/db/comment_repository.cpp:16-33 | two ids sort as texts in their own order if and only if they print equally wide or the smaller is at most the larger cut to its width |
| ThreadPaths.RenderOrder | server/db/comment_repository.cpp:16-33 | paths in preorder have their texts in byte order if the ids where they part do |
| ThreadPaths.WideIdsMisordered | server/db/comment_repository.cpp:16-33 | id 10^10 sorts before its predecessor, the pair behind the exact bound |
| Threads.BuildIsForest | server/handlers/content_handler.cpp:117-163 | whatever is posted and erased, parents exist, are older and share the post |
| Threads.ThreadMeaning | server/db/comment_repository.cpp:16-33 | the recursion reaches exactly the post's comments of depth at most 24, with true depth and path |
| Threads.TraversalComplete | server/db/comment_repository.cpp:16-33 | the reference traversal visits every such comment, at its depth |
| Threads.ThreadIsPreorder | server/db/comment_repository.cpp:16-33 | rows sorted by path text are the bounded preorder traversal, siblings by id, with depths, if and only if sibling ids sort as texts as they do as numbers, as all below 10^10 do |
| Threads.TenDigitsExactly | server/db/comment_repository.cpp:16-33 | over every table that edits build with ids up to n, every sorted thread is the traversal if and only if n is below 10^10 |
| Threads.SortedResultExists | server/db/comment_repository.cpp:16-33 | such a sorted result exists for every such thread |
| Threads.ParentsFirst | server/db/comment_repository.cpp:16-33 | each reply follows its parent, one level deeper, and nothing repeats |
| Threads.CompleteListing | server/db/comment_repository.cpp:99-125 | the listing holds the whole thread if and only if it fits the limit and no comment lies deeper than 24 |
| Threads.DeepCommentsUnflagged | server/db/comment_repository.cpp:28-28 | however long a chain of replies is posted, for any limit of 25 or more the traversal fits, so the flag stays clear, and every later comment is missing |
| ThreadEdits.CreatedIff | server/handlers/content_handler.cpp:117-163 | a comment is made, under the next number, if and only if it has text, its post exists and its parent, if any, is a comment of that post; each refusal has its own condition |
| ThreadEdits.BlankedIff | server/db/comment_repository.cpp:139-155 | a deletion takes the text of the author's own comment if it has one, and changes nothing else |
| ThreadEdits.CommentHistory | server/db/comment_repository.cpp:139-155 | over all edits a comment has the post, parent and author it was posted with, and is blank if and only if its author deleted it since |
| Threads.CommentRepository.CreateComment | server/handlers/content_handler.cpp:117-163 | refines the create path's checks and keeps the forest |
| Threads.CommentRepository.DeleteOwnComment | server/db/comment_repository.cpp:139-155 | blanks the author's own comment in place and keeps the forest |
| Threads.CommentRepository.ListThread | server/db/comment_repository.cpp:99-125 | the stepping loop yields the first n sorted rows, truncated if and only if the traversal has more nodes; where siblings sort by id these are its first n nodes |
| Utf8.MeasureOfEncode | common/protocol/text_field_codec.cpp:9-73 | the canonical encoding of an allowed scalar value is measured exactly, whatever follows |
| Utf8.EncodeOfMeasure | common/protocol/text_field_codec.cpp:9-73 | whatever is measured is the canonical encoding of an allowed scalar value |
| Utf8.ValidIffWellFormed | common/protocol/text_field_codec.cpp:77-88 | text is accepted if and only if it is a concatenation of canonical encodings of allowed scalar values |
| Utf8.DecodingUnique | common/protocol/text_field_codec.cpp:77-88 | that decomposition is unique |
| Utf8.MeasureUtf8Sequence | common/protocol/text_field_codec.cpp:41-73 | the byte loop measures what the two lemmas above are about |
| Utf8.ValidateTextField | common/protocol/text_field_codec.cpp:77-88 | the loop's verdict is the one characterised above, the empty text included |
| WireCodec.ReadWritten | common/protocol/record_list_codec.hpp:20-52 | any in-cap field, lists nested included, is read back leaving exactly what follows |
| WireCodec.WriteRead | common/protocol/record_list_codec.hpp:20-42 | any accepted field is in cap and rewrites to exactly the bytes consumed |
| WireCodec.CodecBijection | common/protocol/content_records.cpp:7-53 | every layout: reading gives a message and a rest if and only if the message is in cap and the bytes are it and the rest |
| WireCodec.ThreadResponseRoundTrip | common/protocol/thread_fetch_message.cpp:17-29 | a thread answer with its post and comments comes back if and only if it respects every cap |
| WireCodec.ThreadResponseInjective | common/protocol/thread_fetch_message.cpp:17-29 | different thread answers have different bytes |
| WireCodec.ErrorRoundTrip | common/protocol/status_message.cpp:9-44 | an error answer comes back if and only if its code is at most 14 |
| WireCodec.AckRoundTrip | common/protocol/dm_ack_message.cpp:7-34 | an acknowledgment of 64-bit ids is read back if and only if there are at most a hundred |
| WireCodec.Top8RoundTrip | common/protocol/top8_message.cpp:50-60 | eight key slots and a list of friends come back if and only if each slot is a key, there are at most eight friends, and each has texts in cap and a known status |
| WireLayouts.CommentLayout | common/protocol/content_records.cpp:31-41 | the fields of a comment as bytes, in the order of the source |
| WireLayouts.ThreadLayout | common/protocol/thread_fetch_message.cpp:17-22 | the post's fields, the comments behind their 16-bit number, and the flag, as bytes |
| WireLayouts.FriendLayout | common/protocol/social_records.cpp:44-50 | the fields of a friend as bytes |
| WireLayouts.Top8Layout | common/protocol/top8_message.cpp:50-54 | the slots, and the friends behind their 16-bit number, as bytes |
| WireLayouts.AckLayout | common/protocol/dm_ack_message.cpp:7-13 | the ids as 64-bit integers behind their 16-bit number |
| WireObjects.ReadTextField | common/protocol/text_field_codec.cpp:90-103 | a prefixed text within its cap is accepted if and only if it is valid |
| WireObjects.ReadFieldFrom | common/protocol/content_records.cpp:19-29 | the cursor reads a field as the bijection says |
| WireObjects.ReadRecordFrom | common/protocol/content_records.cpp:43-53 | field after field, stopping at the first refusal |
| WireObjects.ReadItemsFrom | common/protocol/record_list_codec.hpp:20-42 | the loop reads the counted items as the bijection says |
| WireObjects.WriteFieldTo | common/protocol/content_records.cpp:7-17 | appends the bytes the bijection is about |
| WireObjects.WriteRecordTo | common/protocol/content_records.cpp:31-41 | appends the fields in order |
| WireObjects.WriteItemsTo | common/protocol/record_list_codec.hpp:44-52 | the loop appends the items in order |
| Recovery.PackOfIndices | common/crypto/recovery_phrase.cpp:95-146 | 17 bytes recut into 11-bit indexes and back are the same bytes |
| Recovery.IndicesOfPack | common/crypto/recovery_phrase.cpp:116-146 | 12 indexes packed and recut are the same indexes, the last four bits clear |
| Recovery.PhraseRoundTrip | common/crypto/recovery_phrase.cpp:95-146 | every entropy survives being written down and read back |
| Recovery.AcceptedIsCanonical | common/crypto/recovery_phrase.cpp:116-146 | a phrase is accepted for an entropy if and only if, lowercased and single-spaced, it is that entropy's phrase |
| Recovery.IndexesAreNumber | common/crypto/recovery_phrase.cpp:27-37 | the twelve indexes, as digits in base 2048, are the entropy as a big-endian number followed by the high four bits of its digest |
| Recovery.PhraseIsNumber | common/crypto/recovery_phrase.cpp:95-114 | so the phrase is the words of the only twelve indexes that count to that number |
| Recovery.EntropyToPhrase | common/crypto/recovery_phrase.cpp:95-114 | the nested bit loops write the phrase the round trip is about |
| Recovery.SplitWords | common/crypto/recovery_phrase.cpp:63-86 | exactly the phrases of twelve words are split, in lower case |
| Recovery.LowerBound | common/crypto/recovery_phrase.cpp:51-60 | the first position not before the word, by halving a sorted list |
| Recovery.FindWordIndex | common/crypto/recovery_phrase.cpp:51-60 | the word's position, or none if and only if it is not listed |
| Recovery.PackIndices | common/crypto/recovery_phrase.cpp:122-137 | setting bits one by one in a cleared buffer packs the indexes |
| Recovery.PhraseToEntropy | common/crypto/recovery_phrase.cpp:116-146 | accepts what the two directions characterise, the checksum included |
| Recovery.GoodListExists | common/crypto/recovery_phrase.cpp:51-60 | a complete, sorted list of distinct lower-case words exists |
| Letters.RootsAgree | common/crypto/dm_session_keys.cpp:41-106 | sender and recipient compute the same three secrets and root, or both fail |
| Letters.RatchetFromFront | common/crypto/dm_message_chain.cpp:25-43 | the first message key comes from the root, the later ones are those of the next chain key |
| Letters.LetterPrescribed | client/dm/dm_courier.cpp:107-147 | a sealed letter written out in the primitives: the three secrets in order, root, key, header and seal |
| Letters.PublishedPrescribed | client/cli/cli_dm_commands.cpp:51-66 | what is published: the prekey derived from the identity, signed with its owner under its domain |
| Letters.PublishedArrives | client/dm/dm_courier.cpp:98-147 | a bundle is accepted as it was published, and the letter sealed for it opens |
| Letters.SignatureCovers | client/dm/dm_courier.cpp:98-105 | whatever its owner signed, a signature vouches for a bundle if and only if it is over the prekey domain, this owner and this prekey |
| Letters.OtherPrekeyRefused | client/dm/dm_courier.cpp:98-117 | under a signature that was accepted, every other prekey is refused as unsigned |
| Letters.LetterArrives | client/dm/dm_courier.cpp:107-190 | a letter sealed for the recipient's signed prekey opens with the recipient's identity alone to the same text and time if and only if the text is valid; when sealing succeeds, exactly |
| Letters.LetterAccepted | client/dm/dm_courier.cpp:149-190 | for every envelope and reader: it opens to a letter if and only if its body seals that letter under the root both keys give and under its own header |
| Letters.OpeningTroubles | client/dm/dm_courier.cpp:149-190 | each failure to open has its exact condition: no envelope, no seal under the root and header, or no readable content |
| Letters.SealingTroubles | client/dm/dm_courier.cpp:107-147 | each failure to seal has its exact condition |
| Letters.OpensOnlyForRecipient | common/crypto/dm_envelope.cpp:57-100 | under ideal primitives an envelope that shows a letter's body opens if and only if it is unchanged and the reader is the recipient; and it names the sender |
| Letters.SymbolicIsIdeal | common/crypto/dm_session_keys.cpp:16-106 | a term model meets all the ideal laws, those of signatures included |
| DirectMessages.BytesAreLawful | common/crypto/dm_envelope.cpp:16-55 | with sound primitives the byte layouts of header, envelope and payload make the suite lawful, so every letter arrives |
| DirectMessages.ToyIsSound | common/crypto/dm_session_keys.cpp:16-106 | some primitives meet every law assumed of them |
| Forger.OnlySafeLearned | common/crypto/dm_session_keys.cpp:16-106 | whatever a forger takes apart, makes or has written, it learns nothing that the secret of sender and recipient went into |
| Forger.LettersAreWritten | client/dm/dm_courier.cpp:149-190 | an envelope of the forger's that opens at the recipient and names the sender was written by the sender, exactly so, for the recipient's own prekey |
| Forger.SealedForRecipient | client/dm/dm_courier.cpp:98-147 | whatever bundle naming the recipient the forger supplies, if the sender seals for it then it is the one the recipient published, the letter opens there, and its key is never learned |
| Forger.RelayedLetterOpens | client/dm/dm_courier.cpp:107-190 | what the sender writes for the recipient's published bundle may be relayed, and opens |
| DirectMessages.HeaderRoundTrip | common/crypto/dm_envelope.cpp:16-55 | a header is parsed back from the envelope it starts |
| DirectMessages.ParsedHeaderBytes | common/crypto/dm_envelope.cpp:32-55 | an accepted front serialises to itself, so what is authenticated is what was parsed |
| DirectMessages.HeaderReadIff | common/crypto/dm_envelope.cpp:32-55 | a header is read exactly from envelopes of this version with room for a tag |
| DirectMessages.PayloadRoundTrip | client/dm/dm_courier.cpp:37-64 | time and text come back if and only if the text is valid |
| DirectMessages.PayloadIff | client/dm/dm_courier.cpp:46-64 | a payload is read as a letter if and only if it is that letter's, with a valid text |
| DirectMessages.LetterBytes | client/dm/dm_courier.cpp:107-147 | a sealed letter written out in bytes, from the front to the seal over it |
| DirectMessages.KeysInBytes | common/crypto/dm_message_chain.cpp:25-43 | the published bundle and the keys of a ratchet written out in bytes |
| DirectMessages.MessageChain.DeriveNext | common/crypto/dm_message_chain.cpp:25-43 | yields the key of the current position in the chain from the root and moves on by one, the counter wrapping at 32 bits |
| DirectMessages.MessageChain.AdvanceToCounter | common/crypto/dm_message_chain.cpp:45-65 | catching up yields exactly the keys passed over, in order, never backwards and never beyond 1000, and otherwise does nothing |
| DirectMessages.SerializeHeader | common/crypto/dm_envelope.cpp:16-28 | writes the bytes the header round trip is about |
| DirectMessages.BuildPayload | client/dm/dm_courier.cpp:37-44 | writes the bytes the payload round trip is about |
| DirectMessages.ParseDirectPayload | client/dm/dm_courier.cpp:46-64 | reads payloads as the round trip says, refusing the rest |
| DirectMessages.SealDirectMessage | client/dm/dm_courier.cpp:107-147 | the staged sealing refines the letter of the delivery theorem, each failure named |
| DirectMessages.OpenDirectMessage | client/dm/dm_courier.cpp:149-190 | the staged opening refines it too, each failure named |
| AdminLine.BuildLine | tools/adminctl/adminctl_main.cpp:131-138 | the loop builds the line the theorems below are about |
| AdminLine.CarriedArgumentsArrive | tools/adminctl/adminctl_main.cpp:51-58 | one to sixteen carried arguments within the cap are tokenized back exactly |
| AdminLine.PlainArgumentsArrive | tools/adminctl/adminctl_main.cpp:131-138 | non-empty arguments free of quotes, returns and newlines are carried, so they arrive |
| AdminLine.ArrivesIffCarried | server/admin/admin_command.cpp:45-69 | the server parses what adminctl was given if and only if there are one to sixteen arguments, each carried, within the cap |
| AdminLine.TakeTokenAt | server/admin/admin_command.cpp:15-41 | the offset loop takes the token at its place and always advances |
| AdminLine.ParseAdminCommand | server/admin/admin_command.cpp:45-69 | the outer loop collects at most sixteen tokens and refuses an empty line |

## Left out

- All of client/ui: it draws, and promises nothing beyond the screen.
- Sockets, epoll, SOCKS5, key files and permissions: operating system calls; reads are arbitrary chunks here.
- A failing socket write: it is a connection that closes.
- libsodium itself, constant time and memory wiping, except where wiping sets a field that a later step could read.
- The branch of `initialize_symmetric_state` for protocol names above 32 bytes: the only name in use has exactly 32.
- The SQLite engine, WAL, backup and migrations; a commit or rollback is taken to succeed. `JOIN users` is taken to drop no row.
- The frame-size limit on thread and mailbox answers: both are stated at repository level, before a frame is encoded.
- The client's pairing of requests and responses, which the unrequested announcement after authentication breaks.
- Profile, friend, forum and report handlers, statistics: a guard and one query each.
- Storing and fetching prekeys: one row per account; in the model whoever likes supplies the bundle.
- Message layouts other than those written out in `WireCodec`: each is an instance of `WireCodec.CodecBijection` and would add only its fields.
- Thread handler requests that cannot be read, and the guard in front of them: the same guard and refusal as for letters.
- The attacker and forger models watch one client, and one sender and recipient, at a time; everybody else is the attacker's.
