/** Application frames (common/protocol/frame_codec.cpp): a body size, a type byte and a payload. */
module Frames {
  import opened Prelude
  import Endian
  import ByteStreams

  const TYPE_FIELD := 1
  const HEADER := LENGTH_FIELD + TYPE_FIELD
  const MAX_FRAME := 1024 * 1024
  const MAX_BODY := MAX_FRAME - LENGTH_FIELD
  const MAX_PAYLOAD := MAX_FRAME - HEADER

  /** The frozen message types, one family per block of sixteen. */
  predicate KnownType(raw: Byte) {
    || 0x01 <= raw <= 0x0A || 0x10 <= raw <= 0x13 || 0x20 <= raw <= 0x23 || 0x30 <= raw <= 0x39
    || 0x40 <= raw <= 0x48 || 0x50 <= raw <= 0x53 || 0x60 <= raw <= 0x62 || 0x70 <= raw <= 0x71
  }

  /** The types one by one, as they are numbered for good. */
  const SESSION: Bytes := [0x01, 0x02, 0x03, 0x04, 0x05, 0x06, 0x07, 0x08, 0x09, 0x0A]
  const ACCOUNT: Bytes := [0x10, 0x11, 0x12, 0x13]
  const FORUMS: Bytes := [0x20, 0x21, 0x22, 0x23]
  const CONTENT: Bytes := [0x30, 0x31, 0x32, 0x33, 0x34, 0x35, 0x36, 0x37, 0x38, 0x39]
  const SOCIAL: Bytes := [0x40, 0x41, 0x42, 0x43, 0x44, 0x45, 0x46, 0x47, 0x48]
  const PRIVATE: Bytes := [0x50, 0x51, 0x52, 0x53]
  const BLOBS: Bytes := [0x60, 0x61, 0x62]
  const REPORTS: Bytes := [0x70, 0x71]

  lemma KnownTypesListed(raw: Byte)
    ensures
      KnownType(raw)
      <==> raw in SESSION || raw in ACCOUNT || raw in FORUMS || raw in CONTENT || raw in SOCIAL || raw in PRIVATE || raw in BLOBS
           || raw in REPORTS
  {
  }

  datatype Header = Header(bodySize: nat, kind: Byte)

  datatype Frame = Frame(kind: Byte, payload: Bytes)

  /** A frame a sender may produce. */
  predicate Sendable(f: Frame) {
    KnownType(f.kind) && |f.payload| <= MAX_PAYLOAD
  }

  predicate AllSendable(frames: seq<Frame>) {
    forall i :: 0 <= i < |frames| ==> Sendable(frames[i])
  }

  function PeekBodySize(input: Bytes): Option<nat> {
    if |input| < LENGTH_FIELD then None
    else
      var announced := Endian.Load(input[..LENGTH_FIELD]);
      if announced < TYPE_FIELD || announced > MAX_BODY then None else Some(announced)
  }

  function DecodeHeader(input: Bytes): Option<Header> {
    if |input| < HEADER then None
    else
      var size :- PeekBodySize(input);
      if KnownType(input[LENGTH_FIELD]) then Some(Header(size, input[LENGTH_FIELD])) else None
  }

  /** A header is accepted exactly if it is whole, announces a body with a type within the cap, and the type is known. */
  lemma HeaderIff(input: Bytes, h: Header)
    ensures
      DecodeHeader(input) == Some(h)
      <==>
      && |input| >= 5 && Endian.Load(input[..4]) == h.bodySize && 1 <= h.bodySize <= MAX_BODY
      && input[4] == h.kind && KnownType(h.kind)
  {
  }

  /** Header and exact length, as the server and the client both check before using a frame. */
  function Decode(input: Bytes): Option<Frame> {
    var header :- DecodeHeader(input);
    if |input| != LENGTH_FIELD + header.bodySize then None else Some(Frame(header.kind, input[HEADER..]))
  }

  function Encoding(f: Frame): Bytes {
    Endian.Store(TYPE_FIELD + |f.payload|, Endian.U32) + [f.kind] + f.payload
  }

  method EncodeFrame(f: Frame) returns (out: Option<Bytes>)
    ensures out == if |f.payload| > MAX_PAYLOAD then None else Some(Encoding(f))
  {
    if |f.payload| > MAX_PAYLOAD {
      return None;
    }
    var writer := new ByteStreams.ByteWriter([]);
    writer.WriteInteger(TYPE_FIELD + |f.payload|, Endian.U32);
    writer.WriteInteger(f.kind, Endian.U8);
    assert Endian.Store(f.kind, 1) == [f.kind] by {
      assert Endian.Store(f.kind, 1) == [f.kind % 256] + Endian.Store(f.kind / 256, 0);
    }
    writer.WriteFixedBytes(f.payload);
    assert writer.target == Encoding(f);
    out := Some(writer.target);
  }

  /** Frames and their encodings are in bijection: decoding accepts exactly the encodings of sendable frames. */
  lemma FrameBijection(input: Bytes, f: Frame)
    ensures Decode(input) == Some(f) <==> Sendable(f) && input == Encoding(f)
    ensures Sendable(f) ==> HEADER <= |Encoding(f)| <= MAX_FRAME
  {
    if Sendable(f) && input == Encoding(f) {
      var size := TYPE_FIELD + |f.payload|;
      assert input[..LENGTH_FIELD] == Endian.Store(size, 4);
      assert size < Endian.Power256(4) by {
        assert Endian.Power256(2) == 256 * Endian.Power256(1) == 0x1_0000;
        assert Endian.Power256(4) == 256 * Endian.Power256(3);
      }
      Endian.LoadOfStore(size, 4);
      assert input[HEADER..] == f.payload;
    }
    if Decode(input) == Some(f) {
      Endian.StoreOfLoad(input[..LENGTH_FIELD]);
      assert input == input[..LENGTH_FIELD] + [input[LENGTH_FIELD]] + input[HEADER..];
    }
  }
}
