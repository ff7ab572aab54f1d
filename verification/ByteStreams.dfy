/**
 The bounds-checked reader and the appending writer (common/protocol/byte_reader.cpp, byte_writer.cpp), with the
 value-level reads they perform: each takes a field off the front of a byte string or refuses.
 */
module ByteStreams {
  import opened Prelude
  import Endian

  type Read<T> = Option<(T, Bytes)>

  function ReadFixed(b: Bytes, n: nat): Read<Bytes> {
    if n > |b| then None else Some((b[..n], b[n..]))
  }

  function ReadInteger(b: Bytes, width: nat): Read<nat> {
    var (slice, rest) :- ReadFixed(b, width);
    Some((Endian.Load(slice), rest))
  }

  function ReadLengthPrefixed(b: Bytes, cap: nat): Read<Bytes> {
    var (length, rest) :- ReadInteger(b, Endian.U32);
    if length > cap then None else ReadFixed(rest, length)
  }

  class ByteReader {
    const buffer: Bytes
    var offset: nat

    ghost predicate Valid()
      reads this
    {
      offset <= |buffer|
    }

    /** What is still to be read. */
    function Remaining(): Bytes
      requires Valid()
      reads this
    {
      buffer[offset..]
    }

    constructor (buffer: Bytes)
      ensures Valid() && this.buffer == buffer && Remaining() == buffer
    {
      this.buffer, offset := buffer, 0;
    }

    method CountRemainingBytes() returns (n: nat)
      requires Valid()
      ensures n == |Remaining()|
    {
      n := |buffer| - offset;
    }

    method ReadFixedBytes(n: nat) returns (out: Option<Bytes>)
      requires Valid()
      modifies this
      ensures Valid()
      ensures match ReadFixed(old(Remaining()), n)
              case None => out == None && offset == old(offset)
              case Some((bytes, rest)) => out == Some(bytes) && Remaining() == rest
    {
      if n > |buffer| - offset {
        return None;
      }
      out := Some(buffer[offset..offset + n]);
      assert Remaining()[..n] == buffer[offset..offset + n];
      offset := offset + n;
    }

    method ReadInt(width: nat) returns (out: Option<nat>)
      requires Valid()
      modifies this
      ensures Valid()
      ensures match ReadInteger(old(Remaining()), width)
              case None => out == None && offset == old(offset)
              case Some((value, rest)) => out == Some(value) && Remaining() == rest
    {
      var slice := ReadFixedBytes(width);
      if slice.None? {
        return None;
      }
      var _, value := Endian.LoadLittleEndian(slice.value, width);
      assert slice.value[..width] == slice.value;
      out := Some(value);
    }

    /** On a refused length the length field stays consumed: only the first check leaves the cursor in place. */
    method ReadPrefixed(cap: nat) returns (out: Option<Bytes>)
      requires Valid()
      modifies this
      ensures Valid()
      ensures match ReadLengthPrefixed(old(Remaining()), cap)
              case Some((bytes, rest)) => out == Some(bytes) && Remaining() == rest
              case None =>
                && out == None
                && offset == old(offset) + (if |old(Remaining())| < Endian.U32 then 0 else Endian.U32)
    {
      var length := ReadInt(Endian.U32);
      if length.None? {
        return None;
      }
      var left := CountRemainingBytes();
      if length.value > cap || length.value > left {
        return None;
      }
      out := ReadFixedBytes(length.value);
    }
  }

  class ByteWriter {
    var target: Bytes

    constructor (target: Bytes)
      ensures this.target == target
    {
      this.target := target;
    }

    method WriteInteger(value: nat, width: nat)
      modifies this
      ensures target == old(target) + Endian.Store(value, width)
    {
      var field := new Byte[width](_ => 0);
      var _ := Endian.StoreLittleEndian(value, field, width);
      assert field[..] == Endian.Store(value, width);
      target := target + field[..];
    }

    method WriteFixedBytes(data: Bytes)
      modifies this
      ensures target == old(target) + data
    {
      target := target + data;
    }

    method WriteLengthPrefixed(data: Bytes)
      modifies this
      ensures target == old(target) + Endian.Store(|data|, Endian.U32) + data
    {
      WriteInteger(|data|, Endian.U32);
      WriteFixedBytes(data);
    }
  }
}
