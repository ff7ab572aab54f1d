/** The field-by-field readers and writers of common/protocol, run on a cursor and on a growing buffer. */
module WireObjects {
  import opened Prelude
  import opened ByteStreams
  import opened WireCodec
  import Endian
  import Utf8

  method ReadTextField(reader: ByteReader, cap: nat) returns (out: Option<Bytes>)
    requires reader.Valid()
    modifies reader
    ensures reader.Valid()
    ensures match ReadField(Text(cap), old(reader.Remaining()))
            case Some((v, rest)) => out == Some(v.bytes) && reader.Remaining() == rest
            case None => out == None
  {
    var raw := reader.ReadPrefixed(cap);
    if raw.None? {
      return None;
    }
    var ok := Utf8.ValidateTextField(raw.value);
    out := if ok then raw else None;
  }

  method ReadFieldFrom(reader: ByteReader, f: Field) returns (out: Option<Value>)
    requires reader.Valid()
    modifies reader
    ensures reader.Valid()
    ensures match ReadField(f, old(reader.Remaining()))
            case Some((v, rest)) => out == Some(v) && reader.Remaining() == rest
            case None => out == None
    decreases f, 1
  {
    out := None;
    match f {
      case Int(width) =>
        var n := reader.ReadInt(width);
        if n.Some? { out := Some(Number(n.value)); }
      case Enum(width, max) =>
        var n := reader.ReadInt(width);
        if n.Some? && n.value <= max { out := Some(Number(n.value)); }
      case Fixed(size) =>
        var bytes := reader.ReadFixedBytes(size);
        if bytes.Some? { out := Some(Raw(bytes.value)); }
      case Text(cap) =>
        var bytes := ReadTextField(reader, cap);
        if bytes.Some? { out := Some(Raw(bytes.value)); }
      case Blob(cap) =>
        var bytes := reader.ReadPrefixed(cap);
        if bytes.Some? { out := Some(Raw(bytes.value)); }
      case Slots(count, item) =>
        var items := ReadItemsFrom(reader, item, count);
        if items.Some? { out := Some(Many(items.value)); }
      case List(cap, item) =>
        var count := reader.ReadInt(Endian.U16);
        if count.Some? && count.value <= cap {
          var items := ReadItemsFrom(reader, item, count.value);
          if items.Some? { out := Some(Many(items.value)); }
        }
    }
  }

  /** A record is read field by field and given up at the first refusal. */
  method ReadRecordFrom(reader: ByteReader, fs: Layout) returns (out: Option<seq<Value>>)
    requires reader.Valid()
    modifies reader
    ensures reader.Valid()
    ensures match ReadRecord(fs, old(reader.Remaining()))
            case Some((vs, rest)) => out == Some(vs) && reader.Remaining() == rest
            case None => out == None
    decreases fs, 1
  {
    if fs == [] {
      return Some([]);
    }
    var v := ReadFieldFrom(reader, fs[0]);
    if v.None? {
      return None;
    }
    var vs := ReadRecordFrom(reader, fs[1..]);
    out := if vs.None? then None else Some([v.value] + vs.value);
  }

  /** What reading the remaining records would add to those already decoded. */
  ghost function Resume(fs: Layout, left: nat, b: Bytes, done: seq<seq<Value>>): Read<seq<seq<Value>>> {
    var (more, rest) :- ReadItems(fs, left, b);
    Some((done + more, rest))
  }

  /** The counted loop of read_record_list: nothing is reserved, records are pushed as they decode. */
  method ReadItemsFrom(reader: ByteReader, fs: Layout, count: nat) returns (out: Option<seq<seq<Value>>>)
    requires reader.Valid()
    modifies reader
    ensures reader.Valid()
    ensures match ReadItems(fs, count, old(reader.Remaining()))
            case Some((items, rest)) => out == Some(items) && reader.Remaining() == rest
            case None => out == None
    decreases fs, 2
  {
    var decoded: seq<seq<Value>> := [];
    ghost var goal := ReadItems(fs, count, reader.Remaining());
    assert goal.Some? ==> [] + goal.value.0 == goal.value.0;
    for index := 0 to count
      invariant reader.Valid()
      invariant Resume(fs, count - index, reader.Remaining(), decoded) == goal
    {
      ghost var before := reader.Remaining();
      var item := ReadRecordFrom(reader, fs);
      if item.None? {
        return None;
      }
      ghost var more := ReadItems(fs, count - index - 1, reader.Remaining());
      assert more.Some? ==> decoded + ([item.value] + more.value.0) == (decoded + [item.value]) + more.value.0;
      decoded := decoded + [item.value];
    }
    assert decoded + [] == decoded;
    out := Some(decoded);
  }

  method WriteFieldTo(writer: ByteWriter, f: Field, v: Value)
    modifies writer
    ensures writer.target == old(writer.target) + Write(f, v)
    decreases f, 1
  {
    ghost var before := writer.target;
    match (f, v) {
      case (Int(width), Number(n)) => writer.WriteInteger(n, width);
      case (Enum(width, _), Number(n)) => writer.WriteInteger(n, width);
      case (Fixed(_), Raw(bytes)) => writer.WriteFixedBytes(bytes);
      case (Text(_), Raw(bytes)) =>
        writer.WriteLengthPrefixed(bytes);
        assert before + Endian.Store(|bytes|, Endian.U32) + bytes == before + (Endian.Store(|bytes|, Endian.U32) + bytes);
      case (Blob(_), Raw(bytes)) =>
        writer.WriteLengthPrefixed(bytes);
        assert before + Endian.Store(|bytes|, Endian.U32) + bytes == before + (Endian.Store(|bytes|, Endian.U32) + bytes);
      case (Slots(_, item), Many(items)) => WriteItemsTo(writer, item, items);
      case (List(_, item), Many(items)) => WriteListTo(writer, item, items);
      case _ => assert Write(f, v) == [];
    }
  }

  method WriteListTo(writer: ByteWriter, item: Layout, items: seq<seq<Value>>)
    modifies writer
    ensures writer.target == old(writer.target) + (Endian.Store(|items|, Endian.U16) + WriteItems(item, items))
    decreases item, 3
  {
    writer.WriteInteger(|items|, Endian.U16);
    WriteItemsTo(writer, item, items);
  }

  method WriteRecordTo(writer: ByteWriter, fs: Layout, vs: seq<Value>)
    modifies writer
    ensures writer.target == old(writer.target) + WriteRecord(fs, vs)
    decreases fs, 1
  {
    if fs == [] || vs == [] {
      return;
    }
    WriteFieldTo(writer, fs[0], vs[0]);
    WriteRecordTo(writer, fs[1..], vs[1..]);
    assert writer.target == old(writer.target) + WriteRecord(fs, vs);
  }

  method WriteItemsTo(writer: ByteWriter, fs: Layout, items: seq<seq<Value>>)
    modifies writer
    ensures writer.target == old(writer.target) + WriteItems(fs, items)
    decreases fs, 2
  {
    ghost var goal := writer.target + WriteItems(fs, items);
    for index := 0 to |items|
      invariant writer.target + WriteItems(fs, items[index..]) == goal
    {
      assert items[index..][0] == items[index] && items[index..][1..] == items[index + 1..];
      ghost var before := writer.target;
      WriteRecordTo(writer, fs, items[index]);
      assert before + WriteItems(fs, items[index..]) == writer.target + WriteItems(fs, items[index + 1..]);
    }
    assert items[|items|..] == [];
  }
}
