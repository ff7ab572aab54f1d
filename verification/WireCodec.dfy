/**
 The message codecs of common/protocol. A message is a sequence of fields, each written and read in turn; lists carry a
 16-bit count and repeat a record. One pair of theorems, by induction on the layout, makes every such codec a bijection.
 */
module WireCodec {
  import opened Prelude
  import opened ByteStreams
  import Endian
  import Utf8

  /** How one field travels. */
  datatype Field =
    | Int(width: nat)
    | Enum(width: nat, max: nat)              // an integer refused above its last known value
    | Fixed(size: nat)                        // keys, signatures, nonces
    | Text(cap: nat)                          // 32-bit length, validated UTF-8
    | Blob(cap: nat)                          // 32-bit length, opaque
    | Slots(count: nat, item: seq<Field>)     // a fixed number of records
    | List(cap: nat, item: seq<Field>)        // 16-bit count, then the records

  type Layout = seq<Field>

  datatype Value =
    | Number(n: nat)
    | Raw(bytes: Bytes)
    | Many(items: seq<seq<Value>>)

  // ---------------------------------------------------------------------------------------------
  // Values within the caps

  predicate Fits(f: Field, v: Value)
    decreases f, 1
  {
    match f
    case Int(width) => v.Number? && v.n < Endian.Power256(width)
    case Enum(width, max) => v.Number? && v.n < Endian.Power256(width) && v.n <= max
    case Fixed(size) => v.Raw? && |v.bytes| == size
    case Text(cap) => v.Raw? && |v.bytes| <= cap && |v.bytes| < Endian.Power256(Endian.U32) && Utf8.Valid(v.bytes)
    case Blob(cap) => v.Raw? && |v.bytes| <= cap && |v.bytes| < Endian.Power256(Endian.U32)
    case Slots(count, item) => v.Many? && |v.items| == count && AllFit(item, v.items)
    case List(cap, item) =>
      v.Many? && |v.items| <= cap && |v.items| < Endian.Power256(Endian.U16) && AllFit(item, v.items)
  }

  predicate RecordFits(fs: Layout, vs: seq<Value>)
    decreases fs, 1
  {
    if fs == [] then vs == [] else vs != [] && Fits(fs[0], vs[0]) && RecordFits(fs[1..], vs[1..])
  }

  predicate AllFit(fs: Layout, items: seq<seq<Value>>)
    decreases fs, 2, |items|
  {
    items == [] || (RecordFits(fs, items[0]) && AllFit(fs, items[1..]))
  }

  // ---------------------------------------------------------------------------------------------
  // Writing: no check at all, counts and lengths cut to their width

  function Write(f: Field, v: Value): Bytes
    decreases f, 1
  {
    match (f, v)
    case (Int(width), Number(n)) => Endian.Store(n, width)
    case (Enum(width, _), Number(n)) => Endian.Store(n, width)
    case (Fixed(_), Raw(bytes)) => bytes
    case (Text(_), Raw(bytes)) => Endian.Store(|bytes|, Endian.U32) + bytes
    case (Blob(_), Raw(bytes)) => Endian.Store(|bytes|, Endian.U32) + bytes
    case (Slots(_, item), Many(items)) => WriteItems(item, items)
    case (List(_, item), Many(items)) => Endian.Store(|items|, Endian.U16) + WriteItems(item, items)
    case _ => []
  }

  function WriteRecord(fs: Layout, vs: seq<Value>): Bytes
    decreases fs, 1
  {
    if fs == [] || vs == [] then [] else Write(fs[0], vs[0]) + WriteRecord(fs[1..], vs[1..])
  }

  function WriteItems(fs: Layout, items: seq<seq<Value>>): Bytes
    decreases fs, 2, |items|
  {
    if items == [] then [] else WriteRecord(fs, items[0]) + WriteItems(fs, items[1..])
  }

  // ---------------------------------------------------------------------------------------------
  // Reading: every cap checked

  function ReadField(f: Field, b: Bytes): Read<Value>
    decreases f, 1
  {
    match f
    case Int(width) =>
      var (n, rest) :- ReadInteger(b, width);
      Some((Number(n), rest))
    case Enum(width, max) =>
      var (n, rest) :- ReadInteger(b, width);
      if n > max then None else Some((Number(n), rest))
    case Fixed(size) =>
      var (bytes, rest) :- ReadFixed(b, size);
      Some((Raw(bytes), rest))
    case Text(cap) =>
      var (bytes, rest) :- ReadLengthPrefixed(b, cap);
      if Utf8.Valid(bytes) then Some((Raw(bytes), rest)) else None
    case Blob(cap) =>
      var (bytes, rest) :- ReadLengthPrefixed(b, cap);
      Some((Raw(bytes), rest))
    case Slots(count, item) =>
      var (items, rest) :- ReadItems(item, count, b);
      Some((Many(items), rest))
    case List(cap, item) =>
      var (count, after) :- ReadInteger(b, Endian.U16);
      if count > cap then None
      else
        var (items, rest) :- ReadItems(item, count, after);
        Some((Many(items), rest))
  }

  function ReadRecord(fs: Layout, b: Bytes): Read<seq<Value>>
    decreases fs, 1
  {
    if fs == [] then Some(([], b))
    else
      var (v, after) :- ReadField(fs[0], b);
      var (vs, rest) :- ReadRecord(fs[1..], after);
      Some(([v] + vs, rest))
  }

  function ReadItems(fs: Layout, count: nat, b: Bytes): Read<seq<seq<Value>>>
    decreases fs, 2, count
  {
    if count == 0 then Some(([], b))
    else
      var (item, after) :- ReadRecord(fs, b);
      var (items, rest) :- ReadItems(fs, count - 1, after);
      Some(([item] + items, rest))
  }

  // ---------------------------------------------------------------------------------------------
  // Reading undoes writing

  lemma ReadWrittenInteger(n: nat, width: nat, rest: Bytes)
    requires n < Endian.Power256(width)
    ensures ReadInteger(Endian.Store(n, width) + rest, width) == Some((n, rest))
  {
    var b := Endian.Store(n, width) + rest;
    assert b[..width] == Endian.Store(n, width) && b[width..] == rest;
    Endian.LoadOfStore(n, width);
  }

  lemma ReadWrittenFixed(bytes: Bytes, rest: Bytes)
    ensures ReadFixed(bytes + rest, |bytes|) == Some((bytes, rest))
  {
    assert (bytes + rest)[..|bytes|] == bytes && (bytes + rest)[|bytes|..] == rest;
  }

  lemma ReadAfterLength(length: Bytes, bytes: Bytes, cap: nat, rest: Bytes)
    requires |length| == Endian.U32 && Endian.Load(length) == |bytes| <= cap
    ensures ReadLengthPrefixed(length + bytes + rest, cap) == Some((bytes, rest))
  {
    var b := length + bytes + rest;
    assert b[..Endian.U32] == length && b[Endian.U32..] == bytes + rest;
    ReadWrittenFixed(bytes, rest);
  }

  lemma ReadWrittenPrefixed(bytes: Bytes, cap: nat, rest: Bytes)
    requires |bytes| <= cap && |bytes| < Endian.Power256(Endian.U32)
    ensures ReadLengthPrefixed(Endian.Store(|bytes|, Endian.U32) + bytes + rest, cap) == Some((bytes, rest))
  {
    Endian.LoadOfStore(|bytes|, Endian.U32);
    ReadAfterLength(Endian.Store(|bytes|, Endian.U32), bytes, cap, rest);
  }

  lemma {:induction false} ReadWritten(f: Field, v: Value, rest: Bytes)
    requires Fits(f, v)
    ensures ReadField(f, Write(f, v) + rest) == Some((v, rest))
    decreases f, 1
  {
    match f
    case Int(width) => ReadWrittenInteger(v.n, width, rest);
    case Enum(width, _) => ReadWrittenInteger(v.n, width, rest);
    case Fixed(_) => ReadWrittenFixed(v.bytes, rest);
    case Text(cap) => ReadWrittenPrefixed(v.bytes, cap, rest);
    case Blob(cap) => ReadWrittenPrefixed(v.bytes, cap, rest);
    case Slots(_, item) => ReadWrittenItems(item, v.items, rest);
    case List(_, item) =>
      var body := WriteItems(item, v.items) + rest;
      assert Write(f, v) + rest == Endian.Store(|v.items|, Endian.U16) + body;
      ReadWrittenInteger(|v.items|, Endian.U16, body);
      ReadWrittenItems(item, v.items, rest);
  }

  lemma {:induction false} ReadWrittenRecord(fs: Layout, vs: seq<Value>, rest: Bytes)
    requires RecordFits(fs, vs)
    ensures ReadRecord(fs, WriteRecord(fs, vs) + rest) == Some((vs, rest))
    decreases fs, 1
  {
    if fs == [] {
      assert WriteRecord(fs, vs) + rest == rest;
    } else {
      var tail := WriteRecord(fs[1..], vs[1..]) + rest;
      assert WriteRecord(fs, vs) + rest == Write(fs[0], vs[0]) + tail;
      ReadWritten(fs[0], vs[0], tail);
      ReadWrittenRecord(fs[1..], vs[1..], rest);
      assert vs == [vs[0]] + vs[1..];
    }
  }

  lemma {:induction false} ReadWrittenItems(fs: Layout, items: seq<seq<Value>>, rest: Bytes)
    requires AllFit(fs, items)
    ensures ReadItems(fs, |items|, WriteItems(fs, items) + rest) == Some((items, rest))
    decreases fs, 2, |items|
  {
    if items == [] {
      assert WriteItems(fs, items) + rest == rest;
    } else {
      var tail := WriteItems(fs, items[1..]) + rest;
      assert WriteItems(fs, items) + rest == WriteRecord(fs, items[0]) + tail;
      ReadWrittenRecord(fs, items[0], tail);
      ReadWrittenItems(fs, items[1..], rest);
      assert items == [items[0]] + items[1..];
    }
  }

  // ---------------------------------------------------------------------------------------------
  // Writing restores what was read

  lemma WriteReadInteger(b: Bytes, width: nat)
    ensures
      var r := ReadInteger(b, width);
      r.Some? ==> r.value.0 < Endian.Power256(width) && b == Endian.Store(r.value.0, width) + r.value.1
  {
    if width <= |b| {
      Endian.LoadBound(b[..width]);
      Endian.StoreOfLoad(b[..width]);
      assert b == b[..width] + b[width..];
    }
  }

  lemma WriteReadPrefixed(b: Bytes, cap: nat)
    ensures
      var r := ReadLengthPrefixed(b, cap);
      r.Some? ==>
        && |r.value.0| <= cap && |r.value.0| < Endian.Power256(Endian.U32)
        && b == Endian.Store(|r.value.0|, Endian.U32) + r.value.0 + r.value.1
  {
    WriteReadInteger(b, Endian.U32);
    var r := ReadLengthPrefixed(b, cap);
    if r.Some? {
      var (n, rest) := ReadInteger(b, Endian.U32).value;
      assert rest == r.value.0 + r.value.1;
    }
  }

  lemma {:induction false} WriteRead(f: Field, b: Bytes)
    ensures
      var r := ReadField(f, b);
      r.Some? ==> Fits(f, r.value.0) && b == Write(f, r.value.0) + r.value.1
    decreases f, 1
  {
    match f
    case Int(width) => WriteReadInteger(b, width);
    case Enum(width, _) => WriteReadInteger(b, width);
    case Fixed(_) =>
    case Text(cap) => WriteReadPrefixed(b, cap);
    case Blob(cap) => WriteReadPrefixed(b, cap);
    case Slots(count, item) => WriteReadItems(item, count, b);
    case List(cap, item) => WriteReadList(cap, item, b);
  }

  lemma {:induction false} WriteReadList(cap: nat, item: Layout, b: Bytes)
    ensures
      var r := ReadField(List(cap, item), b);
      r.Some? ==> Fits(List(cap, item), r.value.0) && b == Write(List(cap, item), r.value.0) + r.value.1
    decreases List(cap, item), 0
  {
    WriteReadInteger(b, Endian.U16);
    var r := ReadInteger(b, Endian.U16);
    if r.Some? {
      var (count, tail) := r.value;
      WriteReadItems(item, count, tail);
      var items := ReadItems(item, count, tail);
      if items.Some? {
        Regroup(b, Endian.Store(count, Endian.U16), tail, WriteItems(item, items.value.0), items.value.1);
      }
    }
  }

  lemma Regroup(b: Bytes, head: Bytes, tail: Bytes, middle: Bytes, rest: Bytes)
    requires b == head + tail && tail == middle + rest
    ensures b == (head + middle) + rest
  {
  }

  lemma {:induction false} WriteReadRecord(fs: Layout, b: Bytes)
    ensures
      var r := ReadRecord(fs, b);
      r.Some? ==> RecordFits(fs, r.value.0) && b == WriteRecord(fs, r.value.0) + r.value.1
    decreases fs, 1
  {
    if fs != [] {
      WriteRead(fs[0], b);
      var first := ReadField(fs[0], b);
      if first.Some? {
        WriteReadRecord(fs[1..], first.value.1);
        var others := ReadRecord(fs[1..], first.value.1);
        if others.Some? {
          var vs := [first.value.0] + others.value.0;
          assert vs[0] == first.value.0 && vs[1..] == others.value.0;
          Regroup(b, Write(fs[0], vs[0]), first.value.1, WriteRecord(fs[1..], vs[1..]), others.value.1);
        }
      }
    }
  }

  lemma {:induction false} WriteReadItems(fs: Layout, count: nat, b: Bytes)
    ensures
      var r := ReadItems(fs, count, b);
      r.Some? ==> |r.value.0| == count && AllFit(fs, r.value.0) && b == WriteItems(fs, r.value.0) + r.value.1
    decreases fs, 2, count
  {
    if count > 0 {
      WriteReadRecord(fs, b);
      var first := ReadRecord(fs, b);
      if first.Some? {
        WriteReadItems(fs, count - 1, first.value.1);
        var others := ReadItems(fs, count - 1, first.value.1);
        if others.Some? {
          var items := [first.value.0] + others.value.0;
          assert items[0] == first.value.0 && items[1..] == others.value.0;
          Regroup(b, WriteRecord(fs, items[0]), first.value.1, WriteItems(fs, items[1..]), others.value.1);
        }
      }
    }
  }

  /**
   Every codec is a bijection between in-cap messages and accepted bytes. Reading returns a message and what follows it
   exactly when the bytes are that message written, followed by that rest, and the message respects its caps.
   */
  lemma CodecBijection(fs: Layout, b: Bytes, vs: seq<Value>, rest: Bytes)
    ensures ReadRecord(fs, b) == Some((vs, rest)) <==> RecordFits(fs, vs) && b == WriteRecord(fs, vs) + rest
  {
    if RecordFits(fs, vs) {
      ReadWrittenRecord(fs, vs, rest);
    }
    WriteReadRecord(fs, b);
  }

  // ---------------------------------------------------------------------------------------------
  // The messages

  const KEY := Fixed(32)
  const HANDLE := Text(32)

  const POST: Layout := [Int(8), Int(8), KEY, HANDLE, Text(200), Text(16 * 1024), Int(8), Int(4)]
  const COMMENT: Layout := [Int(8), Int(8), Int(8), KEY, HANDLE, Text(8 * 1024), Int(8), Int(2)]
  const THREAD_RESPONSE: Layout := POST + [List(500, COMMENT), Int(1)]
  const FRIEND: Layout := [KEY, HANDLE, Text(48), Enum(1, 2)]
  const TOP8_RESPONSE: Layout := [Slots(8, [KEY]), List(8, FRIEND)]
  const DM_ACK: Layout := [List(100, [Int(8)])]
  const STATUS_ERROR: Layout := [Enum(2, 14), Text(256)]

  /** A comment as it travels. */
  datatype CommentRecord = CommentRecord(
    id: nat, post: nat, parent: nat, author: Bytes, handle: Bytes, body: Bytes, createdAt: nat, depth: nat)

  datatype PostRecord = PostRecord(
    id: nat, forum: nat, author: Bytes, handle: Bytes, title: Bytes, body: Bytes, createdAt: nat, comments: nat)

  datatype ThreadResponse = ThreadResponse(post: PostRecord, comments: seq<CommentRecord>, truncated: nat)

  function CommentValues(c: CommentRecord): seq<Value> {
    [Number(c.id), Number(c.post), Number(c.parent), Raw(c.author), Raw(c.handle), Raw(c.body),
     Number(c.createdAt), Number(c.depth)]
  }

  function ThreadValues(t: ThreadResponse): seq<Value> {
    [Number(t.post.id), Number(t.post.forum), Raw(t.post.author), Raw(t.post.handle), Raw(t.post.title),
     Raw(t.post.body), Number(t.post.createdAt), Number(t.post.comments),
     Many(seq(|t.comments|, i requires 0 <= i < |t.comments| => CommentValues(t.comments[i]))), Number(t.truncated)]
  }

  /** A thread answer is read back exactly, followed by whatever follows, precisely when it respects every cap. */
  lemma ThreadResponseRoundTrip(t: ThreadResponse, rest: Bytes)
    ensures
      ReadRecord(THREAD_RESPONSE, WriteRecord(THREAD_RESPONSE, ThreadValues(t)) + rest) == Some((ThreadValues(t), rest))
      <==> RecordFits(THREAD_RESPONSE, ThreadValues(t))
  {
    CodecBijection(THREAD_RESPONSE, WriteRecord(THREAD_RESPONSE, ThreadValues(t)) + rest, ThreadValues(t), rest);
  }

  /** No two thread answers share their values, so none share their bytes. */
  lemma ThreadResponseInjective(t: ThreadResponse, u: ThreadResponse)
    requires RecordFits(THREAD_RESPONSE, ThreadValues(t)) && RecordFits(THREAD_RESPONSE, ThreadValues(u))
    requires WriteRecord(THREAD_RESPONSE, ThreadValues(t)) == WriteRecord(THREAD_RESPONSE, ThreadValues(u))
    ensures t == u
  {
    var a, b := ThreadValues(t), ThreadValues(u);
    ReadWrittenRecord(THREAD_RESPONSE, a, []);
    ReadWrittenRecord(THREAD_RESPONSE, b, []);
    assert a == b;
    assert forall i :: 0 <= i < 10 ==> a[i] == b[i];
    assert a[8].items == b[8].items;
    forall i | 0 <= i < |t.comments| ensures t.comments[i] == u.comments[i] {
      var c, d := CommentValues(t.comments[i]), CommentValues(u.comments[i]);
      assert c == a[8].items[i] && d == b[8].items[i];
      assert forall j :: 0 <= j < 8 ==> c[j] == d[j];
    }
  }

  /**
   An error answer comes back exactly when its code is at most 14 and its text fits: the code for a banned account, 15,
   is written by the server and refused by every reader.
   */
  lemma ErrorRoundTrip(code: nat, detail: Bytes, rest: Bytes)
    requires code < 0x1_0000 && |detail| <= 256 && Utf8.Valid(detail)
    ensures
      var vs := [Number(code), Raw(detail)];
      var read := ReadRecord(STATUS_ERROR, WriteRecord(STATUS_ERROR, vs) + rest);
      if code <= 14 then read == Some((vs, rest)) else read == None
  {
    var vs := [Number(code), Raw(detail)];
    assert Endian.Power256(2) == 0x1_0000 by { assert Endian.Power256(1) == 256 * Endian.Power256(0); }
    assert Endian.Power256(4) == 256 * Endian.Power256(3) && Endian.Power256(3) == 256 * Endian.Power256(2);
    var tail := WriteRecord(STATUS_ERROR[1..], vs[1..]) + rest;
    assert WriteRecord(STATUS_ERROR, vs) + rest == Endian.Store(code, 2) + tail;
    ReadWrittenInteger(code, 2, tail);
    if code <= 14 {
      assert vs[1..] == [Raw(detail)] && STATUS_ERROR[1..] == [Text(256)];
      assert vs[1..][1..] == [] && STATUS_ERROR[1..][1..] == [];
      assert Fits(Enum(2, 14), vs[0]) && Fits(Text(256), vs[1]);
      assert RecordFits(STATUS_ERROR[1..], vs[1..]);
      ReadWrittenRecord(STATUS_ERROR, vs, rest);
    }
  }

  function AckValues(ids: seq<nat>): seq<Value> {
    [Many(seq(|ids|, i requires 0 <= i < |ids| => [Number(ids[i])]))]
  }

  lemma {:induction false} NumbersFit(items: seq<seq<Value>>)
    requires forall i :: 0 <= i < |items| ==> |items[i]| == 1 && Fits(Int(8), items[i][0])
    ensures AllFit([Int(8)], items)
    decreases |items|
  {
    if items != [] {
      assert [Int(8)][1..] == [] && items[0][1..] == [];
      assert RecordFits([Int(8)][1..], items[0][1..]);
      NumbersFit(items[1..]);
    }
  }

  /** An acknowledgment of any 64-bit ids is read back exactly if there are at most a hundred of them. */
  lemma AckRoundTrip(ids: seq<nat>, rest: Bytes)
    requires forall i :: 0 <= i < |ids| ==> ids[i] < Endian.Power256(8)
    ensures
      ReadRecord(DM_ACK, WriteRecord(DM_ACK, AckValues(ids)) + rest) == Some((AckValues(ids), rest)) <==> |ids| <= 100
  {
    var vs := AckValues(ids);
    CodecBijection(DM_ACK, WriteRecord(DM_ACK, vs) + rest, vs, rest);
    NumbersFit(vs[0].items);
    assert Endian.Power256(2) == 0x1_0000 by { assert Endian.Power256(1) == 256 * Endian.Power256(0); }
    assert DM_ACK[1..] == [] && vs[1..] == [];
    assert RecordFits(DM_ACK[1..], vs[1..]);
  }

  datatype FriendRecord = FriendRecord(pubkey: Bytes, handle: Bytes, name: Bytes, status: nat)

  function FriendValues(f: FriendRecord): seq<Value> {
    [Raw(f.pubkey), Raw(f.handle), Raw(f.name), Number(f.status)]
  }

  /** A friend a reader accepts: the status is one of the three that are known. */
  predicate FriendOk(f: FriendRecord) {
    && |f.pubkey| == 32 && |f.handle| <= 32 && Utf8.Valid(f.handle) && |f.name| <= 48 && Utf8.Valid(f.name)
    && f.status <= 2
  }

  lemma RecordFitsStep(fs: Layout, vs: seq<Value>, rest: Layout, tail: seq<Value>)
    requires fs != [] && vs != [] && rest == fs[1..] && tail == vs[1..]
    ensures RecordFits(fs, vs) <==> Fits(fs[0], vs[0]) && RecordFits(rest, tail)
  {
  }

  lemma FriendFits(f: FriendRecord)
    ensures RecordFits(FRIEND, FriendValues(f)) <==> FriendOk(f)
  {
    var vs := FriendValues(f);
    assert Endian.Power256(1) == 256 && Endian.Power256(4) > 48 by {
      assert Endian.Power256(1) == 256 * Endian.Power256(0);
      assert Endian.Power256(4) == 256 * Endian.Power256(3) && Endian.Power256(3) == 256 * Endian.Power256(2);
    }
    RecordFitsStep(FRIEND, vs, [HANDLE, Text(48), Enum(1, 2)], [Raw(f.handle), Raw(f.name), Number(f.status)]);
    RecordFitsStep([HANDLE, Text(48), Enum(1, 2)], [Raw(f.handle), Raw(f.name), Number(f.status)],
                   [Text(48), Enum(1, 2)], [Raw(f.name), Number(f.status)]);
    RecordFitsStep([Text(48), Enum(1, 2)], [Raw(f.name), Number(f.status)], [Enum(1, 2)], [Number(f.status)]);
    RecordFitsStep([Enum(1, 2)], [Number(f.status)], [], []);
  }

  lemma {:induction false} AllFitIff(fs: Layout, items: seq<seq<Value>>)
    ensures AllFit(fs, items) <==> forall i :: 0 <= i < |items| ==> RecordFits(fs, items[i])
    decreases |items|
  {
    if items != [] {
      AllFitIff(fs, items[1..]);
      assert forall i :: 0 < i < |items| ==> items[i] == items[1..][i - 1];
    }
  }

  function SlotValues(slots: seq<Bytes>): seq<seq<Value>> {
    seq(|slots|, i requires 0 <= i < |slots| => [Raw(slots[i])])
  }

  function DetailValues(details: seq<FriendRecord>): seq<seq<Value>> {
    seq(|details|, i requires 0 <= i < |details| => FriendValues(details[i]))
  }

  lemma SlotsFit(slots: seq<Bytes>)
    ensures Fits(Slots(8, [KEY]), Many(SlotValues(slots))) <==> |slots| == 8 && forall i :: 0 <= i < |slots| ==> |slots[i]| == 32
  {
    var items := SlotValues(slots);
    AllFitIff([KEY], items);
    forall i | 0 <= i < |slots| ensures RecordFits([KEY], items[i]) <==> |slots[i]| == 32 {
      RecordFitsStep([KEY], items[i], [], []);
    }
  }

  lemma DetailsFit(details: seq<FriendRecord>)
    ensures
      Fits(List(8, FRIEND), Many(DetailValues(details)))
      <==> |details| <= 8 && forall i :: 0 <= i < |details| ==> FriendOk(details[i])
  {
    var items := DetailValues(details);
    AllFitIff(FRIEND, items);
    forall i | 0 <= i < |details| ensures RecordFits(FRIEND, items[i]) <==> FriendOk(details[i]) {
      FriendFits(details[i]);
    }
    assert Endian.Power256(2) == 0x1_0000 by { assert Endian.Power256(1) == 256 * Endian.Power256(0); }
  }

  /** A top-eight answer, eight slots and a list of friends, is read back exactly if each part respects its caps. */
  lemma Top8RoundTrip(slots: seq<Bytes>, details: seq<FriendRecord>, rest: Bytes)
    ensures
      var vs := [Many(SlotValues(slots)), Many(DetailValues(details))];
      ReadRecord(TOP8_RESPONSE, WriteRecord(TOP8_RESPONSE, vs) + rest) == Some((vs, rest))
      <==>
      && |slots| == 8 && (forall i :: 0 <= i < |slots| ==> |slots[i]| == 32)
      && |details| <= 8 && (forall i :: 0 <= i < |details| ==> FriendOk(details[i]))
  {
    var vs := [Many(SlotValues(slots)), Many(DetailValues(details))];
    CodecBijection(TOP8_RESPONSE, WriteRecord(TOP8_RESPONSE, vs) + rest, vs, rest);
    RecordFitsStep(TOP8_RESPONSE, vs, [List(8, FRIEND)], [vs[1]]);
    RecordFitsStep([List(8, FRIEND)], [vs[1]], [], []);
    SlotsFit(slots);
    DetailsFit(details);
  }
}
