/**
 The bytes of some messages written out, field after field, as the write_to functions of common/protocol put them: what the
 layouts and value lists of `WireCodec` come to on the wire.
 */
module WireLayouts {
  import opened Prelude
  import opened WireCodec
  import Endian

  /** A text on the wire: its length in 32 bits, then the bytes. */
  function TextBytes(text: Bytes): Bytes {
    Endian.Store(|text|, 4) + text
  }

  function CommentBytes(c: CommentRecord): Bytes {
    Concat([Endian.Store(c.id, 8), Endian.Store(c.post, 8), Endian.Store(c.parent, 8), c.author, TextBytes(c.handle),
            TextBytes(c.body), Endian.Store(c.createdAt, 8), Endian.Store(c.depth, 2)])
  }

  function PostPieces(p: PostRecord): seq<Bytes> {
    [Endian.Store(p.id, 8), Endian.Store(p.forum, 8), p.author, TextBytes(p.handle), TextBytes(p.title), TextBytes(p.body),
     Endian.Store(p.createdAt, 8), Endian.Store(p.comments, 4)]
  }

  function FriendBytes(f: FriendRecord): Bytes {
    Concat([f.pubkey, TextBytes(f.handle), TextBytes(f.name), Endian.Store(f.status, 1)])
  }

  /** Each field's bytes, for fields and values of the same number. */
  function Pieces(fs: Layout, vs: seq<Value>): (pieces: seq<Bytes>)
    requires |fs| == |vs|
  {
    seq(|fs|, i requires 0 <= i < |fs| => Write(fs[i], vs[i]))
  }

  lemma {:induction false} RecordInPieces(fs: Layout, vs: seq<Value>)
    requires |fs| == |vs|
    ensures WriteRecord(fs, vs) == Concat(Pieces(fs, vs))
    decreases |fs|
  {
    if fs != [] {
      RecordInPieces(fs[1..], vs[1..]);
      assert Pieces(fs, vs)[1..] == Pieces(fs[1..], vs[1..]);
    }
  }

  lemma {:induction false} ItemsInPieces(fs: Layout, items: seq<seq<Value>>, pieces: seq<Bytes>)
    requires |items| == |pieces| && forall i :: 0 <= i < |items| ==> WriteRecord(fs, items[i]) == pieces[i]
    ensures WriteItems(fs, items) == Concat(pieces)
    decreases |items|
  {
    if items != [] {
      ItemsInPieces(fs, items[1..], pieces[1..]);
    }
  }

  lemma CommentLayout(c: CommentRecord)
    ensures WriteRecord(COMMENT, CommentValues(c)) == CommentBytes(c)
  {
    RecordInPieces(COMMENT, CommentValues(c));
    assert Pieces(COMMENT, CommentValues(c))
      == [Endian.Store(c.id, 8), Endian.Store(c.post, 8), Endian.Store(c.parent, 8), c.author, TextBytes(c.handle),
          TextBytes(c.body), Endian.Store(c.createdAt, 8), Endian.Store(c.depth, 2)];
  }

  /** The comments of a thread, one after the other. */
  function CommentPieces(comments: seq<CommentRecord>): (pieces: seq<Bytes>)
    ensures |pieces| == |comments|
  {
    seq(|comments|, i requires 0 <= i < |comments| => CommentBytes(comments[i]))
  }

  lemma CommentsLayout(comments: seq<CommentRecord>, items: seq<seq<Value>>)
    requires |items| == |comments| && forall i :: 0 <= i < |items| ==> items[i] == CommentValues(comments[i])
    ensures WriteItems(COMMENT, items) == Concat(CommentPieces(comments))
  {
    forall i | 0 <= i < |items| ensures WriteRecord(COMMENT, items[i]) == CommentPieces(comments)[i] {
      CommentLayout(comments[i]);
    }
    ItemsInPieces(COMMENT, items, CommentPieces(comments));
  }

  /** A thread answer: the post's fields, the number of comments in 16 bits, the comments, and the truncated flag. */
  lemma ThreadLayout(t: ThreadResponse)
    ensures
      WriteRecord(THREAD_RESPONSE, ThreadValues(t))
      == Concat(PostPieces(t.post)
                + [Endian.Store(|t.comments|, 2) + Concat(CommentPieces(t.comments)), Endian.Store(t.truncated, 1)])
  {
    var vs := ThreadValues(t);
    CommentsLayout(t.comments, vs[8].items);
    RecordInPieces(THREAD_RESPONSE, vs);
    ThreadPieces(t, vs, Concat(CommentPieces(t.comments)));
  }

  lemma ThreadPieces(t: ThreadResponse, vs: seq<Value>, comments: Bytes)
    requires vs == ThreadValues(t) && WriteItems(COMMENT, vs[8].items) == comments
    ensures
      Pieces(THREAD_RESPONSE, vs)
      == PostPieces(t.post) + [Endian.Store(|t.comments|, 2) + comments, Endian.Store(t.truncated, 1)]
  {
  }

  lemma FriendLayout(f: FriendRecord)
    ensures WriteRecord(FRIEND, FriendValues(f)) == FriendBytes(f)
  {
    RecordInPieces(FRIEND, FriendValues(f));
    assert Pieces(FRIEND, FriendValues(f)) == [f.pubkey, TextBytes(f.handle), TextBytes(f.name), Endian.Store(f.status, 1)];
  }

  lemma KeyLayout(key: Bytes)
    ensures WriteRecord([KEY], [Raw(key)]) == key
  {
    RecordInPieces([KEY], [Raw(key)]);
    assert Pieces([KEY], [Raw(key)]) == [key];
    assert Concat([key]) == key;
  }

  /** A top-eight answer: the slots one after the other, the number of friends in 16 bits, and the friends. */
  lemma Top8Layout(slots: seq<Bytes>, details: seq<FriendRecord>)
    ensures
      WriteRecord(TOP8_RESPONSE, [Many(SlotValues(slots)), Many(DetailValues(details))])
      == Concat(slots) + Endian.Store(|details|, 2)
         + Concat(seq(|details|, i requires 0 <= i < |details| => FriendBytes(details[i])))
  {
    var vs := [Many(SlotValues(slots)), Many(DetailValues(details))];
    var friends := seq(|details|, i requires 0 <= i < |details| => FriendBytes(details[i]));
    forall i | 0 <= i < |slots| ensures WriteRecord([KEY], SlotValues(slots)[i]) == slots[i] {
      KeyLayout(slots[i]);
    }
    forall i | 0 <= i < |details| ensures WriteRecord(FRIEND, DetailValues(details)[i]) == friends[i] {
      FriendLayout(details[i]);
    }
    ItemsInPieces([KEY], SlotValues(slots), slots);
    ItemsInPieces(FRIEND, DetailValues(details), friends);
    RecordInPieces(TOP8_RESPONSE, vs);
    assert Pieces(TOP8_RESPONSE, vs) == [Concat(slots), Endian.Store(|details|, 2) + Concat(friends)];
    TwoPieces(Concat(slots), Endian.Store(|details|, 2), Concat(friends));
  }

  lemma TwoPieces(a: Bytes, b: Bytes, c: Bytes)
    ensures Concat([a, b + c]) == a + b + c
  {
    assert [a, b + c][1..] == [b + c] && [b + c][1..] == [];
    assert Concat([b + c]) == b + c;
    AppendAssociative(a, b, c);
  }

  lemma NumberLayout(n: nat)
    ensures WriteRecord([Int(8)], [Number(n)]) == Endian.Store(n, 8)
  {
    RecordInPieces([Int(8)], [Number(n)]);
    assert Pieces([Int(8)], [Number(n)]) == [Endian.Store(n, 8)];
    assert Concat([Endian.Store(n, 8)]) == Endian.Store(n, 8);
  }

  function IdPieces(ids: seq<nat>): (pieces: seq<Bytes>)
    ensures |pieces| == |ids|
  {
    seq(|ids|, i requires 0 <= i < |ids| => Endian.Store(ids[i], 8))
  }

  lemma IdsLayout(ids: seq<nat>, items: seq<seq<Value>>)
    requires |items| == |ids| && forall i :: 0 <= i < |items| ==> items[i] == [Number(ids[i])]
    ensures WriteItems([Int(8)], items) == Concat(IdPieces(ids))
  {
    forall i | 0 <= i < |items| ensures WriteRecord([Int(8)], items[i]) == IdPieces(ids)[i] {
      NumberLayout(ids[i]);
    }
    ItemsInPieces([Int(8)], items, IdPieces(ids));
  }

  /** An acknowledgment: the number of ids in 16 bits, and each in 64. */
  lemma AckLayout(ids: seq<nat>)
    ensures WriteRecord(DM_ACK, AckValues(ids)) == Endian.Store(|ids|, 2) + Concat(IdPieces(ids))
  {
    var vs := AckValues(ids);
    IdsLayout(ids, vs[0].items);
    ListAlone(100, [Int(8)], vs[0].items);
  }

  lemma ListAlone(cap: nat, item: Layout, items: seq<seq<Value>>)
    ensures WriteRecord([List(cap, item)], [Many(items)]) == Endian.Store(|items|, 2) + WriteItems(item, items)
  {
    RecordInPieces([List(cap, item)], [Many(items)]);
    OnePiece(Pieces([List(cap, item)], [Many(items)]), Endian.Store(|items|, 2) + WriteItems(item, items));
  }

  lemma OnePiece(pieces: seq<Bytes>, piece: Bytes)
    requires |pieces| == 1 && pieces[0] == piece
    ensures Concat(pieces) == piece
  {
    assert Concat(pieces[1..]) == [];
  }
}
