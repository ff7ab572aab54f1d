/** The server's mailbox (server/db/dm_repository.cpp): envelope rows with increasing ids, paged lists, acknowledgment. */
module Mailbox {
  import opened Prelude

  const MAX_BATCH := 100

  datatype Envelope = Envelope(recipient: nat, sender: Bytes, ciphertext: Bytes)

  /** A row as it is listed: its id and the letter. */
  datatype Item = Item(id: nat, letter: Envelope)

  /** Rows by id; `last` is the largest id ever assigned, so ids are never reused after a deletion. */
  datatype Mail = Mail(rows: map<nat, Envelope>, last: nat)

  const EMPTY_MAIL := Mail(map[], 0)

  ghost predicate MailOk(m: Mail) {
    forall i :: i in m.rows ==> 0 < i <= m.last
  }

  function Insert(m: Mail, e: Envelope): Mail {
    Mail(m.rows[m.last + 1 := e], m.last + 1)
  }

  /** The 64-bit cast of a wire id to the database's signed integers. */
  function AsInt64(v: nat): int {
    if v >= 0x8000_0000_0000_0000 then v - 0x1_0000_0000_0000_0000 else v
  }

  function ClampLimit(requested: nat): (limit: nat)
    ensures 1 <= limit <= MAX_BATCH
  {
    if requested == 0 || requested > MAX_BATCH then MAX_BATCH else requested
  }

  /** The recipient's rows with ids in (since, upTo], ascending: the filtered, ordered cursor. */
  function Cursor(m: Mail, recipient: nat, since: int, upTo: nat): seq<Item> {
    if upTo == 0 || upTo <= since then []
    else Cursor(m, recipient, since, upTo - 1)
         + (if upTo in m.rows && m.rows[upTo].recipient == recipient then [Item(upTo, m.rows[upTo])] else [])
  }

  /** All that is pending for a recipient after an id. */
  function Pending(m: Mail, recipient: nat, since: int): seq<Item> {
    Cursor(m, recipient, since, m.last)
  }

  /** A letter for the recipient, in range, as the table has it. */
  predicate Listed(m: Mail, recipient: nat, since: int, upTo: nat, item: Item) {
    && since < item.id <= upTo && 0 < item.id && item.id in m.rows
    && m.rows[item.id] == item.letter && item.letter.recipient == recipient
  }

  /** Meaning of Pending: exactly the recipient's letters above `since`, strictly ascending, hence each once. */
  lemma {:induction false} CursorMeaning(m: Mail, recipient: nat, since: int, upTo: nat)
    ensures
      var items := Cursor(m, recipient, since, upTo);
      && (forall i, j :: 0 <= i < j < |items| ==> items[i].id < items[j].id)
      && (forall item :: item in items <==> Listed(m, recipient, since, upTo, item))
  {
    if upTo > 0 && upTo > since {
      CursorMeaning(m, recipient, since, upTo - 1);
      var before, items := Cursor(m, recipient, since, upTo - 1), Cursor(m, recipient, since, upTo);
      forall item ensures item in items <==> Listed(m, recipient, since, upTo, item) {
        assert item in before <==> Listed(m, recipient, since, upTo - 1, item);
      }
      forall i, j | 0 <= i < j < |items| ensures items[i].id < items[j].id {
        assert items[i] == before[i] && before[i] in before;
        assert Listed(m, recipient, since, upTo - 1, before[i]);
      }
    }
  }

  datatype Page = Page(items: seq<Item>, hasMore: bool)

  /** The first `limit` pending letters, and whether there are more. */
  function ListFor(m: Mail, recipient: nat, since: int, limit: nat): Page {
    var all := Pending(m, recipient, since);
    if |all| > limit then Page(all[..limit], true) else Page(all, false)
  }

  /** A page lists letters of the recipient after `since`, and any such letter is on it or after its last. */
  lemma NonePassedOver(m: Mail, recipient: nat, since: int, limit: nat, id: nat)
    requires MailOk(m) && limit >= 1
    ensures
      var page := ListFor(m, recipient, since, limit);
      && |page.items| <= limit && (page.hasMore ==> |page.items| == limit)
      && (forall item <- page.items :: Listed(m, recipient, since, m.last, item))
      && (id in m.rows && m.rows[id].recipient == recipient && since < id ==>
            || Item(id, m.rows[id]) in page.items
            || (page.hasMore && page.items[|page.items| - 1].id < id))
  {
    var all := Pending(m, recipient, since);
    CursorMeaning(m, recipient, since, m.last);
    forall item <- all ensures Listed(m, recipient, since, m.last, item) {
    }
    if id in m.rows && m.rows[id].recipient == recipient && since < id {
      assert Listed(m, recipient, since, m.last, Item(id, m.rows[id]));
      var at :| 0 <= at < |all| && all[at] == Item(id, m.rows[id]);
      if at < limit < |all| {
        assert all[..limit][at] == all[at];
      }
    }
  }

  /** Fetching from the last id received until no more is announced; each request names its own limit. */
  function FetchAll(m: Mail, recipient: nat, since: int, limits: nat -> nat, round: nat): seq<Item>
    requires forall n :: limits(n) >= 1
    decreases |Pending(m, recipient, since)|
  {
    var page := ListFor(m, recipient, since, limits(round));
    if !page.hasMore then page.items
    else
      var next := page.items[|page.items| - 1].id;
      PageAdvances(m, recipient, since, limits(round));
      page.items + FetchAll(m, recipient, next, limits, round + 1)
  }

  /** After a page, what is pending from its last id is what followed the page. */
  lemma PageAdvances(m: Mail, recipient: nat, since: int, limit: nat)
    requires 1 <= limit < |Pending(m, recipient, since)|
    ensures
      var all := Pending(m, recipient, since);
      Pending(m, recipient, all[limit - 1].id) == all[limit..]
  {
    CursorFrom(m, recipient, since, m.last, limit);
  }

  lemma {:induction false} CursorFrom(m: Mail, recipient: nat, since: int, upTo: nat, n: nat)
    requires 1 <= n <= |Cursor(m, recipient, since, upTo)|
    ensures
      var all := Cursor(m, recipient, since, upTo);
      all[n - 1].id <= upTo && Cursor(m, recipient, all[n - 1].id, upTo) == all[n..]
    decreases upTo
  {
    var all := Cursor(m, recipient, since, upTo);
    var before := Cursor(m, recipient, since, upTo - 1);
    if n <= |before| {
      CursorFrom(m, recipient, since, upTo - 1, n);
      assert all[n..] == before[n..] + all[|before|..];
    }
  }

  /**
   Paging is complete and exact: with no change in between, repeated fetches from the last id return the
   recipient's pending envelopes, each once and in ascending order, whatever the page sizes.
   */
  lemma {:induction false} PagingComplete(m: Mail, recipient: nat, since: int, limits: nat -> nat, round: nat)
    requires forall n :: limits(n) >= 1
    ensures FetchAll(m, recipient, since, limits, round) == Pending(m, recipient, since)
    decreases |Pending(m, recipient, since)|
  {
    var all := Pending(m, recipient, since);
    var limit := limits(round);
    if |all| > limit {
      PageAdvances(m, recipient, since, limit);
      PagingComplete(m, recipient, all[limit - 1].id, limits, round + 1);
      assert all == all[..limit] + all[limit..];
    }
  }

  // ---------------------------------------------------------------------------------------------
  // Acknowledgment

  /** Rows left when the listed ids owned by the recipient are gone. */
  function Acknowledge(m: Mail, recipient: nat, ids: seq<nat>): Mail {
    m.(rows := map i | i in m.rows && !(i in ids && m.rows[i].recipient == recipient) :: m.rows[i])
  }

  /** A database fault at some deletion rolls the whole transaction back. */
  predicate Faulted(ids: seq<nat>, fault: Option<nat>) {
    fault.Some? && fault.value < |ids|
  }

  /** An acknowledgment takes the listed ids out of the recipient's own pending list, and changes nobody else's. */
  lemma {:induction false} AcknowledgeEffect(m: Mail, recipient: nat, ids: seq<nat>, owner: nat, since: int, upTo: nat)
    ensures
      var after := Cursor(Acknowledge(m, recipient, ids), owner, since, upTo);
      if owner != recipient then after == Cursor(m, owner, since, upTo)
      else forall item :: item in after <==> item in Cursor(m, owner, since, upTo) && item.id !in ids
    decreases upTo
  {
    if upTo > 0 && upTo > since {
      AcknowledgeEffect(m, recipient, ids, owner, since, upTo - 1);
    }
  }

  /** A since id beyond the signed range becomes negative in the cast and asks for everything again. */
  lemma {:induction false} HugeSinceFetchesAll(m: Mail, recipient: nat, since: nat, upTo: nat)
    requires 0x8000_0000_0000_0000 <= since < 0x1_0000_0000_0000_0000
    ensures Cursor(m, recipient, AsInt64(since), upTo) == Cursor(m, recipient, 0, upTo)
    decreases upTo
  {
    if upTo > 0 {
      HugeSinceFetchesAll(m, recipient, since, upTo - 1);
    }
  }

  /**
   A fetch lists what lies after the id it names exactly when that id is within the signed range, or nothing is pending at
   all. The ids of the table are.
   */
  lemma SinceHonoured(m: Mail, recipient: nat, since: nat, limit: nat)
    requires MailOk(m) && m.last < 0x8000_0000_0000_0000 && since < 0x1_0000_0000_0000_0000 && limit >= 1
    ensures
      ListFor(m, recipient, AsInt64(since), limit) == ListFor(m, recipient, since, limit)
      <==> since < 0x8000_0000_0000_0000 || Pending(m, recipient, 0) == []
  {
    if since >= 0x8000_0000_0000_0000 {
      HugeSinceFetchesAll(m, recipient, since, m.last);
      assert Pending(m, recipient, since) == [];
    }
  }

  class MailTable {
    var mail: Mail

    constructor ()
      ensures mail == EMPTY_MAIL
    {
      mail := EMPTY_MAIL;
    }

    method InsertEnvelope(recipient: nat, sender: Bytes, ciphertext: Bytes) returns (id: nat)
      modifies this
      ensures mail == Insert(old(mail), Envelope(recipient, sender, ciphertext)) && id == mail.last
    {
      id := mail.last + 1;
      mail := Mail(mail.rows[id := Envelope(recipient, sender, ciphertext)], id);
    }

    /** Steps through the ordered cursor, asking for one row more than the limit. */
    method ListForRecipient(recipient: nat, since: int, limit: nat) returns (page: Page)
      ensures page == ListFor(mail, recipient, since, limit)
    {
      var rows := Pending(mail, recipient, since);
      var items: seq<Item> := [];
      for next := 0 to |rows|
        invariant items == rows[..next] && next <= limit
      {
        if |items| >= limit {
          return Page(items, true);
        }
        items := items + [rows[next]];
      }
      assert rows[..|rows|] == rows;
      return Page(items, false);
    }

    /** One deletion per id inside a transaction; `fault` is the deletion the database fails, if any. */
    method DeleteAcknowledged(recipient: nat, ids: seq<nat>, fault: Option<nat>) returns (ok: bool)
      modifies this
      ensures ok <==> !Faulted(ids, fault)
      ensures mail == if ok then Acknowledge(old(mail), recipient, ids) else old(mail)
    {
      var saved := mail;
      var rows := mail.rows;
      for n := 0 to |ids|
        invariant rows == Acknowledge(saved, recipient, ids[..n]).rows
        invariant fault.Some? ==> fault.value >= n
      {
        if fault == Some(n) {
          mail := saved;
          return false;
        }
        var id := ids[n];
        assert ids[..n + 1] == ids[..n] + [id];
        if id in rows && rows[id].recipient == recipient {
          rows := rows - {id};
        }
      }
      assert ids[..|ids|] == ids;
      mail := mail.(rows := rows);
      ok := true;
    }
  }
}
