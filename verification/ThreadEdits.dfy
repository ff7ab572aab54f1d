/**
 What becomes of comments over all posts and deletions (server/handlers/content_handler.cpp, server/db/comment_repository.cpp):
 which posts make a comment, and who takes its text away.
 */
module ThreadEdits {
  import opened Threads

  /** A comment is made if and only if it has text, its post exists, and its parent, if any, is a comment of that post. */
  lemma CreatedIff(t: Table, posts: set<nat>, c: Comment)
    ensures
      var (u, outcome) := Create(t, posts, c);
      var fits := c.parent == 0 || (c.parent in t.rows && t.rows[c.parent].post == c.post);
      && (outcome.Created? <==> c.body != "" && c.post in posts && fits)
      && (outcome.NotFound? <==> c.body != "" && c.post !in posts)
      && (outcome.InvalidField? <==> c.body == "" || (c.post in posts && !fits))
      && u == (if outcome.Created? then Table(t.rows[t.last + 1 := c], t.last + 1) else t)
      && (outcome.Created? ==> outcome.id == t.last + 1)
  {
  }

  /** A deletion takes the text of the author's own comment, if it still has one, and changes nothing else. */
  lemma BlankedIff(t: Table, id: nat, author: nat)
    ensures
      var (u, outcome) := Blank(t, id, author);
      && (outcome.Blanked? <==> id in t.rows && t.rows[id].author == author && t.rows[id].body != "")
      && (!outcome.Blanked? ==> outcome.NotOwned?)
      && u.last == t.last && u.rows.Keys == t.rows.Keys
      && (forall i :: i in t.rows && u.rows[i] != t.rows[i] ==> i == id && t.rows[i].author == author)
      && (outcome.Blanked? ==> u.rows[id] == t.rows[id].(body := ""))
  {
  }

  /** The k-th edit posted this comment, as number id. */
  ghost predicate PostedAt(edits: seq<Edit>, k: nat, id: nat, c: Comment) {
    && k < |edits| && edits[k].Post? && edits[k].comment == c && id == Build(edits[..k]).last + 1
    && Create(Build(edits[..k]), edits[k].posts, c).1.Created?
  }

  /** Its author deleted it after that. */
  ghost predicate ErasedAfter(edits: seq<Edit>, k: nat, id: nat, author: nat) {
    exists j :: k < j < |edits| && edits[j] == Erase(id, author)
  }

  /** A comment as it was posted, without its text if the author deleted it since. */
  ghost predicate History(edits: seq<Edit>, id: nat, c: Comment, k: nat) {
    && id in Build(edits).rows && PostedAt(edits, k, id, c)
    && Build(edits).rows[id] == c.(body := if ErasedAfter(edits, k, id, c.author) then "" else c.body)
  }

  lemma BuildStep(edits: seq<Edit>, e: Edit)
    ensures
      Build(edits + [e])
      == if e.Post? then Create(Build(edits), e.posts, e.comment).0 else Blank(Build(edits), e.id, e.author).0
  {
    assert (edits + [e])[..|edits|] == edits;
  }

  lemma PostedLonger(edits: seq<Edit>, e: Edit, k: nat, id: nat, c: Comment)
    requires PostedAt(edits, k, id, c)
    ensures PostedAt(edits + [e], k, id, c)
    ensures ErasedAfter(edits + [e], k, id, c.author) <==> ErasedAfter(edits, k, id, c.author) || e == Erase(id, c.author)
  {
    var more := edits + [e];
    assert more[..k] == edits[..k] && more[|edits|] == e;
    if ErasedAfter(edits, k, id, c.author) {
      var j :| k < j < |edits| && edits[j] == Erase(id, c.author);
      assert more[j] == edits[j];
    }
  }

  lemma HistoryGoesOn(edits: seq<Edit>, e: Edit, id: nat, c: Comment, k: nat)
    requires History(edits, id, c, k) && Forest(Build(edits))
    ensures History(edits + [e], id, c, k)
  {
    BuildStep(edits, e);
    PostedLonger(edits, e, k, id, c);
    var t := Build(edits);
    match e
    case Post(posts, comment) => CreatedIff(t, posts, comment);
    case Erase(i, author) => BlankedIff(t, i, author);
  }

  lemma HistoryBegins(edits: seq<Edit>, e: Edit, id: nat)
    requires Forest(Build(edits)) && id !in Build(edits).rows && id in Build(edits + [e]).rows
    ensures e.Post? && History(edits + [e], id, e.comment, |edits|)
  {
    BuildStep(edits, e);
    var more := edits + [e];
    assert more[..|edits|] == edits && more[|edits|] == e;
    if e.Erase? {
      BlankedIff(Build(edits), e.id, e.author);
    }
  }

  /**
   In every table that edits can build: a comment has the post, parent and author it was posted with, and is blank if and only
   if its author deleted it since; nobody else's deletion touches it.
   */
  lemma {:induction false} CommentHistory(edits: seq<Edit>, id: nat) returns (c: Comment, k: nat)
    requires id in Build(edits).rows
    ensures History(edits, id, c, k) && c.body != ""
    decreases |edits|
  {
    if edits == [] {
      assert false;
    } else {
      var before, e := edits[..|edits| - 1], edits[|edits| - 1];
      assert edits == before + [e];
      BuildIsForest(before);
      if id in Build(before).rows {
        c, k := CommentHistory(before, id);
        HistoryGoesOn(before, e, id, c, k);
      } else {
        HistoryBegins(before, e, id);
        c, k := e.comment, |before|;
      }
    }
  }
}
