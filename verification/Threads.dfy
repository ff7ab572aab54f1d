/**
 Comment threads: the forest that the create path builds (server/handlers/content_handler.cpp), the recursive query that
 reads it back sorted by text (server/db/comment_repository.cpp), and the preorder traversal it is meant to be.
 */
module Threads {
  import opened TextOrder
  import opened ThreadPaths

  const MAX_DEPTH := 24

  /** `parent` is 0 for a direct reply to the post. */
  datatype Comment = Comment(post: nat, parent: nat, author: nat, body: string)

  /** Rows by id; `last` is the largest id ever assigned. */
  datatype Table = Table(rows: map<nat, Comment>, last: nat)

  const EMPTY_TABLE := Table(map[], 0)

  ghost predicate Forest(t: Table) {
    forall i :: i in t.rows ==>
                  && 0 < i <= t.last
                  && (t.rows[i].parent != 0 ==>
                        && t.rows[i].parent in t.rows
                        && t.rows[i].parent < i
                        && t.rows[t.rows[i].parent].post == t.rows[i].post)
  }

  // ---------------------------------------------------------------------------------------------
  // The create path

  datatype Outcome = Created(id: nat) | InvalidField | NotFound | Blanked | NotOwned

  predicate ParentBelongs(t: Table, parent: nat, post: nat) {
    parent in t.rows && t.rows[parent].post == post
  }

  function Create(t: Table, posts: set<nat>, c: Comment): (Table, Outcome) {
    if c.body == "" then (t, InvalidField)
    else if c.post !in posts then (t, NotFound)
    else if c.parent != 0 && !ParentBelongs(t, c.parent, c.post) then (t, InvalidField)
    else (Table(t.rows[t.last + 1 := c], t.last + 1), Created(t.last + 1))
  }

  /** An author's own comment keeps its row and loses its text. */
  function Blank(t: Table, id: nat, author: nat): (Table, Outcome) {
    if id in t.rows && t.rows[id].author == author && t.rows[id].body != ""
    then (t.(rows := t.rows[id := t.rows[id].(body := "")]), Blanked)
    else (t, NotOwned)
  }

  datatype Edit = Post(posts: set<nat>, comment: Comment) | Erase(id: nat, author: nat)

  function Build(edits: seq<Edit>): Table {
    if edits == [] then EMPTY_TABLE
    else
      var t := Build(edits[..|edits| - 1]);
      match edits[|edits| - 1]
      case Post(posts, comment) => Create(t, posts, comment).0
      case Erase(id, author) => Blank(t, id, author).0
  }

  /** Whatever is posted and erased, the table is a forest: parents exist, are older and share the post. */
  lemma {:induction false} BuildIsForest(edits: seq<Edit>)
    ensures Forest(Build(edits))
    decreases |edits|
  {
    if edits != [] {
      BuildIsForest(edits[..|edits| - 1]);
    }
  }

  /** Ids from the root down to a comment. */
  function LineOf(t: Table, id: nat): (l: Line)
    requires Forest(t) && id in t.rows
    ensures l != [] && l[|l| - 1] == id
    ensures forall i :: 0 <= i < |l| ==> l[i] in t.rows && t.rows[l[i]].post == t.rows[id].post
    decreases id
  {
    if t.rows[id].parent == 0 then [id] else LineOf(t, t.rows[id].parent) + [id]
  }

  ghost function DepthOf(t: Table, id: nat): nat
    requires Forest(t) && id in t.rows
  {
    |LineOf(t, id)| - 1
  }

  // ---------------------------------------------------------------------------------------------
  // The recursive query

  datatype Row = Row(id: nat, depth: nat, path: string)

  /** The recursive join: a reply to a row that is not at the depth bound. */
  ghost predicate Joins(t: Table, r: Row, id: nat) {
    id in t.rows && t.rows[id].parent == r.id && r.depth < MAX_DEPTH
  }

  ghost function ReplyRow(r: Row, id: nat): Row {
    Row(id, r.depth + 1, r.path + "/" + Format(id))
  }

  /** Rows the query produces in its k-th round: the roots, then the replies to the previous round. */
  ghost function Level(t: Table, post: nat, k: nat): set<Row> {
    if k == 0 then
      set id | id in t.rows && t.rows[id].post == post && t.rows[id].parent == 0 :: Row(id, 0, Format(id))
    else
      set id, r | r in Level(t, post, k - 1) && id in t.rows && Joins(t, r, id) :: ReplyRow(r, id)
  }

  ghost predicate InThread(t: Table, post: nat, r: Row) {
    exists k: nat :: r in Level(t, post, k)
  }

  /** ORDER BY path: the rows of the thread, each once, never one before a row with a smaller path. */
  ghost predicate Sorted(t: Table, post: nat, rows: seq<Row>) {
    && (forall r :: r in rows <==> InThread(t, post, r))
    && (forall i, j :: 0 <= i < j < |rows| ==> rows[i] != rows[j])
    && (forall i, j :: 0 <= i < j < |rows| ==> !Before(rows[j].path, rows[i].path))
  }

  ghost function RowOf(t: Table, id: nat): Row
    requires Forest(t) && id in t.rows
  {
    Row(id, DepthOf(t, id), Render(LineOf(t, id)))
  }

  lemma LineOfReply(t: Table, id: nat)
    requires Forest(t) && id in t.rows
    ensures
      var parent := t.rows[id].parent;
      RowOf(t, id) == if parent == 0 then Row(id, 0, Format(id)) else ReplyRow(RowOf(t, parent), id)
  {
    var parent := t.rows[id].parent;
    if parent == 0 {
      assert Tail([]) == "";
      assert Render([id]) == Format(id);
    } else {
      RenderSnoc(LineOf(t, parent), id);
    }
  }

  /** A comment of this post that a query bounded in depth may return. */
  ghost predicate Reachable(t: Table, post: nat, r: Row)
    requires Forest(t)
  {
    r.id in t.rows && t.rows[r.id].post == post && r == RowOf(t, r.id) && r.depth <= MAX_DEPTH
  }

  lemma {:induction false} LevelSound(t: Table, post: nat, k: nat, r: Row)
    requires Forest(t) && r in Level(t, post, k)
    ensures Reachable(t, post, r) && r.depth == k
    decreases k
  {
    if k == 0 {
      LineOfReply(t, r.id);
    } else {
      var id, q :| q in Level(t, post, k - 1) && id in t.rows && Joins(t, q, id) && r == ReplyRow(q, id);
      LevelSound(t, post, k - 1, q);
      LineOfReply(t, id);
    }
  }

  lemma {:induction false} LevelComplete(t: Table, post: nat, r: Row)
    requires Forest(t) && Reachable(t, post, r)
    ensures r in Level(t, post, r.depth)
    decreases r.id
  {
    LineOfReply(t, r.id);
    var parent := t.rows[r.id].parent;
    if parent != 0 {
      var p := RowOf(t, parent);
      LevelComplete(t, post, p);
      assert Joins(t, p, r.id) && r == ReplyRow(p, r.id);
    }
  }

  /** What the recursion reaches: the post's comments of depth at most 24, with their depth and line as text. */
  lemma ThreadMeaning(t: Table, post: nat, r: Row)
    requires Forest(t)
    ensures InThread(t, post, r) <==> Reachable(t, post, r)
  {
    if InThread(t, post, r) {
      var k: nat :| r in Level(t, post, k);
      LevelSound(t, post, k, r);
    }
    if Reachable(t, post, r) {
      LevelComplete(t, post, r);
    }
  }

  // ---------------------------------------------------------------------------------------------
  // The traversal

  datatype Node = Node(id: nat, depth: nat)

  /** Ids up to n whose row satisfies a condition, ascending. */
  function Ascending(t: Table, n: nat, want: Comment -> bool): seq<nat> {
    if n == 0 then []
    else Ascending(t, n - 1, want) + (if n in t.rows && want(t.rows[n]) then [n] else [])
  }

  function Roots(t: Table, post: nat): seq<nat> {
    Ascending(t, t.last, (c: Comment) => c.post == post && c.parent == 0)
  }

  function Replies(t: Table, id: nat): seq<nat> {
    Ascending(t, t.last, (c: Comment) => c.parent == id)
  }

  /** A comment, then its replies' subtrees by id, no deeper than the bound. */
  function Preorder(t: Table, id: nat, depth: nat): seq<Node>
    decreases MAX_DEPTH - depth, 0
  {
    [Node(id, depth)] + (if depth < MAX_DEPTH then PreorderAll(t, Replies(t, id), depth + 1) else [])
  }

  function PreorderAll(t: Table, ids: seq<nat>, depth: nat): seq<Node>
    decreases MAX_DEPTH - depth, 1, |ids|
  {
    if ids == [] then [] else Preorder(t, ids[0], depth) + PreorderAll(t, ids[1..], depth)
  }

  function Traversal(t: Table, post: nat): seq<Node> {
    PreorderAll(t, Roots(t, post), 0)
  }

  lemma {:induction false} AscendingMeaning(t: Table, n: nat, want: Comment -> bool)
    ensures
      var ids := Ascending(t, n, want);
      && (forall i, j :: 0 <= i < j < |ids| ==> ids[i] < ids[j])
      && (forall id :: id in ids <==> 0 < id <= n && id in t.rows && want(t.rows[id]))
  {
    if n > 0 {
      AscendingMeaning(t, n - 1, want);
      var before := Ascending(t, n - 1, want);
      assert forall i :: 0 <= i < |before| ==> before[i] in before;
    }
  }

  lemma RepliesMeaning(t: Table, id: nat)
    ensures
      var ids := Replies(t, id);
      && (forall i, j :: 0 <= i < j < |ids| ==> ids[i] < ids[j])
      && (forall x :: x in ids <==> 0 < x <= t.last && x in t.rows && t.rows[x].parent == id)
  {
    AscendingMeaning(t, t.last, (c: Comment) => c.parent == id);
  }

  lemma RootsMeaning(t: Table, post: nat)
    ensures
      var ids := Roots(t, post);
      && (forall i, j :: 0 <= i < j < |ids| ==> ids[i] < ids[j])
      && (forall x :: x in ids <==> 0 < x <= t.last && x in t.rows && t.rows[x].post == post && t.rows[x].parent == 0)
  {
    AscendingMeaning(t, t.last, (c: Comment) => c.post == post && c.parent == 0);
  }

  /** Comments hanging below the same line, in ascending order. */
  ghost predicate Siblings(t: Table, above: Line, ids: seq<nat>)
    requires Forest(t)
  {
    && (forall i :: 0 <= i < |ids| ==> ids[i] in t.rows && LineOf(t, ids[i]) == above + [ids[i]])
    && (forall i, j :: 0 <= i < j < |ids| ==> ids[i] < ids[j])
  }

  lemma RepliesAreSiblings(t: Table, id: nat)
    requires Forest(t) && id in t.rows
    ensures Siblings(t, LineOf(t, id), Replies(t, id))
  {
    var ids := Replies(t, id);
    RepliesMeaning(t, id);
    assert forall i :: 0 <= i < |ids| ==> ids[i] in ids;
  }

  lemma RootsAreSiblings(t: Table, post: nat)
    requires Forest(t)
    ensures Siblings(t, [], Roots(t, post))
  {
    var ids := Roots(t, post);
    RootsMeaning(t, post);
    assert forall i :: 0 <= i < |ids| ==> ids[i] in ids;
  }

  /** Nodes below a line: real comments with their true depth, and strictly in preorder of their lines. */
  ghost predicate Orderly(t: Table, above: Line, nodes: seq<Node>)
    requires Forest(t)
  {
    && (forall i :: 0 <= i < |nodes| ==> Placed(t, above, nodes[i]))
    && (forall i, j :: 0 <= i < j < |nodes| ==> Precedes(t, nodes[i], nodes[j]))
  }

  ghost predicate Placed(t: Table, above: Line, n: Node)
    requires Forest(t)
  {
    n.id in t.rows && above <= LineOf(t, n.id) && n.depth == DepthOf(t, n.id) <= MAX_DEPTH
  }

  ghost predicate Precedes(t: Table, m: Node, n: Node)
    requires Forest(t)
  {
    m.id in t.rows && n.id in t.rows && exists k: nat :: LineBefore(LineOf(t, m.id), LineOf(t, n.id), k)
  }

  lemma {:induction false} PreorderOrderly(t: Table, id: nat, depth: nat)
    requires Forest(t) && id in t.rows && DepthOf(t, id) == depth <= MAX_DEPTH
    ensures Orderly(t, LineOf(t, id), Preorder(t, id, depth))
    decreases MAX_DEPTH - depth, 0
  {
    var line := LineOf(t, id);
    if depth < MAX_DEPTH {
      RepliesAreSiblings(t, id);
      var below := PreorderAll(t, Replies(t, id), depth + 1);
      PreorderAllOrderly(t, line, Replies(t, id), depth + 1);
      HeadOrderly(t, line, Node(id, depth), below);
    } else {
      HeadOrderly(t, line, Node(id, depth), []);
      assert [Node(id, depth)] + [] == [Node(id, depth)];
    }
  }

  lemma HeadOrderly(t: Table, line: Line, head: Node, below: seq<Node>)
    requires Forest(t) && Placed(t, line, head) && LineOf(t, head.id) == line
    requires Orderly(t, line, below) && (forall j :: 0 <= j < |below| ==> Below(t, line, below[j]))
    ensures Orderly(t, line, [head] + below)
  {
    var nodes := [head] + below;
    forall j | 0 <= j < |nodes| ensures Placed(t, line, nodes[j]) {
      if j > 0 {
        assert nodes[j] == below[j - 1];
      }
    }
    forall i, j | 0 <= i < j < |nodes| ensures Precedes(t, nodes[i], nodes[j]) {
      assert nodes[j] == below[j - 1];
      if i == 0 {
        var q := LineOf(t, nodes[j].id);
        assert q[..|line|] == line && line[..|line|] == line;
        assert LineBefore(line, q, |line|);
      } else {
        assert nodes[i] == below[i - 1];
      }
    }
  }

  /** Strictly below a line. */
  ghost predicate Below(t: Table, above: Line, n: Node)
    requires Forest(t)
  {
    Placed(t, above, n) && above < LineOf(t, n.id)
  }

  /** Below the same line, the branch with the smaller id comes first. */
  lemma BranchPrecedes(t: Table, above: Line, m: Node, n: Node)
    requires Forest(t) && Below(t, above, m) && Below(t, above, n)
    requires LineOf(t, m.id)[|above|] < LineOf(t, n.id)[|above|]
    ensures Precedes(t, m, n)
  {
    var p, q := LineOf(t, m.id), LineOf(t, n.id);
    assert p[..|above|] == above == q[..|above|];
    assert LineBefore(p, q, |above|);
  }

  lemma {:induction false} PreorderAllOrderly(t: Table, above: Line, ids: seq<nat>, depth: nat)
    requires Forest(t) && Siblings(t, above, ids) && |above| == depth <= MAX_DEPTH
    ensures Orderly(t, above, PreorderAll(t, ids, depth))
    ensures forall i :: 0 <= i < |PreorderAll(t, ids, depth)| ==>
                          Below(t, above, PreorderAll(t, ids, depth)[i])
                          && LineOf(t, PreorderAll(t, ids, depth)[i].id)[|above|] in ids
    decreases MAX_DEPTH - depth, 1, |ids|
  {
    if ids != [] {
      var head, rest := Preorder(t, ids[0], depth), PreorderAll(t, ids[1..], depth);
      var line := above + [ids[0]];
      PreorderOrderly(t, ids[0], depth);
      PreorderAllOrderly(t, above, ids[1..], depth);
      forall i | 0 <= i < |head|
        ensures Below(t, above, head[i]) && LineOf(t, head[i].id)[|above|] == ids[0]
      {
        assert Placed(t, line, head[i]);
        assert line[|above|] == ids[0];
      }
      forall i, j | 0 <= i < |head| && 0 <= j < |rest| ensures Precedes(t, head[i], rest[j]) {
        assert LineOf(t, rest[j].id)[|above|] in ids[1..];
        BranchPrecedes(t, above, head[i], rest[j]);
      }
    }
  }

  /** Below a listed comment that is not at the depth bound, its replies are listed. */
  lemma {:induction false} PreorderClosed(t: Table, id: nat, depth: nat, n: Node, reply: nat)
    requires Forest(t) && n in Preorder(t, id, depth) && n.depth < MAX_DEPTH
    requires reply in t.rows && t.rows[reply].parent == n.id
    ensures Node(reply, n.depth + 1) in Preorder(t, id, depth)
    decreases MAX_DEPTH - depth, 0
  {
    if depth < MAX_DEPTH {
      var below := PreorderAll(t, Replies(t, id), depth + 1);
      assert Preorder(t, id, depth) == [Node(id, depth)] + below;
      if n == Node(id, depth) {
        RepliesMeaning(t, id);
        HeadListed(t, Replies(t, id), depth + 1, reply);
      } else {
        PreorderAllClosed(t, Replies(t, id), depth + 1, n, reply);
      }
      assert Node(reply, n.depth + 1) in below;
    }
  }

  lemma {:induction false} PreorderAllClosed(t: Table, ids: seq<nat>, depth: nat, n: Node, reply: nat)
    requires Forest(t) && n in PreorderAll(t, ids, depth) && n.depth < MAX_DEPTH
    requires reply in t.rows && t.rows[reply].parent == n.id
    ensures Node(reply, n.depth + 1) in PreorderAll(t, ids, depth)
    decreases MAX_DEPTH - depth, 1, |ids|
  {
    if ids != [] {
      if n in Preorder(t, ids[0], depth) {
        PreorderClosed(t, ids[0], depth, n, reply);
      } else {
        PreorderAllClosed(t, ids[1..], depth, n, reply);
      }
    }
  }

  lemma {:induction false} HeadListed(t: Table, ids: seq<nat>, depth: nat, id: nat)
    requires id in ids
    ensures Node(id, depth) in PreorderAll(t, ids, depth)
    decreases |ids|
  {
    if ids[0] == id {
      assert Preorder(t, id, depth)[0] == Node(id, depth);
    } else {
      HeadListed(t, ids[1..], depth, id);
    }
  }

  /** Every comment of the post within the depth bound is visited. */
  lemma {:induction false} TraversalComplete(t: Table, post: nat, id: nat)
    requires Forest(t) && id in t.rows && t.rows[id].post == post && DepthOf(t, id) <= MAX_DEPTH
    ensures Node(id, DepthOf(t, id)) in Traversal(t, post)
    decreases id
  {
    var parent := t.rows[id].parent;
    if parent == 0 {
      RootsMeaning(t, post);
      HeadListed(t, Roots(t, post), 0, id);
    } else {
      TraversalComplete(t, post, parent);
      PreorderAllClosed(t, Roots(t, post), 0, Node(parent, DepthOf(t, parent)), id);
    }
  }

  /** Only comments of the post are visited. */
  lemma TraversalInPost(t: Table, post: nat, n: Node)
    requires Forest(t) && n in Traversal(t, post)
    ensures n.id in t.rows && t.rows[n.id].post == post && n.depth == DepthOf(t, n.id) <= MAX_DEPTH
  {
    RootsAreSiblings(t, post);
    PreorderAllOrderly(t, [], Roots(t, post), 0);
    var nodes := Traversal(t, post);
    var i :| 0 <= i < |nodes| && nodes[i] == n;
    var line := LineOf(t, n.id);
    assert line[0] in Roots(t, post);
    RootsMeaning(t, post);
  }

  // ---------------------------------------------------------------------------------------------
  // The sorted query is the traversal

  ghost function RowsOf(t: Table, nodes: seq<Node>): (rows: seq<Row>)
    requires Forest(t) && forall n <- nodes :: n.id in t.rows
    ensures |rows| == |nodes|
  {
    seq(|nodes|, i requires 0 <= i < |nodes| => RowOf(t, nodes[i].id))
  }

  predicate IdsNarrow(t: Table) {
    t.last < ID_LIMIT
  }

  /** Of the post's comments within the depth bound, siblings have their texts in the order of their ids. */
  ghost predicate SiblingsOrdered(t: Table, post: nat)
    requires Forest(t)
  {
    forall a, b :: AreSiblings(t, post, a, b) ==> Before(Format(a), Format(b))
  }

  ghost predicate AreSiblings(t: Table, post: nat, a: nat, b: nat)
    requires Forest(t)
  {
    && a in t.rows && b in t.rows && a < b
    && t.rows[a].post == t.rows[b].post == post && t.rows[a].parent == t.rows[b].parent
    && DepthOf(t, a) <= MAX_DEPTH
  }

  lemma NarrowOrdered(t: Table, post: nat)
    requires Forest(t) && IdsNarrow(t)
    ensures SiblingsOrdered(t, post)
  {
    forall a, b | AreSiblings(t, post, a, b) ensures Before(Format(a), Format(b)) {
      FormatOrder(a, b);
    }
  }

  lemma {:induction false} LinePrefix(t: Table, id: nat, k: nat)
    requires Forest(t) && id in t.rows && k < |LineOf(t, id)|
    ensures
      var l := LineOf(t, id);
      LineOf(t, l[k]) == l[..k + 1] && t.rows[l[k]].parent == (if k == 0 then 0 else l[k - 1])
    decreases id
  {
    var l := LineOf(t, id);
    if k == |l| - 1 {
      assert l[..k + 1] == l;
    } else {
      var above := LineOf(t, t.rows[id].parent);
      LinePrefix(t, t.rows[id].parent, k);
      assert above[..k + 1] == l[..k + 1];
    }
  }

  /** Where the lines of two comments of the post part, they part into siblings. */
  lemma PartIntoSiblings(t: Table, post: nat, m: nat, n: nat, k: nat)
    requires Forest(t) && m in t.rows && n in t.rows && t.rows[m].post == t.rows[n].post == post && DepthOf(t, m) <= MAX_DEPTH
    requires PartAt(LineOf(t, m), LineOf(t, n), k) && LineOf(t, m)[k] < LineOf(t, n)[k]
    ensures AreSiblings(t, post, LineOf(t, m)[k], LineOf(t, n)[k])
  {
    var p, q := LineOf(t, m), LineOf(t, n);
    LinePrefix(t, m, k);
    LinePrefix(t, n, k);
    if k > 0 {
      assert p[k - 1] == p[..k][k - 1] == q[..k][k - 1] == q[k - 1];
    }
  }

  /** Rows in strict path order are the only way to sort their set. */
  lemma {:induction false} SortUnique(rows: seq<Row>, strict: seq<Row>)
    requires forall r :: r in rows <==> r in strict
    requires forall i, j :: 0 <= i < j < |rows| ==> rows[i] != rows[j] && !Before(rows[j].path, rows[i].path)
    requires forall i, j :: 0 <= i < j < |strict| ==> Before(strict[i].path, strict[j].path)
    ensures rows == strict
    decreases |rows|
  {
    assert strict != [] ==> strict[0] in rows;
    if rows != [] {
      assert rows[0] in strict;
      assert strict[0] in rows;
      var j :| 0 <= j < |rows| && rows[j] == strict[0];
      var i :| 0 <= i < |strict| && strict[i] == rows[0];
      assert i == 0;
      forall i, j | 0 <= i < j < |strict| ensures strict[i] != strict[j] {
        BeforeAsymmetric(strict[i].path, strict[j].path);
      }
      forall r ensures r in rows[1..] <==> r in strict[1..] {
        assert r in rows <==> r == rows[0] || r in rows[1..];
        assert r in strict <==> r == strict[0] || r in strict[1..];
      }
      SortUnique(rows[1..], strict[1..]);
      assert rows == [rows[0]] + rows[1..] && strict == [strict[0]] + strict[1..];
    }
  }

  lemma TraversalRowSet(t: Table, post: nat, r: Row)
    requires Forest(t)
    ensures forall n <- Traversal(t, post) :: n.id in t.rows
    ensures r in RowsOf(t, Traversal(t, post)) <==> InThread(t, post, r)
  {
    var nodes := Traversal(t, post);
    forall n | n in nodes ensures n.id in t.rows {
      TraversalInPost(t, post, n);
    }
    var rows := RowsOf(t, nodes);
    ThreadMeaning(t, post, r);
    if r in rows {
      var i :| 0 <= i < |rows| && rows[i] == r;
      assert nodes[i] in nodes;
      TraversalInPost(t, post, nodes[i]);
    }
    if InThread(t, post, r) {
      TraversalComplete(t, post, r.id);
      var i :| 0 <= i < |nodes| && nodes[i] == Node(r.id, r.depth);
      assert rows[i] == r;
    }
  }

  lemma TraversalRowOrder(t: Table, post: nat, i: nat, j: nat)
    requires Forest(t) && SiblingsOrdered(t, post) && i < j < |Traversal(t, post)|
    ensures
      var m, n := Traversal(t, post)[i].id, Traversal(t, post)[j].id;
      m in t.rows && n in t.rows && Before(RowOf(t, m).path, RowOf(t, n).path)
  {
    var nodes := Traversal(t, post);
    RootsAreSiblings(t, post);
    PreorderAllOrderly(t, [], Roots(t, post), 0);
    assert Precedes(t, nodes[i], nodes[j]);
    assert nodes[i] in nodes && nodes[j] in nodes;
    TraversalInPost(t, post, nodes[i]);
    TraversalInPost(t, post, nodes[j]);
    PrecedesOrder(t, post, nodes[i], nodes[j]);
  }

  lemma PrecedesOrder(t: Table, post: nat, m: Node, n: Node)
    requires Forest(t) && SiblingsOrdered(t, post) && Precedes(t, m, n)
    requires t.rows[m.id].post == t.rows[n.id].post == post && DepthOf(t, m.id) <= MAX_DEPTH
    ensures Before(RowOf(t, m.id).path, RowOf(t, n.id).path)
  {
    var p, q := LineOf(t, m.id), LineOf(t, n.id);
    var k: nat :| LineBefore(p, q, k);
    if k < |p| {
      PartIntoSiblings(t, post, m.id, n.id, k);
    }
    RenderOrder(p, q, k);
  }

  lemma TraversalRows(t: Table, post: nat)
    requires Forest(t) && SiblingsOrdered(t, post)
    ensures forall n <- Traversal(t, post) :: n.id in t.rows
    ensures
      var strict := RowsOf(t, Traversal(t, post));
      && (forall r :: r in strict <==> InThread(t, post, r))
      && (forall i, j :: 0 <= i < j < |strict| ==> Before(strict[i].path, strict[j].path))
  {
    TraversalRowSet(t, post, Row(0, 0, ""));
    var strict := RowsOf(t, Traversal(t, post));
    forall r ensures r in strict <==> InThread(t, post, r) {
      TraversalRowSet(t, post, r);
    }
    forall i: nat, j: nat | i < j < |strict| ensures Before(strict[i].path, strict[j].path) {
      TraversalRowOrder(t, post, i, j);
    }
  }

  /** The rows are the nodes of the bounded preorder traversal, siblings by id, each comment with its true depth. */
  ghost predicate IsTraversal(t: Table, post: nat, rows: seq<Row>)
    requires Forest(t)
  {
    && |rows| == |Traversal(t, post)|
    && forall i :: 0 <= i < |rows| ==> Node(rows[i].id, rows[i].depth) == Traversal(t, post)[i]
  }

  lemma OrderedIsTraversal(t: Table, post: nat, rows: seq<Row>)
    requires Forest(t) && SiblingsOrdered(t, post) && Sorted(t, post, rows)
    ensures IsTraversal(t, post, rows)
  {
    TraversalRows(t, post);
    var nodes := Traversal(t, post);
    SortUnique(rows, RowsOf(t, nodes));
    forall i | 0 <= i < |rows| ensures Node(rows[i].id, rows[i].depth) == nodes[i] {
      assert nodes[i] in nodes;
      TraversalInPost(t, post, nodes[i]);
    }
  }

  /** In the traversal the smaller of two siblings comes first. */
  lemma SiblingsByIds(t: Table, post: nat, a: nat, b: nat, i: nat, j: nat)
    requires Forest(t) && AreSiblings(t, post, a, b) && i < |Traversal(t, post)| && j < |Traversal(t, post)|
    requires Traversal(t, post)[i].id == a && Traversal(t, post)[j].id == b
    ensures i < j
  {
    var nodes := Traversal(t, post);
    RootsAreSiblings(t, post);
    PreorderAllOrderly(t, [], Roots(t, post), 0);
    var above := LineOf(t, a)[..DepthOf(t, a)];
    assert LineOf(t, a) == above + [a] && LineOf(t, b) == above + [b];
    forall k: nat ensures !LineBefore(LineOf(t, b), LineOf(t, a), k) {
      SiblingNotAfter(above, a, b, k);
    }
    assert !Precedes(t, nodes[j], nodes[i]);
  }

  lemma SiblingNotAfter(above: Line, a: nat, b: nat, k: nat)
    requires a < b
    ensures !LineBefore(above + [b], above + [a], k)
  {
  }

  lemma SiblingsMisordered(t: Table, post: nat, a: nat, b: nat)
    requires Forest(t) && AreSiblings(t, post, a, b) && !Before(Format(a), Format(b))
    ensures Before(RowOf(t, b).path, RowOf(t, a).path)
  {
    FormatOrderIff(a, b);
    BeforeTotal(Format(a), Format(b));
    var d := DepthOf(t, a);
    var p, q := LineOf(t, a), LineOf(t, b);
    assert |p| == |q| == d + 1 && p[..d] == q[..d] && p[d] == a && q[d] == b;
    PartedOrder(q, p, d);
  }

  lemma TraversalIsOrdered(t: Table, post: nat, rows: seq<Row>)
    requires Forest(t) && IsTraversal(t, post, rows) && Sorted(t, post, rows)
    ensures SiblingsOrdered(t, post)
  {
    var nodes := Traversal(t, post);
    forall a, b | AreSiblings(t, post, a, b) ensures Before(Format(a), Format(b)) {
      TraversalComplete(t, post, a);
      assert |LineOf(t, a)| == |LineOf(t, b)|;
      TraversalComplete(t, post, b);
      var i :| 0 <= i < |nodes| && nodes[i] == Node(a, DepthOf(t, a));
      var j :| 0 <= j < |nodes| && nodes[j] == Node(b, DepthOf(t, b));
      SiblingsByIds(t, post, a, b, i, j);
      assert rows[i] in rows && rows[j] in rows;
      ThreadMeaning(t, post, rows[i]);
      ThreadMeaning(t, post, rows[j]);
      if !Before(Format(a), Format(b)) {
        SiblingsMisordered(t, post, a, b);
      }
    }
  }

  /**
   For every forest and post, sorting the query's rows by their text gives the bounded preorder traversal if and only if the
   texts of siblings are in the order of their ids; and that holds whenever ids are below ten digits.
   */
  lemma ThreadIsPreorder(t: Table, post: nat, rows: seq<Row>)
    requires Forest(t) && Sorted(t, post, rows)
    ensures IsTraversal(t, post, rows) <==> SiblingsOrdered(t, post)
    ensures IdsNarrow(t) ==> IsTraversal(t, post, rows)
  {
    if IdsNarrow(t) {
      NarrowOrdered(t, post);
    }
    if SiblingsOrdered(t, post) {
      OrderedIsTraversal(t, post, rows);
    }
    if IsTraversal(t, post, rows) {
      TraversalIsOrdered(t, post, rows);
    }
  }

  /** Such a sorted result exists: the traversal's own rows are one. */
  lemma SortedResultExists(t: Table, post: nat)
    requires Forest(t) && SiblingsOrdered(t, post)
    ensures forall n <- Traversal(t, post) :: n.id in t.rows
    ensures Sorted(t, post, RowsOf(t, Traversal(t, post)))
  {
    TraversalRows(t, post);
    var rows := RowsOf(t, Traversal(t, post));
    forall i, j | 0 <= i < j < |rows| ensures rows[i] != rows[j] && !Before(rows[j].path, rows[i].path) {
      BeforeAsymmetric(rows[i].path, rows[j].path);
    }
  }

  /** In the traversal every reply comes after its parent, and nothing is repeated. */
  lemma ParentsFirst(t: Table, post: nat, j: nat)
    requires Forest(t) && j < |Traversal(t, post)|
    ensures
      var nodes := Traversal(t, post);
      && nodes[j].id in t.rows
      && (t.rows[nodes[j].id].parent != 0 ==>
            exists i :: 0 <= i < j && nodes[i].id == t.rows[nodes[j].id].parent && nodes[i].depth + 1 == nodes[j].depth)
      && (forall i :: 0 <= i < |nodes| && i != j ==> nodes[i].id != nodes[j].id)
  {
    var nodes := Traversal(t, post);
    RootsAreSiblings(t, post);
    PreorderAllOrderly(t, [], Roots(t, post), 0);
    assert nodes[j] in nodes;
    TraversalInPost(t, post, nodes[j]);
    var line := LineOf(t, nodes[j].id);
    forall i | 0 <= i < |nodes| && i != j ensures nodes[i].id != nodes[j].id {
      if i < j {
        NotBeforeItself(t, nodes[i], nodes[j]);
      } else {
        NotBeforeItself(t, nodes[j], nodes[i]);
      }
    }
    var parent := t.rows[nodes[j].id].parent;
    if parent != 0 {
      TraversalComplete(t, post, parent);
      var i :| 0 <= i < |nodes| && nodes[i] == Node(parent, DepthOf(t, parent));
      forall k: nat ensures !LineBefore(line, LineOf(t, parent), k) {
        PrefixNotAfter(LineOf(t, parent), nodes[j].id, k);
      }
      assert !Precedes(t, nodes[j], nodes[i]);
      assert i < j && nodes[i].id == parent && nodes[i].depth + 1 == nodes[j].depth;
    }
  }

  lemma PrefixNotAfter(p: Line, x: nat, k: nat)
    ensures !LineBefore(p + [x], p, k)
  {
  }

  lemma NotBeforeItself(t: Table, m: Node, n: Node)
    requires Forest(t) && Precedes(t, m, n)
    ensures m.id != n.id
  {
  }

  // ---------------------------------------------------------------------------------------------
  // Listing

  class CommentRepository {
    var table: Table

    constructor ()
      ensures table == EMPTY_TABLE
    {
      table := EMPTY_TABLE;
    }

    /** The create handler's checks and the insertion. */
    method CreateComment(posts: set<nat>, c: Comment) returns (outcome: Outcome)
      modifies this
      ensures (table, outcome) == Create(old(table), posts, c)
      ensures Forest(old(table)) ==> Forest(table)
    {
      if c.body == "" {
        return InvalidField;
      }
      if c.post !in posts {
        return NotFound;
      }
      if c.parent != 0 && !ParentBelongs(table, c.parent, c.post) {
        return InvalidField;
      }
      var id := table.last + 1;
      table := Table(table.rows[id := c], id);
      outcome := Created(id);
    }

    method DeleteOwnComment(id: nat, author: nat) returns (outcome: Outcome)
      modifies this
      ensures (table, outcome) == Blank(old(table), id, author)
      ensures Forest(old(table)) ==> Forest(table)
    {
      if id in table.rows && table.rows[id].author == author && table.rows[id].body != "" {
        table := table.(rows := table.rows[id := table.rows[id].(body := "")]);
        return Blanked;
      }
      return NotOwned;
    }

    /**
     Steps through the sorted result, which the database cuts at limit + 1 rows. The answer is the first `limit` rows,
     and `truncated` says exactly whether the bounded traversal has more nodes than that; where the texts of siblings are in the
     order of their ids, the answer is the front of that traversal.
     */
    method ListThread(post: nat, limit: nat, ghost sorted: seq<Row>, cursor: seq<Row>) returns (out: seq<Node>, truncated: bool)
      requires Forest(table) && Sorted(table, post, sorted)
      requires cursor == if |sorted| <= limit + 1 then sorted else sorted[..limit + 1]
      ensures truncated <==> |Traversal(table, post)| > limit
      ensures out == NodesOf(if |sorted| > limit then sorted[..limit] else sorted)
      ensures SiblingsOrdered(table, post) ==> out == if truncated then Traversal(table, post)[..limit] else Traversal(table, post)
    {
      SortedLength(table, post, sorted);
      ghost var nodes := NodesOf(sorted);
      out, truncated := [], false;
      for next := 0 to |cursor|
        invariant next <= limit && out == nodes[..next]
      {
        if |out| >= limit {
          truncated := true;
          ListedNodes(table, post, sorted, limit);
          return;
        }
        out := out + [Node(cursor[next].id, cursor[next].depth)];
      }
      assert nodes[..|nodes|] == nodes;
      ListedNodes(table, post, sorted, |sorted|);
    }
  }

  function NodesOf(rows: seq<Row>): (nodes: seq<Node>)
    ensures |nodes| == |rows|
  {
    seq(|rows|, i requires 0 <= i < |rows| => Node(rows[i].id, rows[i].depth))
  }

  lemma ListedNodes(t: Table, post: nat, sorted: seq<Row>, k: nat)
    requires Forest(t) && Sorted(t, post, sorted) && k <= |sorted|
    ensures NodesOf(sorted[..k]) == NodesOf(sorted)[..k]
    ensures SiblingsOrdered(t, post) ==> |Traversal(t, post)| == |sorted| && NodesOf(sorted) == Traversal(t, post)
  {
    if SiblingsOrdered(t, post) {
      ThreadIsPreorder(t, post, sorted);
    }
  }

  lemma {:induction false} SameMembersSameLength(a: seq<Row>, b: seq<Row>)
    requires forall r :: r in a <==> r in b
    requires (forall i, j :: 0 <= i < j < |a| ==> a[i] != a[j]) && (forall i, j :: 0 <= i < j < |b| ==> b[i] != b[j])
    ensures |a| == |b|
    decreases |a|
  {
    assert b != [] ==> b[0] in a;
    if a != [] {
      assert a[0] in a && a[0] in b;
      var k :| 0 <= k < |b| && b[k] == a[0];
      var rest := b[..k] + b[k + 1..];
      forall r ensures r in a[1..] <==> r in rest {
        assert r in a <==> r == a[0] || r in a[1..];
        assert r in b <==> r in b[..k] || r == b[k] || r in b[k + 1..];
      }
      SameMembersSameLength(a[1..], rest);
    }
  }

  /** Sorted or not, the query's rows are as many as the traversal's nodes. */
  lemma SortedLength(t: Table, post: nat, rows: seq<Row>)
    requires Forest(t) && Sorted(t, post, rows)
    ensures |rows| == |Traversal(t, post)|
  {
    TraversalRowSet(t, post, Row(0, 0, ""));
    var own := RowsOf(t, Traversal(t, post));
    forall r ensures r in own <==> r in rows {
      TraversalRowSet(t, post, r);
    }
    forall i: nat, j: nat | i < j < |own| ensures own[i] != own[j] {
      ParentsFirst(t, post, i);
    }
    SameMembersSameLength(rows, own);
  }

  /**
   The listing holds every comment of the post exactly when none lies deeper than the bound and they fit the limit. Deeper
   ones are dropped whatever the truncated flag says.
   */
  lemma CompleteListing(t: Table, post: nat, limit: nat)
    requires Forest(t)
    ensures
      var nodes := Traversal(t, post);
      var listed := if |nodes| > limit then nodes[..limit] else nodes;
      (forall id :: id in t.rows && t.rows[id].post == post ==> exists n :: n in listed && n.id == id)
      <==> |nodes| <= limit && (forall id :: id in t.rows && t.rows[id].post == post ==> DepthOf(t, id) <= MAX_DEPTH)
  {
    var nodes := Traversal(t, post);
    var listed := if |nodes| > limit then nodes[..limit] else nodes;
    if |nodes| > limit {
      var id := nodes[limit].id;
      assert nodes[limit] in nodes;
      TraversalInPost(t, post, nodes[limit]);
      ParentsFirst(t, post, limit);
      assert forall n :: n in listed ==> n.id != id;
    } else {
      forall id | id in t.rows && t.rows[id].post == post
        ensures (exists n :: n in listed && n.id == id) <==> DepthOf(t, id) <= MAX_DEPTH
      {
        if DepthOf(t, id) <= MAX_DEPTH {
          TraversalComplete(t, post, id);
        }
        forall n | n in listed && n.id == id ensures DepthOf(t, id) <= MAX_DEPTH {
          TraversalInPost(t, post, n);
        }
      }
    }
  }

  // ---------------------------------------------------------------------------------------------
  // A dropped comment without a flag

  /** One post with a chain of n comments, each a reply to the one before. */
  function Chain(n: nat): (t: Table)
    ensures t.last == n
    ensures forall i :: i in t.rows <==> 1 <= i <= n
    ensures forall i :: i in t.rows ==> t.rows[i] == Comment(1, i - 1, 1, "x")
  {
    if n == 0 then EMPTY_TABLE else Table(Chain(n - 1).rows[n := Comment(1, n - 1, 1, "x")], n)
  }

  lemma ChainIsForest(t: Table, n: nat)
    requires t == Chain(n)
    ensures Forest(t)
  {
  }

  lemma {:induction false} ChainDepth(n: nat, i: nat)
    requires 1 <= i <= n
    ensures Forest(Chain(n)) && DepthOf(Chain(n), i) == i - 1
  {
    ChainIsForest(Chain(n), n);
    if i > 1 {
      ChainDepth(n, i - 1);
    }
  }

  /** An ascending list with one member is that member. */
  lemma OnlyMember(ids: seq<nat>, x: nat)
    requires forall i, j :: 0 <= i < j < |ids| ==> ids[i] < ids[j]
    requires forall id :: id in ids <==> id == x
    ensures ids == [x]
  {
    assert x in ids;
    var last := ids[|ids| - 1];
    assert ids[0] in ids && last in ids;
    assert |ids| == 1;
  }

  lemma {:induction false} ChainPreorder(n: nat, i: nat)
    requires 1 <= i <= MAX_DEPTH + 1 < n
    ensures |Preorder(Chain(n), i, i - 1)| == MAX_DEPTH + 2 - i
    decreases MAX_DEPTH + 1 - i
  {
    if i <= MAX_DEPTH {
      var t := Chain(n);
      RepliesMeaning(t, i);
      OnlyMember(Replies(t, i), i + 1);
      ChainPreorder(n, i + 1);
      assert PreorderAll(t, [i + 1], i) == Preorder(t, i + 1, i) + PreorderAll(t, [], i);
    }
  }

  /** So many comments, each a reply to the one before. */
  function Nesting(n: nat): seq<Edit> {
    seq(n, (i: nat) => Post({1}, Comment(1, i, 1, "x")))
  }

  lemma {:induction false} NestingBuilds(n: nat, k: nat)
    requires k <= n
    ensures Build(Nesting(n)[..k]) == Chain(k)
    decreases k
  {
    if k > 0 {
      NestingBuilds(n, k - 1);
      assert Nesting(n)[..k][..k - 1] == Nesting(n)[..k - 1];
    }
  }

  lemma ChainListed(n: nat)
    requires n > MAX_DEPTH + 1
    ensures Forest(Chain(n)) && |Traversal(Chain(n), 1)| == MAX_DEPTH + 1
    ensures forall v :: v in Traversal(Chain(n), 1) ==> v.id <= MAX_DEPTH + 1
  {
    var t := Chain(n);
    ChainDepth(n, n);
    RootsMeaning(t, 1);
    OnlyMember(Roots(t, 1), 1);
    ChainPreorder(n, 1);
    assert PreorderAll(t, [1], 0) == Preorder(t, 1, 0) + PreorderAll(t, [], 0);
    forall v | v in Traversal(t, 1) ensures v.id <= MAX_DEPTH + 1 {
      TraversalInPost(t, 1, v);
      ChainDepth(n, v.id);
    }
  }

  /**
   However long a chain of replies is posted, for any limit of 25 or more the listing is not flagged as truncated, has 25
   comments, and lacks every later one.
   */
  lemma DeepCommentsUnflagged(n: nat, limit: nat, id: nat)
    requires n > MAX_DEPTH + 1 && limit >= MAX_DEPTH + 1
    ensures
      var t := Build(Nesting(n));
      && Forest(t) && |Traversal(t, 1)| == MAX_DEPTH + 1 <= limit
      && (MAX_DEPTH + 1 < id <= n ==> id in t.rows && t.rows[id].post == 1 && forall v :: v in Traversal(t, 1) ==> v.id != id)
  {
    NestingBuilds(n, n);
    assert Nesting(n)[..n] == Nesting(n);
    ChainListed(n);
  }

  // ---------------------------------------------------------------------------------------------
  // Which ids keep the order

  /** So many comments, all direct replies: to post 1, and the last two to post 2. */
  function Replying(n: nat): seq<Edit> {
    seq(n, i => Post({1, 2}, Comment(if i + 2 < n then 1 else 2, 0, 1, "x")))
  }

  lemma {:induction false} ReplyingBuilds(n: nat, k: nat)
    requires k <= n
    ensures
      var t := Build(Replying(n)[..k]);
      && t.last == k
      && (forall i :: i in t.rows <==> 1 <= i <= k)
      && (forall i :: i in t.rows ==> t.rows[i] == Comment(if i + 1 < n then 1 else 2, 0, 1, "x"))
    decreases k
  {
    if k > 0 {
      ReplyingBuilds(n, k - 1);
      assert Replying(n)[..k][..k - 1] == Replying(n)[..k - 1];
    }
  }

  /** Two direct replies whose texts are in the wrong order: the sorted result is not the traversal. */
  lemma TwoMisordered(t: Table, post: nat, a: nat, b: nat) returns (rows: seq<Row>)
    requires Forest(t) && a < b && Before(Format(b), Format(a))
    requires forall i :: i in t.rows && t.rows[i].post == post <==> i == a || i == b
    requires t.rows[a].parent == t.rows[b].parent == 0
    ensures Sorted(t, post, rows) && !IsTraversal(t, post, rows)
  {
    LineOfReply(t, a);
    LineOfReply(t, b);
    rows := [RowOf(t, b), RowOf(t, a)];
    forall r ensures r in rows <==> InThread(t, post, r) {
      ThreadMeaning(t, post, r);
    }
    BeforeAsymmetric(Format(b), Format(a));
    assert AreSiblings(t, post, a, b);
    ThreadIsPreorder(t, post, rows);
  }

  /** Over all tables that edits can build with ids up to n, sorting always gives the traversal. */
  ghost predicate AlwaysTraversal(n: nat) {
    forall edits, post, rows | Build(edits).last <= n && Sorted(Build(edits), post, rows) ::
      Forest(Build(edits)) && IsTraversal(Build(edits), post, rows)
  }

  /** The bound of ten digits is exact: with ids up to n every sorted thread is the traversal if and only if n is below 10^10. */
  lemma TenDigitsExactly(n: nat)
    ensures AlwaysTraversal(n) <==> n < ID_LIMIT
  {
    if n < ID_LIMIT {
      forall edits, post, rows | Build(edits).last <= n && Sorted(Build(edits), post, rows)
        ensures Forest(Build(edits)) && IsTraversal(Build(edits), post, rows)
      {
        BuildIsForest(edits);
        ThreadIsPreorder(Build(edits), post, rows);
      }
    } else {
      var edits := Replying(ID_LIMIT);
      ReplyingBuilds(ID_LIMIT, ID_LIMIT);
      assert edits[..ID_LIMIT] == edits;
      BuildIsForest(edits);
      WideIdsMisordered();
      var rows := TwoMisordered(Build(edits), 2, ID_LIMIT - 1, ID_LIMIT);
    }
  }
}
