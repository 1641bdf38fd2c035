/**
 * `get_post_comments` (backend/blog/repositories.py) and the tree it builds.
 *
 * The query returns the rows filed under one root, newest first, with a parent equal
 * to the root rewritten to null so that direct replies come out as the top level.
 * `PostComment.transform_tree` (backend/blog/schemas.py) is not part of this model; the
 * tree is specified by what the listing of a post with comments shows: every row sits
 * under its parent, siblings are newest first at every level, and every reply appears.
 */
module CommentTree {
  import opened Wrappers
  import opened Models
  import opened Ordering
  import opened Queries

  /** One row of the comments query, its parent already rewritten. */
  datatype CommentRow = CommentRow(id: PostId, createdAt: Stamp, text: string, parentId: Option<PostId>, userId: UserId)

  /** A comment with its replies. */
  datatype Comment = Comment(row: CommentRow, comments: seq<Comment>)

  /** `CASE WHEN parent_id = root THEN NULL ELSE parent_id END`, with the selected columns. */
  function AsCommentRow(r: Post, root: PostId): CommentRow
  {
    CommentRow(r.id, r.createdAt, r.text, if r.parentId == Some(root) then None else r.parentId, r.ownerId)
  }

  /** The flat result of the comments query: the rows whose `post_id` is `root`, newest first. */
  function CommentRows(db: Db, root: PostId): (rows: seq<CommentRow>)
    ensures |rows| == |Selection(db, CommentsOf(root))|
  {
    var s := Selection(db, CommentsOf(root));
    seq(|s|, i requires 0 <= i < |s| => AsCommentRow(s[i], root))
  }

  predicate RowsNewestFirst(rows: seq<CommentRow>)
  {
    forall i, j :: 0 <= i < j < |rows| ==> rows[i].createdAt >= rows[j].createdAt
  }

  /** Every row's parent, when it has one, has a smaller id: parents are stored before replies. */
  predicate ParentsEarlier(rows: seq<CommentRow>)
  {
    forall r :: r in rows && r.parentId.Some? ==> r.parentId.value < r.id
  }

  /** The rows whose parent is `parent`, in the order of `rows`. */
  function Children(rows: seq<CommentRow>, parent: Option<PostId>): (kids: seq<CommentRow>)
    ensures |kids| <= |rows|
  {
    if rows == [] then []
    else (if rows[0].parentId == parent then [rows[0]] else []) + Children(rows[1..], parent)
  }

  lemma {:induction false} ChildrenMembers(rows: seq<CommentRow>, parent: Option<PostId>)
    ensures forall x :: x in Children(rows, parent) <==> x in rows && x.parentId == parent
  {
    if rows != [] {
      ChildrenMembers(rows[1..], parent);
      assert rows == [rows[0]] + rows[1..];
    }
  }

  /** Selecting the replies of one parent keeps the newest-first order. */
  lemma {:induction false} ChildrenNewestFirst(rows: seq<CommentRow>, parent: Option<PostId>)
    requires RowsNewestFirst(rows)
    ensures RowsNewestFirst(Children(rows, parent))
  {
    if rows != [] {
      var tail := rows[1..];
      ChildrenNewestFirst(tail, parent);
      ChildrenMembers(tail, parent);
      var rest := Children(tail, parent);
      if rows[0].parentId == parent {
        var kids := [rows[0]] + rest;
        forall i, j | 0 <= i < j < |kids| ensures kids[i].createdAt >= kids[j].createdAt {
          if i == 0 {
            assert kids[j] in rest;
            var m :| 0 <= m < |tail| && tail[m] == kids[j];
            assert rows[m + 1] == kids[j];
          }
        }
      }
    }
  }

  /** The rows with an id above `x`, in the order of `rows`. */
  function Later(rows: seq<CommentRow>, x: PostId): (later: seq<CommentRow>)
    ensures |later| <= |rows|
  {
    if rows == [] then []
    else (if rows[0].id > x then [rows[0]] else []) + Later(rows[1..], x)
  }

  lemma {:induction false} LaterMembers(rows: seq<CommentRow>, x: PostId)
    ensures forall r :: r in Later(rows, x) <==> r in rows && r.id > x
  {
    if rows != [] {
      LaterMembers(rows[1..], x);
      assert rows == [rows[0]] + rows[1..];
    }
  }

  /** Leaving out a row at or below `x` makes the list shorter. */
  lemma {:induction false} LaterShrinks(rows: seq<CommentRow>, k: CommentRow, x: PostId)
    requires k in rows && k.id <= x
    ensures |Later(rows, x)| < |rows|
  {
    if rows[0] != k {
      assert rows == [rows[0]] + rows[1..];
      LaterShrinks(rows[1..], k, x);
    }
  }

  /**
   * The replies to `parent` found in `rows`, each with its own replies. A reply's own
   * replies are looked for among the rows with a larger id only, which loses none of them
   * when parents are earlier and makes the construction terminate.
   */
  function Forest(rows: seq<CommentRow>, parent: Option<PostId>): (f: seq<Comment>)
    ensures |f| == |Children(rows, parent)|
    ensures forall i :: 0 <= i < |f| ==> f[i].row == Children(rows, parent)[i]
    decreases |rows|, 1
  {
    ChildrenMembers(rows, parent);
    Grow(rows, Children(rows, parent))
  }

  function Grow(rows: seq<CommentRow>, kids: seq<CommentRow>): (f: seq<Comment>)
    requires forall k :: k in kids ==> k in rows
    ensures |f| == |kids|
    ensures forall i :: 0 <= i < |f| ==> f[i].row == kids[i]
    decreases |rows|, 0, |kids|
  {
    if kids == [] then []
    else
      var k := kids[0];
      LaterShrinks(rows, k, k.id);
      [Comment(k, Forest(Later(rows, k.id), Some(k.id)))] + Grow(rows, kids[1..])
  }

  /** `get_post_comments`: the nested replies of `root`. */
  function GetPostComments(db: Db, root: PostId): (f: seq<Comment>)
    ensures |f| == |Children(CommentRows(db, root), None)|
    ensures forall i :: 0 <= i < |f| ==> f[i].row.parentId.None?
    ensures forall i :: 0 <= i < |f| ==> f[i].row == Children(CommentRows(db, root), None)[i]
  {
    ChildrenMembers(CommentRows(db, root), None);
    assert forall i :: 0 <= i < |Children(CommentRows(db, root), None)| ==>
      Children(CommentRows(db, root), None)[i] in Children(CommentRows(db, root), None);
    Forest(CommentRows(db, root), None)
  }

  /**
   * `f` reproduces the parent edges of `rows` below `parent`: its entries are the rows
   * whose parent is `parent`, in the order of `rows`, and each entry's replies mirror
   * the rows whose parent is that entry.
   */
  ghost predicate Mirrors(f: seq<Comment>, rows: seq<CommentRow>, parent: Option<PostId>)
    decreases f
  {
    && |f| == |Children(rows, parent)|
    && forall i :: 0 <= i < |f| ==>
         && f[i].row == Children(rows, parent)[i]
         && Mirrors(f[i].comments, rows, Some(f[i].row.id))
  }

  lemma {:induction false} GrowAt(rows: seq<CommentRow>, kids: seq<CommentRow>, i: nat)
    requires forall k :: k in kids ==> k in rows
    requires i < |kids|
    ensures Grow(rows, kids)[i] == Comment(kids[i], Forest(Later(rows, kids[i].id), Some(kids[i].id)))
    decreases i
  {
    if i > 0 {
      GrowAt(rows, kids[1..], i - 1);
    }
  }

  lemma {:induction false} LaterOfLater(rows: seq<CommentRow>, x: PostId, y: PostId)
    requires x <= y
    ensures Later(Later(rows, x), y) == Later(rows, y)
  {
    if rows != [] {
      LaterOfLater(rows[1..], x, y);
      var t := Later(rows[1..], x);
      if rows[0].id > x {
        var l := [rows[0]] + t;
        assert Later(rows, x) == l;
        assert l[0] == rows[0] && l[1..] == t;
        assert Later(l, y) == (if rows[0].id > y then [rows[0]] else []) + Later(t, y);
      } else {
        assert Later(rows, x) == t;
        assert rows[0].id <= y;
        assert Later(rows, y) == Later(rows[1..], y);
      }
    }
  }

  /** Dropping rows not above `x` loses no reply to a row at or above `x`. */
  lemma {:induction false} ChildrenOfLater(rows: seq<CommentRow>, x: PostId, c: PostId)
    requires ParentsEarlier(rows)
    requires x <= c
    ensures Children(Later(rows, x), Some(c)) == Children(rows, Some(c))
  {
    if rows != [] {
      var tail := rows[1..];
      assert forall r :: r in tail ==> r in rows;
      assert rows[0] in rows;
      ChildrenOfLater(tail, x, c);
      var t := Later(tail, x);
      if rows[0].id > x {
        var l := [rows[0]] + t;
        assert Later(rows, x) == l;
        assert l[0] == rows[0] && l[1..] == t;
        assert Children(l, Some(c)) == (if rows[0].parentId == Some(c) then [rows[0]] else []) + Children(t, Some(c));
      } else {
        assert Later(rows, x) == t;
        assert rows[0].parentId != Some(c);
        assert Children(rows, Some(c)) == Children(tail, Some(c));
      }
    }
  }

  /** The replies to `c`, built from the rows above `x <= c`, mirror the replies to `c` in all of `rows`. */
  lemma {:induction false} ForestFromMirrors(rows: seq<CommentRow>, x: PostId, c: PostId)
    requires ParentsEarlier(rows)
    requires x <= c
    ensures Mirrors(Forest(Later(rows, x), Some(c)), rows, Some(c))
    decreases |Later(rows, x)|
  {
    var sub := Later(rows, x);
    var kids := Children(sub, Some(c));
    ChildrenOfLater(rows, x, c);
    ChildrenMembers(sub, Some(c));
    LaterMembers(rows, x);
    var f := Forest(sub, Some(c));
    forall i | 0 <= i < |f|
      ensures f[i].row == kids[i] && Mirrors(f[i].comments, rows, Some(f[i].row.id))
    {
      var k := kids[i];
      assert k in kids;
      GrowAt(sub, kids, i);
      LaterOfLater(rows, x, k.id);
      LaterShrinks(sub, k, k.id);
      ForestFromMirrors(rows, k.id, k.id);
    }
  }

  /** The tree mirrors the parent edges of the rows at every level. */
  lemma ForestMirrors(rows: seq<CommentRow>)
    requires ParentsEarlier(rows)
    ensures Mirrors(Forest(rows, None), rows, None)
  {
    var kids := Children(rows, None);
    ChildrenMembers(rows, None);
    var f := Forest(rows, None);
    forall i | 0 <= i < |f|
      ensures f[i].row == kids[i] && Mirrors(f[i].comments, rows, Some(f[i].row.id))
    {
      var k := kids[i];
      assert k in kids;
      GrowAt(rows, kids, i);
      ForestFromMirrors(rows, k.id, k.id);
    }
  }

  /** Siblings are newest first at every level. */
  ghost predicate SiblingsNewestFirst(f: seq<Comment>)
    decreases f
  {
    && (forall i, j :: 0 <= i < j < |f| ==> f[i].row.createdAt >= f[j].row.createdAt)
    && (forall i :: 0 <= i < |f| ==> SiblingsNewestFirst(f[i].comments))
  }

  lemma {:induction false} MirrorsNewestFirst(f: seq<Comment>, rows: seq<CommentRow>, parent: Option<PostId>)
    requires Mirrors(f, rows, parent)
    requires RowsNewestFirst(rows)
    ensures SiblingsNewestFirst(f)
    decreases f
  {
    ChildrenNewestFirst(rows, parent);
    forall i | 0 <= i < |f| ensures SiblingsNewestFirst(f[i].comments) {
      MirrorsNewestFirst(f[i].comments, rows, Some(f[i].row.id));
    }
  }

  /** Row `r` appears somewhere in `f`, at any depth. */
  ghost predicate Occurs(f: seq<Comment>, r: CommentRow)
    decreases f
  {
    exists i :: 0 <= i < |f| && (f[i].row == r || Occurs(f[i].comments, r))
  }

  /** Nothing appears in a mirroring tree that is not one of the rows. */
  lemma {:induction false} MirrorsSound(f: seq<Comment>, rows: seq<CommentRow>, parent: Option<PostId>, r: CommentRow)
    requires Mirrors(f, rows, parent)
    requires Occurs(f, r)
    ensures r in rows
    decreases f
  {
    var i :| 0 <= i < |f| && (f[i].row == r || Occurs(f[i].comments, r));
    if f[i].row == r {
      ChildrenMembers(rows, parent);
      assert Children(rows, parent)[i] in Children(rows, parent);
    } else {
      MirrorsSound(f[i].comments, rows, Some(f[i].row.id), r);
    }
  }

  /** Once a row appears in a mirroring tree, so do all its replies. */
  lemma {:induction false} RepliesOccur(f: seq<Comment>, rows: seq<CommentRow>, parent: Option<PostId>, p: CommentRow, r: CommentRow)
    requires Mirrors(f, rows, parent)
    requires Occurs(f, p)
    requires r in rows && r.parentId == Some(p.id)
    ensures Occurs(f, r)
    decreases f
  {
    var i :| 0 <= i < |f| && (f[i].row == p || Occurs(f[i].comments, p));
    if f[i].row == p {
      var g := f[i].comments;
      var kids := Children(rows, Some(p.id));
      ChildrenMembers(rows, Some(p.id));
      assert r in kids;
      var j :| 0 <= j < |kids| && kids[j] == r;
      assert g[j].row == r;
      assert Occurs(g, r);
    } else {
      RepliesOccur(f[i].comments, rows, Some(f[i].row.id), p, r);
    }
  }

  /** Every parent a row names is itself one of the rows (no reply hangs off a missing row). */
  predicate ParentsPresent(rows: seq<CommentRow>)
  {
    forall r :: r in rows && r.parentId.Some? ==> exists p :: p in rows && p.id == r.parentId.value
  }

  /** When every named parent is among the rows, every row appears in the tree. */
  lemma {:induction false} ForestComplete(rows: seq<CommentRow>, r: CommentRow)
    requires ParentsEarlier(rows) && ParentsPresent(rows)
    requires forall x :: x in rows ==> x.id >= 0
    requires r in rows
    ensures Occurs(Forest(rows, None), r)
    decreases r.id
  {
    var f := Forest(rows, None);
    ForestMirrors(rows);
    if r.parentId.None? {
      var kids := Children(rows, None);
      ChildrenMembers(rows, None);
      assert r in kids;
      var j :| 0 <= j < |kids| && kids[j] == r;
      assert f[j].row == r;
    } else {
      var p :| p in rows && p.id == r.parentId.value;
      ForestComplete(rows, p);
      RepliesOccur(f, rows, None, p, r);
    }
  }

  /** No two rows share an id. */
  predicate DistinctIds(rows: seq<CommentRow>)
  {
    forall i, j :: 0 <= i < j < |rows| ==> rows[i].id != rows[j].id
  }

  /** Picking the replies of one parent keeps the ids distinct. */
  lemma {:induction false} ChildrenDistinctIds(rows: seq<CommentRow>, parent: Option<PostId>)
    requires DistinctIds(rows)
    ensures DistinctIds(Children(rows, parent))
  {
    if rows != [] {
      var tail := rows[1..];
      assert DistinctIds(tail) by {
        forall i, j | 0 <= i < j < |tail| ensures tail[i].id != tail[j].id {
          assert tail[i] == rows[i + 1] && tail[j] == rows[j + 1];
        }
      }
      ChildrenDistinctIds(tail, parent);
      ChildrenMembers(tail, parent);
      var rest := Children(tail, parent);
      if rows[0].parentId == parent {
        var kids := [rows[0]] + rest;
        forall i, j | 0 <= i < j < |kids| ensures kids[i].id != kids[j].id {
          if i == 0 {
            assert kids[j] in rest;
            var m :| 0 <= m < |tail| && tail[m] == kids[j];
            assert rows[m + 1] == kids[j];
          }
        }
      }
    }
  }

  /** With distinct ids, a row is determined by its id. */
  lemma SameIdSameRow(rows: seq<CommentRow>, x: CommentRow, y: CommentRow)
    requires DistinctIds(rows)
    requires x in rows && y in rows && x.id == y.id
    ensures x == y
  {
    var i :| 0 <= i < |rows| && rows[i] == x;
    var j :| 0 <= j < |rows| && rows[j] == y;
    assert !(i < j) && !(j < i);
  }

  /** The rows of a tree in depth-first order: each entry, then its replies, then its later siblings. */
  function Flatten(f: seq<Comment>): (rows: seq<CommentRow>)
    decreases f
  {
    if f == [] then [] else [f[0].row] + Flatten(f[0].comments) + Flatten(f[1..])
  }

  /** A row is in the flattened tree exactly when it appears in the tree. */
  lemma {:induction false} FlattenOccurs(f: seq<Comment>, r: CommentRow)
    ensures r in Flatten(f) <==> Occurs(f, r)
    decreases f
  {
    if f != [] {
      var g := f[1..];
      FlattenOccurs(f[0].comments, r);
      FlattenOccurs(g, r);
      if Occurs(g, r) {
        var i :| 0 <= i < |g| && (g[i].row == r || Occurs(g[i].comments, r));
        assert f[i + 1] == g[i];
      }
      if Occurs(f, r) {
        var i :| 0 <= i < |f| && (f[i].row == r || Occurs(f[i].comments, r));
        if i > 0 {
          assert g[i - 1] == f[i];
        }
      }
      if f[0].row == r || Occurs(f[0].comments, r) {
        assert 0 < |f| && (f[0].row == r || Occurs(f[0].comments, r));
      }
    }
  }

  /**
   * The shape a mirroring tree has, without the sibling order: every entry is one of
   * `rows` and replies to `parent`, no two siblings share an id, and the same holds
   * below every entry.
   */
  ghost predicate Nested(f: seq<Comment>, rows: seq<CommentRow>, parent: Option<PostId>)
    decreases f
  {
    && (forall i, j :: 0 <= i < j < |f| ==> f[i].row.id != f[j].row.id)
    && forall i :: 0 <= i < |f| ==>
         && f[i].row in rows && f[i].row.parentId == parent
         && Nested(f[i].comments, rows, Some(f[i].row.id))
  }

  lemma {:induction false} MirrorsNested(f: seq<Comment>, rows: seq<CommentRow>, parent: Option<PostId>)
    requires Mirrors(f, rows, parent) && DistinctIds(rows)
    ensures Nested(f, rows, parent)
    decreases f
  {
    var kids := Children(rows, parent);
    ChildrenMembers(rows, parent);
    ChildrenDistinctIds(rows, parent);
    forall i | 0 <= i < |f|
      ensures f[i].row in rows && f[i].row.parentId == parent && Nested(f[i].comments, rows, Some(f[i].row.id))
    {
      assert kids[i] in kids;
      MirrorsNested(f[i].comments, rows, Some(f[i].row.id));
    }
  }

  lemma NestedTail(f: seq<Comment>, rows: seq<CommentRow>, parent: Option<PostId>)
    requires f != [] && Nested(f, rows, parent)
    ensures Nested(f[1..], rows, parent)
  {
    var g := f[1..];
    forall i | 0 <= i < |g| ensures g[i] == f[i + 1] { }
  }

  /** Below `c`, every row replies to `c` or to a row with a larger id. */
  lemma {:induction false} NestedBelow(g: seq<Comment>, rows: seq<CommentRow>, c: PostId, r: CommentRow)
    requires Nested(g, rows, Some(c)) && ParentsEarlier(rows)
    requires Occurs(g, r)
    ensures r in rows && r.parentId.Some? && r.parentId.value >= c
    decreases g
  {
    var i :| 0 <= i < |g| && (g[i].row == r || Occurs(g[i].comments, r));
    if g[i].row != r {
      NestedBelow(g[i].comments, rows, g[i].row.id, r);
    }
  }

  /** Below `c`, a row that does not reply to `c` itself has its parent somewhere in the tree. */
  lemma {:induction false} ParentOccurs(g: seq<Comment>, rows: seq<CommentRow>, c: PostId, r: CommentRow)
    requires Nested(g, rows, Some(c))
    requires Occurs(g, r) && r.parentId != Some(c)
    ensures exists q :: Occurs(g, q) && r.parentId == Some(q.id)
    decreases g
  {
    var i :| 0 <= i < |g| && (g[i].row == r || Occurs(g[i].comments, r));
    var q := g[i].row;
    if r.parentId == Some(q.id) {
      assert Occurs(g, q);
    } else {
      ParentOccurs(g[i].comments, rows, q.id, r);
      var q' :| Occurs(g[i].comments, q') && r.parentId == Some(q'.id);
      assert Occurs(g, q');
    }
  }

  /** A row appears under at most one of a set of siblings. */
  lemma {:induction false} UnderOneSibling(f: seq<Comment>, rows: seq<CommentRow>, parent: Option<PostId>, a: nat, b: nat, r: CommentRow)
    requires Nested(f, rows, parent) && ParentsEarlier(rows) && DistinctIds(rows)
    requires forall x :: x in rows ==> x.id >= 0
    requires a < |f| && b < |f|
    requires f[a].row == r || Occurs(f[a].comments, r)
    requires f[b].row == r || Occurs(f[b].comments, r)
    ensures a == b
    decreases r.id
  {
    var x, y := f[a].row, f[b].row;
    if r == x && r == y {
      assert !(a < b) && !(b < a);
    } else if r == x {
      NestedBelow(f[b].comments, rows, y.id, r);
      assert false;
    } else if r == y {
      NestedBelow(f[a].comments, rows, x.id, r);
      assert false;
    } else {
      NestedBelow(f[a].comments, rows, x.id, r);
      var px: CommentRow := x;
      if r.parentId != Some(x.id) {
        ParentOccurs(f[a].comments, rows, x.id, r);
        px :| Occurs(f[a].comments, px) && r.parentId == Some(px.id);
        NestedBelow(f[a].comments, rows, x.id, px);
      }
      var py: CommentRow := y;
      if r.parentId != Some(y.id) {
        ParentOccurs(f[b].comments, rows, y.id, r);
        py :| Occurs(f[b].comments, py) && r.parentId == Some(py.id);
        NestedBelow(f[b].comments, rows, y.id, py);
      }
      SameIdSameRow(rows, px, py);
      if px == x && py == y {
        assert !(a < b) && !(b < a);
      } else {
        UnderOneSibling(f, rows, parent, a, b, px);
      }
    }
  }

  /** A row never appears below itself. */
  lemma NotBelowItself(f: seq<Comment>, rows: seq<CommentRow>, parent: Option<PostId>, r: CommentRow)
    requires Nested(f, rows, parent) && ParentsEarlier(rows)
    requires f != [] && f[0].row == r
    ensures !Occurs(f[0].comments, r)
  {
    if Occurs(f[0].comments, r) {
      NestedBelow(f[0].comments, rows, r.id, r);
    }
  }

  /** A row under the first sibling appears under no later sibling. */
  lemma NotUnderLaterSibling(f: seq<Comment>, rows: seq<CommentRow>, parent: Option<PostId>, r: CommentRow)
    requires Nested(f, rows, parent) && ParentsEarlier(rows) && DistinctIds(rows)
    requires forall x :: x in rows ==> x.id >= 0
    requires f != [] && (f[0].row == r || Occurs(f[0].comments, r))
    ensures !Occurs(f[1..], r)
  {
    var g := f[1..];
    if Occurs(g, r) {
      var j :| 0 <= j < |g| && (g[j].row == r || Occurs(g[j].comments, r));
      assert g[j] == f[j + 1];
      UnderOneSibling(f, rows, parent, 0, j + 1, r);
    }
  }

  /** No row appears twice in a tree of this shape. */
  lemma {:induction false} AppearsOnce(f: seq<Comment>, rows: seq<CommentRow>, parent: Option<PostId>, r: CommentRow)
    requires Nested(f, rows, parent) && ParentsEarlier(rows) && DistinctIds(rows)
    requires forall x :: x in rows ==> x.id >= 0
    ensures multiset(Flatten(f))[r] <= 1
    decreases f
  {
    if f != [] {
      var g := f[1..];
      var below, later := Flatten(f[0].comments), Flatten(g);
      assert Flatten(f) == [f[0].row] + below + later;
      assert multiset(Flatten(f))[r] == multiset([f[0].row])[r] + multiset(below)[r] + multiset(later)[r];
      NestedTail(f, rows, parent);
      AppearsOnce(f[0].comments, rows, Some(f[0].row.id), r);
      AppearsOnce(g, rows, parent, r);
      FlattenOccurs(f[0].comments, r);
      FlattenOccurs(g, r);
      if f[0].row == r {
        NotBelowItself(f, rows, parent, r);
      }
      if f[0].row == r || Occurs(f[0].comments, r) {
        NotUnderLaterSibling(f, rows, parent, r);
      }
    }
  }

  /** Without repeated ids no row is listed twice. */
  lemma {:induction false} DistinctIdsCounts(rows: seq<CommentRow>, r: CommentRow)
    requires DistinctIds(rows)
    ensures multiset(rows)[r] <= 1
  {
    if rows != [] {
      var tail := rows[1..];
      assert rows == [rows[0]] + tail;
      assert DistinctIds(tail) by {
        forall i, j | 0 <= i < j < |tail| ensures tail[i].id != tail[j].id {
          assert tail[i] == rows[i + 1] && tail[j] == rows[j + 1];
        }
      }
      DistinctIdsCounts(tail, r);
      if rows[0] == r {
        assert r !in tail by {
          forall m | 0 <= m < |tail| ensures tail[m] != r {
            assert tail[m] == rows[m + 1];
          }
        }
      }
    }
  }

  /**
   * When parents come before replies and every named parent is among the rows, the tree
   * holds every row exactly once: flattened, it is a permutation of the rows.
   */
  lemma ForestIsPermutation(rows: seq<CommentRow>)
    requires ParentsEarlier(rows) && ParentsPresent(rows) && DistinctIds(rows)
    requires forall x :: x in rows ==> x.id >= 0
    ensures multiset(Flatten(Forest(rows, None))) == multiset(rows)
    ensures |Flatten(Forest(rows, None))| == |rows|
  {
    var f := Forest(rows, None);
    ForestMirrors(rows);
    MirrorsNested(f, rows, None);
    forall r ensures multiset(Flatten(f))[r] == multiset(rows)[r] {
      AppearsOnce(f, rows, None, r);
      DistinctIdsCounts(rows, r);
      FlattenOccurs(f, r);
      if r in rows {
        ForestComplete(rows, r);
      } else if r in Flatten(f) {
        MirrorsSound(f, rows, None, r);
      }
    }
    assert multiset(Flatten(f)) == multiset(rows);
  }

  /** Every row the comments query returns is a stored row filed under `root`, with its parent stored earlier. */
  lemma CommentRowsSound(db: Db, root: PostId)
    requires Valid(db)
    ensures forall x :: x in CommentRows(db, root) ==>
              && x.id in db.posts && db.posts[x.id].postId == Some(root) && x == AsCommentRow(db.posts[x.id], root)
              && x.id >= 1 && (x.parentId.Some? ==> x.parentId.value < x.id)
    ensures DistinctIds(CommentRows(db, root))
  {
    var s := Selection(db, CommentsOf(root));
    var rows := CommentRows(db, root);
    SelectionIsExact(db, CommentsOf(root));
    forall i, j | 0 <= i < j < |rows| ensures rows[i].id != rows[j].id {
      assert s[i] in s && s[j] in s;
    }
    forall x | x in rows
      ensures x.id in db.posts && db.posts[x.id].postId == Some(root) && x == AsCommentRow(db.posts[x.id], root)
      ensures x.id >= 1 && (x.parentId.Some? ==> x.parentId.value < x.id)
    {
      var i :| 0 <= i < |rows| && rows[i] == x;
      assert s[i] in s;
      assert RowValid(db, s[i].id);
    }
  }

  /** Every stored row filed under `root` is returned by the comments query. */
  lemma CommentRowsComplete(db: Db, root: PostId)
    requires Valid(db)
    ensures forall k :: k in db.posts && db.posts[k].postId == Some(root) ==> AsCommentRow(db.posts[k], root) in CommentRows(db, root)
  {
    var s := Selection(db, CommentsOf(root));
    var rows := CommentRows(db, root);
    SelectionIsExact(db, CommentsOf(root));
    forall k | k in db.posts && db.posts[k].postId == Some(root)
      ensures AsCommentRow(db.posts[k], root) in rows
    {
      assert db.posts[k].ownerId in db.users by { assert RowValid(db, k); }
      var i :| 0 <= i < |s| && s[i] == db.posts[k];
      assert rows[i] == AsCommentRow(db.posts[k], root);
    }
  }

  /** The comments query on a valid table: exactly the rows filed under `root`, newest first, parents earlier. */
  lemma CommentRowsOfValidDb(db: Db, root: PostId)
    requires Valid(db)
    ensures var rows := CommentRows(db, root);
            && |rows| == CommentCount(db, root)
            && RowsNewestFirst(rows)
            && ParentsEarlier(rows)
            && (forall x :: x in rows ==> x.id >= 1)
            && DistinctIds(rows)
            && (forall x :: x in rows ==>
                  x.id in db.posts && db.posts[x.id].postId == Some(root) && x == AsCommentRow(db.posts[x.id], root))
            && (forall k :: k in db.posts && db.posts[k].postId == Some(root) ==> AsCommentRow(db.posts[k], root) in rows)
  {
    var w := CommentsOf(root);
    SelectionIsExact(db, w);
    assert SelectedIds(db, w) == set k | k in db.posts && db.posts[k].postId == Some(root) by {
      forall k | k in db.posts ensures db.posts[k].ownerId in db.users { assert RowValid(db, k); }
    }
    CommentRowsSound(db, root);
    CommentRowsComplete(db, root);
  }

  /**
   * Every reply filed under `root` hangs off the root or off another reply filed under
   * the same root; the writers keep `post_id` this way, the schema does not enforce it.
   */
  predicate ThreadClosed(db: Db, root: PostId)
  {
    forall k :: k in db.posts && db.posts[k].postId == Some(root) && db.posts[k].parentId.Some? && db.posts[k].parentId.value != root ==>
      db.posts[k].parentId.value in db.posts && db.posts[db.posts[k].parentId.value].postId == Some(root)
  }

  /**
   * `get_post_comments` on a valid table: the nested result reproduces the parent edges of
   * the rows filed under `root` at every level (direct replies at the top), siblings are
   * newest first at every level, and no other row appears.
   */
  lemma GetPostCommentsMirrorsThread(db: Db, root: PostId)
    requires Valid(db)
    ensures Mirrors(GetPostComments(db, root), CommentRows(db, root), None)
    ensures SiblingsNewestFirst(GetPostComments(db, root))
    ensures forall r :: Occurs(GetPostComments(db, root), r) ==>
              r.id in db.posts && db.posts[r.id].postId == Some(root) && r == AsCommentRow(db.posts[r.id], root)
  {
    var rows := CommentRows(db, root);
    CommentRowsOfValidDb(db, root);
    ForestMirrors(rows);
    MirrorsNewestFirst(GetPostComments(db, root), rows, None);
    forall r | Occurs(GetPostComments(db, root), r)
      ensures r.id in db.posts && db.posts[r.id].postId == Some(root) && r == AsCommentRow(db.posts[r.id], root)
    {
      MirrorsSound(GetPostComments(db, root), rows, None, r);
    }
  }

  /**
   * On a thread its writers kept closed, the tree holds every row filed under `root`
   * exactly once, however deep: flattened, it is a permutation of the query's rows, so
   * the count `get_post` reports is the number of comments in the tree, all
   * descendants and not only direct replies.
   */
  lemma GetPostCommentsComplete(db: Db, root: PostId)
    requires Valid(db) && ThreadClosed(db, root)
    ensures forall k :: k in db.posts && db.posts[k].postId == Some(root) ==>
              Occurs(GetPostComments(db, root), AsCommentRow(db.posts[k], root))
    ensures multiset(Flatten(GetPostComments(db, root))) == multiset(CommentRows(db, root))
    ensures forall k :: k in db.posts && db.posts[k].postId == Some(root) ==>
              multiset(Flatten(GetPostComments(db, root)))[AsCommentRow(db.posts[k], root)] == 1
    ensures |Flatten(GetPostComments(db, root))| == CommentCount(db, root)
    ensures GetPost(db, root).Some? ==> GetPost(db, root).value.commentsCount == |Flatten(GetPostComments(db, root))|
  {
    var rows := CommentRows(db, root);
    CommentRowsOfValidDb(db, root);
    GetPostCountsComments(db, root);
    assert ParentsPresent(rows) by {
      forall r | r in rows && r.parentId.Some?
        ensures exists q :: q in rows && q.id == r.parentId.value
      {
        var c := r.parentId.value;
        var k := r.id;
        assert db.posts[k].parentId == Some(c) && c != root;
        assert RowValid(db, k);
        assert RowValid(db, c);
        var q := AsCommentRow(db.posts[c], root);
        assert q in rows && q.id == c;
      }
    }
    forall k | k in db.posts && db.posts[k].postId == Some(root)
      ensures Occurs(GetPostComments(db, root), AsCommentRow(db.posts[k], root))
    {
      ForestComplete(rows, AsCommentRow(db.posts[k], root));
    }
    ForestIsPermutation(rows);
    forall k | k in db.posts && db.posts[k].postId == Some(root)
      ensures multiset(Flatten(GetPostComments(db, root)))[AsCommentRow(db.posts[k], root)] == 1
    {
      DistinctIdsCounts(rows, AsCommentRow(db.posts[k], root));
    }
  }
}
