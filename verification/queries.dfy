/**
 * The read side of PostRepository (backend/blog/repositories.py): each query is given
 * the meaning of its result set on a database state (filter, join, order, slice, count).
 */
module Queries {
  import opened Wrappers
  import opened Models
  import opened Ordering

  /** The two WHERE clauses of the listings: root posts, or the comments of one root. */
  datatype Where = Roots | CommentsOf(root: PostId)

  /** Whether a listing keeps row `r`: its WHERE clause, and the inner join of the owner with `users`. */
  predicate Selects(db: Db, r: Post, w: Where)
  {
    && r.ownerId in db.users
    && match w
       case Roots => r.postId.None?
       case CommentsOf(p) => r.postId == Some(p)
  }

  /** The ids of the rows with id below `n` that a listing keeps. */
  function SelectedBelow(db: Db, w: Where, n: int): set<PostId>
  {
    set k | k in db.posts && k < n && Selects(db, db.posts[k], w)
  }

  /** The ids of all rows a listing keeps. */
  function SelectedIds(db: Db, w: Where): set<PostId>
  {
    set k | k in db.posts && Selects(db, db.posts[k], w)
  }

  /** A scan of the table: the kept rows with id below `n`, in ascending id order. */
  function Scan(db: Db, w: Where, n: int): seq<Post>
    decreases n
  {
    if n <= 0 then []
    else
      var k := n - 1;
      Scan(db, w, k) + (if k in db.posts && Selects(db, db.posts[k], w) then [db.posts[k]] else [])
  }

  /** Going one id further adds that id exactly when the row under it is kept. */
  lemma SelectedBelowStep(db: Db, w: Where, k: int)
    ensures k in db.posts && Selects(db, db.posts[k], w) ==>
              SelectedBelow(db, w, k + 1) == SelectedBelow(db, w, k) + {k}
    ensures !(k in db.posts && Selects(db, db.posts[k], w)) ==>
              SelectedBelow(db, w, k + 1) == SelectedBelow(db, w, k)
    ensures k !in SelectedBelow(db, w, k)
  {
  }

  /** A scan returns each kept row below `n` once, and nothing else. */
  lemma {:induction false} ScanSelects(db: Db, w: Where, n: int)
    requires Valid(db)
    ensures forall x :: x in Scan(db, w, n) ==> x.id in SelectedBelow(db, w, n) && db.posts[x.id] == x
    ensures forall k :: k in SelectedBelow(db, w, n) ==> db.posts[k] in Scan(db, w, n)
    ensures |Scan(db, w, n)| == |SelectedBelow(db, w, n)|
    decreases n
  {
    if n > 0 {
      var k := n - 1;
      ScanSelects(db, w, k);
      SelectedBelowStep(db, w, k);
      var prev := Scan(db, w, k);
      if k in db.posts && Selects(db, db.posts[k], w) {
        assert RowValid(db, k);
        assert Scan(db, w, n) == prev + [db.posts[k]];
      } else {
        assert Scan(db, w, n) == prev;
      }
    } else {
      assert SelectedBelow(db, w, n) == {} by {
        forall k | k in db.posts ensures k >= n { assert RowValid(db, k); }
      }
    }
  }

  /** No element appears twice. */
  predicate NoRepeats<T(==)>(s: seq<T>)
  {
    forall i, j :: 0 <= i < j < |s| ==> s[i] != s[j]
  }

  /** A sequence without repeats holds each element at most once, and the other way round. */
  lemma {:induction false} NoRepeatsCounts<T>(s: seq<T>)
    ensures NoRepeats(s) <==> forall x :: multiset(s)[x] <= 1
  {
    if NoRepeats(s) {
      if s != [] {
        var t := s[1..];
        assert s == [s[0]] + t;
        assert NoRepeats(t) by {
          forall i, j | 0 <= i < j < |t| ensures t[i] != t[j] {
            assert t[i] == s[i + 1] && t[j] == s[j + 1];
          }
        }
        NoRepeatsCounts(t);
        assert s[0] !in t by {
          forall m | 0 <= m < |t| ensures t[m] != s[0] {
            assert t[m] == s[m + 1];
          }
        }
      }
    } else {
      var i, j :| 0 <= i < j < |s| && s[i] == s[j];
      assert s == s[..j] + [s[j]] + s[j + 1..];
      assert s[..j][i] == s[i];
      assert multiset(s)[s[j]] >= 2;
    }
  }

  /** A scan meets each id once, so it never repeats a row. */
  lemma {:induction false} ScanNoRepeats(db: Db, w: Where, n: int)
    requires Valid(db)
    ensures NoRepeats(Scan(db, w, n))
    decreases n
  {
    if n > 0 {
      var k := n - 1;
      ScanNoRepeats(db, w, k);
      ScanSelects(db, w, k);
      var prev := Scan(db, w, k);
      if k in db.posts && Selects(db, db.posts[k], w) {
        assert RowValid(db, k);
        assert db.posts[k] !in prev;
        assert Scan(db, w, n) == prev + [db.posts[k]];
      } else {
        assert Scan(db, w, n) == prev;
      }
    }
  }

  /** A scan below `n` depends only on the users and on the rows with an id below `n`. */
  lemma {:induction false} ScanAgrees(db1: Db, db2: Db, w: Where, n: int)
    requires db1.users == db2.users
    requires forall k :: k < n ==> (k in db1.posts <==> k in db2.posts)
    requires forall k :: k < n && k in db1.posts ==> db1.posts[k] == db2.posts[k]
    ensures Scan(db1, w, n) == Scan(db2, w, n)
    decreases n
  {
    if n > 0 {
      ScanAgrees(db1, db2, w, n - 1);
    }
  }

  /** The kept rows of the whole table, `ORDER BY created_at DESC`. */
  function Selection(db: Db, w: Where): (s: seq<Post>)
    ensures NewestFirst(s)
  {
    SortNewestFirst(Scan(db, w, db.nextId))
  }

  /** The ordered listing holds exactly the kept rows, each once. */
  lemma SelectionIsExact(db: Db, w: Where)
    requires Valid(db)
    ensures forall x :: x in Selection(db, w) ==> x.id in db.posts && db.posts[x.id] == x && Selects(db, x, w)
    ensures forall k :: k in db.posts && Selects(db, db.posts[k], w) ==> db.posts[k] in Selection(db, w)
    ensures |Selection(db, w)| == |SelectedIds(db, w)|
    ensures NoRepeats(Selection(db, w))
  {
    ScanSelects(db, w, db.nextId);
    ScanNoRepeats(db, w, db.nextId);
    NoRepeatsCounts(Scan(db, w, db.nextId));
    NoRepeatsCounts(Selection(db, w));
    assert SelectedBelow(db, w, db.nextId) == SelectedIds(db, w) by {
      forall k | k in db.posts ensures k < db.nextId { assert RowValid(db, k); }
    }
    forall x ensures x in Selection(db, w) <==> x in Scan(db, w, db.nextId) {
      SortKeepsRows(Scan(db, w, db.nextId), x);
    }
  }

  /** `get_posts_count`: the number of rows whose `post_id` is null. */
  function RootCount(db: Db): (n: nat)
    ensures n == 0 <==> forall k :: k in db.posts ==> db.posts[k].postId.Some?
  {
    var roots := set k | k in db.posts && db.posts[k].postId.None?;
    assert roots == {} ==> forall k :: k in db.posts ==> db.posts[k].postId.Some? by {
      if roots == {} {
        forall k | k in db.posts ensures db.posts[k].postId.Some? { assert k !in roots; }
      }
    }
    assert (forall k :: k in db.posts ==> db.posts[k].postId.Some?) ==> roots == {} by {
      if forall k :: k in db.posts ==> db.posts[k].postId.Some? {
        assert forall k :: k !in roots;
      }
    }
    |roots|
  }

  /** The count and the ordered root listing agree: the owner join loses no row of a valid table. */
  lemma RootCountIsListingLength(db: Db)
    requires Valid(db)
    ensures RootCount(db) == |Selection(db, Roots)|
  {
    SelectionIsExact(db, Roots);
    assert (set k | k in db.posts && db.posts[k].postId.None?) == SelectedIds(db, Roots) by {
      forall k | k in db.posts ensures db.posts[k].ownerId in db.users { assert RowValid(db, k); }
    }
  }

  /** The number of rows whose `post_id` is `p`: every comment filed under root `p`, at any depth. */
  function CommentCount(db: Db, p: PostId): nat
  {
    |set k | k in db.posts && db.posts[k].postId == Some(p)|
  }

  /**
   * `_comments_cte`: each root id mapped to `count(p2.post_id)` over the outer join of
   * roots with the rows filed under them. With an id (a truthy one: `if post_id:` skips 0)
   * the extra `p2.post_id = post_id` filter keeps only that root, and only when it has
   * at least one comment, because the filter discards the null row of the outer join.
   */
  function CommentsCte(db: Db, filter: Option<PostId>): (cte: map<PostId, nat>)
    ensures forall r :: r in cte ==> r in db.posts && db.posts[r].postId.None? && cte[r] == CommentCount(db, r)
    ensures (filter.None? || filter == Some(0)) ==>
              forall r :: r in db.posts && db.posts[r].postId.None? ==> r in cte
    ensures filter.Some? && filter.value != 0 ==>
              forall r :: r in cte <==> r == filter.value && r in db.posts && db.posts[r].postId.None? && CommentCount(db, r) > 0
  {
    if filter.Some? && filter.value != 0 then
      map r | r in db.posts && db.posts[r].postId.None? && r == filter.value && CommentCount(db, r) > 0 :: CommentCount(db, r)
    else
      map r | r in db.posts && db.posts[r].postId.None? :: CommentCount(db, r)
  }

  /** A row of the root listing: the post with its owner and its number of comments. */
  datatype PostWithUser = PostWithUser(postId: PostId, text: string, createdAt: Stamp, commentsCount: nat, userId: UserId)

  /** One joined row; a root missing from the comments CTE (a null count) reads as 0. */
  function Summarize(cte: map<PostId, nat>, r: Post): PostWithUser
  {
    PostWithUser(r.id, r.text, r.createdAt, if r.id in cte then cte[r.id] else 0, r.ownerId)
  }

  /** `OFFSET offset LIMIT limit`: at most `limit` consecutive items starting at position `offset`. */
  function Window<T>(s: seq<T>, limit: nat, offset: nat): (w: seq<T>)
    ensures |w| <= limit
    ensures |w| == if offset >= |s| then 0 else if |s| - offset < limit then |s| - offset else limit
    ensures forall i :: 0 <= i < |w| ==> offset + i < |s| && w[i] == s[offset + i]
  {
    if offset >= |s| then []
    else if |s| - offset < limit then s[offset..]
    else s[offset..offset + limit]
  }

  /** `get_all_posts`: one page of root posts, newest first, each with its comment count. */
  function GetAllPosts(db: Db, limit: nat, offset: nat): (items: seq<PostWithUser>)
    ensures |items| <= limit
    ensures forall i, j :: 0 <= i < j < |items| ==> items[i].createdAt >= items[j].createdAt
  {
    var cte := CommentsCte(db, None);
    var page := Window(Selection(db, Roots), limit, offset);
    seq(|page|, i requires 0 <= i < |page| => Summarize(cte, page[i]))
  }

  /**
   * The page is the `offset`-th through `offset + limit - 1`-th root post of the newest-first
   * order, no more than there are, and each item carries the number of rows filed under it
   * (0 for a root without comments).
   */
  lemma GetAllPostsIsPageOfRoots(db: Db, limit: nat, offset: nat)
    requires Valid(db)
    ensures var items := GetAllPosts(db, limit, offset);
            var total := RootCount(db);
            && |items| == (if offset >= total then 0 else if total - offset < limit then total - offset else limit)
            && forall i :: 0 <= i < |items| ==>
                 var r := Selection(db, Roots)[offset + i];
                 && r.id in db.posts && db.posts[r.id] == r && r.postId.None?
                 && items[i] == PostWithUser(r.id, r.text, r.createdAt, CommentCount(db, r.id), r.ownerId)
  {
    RootCountIsListingLength(db);
    SelectionIsExact(db, Roots);
  }

  /** `get_post`: the root post with that id, with its comment count; `None` when there is no such root. */
  function GetPost(db: Db, id: PostId): (r: Option<PostWithUser>)
    ensures r.Some? ==> id in db.posts && db.posts[id].postId.None?
  {
    if id in db.posts && Selects(db, db.posts[id], Roots) then
      Some(Summarize(CommentsCte(db, Some(id)), db.posts[id]))
    else None
  }

  /**
   * `get_post` finds exactly the root posts, and reports the number of rows filed under
   * the root whether or not it has any (the filtered CTE only lists roots with comments).
   */
  lemma GetPostCountsComments(db: Db, id: PostId)
    requires Valid(db)
    ensures GetPost(db, id).Some? <==> id in db.posts && db.posts[id].postId.None?
    ensures GetPost(db, id).Some? ==> GetPost(db, id).value.commentsCount == CommentCount(db, id)
  {
  }

  /** `get_post_or_comment_in_db`: the row with that id, post or comment. */
  function GetPostOrCommentInDb(db: Db, id: PostId): (r: Option<Post>)
    ensures r.Some? <==> id in db.posts
    ensures r.Some? ==> r.value == db.posts[id]
  {
    if id in db.posts then Some(db.posts[id]) else None
  }

  /** `get_post_in_db`: the row with that id if it is a root post. */
  function GetPostInDb(db: Db, id: PostId): (r: Option<Post>)
    ensures r.Some? <==> id in db.posts && db.posts[id].postId.None?
    ensures r.Some? ==> r.value == db.posts[id]
  {
    if id in db.posts && db.posts[id].postId.None? then Some(db.posts[id]) else None
  }

  /** The root lookup is the post-or-comment lookup narrowed to rows whose `post_id` is null. */
  lemma GetPostInDbNarrowsLookup(db: Db, id: PostId)
    ensures GetPostInDb(db, id) ==
      (if GetPostOrCommentInDb(db, id).Some? && GetPostOrCommentInDb(db, id).value.postId.None?
       then GetPostOrCommentInDb(db, id) else None)
  {
  }
}
