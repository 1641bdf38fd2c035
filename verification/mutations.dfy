/**
 * The write side of PostRepository (backend/blog/repositories.py) as transitions of a
 * database state. Each write is one atomic step: a failed write leaves the state as it was.
 */
module Mutations {
  import opened Wrappers
  import opened Models
  import opened Ordering
  import opened Queries

  /** The state after a write and what the caller receives. */
  datatype Write<T> = Write(db: Db, result: Result<T, Error>)

  /** The row an INSERT would add: the next id of the sequence, both stamps set to now. */
  function NewRow(db: Db, ownerId: UserId, text: string, parentId: Option<PostId>, postId: Option<PostId>): Post
  {
    Post(db.nextId, ownerId, text, parentId, postId, db.clock, db.clock)
  }

  /**
   * `create_post`: the row is inserted, the database checks its constraints on the table
   * that now holds it, and on an integrity error the transaction is rolled back and
   * `InvalidPostId` raised. A failed insert does not consume an id.
   */
  function Create(db: Db, ownerId: UserId, text: string, parentId: Option<PostId>, postId: Option<PostId>): (w: Write<Post>)
    ensures w.result.Success? <==>
              && ownerId in db.users
              && (parentId.Some? ==> parentId.value in db.posts && parentId.value != db.nextId)
              && (postId.Some? ==> postId.value in db.posts || postId.value == db.nextId)
    ensures w.result.Failure? ==> w.db == db && w.result.error == InvalidPostId
    ensures w.result.Success? ==>
              var row := w.result.value;
              && row.id == db.nextId && row.ownerId == ownerId && row.text == text
              && row.parentId == parentId && row.postId == postId
              && row.createdAt == row.updatedAt == db.clock
              && w.db == db.(posts := db.posts[row.id := row], nextId := db.nextId + 1, clock := db.clock + 1)
  {
    var row := NewRow(db, ownerId, text, parentId, postId);
    var inserted := db.(posts := db.posts[row.id := row]);
    if ConstraintsHold(inserted, row) then
      Write(inserted.(nextId := db.nextId + 1, clock := db.clock + 1), Success(row))
    else
      Write(db, Failure(InvalidPostId))
  }

  /**
   * A parent that names no stored row is refused with `InvalidPostId`, and the table is
   * unchanged; in particular a parent equal to the id the new row would receive.
   */
  lemma CreateRejectsMissingParent(db: Db, ownerId: UserId, text: string, parentId: Option<PostId>, postId: Option<PostId>)
    requires Valid(db)
    requires parentId.Some? && parentId.value !in db.posts
    ensures Create(db, ownerId, text, parentId, postId) == Write(db, Failure(InvalidPostId))
  {
    if parentId.value == db.nextId {
      assert NewRow(db, ownerId, text, parentId, postId).parentId == Some(db.nextId);
    }
  }

  /**
   * A parent equal to the id the new row receives satisfies the foreign key (the row is
   * there once inserted) and is caught by the check `id <> parent_id`: nothing persists.
   */
  lemma CreateRejectsSelfParent(db: Db, ownerId: UserId, text: string, postId: Option<PostId>)
    ensures Create(db, ownerId, text, Some(db.nextId), postId) == Write(db, Failure(InvalidPostId))
  {
  }

  /** An owner that names no user is refused with `InvalidPostId`, and the table is unchanged. */
  lemma CreateRejectsUnknownOwner(db: Db, ownerId: UserId, text: string, parentId: Option<PostId>, postId: Option<PostId>)
    requires ownerId !in db.users
    ensures Create(db, ownerId, text, parentId, postId) == Write(db, Failure(InvalidPostId))
  {
  }

  /**
   * On a valid table an insert succeeds exactly when the owner exists, the parent (if any)
   * is a stored row and the root (if any) is a stored row or the new row itself; it then
   * adds one row under the next id, with equal creation and update stamps, and changes no
   * other row. Otherwise the state is unchanged.
   */
  lemma CreateOutcome(db: Db, ownerId: UserId, text: string, parentId: Option<PostId>, postId: Option<PostId>)
    requires Valid(db)
    ensures var w := Create(db, ownerId, text, parentId, postId);
            && (w.result.Success? <==>
                  && ownerId in db.users
                  && (parentId.Some? ==> parentId.value in db.posts)
                  && (postId.Some? ==> postId.value in db.posts || postId.value == db.nextId))
            && (w.result.Failure? ==> w.db == db && w.result.error == InvalidPostId)
            && (w.result.Success? ==>
                  var row := w.result.value;
                  && row.id == db.nextId && row.id !in db.posts
                  && row.ownerId == ownerId && row.text == text
                  && row.parentId == parentId && row.postId == postId
                  && row.createdAt == row.updatedAt
                  && (forall k :: k in db.posts ==> db.posts[k].createdAt < row.createdAt)
                  && (forall k :: k in db.posts ==> db.posts[k].updatedAt < row.createdAt)
                  && w.db.posts == db.posts[row.id := row]
                  && |w.db.posts| == |db.posts| + 1
                  && w.db.users == db.users)
  {
    NextIdIsFree(db);
    forall k | k in db.posts ensures db.posts[k].createdAt < db.clock && db.posts[k].updatedAt < db.clock {
      assert RowValid(db, k);
    }
  }

  /** The id the sequence hands out next is not yet in use. */
  lemma NextIdIsFree(db: Db)
    requires Valid(db)
    ensures db.nextId !in db.posts
  {
    forall k | k in db.posts ensures k < db.nextId { assert RowValid(db, k); }
  }

  /** Inserting keeps the table invariant. */
  lemma CreateKeepsValid(db: Db, ownerId: UserId, text: string, parentId: Option<PostId>, postId: Option<PostId>)
    requires Valid(db)
    ensures Valid(Create(db, ownerId, text, parentId, postId).db)
  {
    var w := Create(db, ownerId, text, parentId, postId);
    if w.result.Success? {
      var db' := w.db;
      var row := w.result.value;
      forall k | k in db'.posts ensures RowValid(db', k) {
        if k != row.id {
          assert RowValid(db, k);
        } else if parentId.Some? {
          assert RowValid(db, parentId.value);
        }
      }
    }
  }

  /** A new root post (no parent, no root) goes through the service with both references null. */
  lemma CreateRootCounts(db: Db, ownerId: UserId, text: string)
    requires Valid(db) && ownerId in db.users
    ensures var w := Create(db, ownerId, text, None, None);
            && w.result.Success?
            && RootCount(w.db) == RootCount(db) + 1
  {
    var w := Create(db, ownerId, text, None, None);
    var row := NewRow(db, ownerId, text, None, None);
    NextIdIsFree(db);
    assert (set k | k in w.db.posts && w.db.posts[k].postId.None?)
        == (set k | k in db.posts && db.posts[k].postId.None?) + {db.nextId};
  }

  /**
   * A new root post heads the newest-first listing, and the posts listed before keep
   * their order behind it: the listing is in order of creation, latest first.
   */
  lemma CreatePostListedFirst(db: Db, ownerId: UserId, text: string)
    requires Valid(db) && ownerId in db.users
    ensures var w := Create(db, ownerId, text, None, None);
            && w.result.Success?
            && Selection(w.db, Roots) == [w.result.value] + Selection(db, Roots)
  {
    var w := Create(db, ownerId, text, None, None);
    var row := w.result.value;
    var before := Scan(db, Roots, db.nextId);
    NextIdIsFree(db);
    ScanAgrees(w.db, db, Roots, db.nextId);
    assert Scan(w.db, Roots, w.db.nextId) == before + [row];
    ScanSelects(db, Roots, db.nextId);
    forall x | x in before ensures x.createdAt < row.createdAt {
      assert RowValid(db, x.id);
    }
    SortAppendNewest(before, row);
  }

  /**
   * `update_post`: `UPDATE posts SET text, updated_at = now() WHERE id = ? AND owner_id = ?
   * RETURNING *`, then `.one()`. When no row matches nothing changes and the lookup of the
   * single returned row fails, reported as `PostNotFound`.
   */
  function Update(db: Db, id: PostId, ownerId: UserId, text: string): (w: Write<Post>)
    ensures w.result.Success? <==> id in db.posts && db.posts[id].ownerId == ownerId
    ensures w.result.Failure? ==> w.db == db && w.result.error == PostNotFound
    ensures w.result.Success? ==>
              var row := w.result.value;
              && row == db.posts[id].(text := text, updatedAt := db.clock)
              && w.db.posts.Keys == db.posts.Keys && w.db.posts[id] == row
              && (forall k :: k in db.posts && k != id ==> w.db.posts[k] == db.posts[k])
              && w.db.users == db.users && w.db.nextId == db.nextId && w.db.clock == db.clock + 1
  {
    if id in db.posts && db.posts[id].ownerId == ownerId then
      var row := db.posts[id].(text := text, updatedAt := db.clock);
      Write(db.(posts := db.posts[id := row], clock := db.clock + 1), Success(row))
    else
      Write(db, Failure(PostNotFound))
  }

  /**
   * An update changes only the row matching both id and owner: its text becomes the new
   * text and its update stamp moves strictly forward, every other column and every other
   * row stay as they were. A row matching only one of the two is left alone.
   */
  lemma UpdateTouchesOneRow(db: Db, id: PostId, ownerId: UserId, text: string)
    requires Valid(db)
    ensures var w := Update(db, id, ownerId, text);
            && (w.result.Success? <==> id in db.posts && db.posts[id].ownerId == ownerId)
            && (w.result.Failure? ==> w.db == db)
            && (w.result.Success? ==>
                  var before := db.posts[id];
                  var row := w.result.value;
                  && w.db.posts.Keys == db.posts.Keys
                  && w.db.posts[id] == row
                  && row.text == text
                  && row.updatedAt > before.updatedAt
                  && (forall k :: k in db.posts ==> db.posts[k].createdAt <= db.posts[k].updatedAt < row.updatedAt)
                  && row == before.(text := text, updatedAt := row.updatedAt)
                  && (forall k :: k in db.posts && k != id ==> w.db.posts[k] == db.posts[k]))
  {
    if id in db.posts { assert RowValid(db, id); }
    forall k | k in db.posts ensures db.posts[k].createdAt <= db.posts[k].updatedAt < db.clock {
      assert RowValid(db, k);
    }
  }

  /** Updating keeps the table invariant. */
  lemma UpdateKeepsValid(db: Db, id: PostId, ownerId: UserId, text: string)
    requires Valid(db)
    ensures Valid(Update(db, id, ownerId, text).db)
  {
    var w := Update(db, id, ownerId, text);
    if w.result.Success? {
      forall k | k in w.db.posts ensures RowValid(w.db, k) {
        assert RowValid(db, k);
      }
    }
  }

  /** A proper subset is smaller: the measure of the cascade goes down while it still grows. */
  lemma ProperSubsetSmaller<T>(a: set<T>, b: set<T>)
    requires a < b
    ensures |a| < |b|
  {
    assert b == a + (b - a);
    assert b - a != {};
  }

  /** Row `r` refers, as a reply or as a comment of a root, to some id in `s`. */
  predicate RefersInto(r: Post, s: set<PostId>)
  {
    (r.parentId.Some? && r.parentId.value in s) || (r.postId.Some? && r.postId.value in s)
  }

  /** A set of ids that takes along every row referring into it: what ON DELETE CASCADE deletes together. */
  predicate CascadeClosed(posts: map<PostId, Post>, s: set<PostId>)
  {
    forall k :: k in posts && RefersInto(posts[k], s) ==> k in s
  }

  /**
   * The ids a deletion of `s` removes: `s` together with every row that refers, through
   * `parent_id` or `post_id`, to a removed row, repeated until nothing more is added.
   */
  function Cascade(posts: map<PostId, Post>, s: set<PostId>): (c: set<PostId>)
    ensures s <= c
    ensures CascadeClosed(posts, c)
    decreases |posts.Keys - s|
  {
    var next := s + set k | k in posts && RefersInto(posts[k], s);
    if next <= s then s
    else
      ProperSubsetSmaller(posts.Keys - next, posts.Keys - s);
      Cascade(posts, next)
  }

  /** The cascade removes nothing more than it must: it lies inside every closed set holding `s`. */
  lemma {:induction false} CascadeIsLeast(posts: map<PostId, Post>, s: set<PostId>, c: set<PostId>)
    requires s <= c && CascadeClosed(posts, c)
    ensures Cascade(posts, s) <= c
    decreases |posts.Keys - s|
  {
    var next := s + set k | k in posts && RefersInto(posts[k], s);
    if !(next <= s) {
      ProperSubsetSmaller(posts.Keys - next, posts.Keys - s);
      forall k | k in posts && RefersInto(posts[k], s) ensures k in c {
        assert RefersInto(posts[k], c);
      }
      CascadeIsLeast(posts, next, c);
    }
  }

  /** `delete_post`: `DELETE FROM posts WHERE id = ?`, the foreign keys cascading to every descendant. */
  function Delete(db: Db, id: PostId): (r: Db)
    ensures id !in r.posts
    ensures forall k :: k in r.posts ==> k in db.posts && r.posts[k] == db.posts[k]
    ensures r.users == db.users && r.nextId == db.nextId && r.clock == db.clock
  {
    var doomed := Cascade(db.posts, {id});
    db.(posts := map k | k in db.posts && k !in doomed :: db.posts[k])
  }

  /**
   * After a deletion the row is gone, so is every row that replied to it or was filed
   * under it, and no remaining row refers to a removed one; remaining rows are unchanged.
   */
  lemma DeleteRemovesThread(db: Db, id: PostId)
    ensures var db' := Delete(db, id);
            && id !in db'.posts
            && (forall k :: k in db.posts && RefersInto(db.posts[k], {id}) ==> k !in db'.posts)
            && (forall k :: k in db'.posts ==> k in db.posts && db'.posts[k] == db.posts[k])
            && (forall k :: k in db'.posts ==> !RefersInto(db'.posts[k], db.posts.Keys - db'.posts.Keys))
            && db'.users == db.users && db'.nextId == db.nextId && db'.clock == db.clock
  {
    var doomed := Cascade(db.posts, {id});
    var db' := Delete(db, id);
    assert db.posts.Keys - db'.posts.Keys <= doomed;
  }

  /**
   * A deletion removes only descendants: a row outside any cascade-closed set that holds
   * `id` (for example another thread) survives.
   */
  lemma DeleteSparesOthers(db: Db, id: PostId, c: set<PostId>)
    requires id in c && CascadeClosed(db.posts, c)
    ensures forall k :: k in db.posts && k !in c ==> k in Delete(db, id).posts
  {
    CascadeIsLeast(db.posts, {id}, c);
  }

  /** Deleting an id that names no row deletes nothing. */
  lemma DeleteMissingIsNoop(db: Db, id: PostId)
    requires Valid(db) && id !in db.posts
    ensures Delete(db, id) == db
  {
    assert CascadeClosed(db.posts, {id}) by {
      forall k | k in db.posts ensures !RefersInto(db.posts[k], {id}) {
        assert RowValid(db, k);
      }
    }
    CascadeIsLeast(db.posts, {id}, {id});
    assert Delete(db, id).posts == db.posts;
  }

  /** Deleting keeps the table invariant: the cascade leaves no dangling reference. */
  lemma DeleteKeepsValid(db: Db, id: PostId)
    requires Valid(db)
    ensures Valid(Delete(db, id))
  {
    var db' := Delete(db, id);
    var doomed := Cascade(db.posts, {id});
    forall k | k in db'.posts ensures RowValid(db', k) {
      assert RowValid(db, k);
      assert !RefersInto(db.posts[k], doomed);
    }
  }
}
