/**
 * The `posts` table (backend/blog/models.py) and the `users` ids it refers to.
 *
 * One self-referencing table holds posts and comments alike: `parentId` is the
 * immediate parent and `postId` the root post a comment belongs to. A database
 * state is a value of type `Db`; `Valid` is the set of constraints the schema
 * enforces, together with what the insertion discipline keeps true (ids and
 * stamps come from counters that only go up).
 */
module Models {
  import opened Wrappers

  type UserId = int
  type PostId = int
  /** A creation/update stamp; a strictly increasing counter stands in for now(). */
  type Stamp = nat

  /** The error kinds the core raises. */
  datatype Error = InvalidPostId | PostNotFound | Forbidden

  /** One row of `posts`. `text` and `ownerId` are never null; the two references are nullable. */
  datatype Post = Post(
    id: PostId,
    ownerId: UserId,
    text: string,
    parentId: Option<PostId>,
    postId: Option<PostId>,
    createdAt: Stamp,
    updatedAt: Stamp)

  /**
   * A database state: the ids of the `users` table, the `posts` table keyed by id,
   * the next value of the id sequence and the current stamp.
   */
  datatype Db = Db(users: set<UserId>, posts: map<PostId, Post>, nextId: PostId, clock: Stamp)

  /** A fresh database: no posts, the id sequence starting at 1 as a serial column does. */
  function EmptyDb(users: set<UserId>): (db: Db)
    ensures Valid(db) && db.posts == map[]
  {
    Db(users, map[], 1, 0)
  }

  /**
   * The constraints of one row as the database evaluates them once the row is in
   * `db.posts`: the owner foreign key (RESTRICT), the two self-referencing foreign keys
   * (a reference to the row itself is satisfied) and the check `id <> parent_id`.
   */
  predicate ConstraintsHold(db: Db, r: Post)
  {
    && r.ownerId in db.users
    && (r.parentId.Some? ==> r.parentId.value in db.posts)
    && (r.postId.Some? ==> r.postId.value in db.posts)
    && r.parentId != Some(r.id)
  }

  /**
   * What holds of every stored row: it is filed under its own id, which the sequence
   * has already handed out; its constraints hold; a parent was stored before the row
   * (hence has a smaller id, so no row is its own parent); and both stamps were issued
   * before the current one, the update stamp no earlier than the creation stamp.
   */
  predicate RowValid(db: Db, k: PostId)
    requires k in db.posts
  {
    var r := db.posts[k];
    && r.id == k
    && 1 <= k < db.nextId
    && ConstraintsHold(db, r)
    && (r.parentId.Some? ==> r.parentId.value < k)
    && (r.postId.Some? ==> r.postId.value <= k)
    && r.createdAt <= r.updatedAt < db.clock
  }

  /** The table invariant. */
  predicate Valid(db: Db)
  {
    && 1 <= db.nextId
    && forall k :: k in db.posts ==> RowValid(db, k)
  }

  /**
   * Deleting a user (`ondelete='RESTRICT'` on `owner_id`): refused, with `None`, while
   * the user owns a row; otherwise the user is gone and the posts are untouched.
   */
  function RemoveUser(db: Db, u: UserId): (r: Option<Db>)
    ensures r.None? <==> exists k :: k in db.posts && db.posts[k].ownerId == u
    ensures r.Some? ==> u !in r.value.users && r.value.users == db.users - {u}
    ensures r.Some? ==> r.value.posts == db.posts && r.value.nextId == db.nextId && r.value.clock == db.clock
  {
    if exists k :: k in db.posts && db.posts[k].ownerId == u then None
    else Some(db.(users := db.users - {u}))
  }

  /** RESTRICT keeps every row's owner in `users`, so the invariant survives a user deletion. */
  lemma RemoveUserKeepsOwners(db: Db, u: UserId)
    requires Valid(db)
    ensures RemoveUser(db, u).None? <==> exists k :: k in db.posts && db.posts[k].ownerId == u
    ensures RemoveUser(db, u).Some? ==> Valid(RemoveUser(db, u).value)
    ensures RemoveUser(db, u).Some? ==> RemoveUser(db, u).value.posts == db.posts
  {
    if RemoveUser(db, u).Some? {
      var db' := RemoveUser(db, u).value;
      forall k | k in db'.posts ensures RowValid(db', k) {
        assert RowValid(db, k);
        assert db.posts[k].ownerId != u;
      }
    }
  }
}
