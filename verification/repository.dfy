/**
 * PostRepository (backend/blog/repositories.py) as an object whose writes change the
 * database it holds in place. Reads are the functions of `Queries` and `CommentTree`
 * applied to `State()`.
 */
module Repository {
  import opened Wrappers
  import opened Models
  import opened Mutations

  /** A call made on the repository's writing methods, in the order they were awaited. */
  datatype Call =
    | CreateCall(ownerId: UserId, text: string, parentId: Option<PostId>, postId: Option<PostId>)
    | UpdateCall(id: PostId, ownerId: UserId, text: string)
    | DeleteCall(id: PostId)

  class PostRepository {
    var users: set<UserId>
    var posts: map<PostId, Post>
    var nextId: PostId
    var clock: Stamp
    /** Every write awaited so far. */
    ghost var calls: seq<Call>

    /** The database state the repository works on. */
    function State(): Db
      reads this
    {
      Db(users, posts, nextId, clock)
    }

    predicate Valid()
      reads this
    {
      Models.Valid(State())
    }

    /** A repository over an empty `posts` table and the given users. */
    constructor (users: set<UserId>)
      ensures Valid() && State() == EmptyDb(users) && calls == []
    {
      this.users := users;
      posts := map[];
      nextId := 1;
      clock := 0;
      calls := [];
    }

    /**
     * `create_post`: insert the row, let the database check its constraints, roll back and
     * report `InvalidPostId` on a violation, or commit and return the stored row.
     */
    method CreatePost(ownerId: UserId, text: string, parentId: Option<PostId>, postId: Option<PostId>)
      returns (r: Result<Post, Error>)
      requires Valid()
      modifies this
      ensures Valid()
      ensures var w := Create(old(State()), ownerId, text, parentId, postId);
              State() == w.db && r == w.result
      ensures calls == old(calls) + [CreateCall(ownerId, text, parentId, postId)]
    {
      calls := calls + [CreateCall(ownerId, text, parentId, postId)];
      CreateKeepsValid(State(), ownerId, text, parentId, postId);
      var row := Post(nextId, ownerId, text, parentId, postId, clock, clock);
      var before := posts;
      posts := posts[row.id := row];
      if ConstraintsHold(State(), row) {
        nextId := nextId + 1;
        clock := clock + 1;
        r := Success(row);
      } else {
        posts := before;
        r := Failure(InvalidPostId);
      }
    }

    /**
     * `update_post`: set the text and refresh the update stamp of the row matching both
     * id and owner; `PostNotFound` when no row matches.
     */
    method UpdatePost(id: PostId, ownerId: UserId, text: string) returns (r: Result<Post, Error>)
      requires Valid()
      modifies this
      ensures Valid()
      ensures var w := Update(old(State()), id, ownerId, text);
              State() == w.db && r == w.result
      ensures calls == old(calls) + [UpdateCall(id, ownerId, text)]
    {
      calls := calls + [UpdateCall(id, ownerId, text)];
      UpdateKeepsValid(State(), id, ownerId, text);
      if id in posts && posts[id].ownerId == ownerId {
        var row := posts[id].(text := text, updatedAt := clock);
        posts := posts[id := row];
        clock := clock + 1;
        r := Success(row);
      } else {
        r := Failure(PostNotFound);
      }
    }

    /** `delete_post`: remove the row and, through the cascading foreign keys, its descendants. */
    method DeletePost(id: PostId)
      requires Valid()
      modifies this
      ensures Valid()
      ensures State() == Delete(old(State()), id)
      ensures calls == old(calls) + [DeleteCall(id)]
    {
      calls := calls + [DeleteCall(id)];
      DeleteKeepsValid(State(), id);
      var doomed := Cascade(posts, {id});
      posts := map k | k in posts && k !in doomed :: posts[k];
    }
  }
}
