/**
 * BlogService (backend/blog/services.py): the operations the API calls, each a sequence
 * of repository calls. Update and delete are guarded: fetch the row, report
 * `PostNotFound` if it is missing, `Forbidden` if the caller does not own it, and only
 * then write.
 */
module Services {
  import opened Wrappers
  import opened Models
  import opened Queries
  import opened Mutations
  import opened Repository
  import opened Pagination

  class BlogService {
    const postRepository: PostRepository

    constructor (users: set<UserId>)
      ensures fresh(postRepository)
      ensures postRepository.Valid() && postRepository.State() == EmptyDb(users) && postRepository.calls == []
    {
      postRepository := new PostRepository(users);
    }

    /** `create_post`: a root post, with neither parent nor root; `InvalidPostId` passes through. */
    method CreatePost(ownerId: UserId, text: string) returns (r: Result<Post, Error>)
      requires postRepository.Valid()
      modifies postRepository
      ensures postRepository.Valid()
      ensures var w := Create(old(postRepository.State()), ownerId, text, None, None);
              postRepository.State() == w.db && r == w.result
      ensures postRepository.calls == old(postRepository.calls) + [CreateCall(ownerId, text, None, None)]
      ensures r.Success? ==> r.value.parentId.None? && r.value.postId.None? && r.value.createdAt == r.value.updatedAt
    {
      r := postRepository.CreatePost(ownerId, text, None, None);
    }

    /** `create_comment`: a reply to `parentId`; `None` when the repository raises `InvalidPostId`. */
    method CreateComment(ownerId: UserId, text: string, parentId: PostId) returns (c: Option<Post>)
      requires postRepository.Valid()
      modifies postRepository
      ensures postRepository.Valid()
      ensures var w := Create(old(postRepository.State()), ownerId, text, Some(parentId), None);
              && postRepository.State() == w.db
              && (c.None? <==> w.result == Failure(InvalidPostId))
              && (c.Some? ==> w.result == Success(c.value) && c.value.parentId == Some(parentId))
      ensures postRepository.calls == old(postRepository.calls) + [CreateCall(ownerId, text, Some(parentId), None)]
    {
      var r := postRepository.CreatePost(ownerId, text, Some(parentId), None);
      if r.Failure? {
        c := None;
      } else {
        c := Some(r.value);
      }
    }

    /**
     * `get_all_posts`: the number of root posts and one page of them, both read from the
     * same state, so the page is a window of the very listing the total counts.
     */
    method GetAllPosts(limit: nat, offset: nat) returns (total: nat, items: seq<PostWithUser>)
      requires postRepository.Valid()
      ensures total == RootCount(postRepository.State())
      ensures items == Queries.GetAllPosts(postRepository.State(), limit, offset)
      ensures |items| == if offset >= total then 0 else if total - offset < limit then total - offset else limit
    {
      total := RootCount(postRepository.State());
      items := Queries.GetAllPosts(postRepository.State(), limit, offset);
      GetAllPostsIsPageOfRoots(postRepository.State(), limit, offset);
    }

    /**
     * `update_post`: `PostNotFound` for a missing id whoever asks, then `Forbidden` for a
     * caller who does not own the row; neither writes anything. The owner gets exactly one
     * repository update of that id with the new text.
     */
    method UpdatePost(postId: PostId, userId: UserId, text: string) returns (r: Result<Post, Error>)
      requires postRepository.Valid()
      modifies postRepository
      ensures postRepository.Valid()
      ensures postId !in old(postRepository.posts) ==>
                && r == Failure(PostNotFound)
                && postRepository.State() == old(postRepository.State())
                && postRepository.calls == old(postRepository.calls)
      ensures postId in old(postRepository.posts) && old(postRepository.posts[postId].ownerId) != userId ==>
                && r == Failure(Forbidden)
                && postRepository.State() == old(postRepository.State())
                && postRepository.calls == old(postRepository.calls)
      ensures postId in old(postRepository.posts) && old(postRepository.posts[postId].ownerId) == userId ==>
                var w := Update(old(postRepository.State()), postId, userId, text);
                && r.Success? && r == w.result && r.value.text == text
                && postRepository.State() == w.db
                && postRepository.calls == old(postRepository.calls) + [UpdateCall(postId, userId, text)]
    {
      var post := GetPostOrCommentInDb(postRepository.State(), postId);
      if post.None? {
        return Failure(PostNotFound);
      }
      if post.value.ownerId != userId {
        return Failure(Forbidden);
      }
      r := postRepository.UpdatePost(postId, userId, text);
    }

    /**
     * `delete_post`: `PostNotFound`, then `Forbidden`, as for an update, with nothing
     * deleted; the owner gets exactly one repository deletion, after which the post and
     * every row replying to it or filed under it are gone.
     */
    method DeletePost(postId: PostId, userId: UserId) returns (r: Result<(), Error>)
      requires postRepository.Valid()
      modifies postRepository
      ensures postRepository.Valid()
      ensures postId !in old(postRepository.posts) ==>
                && r == Failure(PostNotFound)
                && postRepository.State() == old(postRepository.State())
                && postRepository.calls == old(postRepository.calls)
      ensures postId in old(postRepository.posts) && old(postRepository.posts[postId].ownerId) != userId ==>
                && r == Failure(Forbidden)
                && postRepository.State() == old(postRepository.State())
                && postRepository.calls == old(postRepository.calls)
      ensures postId in old(postRepository.posts) && old(postRepository.posts[postId].ownerId) == userId ==>
                && r == Success(())
                && postRepository.State() == Delete(old(postRepository.State()), postId)
                && postRepository.calls == old(postRepository.calls) + [DeleteCall(postId)]
                && postId !in postRepository.posts
                && (forall k :: k in old(postRepository.posts) && RefersInto(old(postRepository.posts)[k], {postId}) ==>
                      k !in postRepository.posts)
    {
      var post := GetPostOrCommentInDb(postRepository.State(), postId);
      if post.None? {
        return Failure(PostNotFound);
      }
      if post.value.ownerId != userId {
        return Failure(Forbidden);
      }
      DeleteRemovesThread(postRepository.State(), postId);
      postRepository.DeletePost(postId);
      r := Success(());
    }
  }

  /**
   * The listing route pages the service's pair: on a valid table the page carries the
   * requested window, the true number of root posts, and at most `limit` items, which are
   * the roots at positions `offset` onwards, newest first.
   */
  lemma PageOfListing(db: Db, p: LimitOffsetPagination)
    requires Valid(db) && p.limit >= 1 && p.offset >= 0
    ensures var page := p.Paginate(Queries.GetAllPosts(db, p.limit, p.offset), RootCount(db));
            && page.limit == p.limit && page.offset == p.offset
            && page.total == RootCount(db)
            && page.items == Queries.GetAllPosts(db, p.limit, p.offset)
            && |page.items| <= page.limit
            && (|page.items| > 0 ==> page.offset + |page.items| <= page.total)
            && (forall i, j :: 0 <= i < j < |page.items| ==> page.items[i].createdAt >= page.items[j].createdAt)
  {
    GetAllPostsIsPageOfRoots(db, p.limit, p.offset);
  }
}
