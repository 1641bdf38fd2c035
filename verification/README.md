# secure_t blog store, modelled in Dafny

This project models the post/comment store of the `secure_t` blog backend. Posts and
comments share one self-referencing `posts` table: `parent_id` is the immediate parent
and `post_id` is the root post a comment is filed under. The model covers:

- the table itself and the constraints the schema puts on it: the owner foreign key with
  RESTRICT, the two cascading self-references, and the check `id <> parent_id`;
- `PostRepository`: inserts with rollback on an integrity error, the newest-first root
  listing with limit/offset and per-root comment counts, the root count, single-post and
  row lookups, the flat comments query, updates filtered by id and owner, and cascading
  deletes;
- `BlogService`: the create operations, the listing pair `(total, items)`, and the
  ownership guard in front of update and delete (`PostNotFound` first, then
  `Forbidden`);
- `Page` and `LimitOffsetPagination`: query validation and `paginate`.

A database state is the value `Models.Db`. It holds the user ids, the rows keyed by id,
the next value of the id sequence and a stamp counter that stands in for `now()`.
`Models.Valid` is the table invariant. Each SQL statement is given the meaning of its
result set: a filter over the rows, a sort on `created_at`, newest first, that breaks ties by ascending id (PostgreSQL leaves the order of equal stamps unspecified; `Mutations.Create` never gives a new row the creation stamp of a stored one), a slice, a count, or
a cascade, which is the least set of rows closed under the two references. The
repository is a class that holds that state and changes it in place. Each of its
methods is proved against the pure transition of `Mutations`. The service is a class
over the repository. A ghost log of awaited repository writes states which writes the
guard lets through.

Files: `wrappers.dfy` (Option/Result), `models.dfy`, `ordering.dfy`, `queries.dfy`,
`comment_tree.dfy`, `mutations.dfy`, `repository.dfy`, `services.dfy`, `pagination.dfy`.

## Model

| member | source | states |
|---|---|---|
| Models.EmptyDb | backend/blog/models.py:6-16 | a freshly created table is empty and satisfies the table invariant |
| Models.RemoveUser | backend/blog/models.py:11-12 | deleting a user (RESTRICT on `owner_id`) is refused exactly when the user owns a row; otherwise only that user is gone and the rows, the sequence and the clock are untouched |
| Models.RemoveUserKeepsOwners | backend/blog/models.py:11-12 | deleting a user is refused exactly when the user owns a row (RESTRICT); otherwise the posts are untouched and the invariant still holds |
| Ordering.InsertByStamp | backend/blog/repositories.py:58 | inserting a row into a newest-first list gives a newest-first list holding exactly the old rows plus the new one |
| Ordering.SortNewestFirst | backend/blog/repositories.py:58 | `ORDER BY created_at DESC` yields a permutation of its input whose stamps never increase |
| Ordering.SortKeepsRows | backend/blog/repositories.py:114 | sorting neither adds nor drops a row |
| Ordering.SortAppendNewest | backend/blog/repositories.py:58 | a row stamped later than every other row is listed first by the newest-first sort, ahead of the others in their sorted order |
| Queries.ScanSelects | backend/blog/repositories.py:54-58 | scanning ids below `n` lists every selected row once, as stored, and nothing else |
| Queries.ScanNoRepeats | backend/blog/repositories.py:54-58 | on a valid table the scan of the rows by id never lists a row twice |
| Queries.ScanAgrees | backend/blog/repositories.py:54-58 | two tables with the same users and the same rows below `n` give the same scan below `n`, so a row added at the top leaves the earlier rows' selection as it was |
| Queries.Selection | backend/blog/repositories.py:58 | the rows a query selects come out newest first |
| Queries.SelectionIsExact | backend/blog/repositories.py:54-58 | on a valid table the selection holds exactly the stored rows that pass the join with `users` and the WHERE clause; its length is the number of selected ids and no row appears twice |
| Queries.RootCountIsListingLength | backend/blog/repositories.py:65-68 | the `count(*)` of root posts equals the length of the full root listing, so the inner join with `users` loses no root |
| Queries.RootCount | backend/blog/repositories.py:65-68 | the root count is 0 exactly when every row is filed under some root |
| Queries.CommentsCte | backend/blog/repositories.py:88-103 | the CTE maps roots to the number of rows filed under them; unfiltered (or with a falsy id 0) every root is present; filtered, only that root and only if it has comments |
| Queries.Window | backend/blog/repositories.py:58 | `LIMIT/OFFSET` gives at most `limit` items, exactly `min(limit, n - offset)` when `offset < n`, and item `i` is element `offset + i` |
| Queries.GetAllPosts | backend/blog/repositories.py:45-63 | a listing page has at most `limit` items, newest first |
| Queries.GetAllPostsIsPageOfRoots | backend/blog/repositories.py:45-63 | item `i` of the page is root `offset + i` of the newest-first root order with its id, text, stamp, owner and the number of rows filed under it (0 when none); the page length is fixed by limit, offset and the root count |
| Queries.GetPost | backend/blog/repositories.py:70-86 | `get_post` returns only root posts |
| Queries.GetPostCountsComments | backend/blog/repositories.py:70-86 | on a valid table `get_post` finds exactly the stored roots, and its count is the number of rows filed under the root, also when the filtered CTE yields no row for it |
| Queries.GetPostOrCommentInDb | backend/blog/repositories.py:130-134 | the lookup finds a row exactly when the id is stored, and returns that row |
| Queries.GetPostInDb | backend/blog/repositories.py:136-140 | the root lookup finds a row exactly when the id is stored with a null `post_id`, and returns that stored row |
| Queries.GetPostInDbNarrowsLookup | backend/blog/repositories.py:136-140 | the root lookup is the post-or-comment lookup restricted to rows whose `post_id` is null |
| CommentTree.CommentRows | backend/blog/repositories.py:105-117 | the comments query returns one row per selected row filed under the root |
| CommentTree.Forest | backend/blog/repositories.py:116-117 | the tree has one top-level entry per row whose parent is the given one, in the order of the rows |
| CommentTree.GetPostComments | backend/blog/repositories.py:105-117 | the top level of `get_post_comments` holds exactly the direct replies of the root, in the order of the query, each with a null parent after the rewrite |
| CommentTree.ChildrenNewestFirst | backend/blog/repositories.py:114 | picking the replies of one parent keeps the newest-first order |
| CommentTree.ForestMirrors | backend/blog/repositories.py:117 | when parents come before replies, the built tree reproduces every parent edge at every level, with siblings in the order of the rows |
| CommentTree.MirrorsNewestFirst | tests/test_blog/test_posts.py:149-195 | a tree mirroring newest-first rows has newest-first siblings at every level |
| CommentTree.MirrorsSound | backend/blog/repositories.py:116-117 | nothing appears in the tree that the query did not return |
| CommentTree.RepliesOccur | tests/test_blog/test_posts.py:120-196 | once a row appears in the tree, all its replies appear below it |
| CommentTree.ForestComplete | tests/test_blog/test_posts.py:120-196 | when parents come before replies and every named parent is among the rows, every row appears in the tree, however deep |
| CommentTree.FlattenOccurs | backend/blog/repositories.py:116-117 | a row is in the depth-first listing of a tree exactly when it appears somewhere in the tree |
| CommentTree.UnderOneSibling | backend/blog/repositories.py:116-117 | when parents come before replies and ids are distinct, no row appears under two different siblings |
| CommentTree.AppearsOnce | backend/blog/repositories.py:116-117 | under the same conditions no row appears twice in the tree |
| CommentTree.ForestIsPermutation | tests/test_blog/test_posts.py:120-196 | when parents come before replies, every named parent is among the rows and ids are distinct, the tree flattened depth-first is a permutation of the rows, of the same length |
| CommentTree.CommentRowsSound | backend/blog/repositories.py:105-117 | every row the comments query returns is a stored row filed under the root, with the parent rewrite applied and its parent stored earlier, and no two returned rows share an id |
| CommentTree.CommentRowsComplete | backend/blog/repositories.py:112-113 | every stored row filed under the root is returned by the comments query |
| CommentTree.CommentRowsOfValidDb | backend/blog/repositories.py:105-117 | on a valid table the comments query returns exactly the rows filed under the root, each once, with a parent equal to the root rewritten to null, newest first, parents before replies |
| CommentTree.GetPostCommentsMirrorsThread | backend/blog/repositories.py:105-117 | `get_post_comments` nests the thread by its parent edges, direct replies of the root at the top, siblings newest first at every level, and shows no row from outside the thread |
| CommentTree.GetPostCommentsComplete | tests/test_blog/test_posts.py:120-196 | in a thread whose replies hang off the root or off each other, the tree flattened depth-first is a permutation of the query's rows: every row filed under the root appears exactly once, however deep, the tree holds as many comments as are filed under the root, and the count `get_post` reports equals that number |
| Mutations.CreateRejectsMissingParent | tests/test_blog/test_repositories.py:14-18 | a parent that names no stored row makes the insert fail with `InvalidPostId` and leaves the table unchanged |
| Mutations.CreateRejectsSelfParent | migrations/versions/d86c75053019_post_constraints.py:11-15 | a parent equal to the id the new row receives violates `id <> parent_id`; the insert fails and nothing changes |
| Mutations.CreateRejectsUnknownOwner | tests/test_blog/test_repositories.py:27-32 | an owner missing from `users` makes the insert fail with `InvalidPostId` and leaves the table unchanged |
| Mutations.Create | backend/blog/repositories.py:21-43 | the insert succeeds exactly when the foreign keys and the check hold on the table with the new row; it then adds one row under the next id with both stamps equal to the clock, advancing sequence and clock; a failure rolls back to the same state with `InvalidPostId` |
| Mutations.CreateOutcome | backend/blog/repositories.py:21-43 | an insert succeeds if and only if the owner exists, the parent is stored and the root is stored or is the new row itself; on success it adds exactly one row under the next id with equal stamps, later than every stored creation and update stamp, and the given columns; on failure the state is unchanged and the error is `InvalidPostId` |
| Mutations.NextIdIsFree | backend/blog/models.py:9 | the id the sequence hands out next is not in use |
| Mutations.CreateKeepsValid | backend/blog/repositories.py:21-43 | an insert, successful or not, keeps the table invariant |
| Mutations.CreateRootCounts | backend/blog/services.py:15-16 | creating a post with both references null by an existing user succeeds and raises the root count by one |
| Mutations.CreatePostListedFirst | tests/test_blog/test_posts.py:39-67 | a new post of an existing user is stamped after every stored row, so it heads the newest-first root listing, followed by the roots listed before |
| Mutations.UpdateTouchesOneRow | backend/blog/repositories.py:119-128 | an update succeeds if and only if a row matches both id and owner; it then changes only that row's text and moves its update stamp past every stamp stored so far, keeping every other column and row; otherwise nothing changes |
| Mutations.Update | backend/blog/repositories.py:119-128 | the update succeeds exactly when a stored row has that id and owner; it then replaces only that row's text and update stamp, leaves every other row, the users and the sequence alone, and advances the clock; otherwise nothing changes and the error is `PostNotFound` |
| Mutations.UpdateKeepsValid | backend/blog/repositories.py:119-128 | an update keeps the table invariant |
| Mutations.Cascade | backend/blog/models.py:15-16 | the cascade contains the deleted ids and is closed under both references |
| Mutations.CascadeIsLeast | backend/blog/models.py:15-16 | the cascade lies inside every closed set that contains the deleted ids, so it removes only descendants |
| Mutations.Delete | backend/blog/repositories.py:142-144 | after a delete the row with that id is gone, every remaining row was stored before and is unchanged, and the users, sequence and clock stay as they were |
| Mutations.DeleteRemovesThread | backend/blog/repositories.py:142-144 | after a delete the row is gone, and so is every row that replied to it or was filed under it; no remaining row refers to a removed one, and the remaining rows are unchanged |
| Mutations.DeleteSparesOthers | backend/blog/repositories.py:142-144 | a row outside any closed set that contains the deleted id survives |
| Mutations.DeleteMissingIsNoop | backend/blog/repositories.py:142-144 | deleting an id that names no row changes nothing |
| Mutations.DeleteKeepsValid | backend/blog/repositories.py:142-144 | a delete keeps the table invariant |
| Repository.PostRepository.constructor | backend/blog/repositories.py:19 | a new repository works on an empty, valid table and has awaited no write |
| Repository.PostRepository.CreatePost | backend/blog/repositories.py:21-43 | the in-place insert with rollback leaves exactly the state and returns exactly the result of `Create`, and keeps the invariant |
| Repository.PostRepository.UpdatePost | backend/blog/repositories.py:119-128 | the in-place update leaves exactly the state and returns exactly the result of `Update`, and keeps the invariant |
| Repository.PostRepository.DeletePost | backend/blog/repositories.py:142-144 | the in-place delete leaves exactly the state of `Delete`, and keeps the invariant |
| Services.BlogService.constructor | backend/blog/services.py:12-13 | the service owns a fresh repository over an empty table |
| Services.BlogService.CreatePost | backend/blog/services.py:15-16 | `create_post` makes one repository insert with both references null; a created row has no parent, no root and equal stamps |
| Services.BlogService.CreateComment | backend/blog/services.py:18-28 | `create_comment` makes one repository insert under the parent; it returns nothing exactly when the repository raised `InvalidPostId`, and otherwise the stored row with that parent |
| Services.BlogService.GetAllPosts | backend/blog/services.py:30-36 | the total is the number of root posts, and the items are the listing page of the same state, of length `min(limit, total - offset)` or 0 |
| Services.BlogService.UpdatePost | backend/blog/services.py:38-45 | a missing id gives `PostNotFound` whoever asks; a non-owner gets `Forbidden`; neither writes or calls the repository update; the owner gets exactly one repository update of that id with the new text, and the update succeeds |
| Services.BlogService.DeletePost | backend/blog/services.py:47-54 | a missing id gives `PostNotFound`, a non-owner `Forbidden`, and neither deletes anything; the owner gets exactly one repository delete, after which the post and every row replying to it or filed under it are gone |
| Services.PageOfListing | backend/core/pagination.py:22-28 | the page built from the service's pair carries the requested window, the true root count and exactly the listing page of the table: at most `limit` items, lying within the total, newest first |
| Pagination.FromQuery | backend/core/pagination.py:17-20 | paging parameters are accepted exactly when `limit >= 1` and `offset >= 0`, and then kept as given |
| Pagination.Paginate | backend/core/pagination.py:22-28 | `paginate` builds a page carrying this window, the given total and the given items as they are |
| Pagination.DefaultWindow | backend/core/pagination.py:18 | a request without paging parameters gets limit 10 and offset 0 |

## Left out

- HTTP routing, authentication, sessions and transaction isolation are not modelled. Each write is one atomic step on one state, and concurrent requests are not modelled.
- The query's `username` column and the owner sub-object of the responses are not modelled. Rows carry the owner id only.
- Wall-clock time is not modelled. `now()` is a counter that advances after each successful insert or update; a delete or a failed write leaves it as it was. Every new stamp is later than every creation and update stamp stored before it (`Mutations.CreateOutcome`, `Mutations.UpdateTouchesOneRow`), but the table invariant `Models.Valid` by itself does not make stored stamps distinct. Equal timestamps from one transaction and clock skew are not modelled.
- Models.Post: ids and the sequence are unbounded integers, while the source's columns are 4-byte `sa.Integer`. In the source, `create_comment(parent_id=2**31)` ends in a driver data error rather than an integrity error, so the service raises instead of returning nothing; `update_post`/`delete_post` with such an id error out instead of reporting `PostNotFound`; and the sequence can run out after 2**31 - 1 ids. None of this is modelled.
- Sequence gaps are not modelled. A failed insert does not consume an id here, while a PostgreSQL sequence would.
- `PostComment.transform_tree` (backend/blog/schemas.py) is not part of this model. `CommentTree.Forest` is specified by the tree the tests expect: parent edges, sibling order and completeness.
- `PostWithUser.from_db` is not part of this model. `Queries.Summarize` coalesces the CTE's missing or null count to 0.
- Services.BlogService.CreateComment: the source never passes `post_id`, so a comment created through the service is not filed under any root. `Comment.parse_obj` would then reject the null `post_id`. The model passes no root either, and it returns the stored row without that validation. As a consequence such a comment has a null `post_id`: `get_all_posts` lists it as a root post and `get_posts_count` counts it, as in the source.
- Services.BlogService.UpdatePost: the source calls `get_post_or_comment_in_db(post_id=..., for_update=True)`, a keyword that method does not declare. It then calls `update_post` without the `owner_id` that method requires. The model calls the lookup without a lock and passes the caller as the owner. It also passes the text only, not an arbitrary field dictionary.
- Mutations.Update: `update_post` accepts an arbitrary dictionary of columns (`**values`); the model, like `Repository.PostRepository.UpdatePost`, sets the text and the update stamp only. Changing `parent_id` or `post_id` that way, and the uncaught `IntegrityError` such a change could raise, are not modelled.
- Mutations.Update: when no row matches, `.one()` raises `NoResultFound` in the source. The model reports this as `PostNotFound`. The guard in front makes this branch unreachable through the service.
- CommentTree.GetPostCommentsComplete: it requires `ThreadClosed`, meaning every reply filed under a root hangs off that root or off another reply filed under it. The schema does not enforce this, so a reply to a row of another thread is not shown in the tree.
- Pagination.Page: the record's own defaults (limit 10, offset 0, total 0) are not modelled separately. Pages are only built by `paginate`.
- The route `get_single_post` (backend/blog/api/posts.py) calls a repository method that `PostRepository` does not define. `Queries.GetPost` and `CommentTree.GetPostComments` model its two halves.
