# Posts router: a Dafny model

This project models the mutating handlers of the posts REST resource of a
MERN social-network application (`routes/api/posts.js`). The handlers
create a post, delete a post, like a post, unlike a post, comment on a post
and delete a comment. Each one is a read-modify-save cycle on a single
`Post` document. The post holds an ordered `likes` list (one `{user}` entry
per like) and an ordered `comments` list.

With the database and authentication abstracted away, each handler becomes
a pure, guarded function:

- `wrappers.dfy`: `Result`, the success-or-error value of a per-post operation.
- `js_arrays.dfy` (`JsArrays`): the JavaScript array primitives the handlers
  use. These are `filter`, `map`, `indexOf` (-1 when absent) and
  `splice(i, 1)`, including its treatment of a negative start. The file also
  has an independent recursive "remove the first element with key x",
  proved equal to the handlers' `splice(map(key).indexOf(x), 1)` idiom.
- `post_model.dfy` (`PostModel`): `Post`, `Like`, `Comment`, `PostInput`,
  the error codes, and the predicates "has liked", "first like of",
  "unique likers" and their comment counterparts.
- `post_ops.dfy` (`PostOps`): the per-post operations `AddLike`,
  `RemoveLike`, `AddComment`, `RemoveComment` and `NewPost`.
- `post_laws.dfy` (`PostLaws`): round trips, first-match removal and
  invariant preservation for those operations.
- `posts_router.dfy` (`PostsRouter`): the store, a map from post id to post,
  and the six handlers over it. Each handler looks the post up, applies the
  operation, and either saves the post or answers with the rejection.
- `router_laws.dfy` (`RouterLaws`): every handler keeps the store well
  formed, unlike undoes like and delete-comment undoes comment on the
  stored post, plus a create/like/like/unlike walk-through.

Environment inputs are parameters:

- the caller's id (normally from the JWT);
- the validator's verdict `valid` (from `validatePostInput`, whose source is
  not part of this model);
- the ids and timestamps the store assigns to new posts and comments.

Behaviour follows the code, including three points where the code differs
from a plain reading of the API:

- Delete comment has no ownership check: any authenticated caller may
  delete any comment.
- When the post is missing, add-comment and delete-comment throw inside a
  promise callback that nothing catches, so no response is sent. The model
  says `NoReply`; a 404 `{postnotfound}` is only sent when `save()` fails.
  Like, unlike and delete-post do catch the error and answer 404
  `{nopostfound}` (`PostNotFound`).
- The likes and comments guards use `filter(...).length` and the removals use
  `map(...).indexOf(...)` followed by `splice(index, 1)`. The model keeps
  this two-step shape. It proves that the guard rules out the `-1` index,
  which would otherwise make `splice` remove the last element.

## Model

| member | source | states |
|---|---|---|
| `JsArrays.Filter` | routes/api/posts.js:89 | `filter` keeps only elements that satisfy the test and is never longer than its input; it is non-empty exactly when some element satisfies the test (the guards at lines 89, 110 and 170) |
| `JsArrays.MapSeq` | routes/api/posts.js:114-115 | `map` keeps the length and puts the key of element `i` at position `i`; the removals at lines 115 and 177 search this list |
| `JsArrays.IndexOf` | routes/api/posts.js:114-116 | `indexOf` gives the first position holding the value, -1 exactly when the value is absent, and the value does not occur before that position |
| `JsArrays.Splice1` | routes/api/posts.js:119 | `splice(i, 1)` at a valid index leaves the array one shorter, with the elements before and after `i` kept in order; at -1 it drops the last element |
| `JsArrays.SpliceAtIndexOfIsRemoveFirst` | routes/api/posts.js:114-119 | when some element has key `x`, splicing at `map(key).indexOf(x)` equals removing the first element whose key is `x` |
| `PostOps.LikesBy` | routes/api/posts.js:89 | the caller's filtered likes list is non-empty exactly when the caller has a like on the post |
| `PostOps.CommentsWith` | routes/api/posts.js:170 | the filtered comments list is non-empty exactly when some comment has the given id |
| `PostOps.NewPost` | routes/api/posts.js:52-57 | a created post is owned by the caller, takes text/name/avatar from the body, and starts with no likes and no comments |
| `PostOps.AddLike` | routes/api/posts.js:89-93 | rejected with `AlreadyLiked` exactly when the caller already likes the post; otherwise the caller's like is prepended to the unchanged old likes, and no other field changes |
| `PostOps.RemoveLike` | routes/api/posts.js:110-119 | rejected with `NotLiked` exactly when the caller has no like; otherwise exactly the caller's first like is removed, the list is one shorter, the other likes keep their order, and no other field changes |
| `PostOps.AddComment` | routes/api/posts.js:144-152 | the new comment carries the caller, the fresh id and the body's fields, and is prepended to the unchanged old comments; likes, owner and the other fields are unchanged |
| `PostOps.RemoveComment` | routes/api/posts.js:170-182 | rejected with `CommentNotExist` exactly when no comment has the id; otherwise exactly the first comment with that id is removed, the others keep their order, and no other field changes |
| `PostLaws.RemoveLikeIsRemoveFirst` | routes/api/posts.js:110-119 | unlike's result equals the independent "remove first like by the caller" definition |
| `PostLaws.RemoveCommentIsRemoveFirst` | routes/api/posts.js:170-182 | delete-comment's result equals the independent "remove first comment with that id" definition |
| `PostLaws.SecondLikeRejected` | routes/api/posts.js:89-93 | after a successful like, a second like by the same caller is rejected with `AlreadyLiked` |
| `PostLaws.LikeThenUnlikeRestores` | routes/api/posts.js:93 | when the caller has not liked the post, like then unlike gives back the original post, because the new like sits at index 0 |
| `PostLaws.AddLikeKeepsUniqueLikers` | routes/api/posts.js:89-93 | if no user liked twice before a successful like, none has liked twice after it, and the caller now has a like |
| `PostLaws.RemoveLikeKeepsUniqueLikers` | routes/api/posts.js:110-119 | if no user liked twice before a successful unlike, none has after it, and the caller has no like left |
| `PostLaws.AddThenRemoveCommentRestores` | routes/api/posts.js:152 | adding a comment then deleting its id gives back the original post, because the new comment sits at index 0 where the search finds it first |
| `PostLaws.AddCommentKeepsUniqueIds` | routes/api/posts.js:144-152 | adding a comment under a fresh id keeps comment ids distinct |
| `PostLaws.RemoveCommentKeepsUniqueIds` | routes/api/posts.js:176-182 | deleting a comment keeps comment ids distinct, and no comment with the deleted id remains |
| `PostsRouter.Save` | routes/api/posts.js:93-95 | a rejected operation answers with its error and leaves the store alone; a successful one stores the changed post under its id and replies with it, as `post.save().then(post => res.json(post))` does |
| `PostsRouter.CreatePost` | routes/api/posts.js:43-60 | an invalid body is rejected before anything is built and the store is unchanged; an insert under an id already in use gets no reply and replaces nothing; otherwise the store grows by one post, which is owned by the caller, has the body's fields, no likes and no comments, and is returned; no existing post changes |
| `PostsRouter.DeletePost` | routes/api/posts.js:65-78 | the post is deleted exactly when it exists and the caller owns it; a missing post gives `PostNotFound` and a non-owner gives `NotAuthorized`, with the post kept in both cases; a deletion removes that post only |
| `PostsRouter.LikePost` | routes/api/posts.js:84-100 | a missing post gives `PostNotFound`; `AlreadyLiked` exactly when the caller already likes it, with the store unchanged; otherwise the like always succeeds and saves the post with the caller's like prepended and nothing else changed |
| `PostsRouter.UnlikePost` | routes/api/posts.js:105-127 | a missing post gives `PostNotFound`; `NotLiked` exactly when the caller has no like, with the store unchanged; otherwise the unlike always succeeds and saves the post without the caller's first like, other likes in order |
| `PostsRouter.CommentOnPost` | routes/api/posts.js:133-159 | an invalid body is rejected before the lookup; a missing post gets no reply; otherwise the post is saved with the comment built from the store's id and date, the body's text, name and avatar and the caller prepended, and nothing else changed |
| `PostsRouter.DeleteComment` | routes/api/posts.js:165-189 | a missing post gets no reply; `CommentNotExist` exactly when no comment has the id, with the store unchanged; otherwise the deletion always succeeds, removing only the first comment with that id and saving the post |
| `PostsRouter.Handle` | routes/api/posts.js:43-189 | a request that neither saves nor deletes a post leaves the store unchanged |
| `RouterLaws.HandleKeepsWellFormed` | routes/api/posts.js:43-189 | every handler keeps each post filed under its own id, with at most one like per user and distinct comment ids, given a fresh comment id |
| `RouterLaws.UnlikeUndoesLike` | routes/api/posts.js:105-127 | like then unlike by a caller who had not liked the post restores the store exactly and returns the original post |
| `RouterLaws.DeleteCommentUndoesComment` | routes/api/posts.js:142-189 | commenting on a stored post then deleting that comment's id restores the store exactly and returns the original post |
| `RouterLaws.SecondLikeLeavesStore` | routes/api/posts.js:89-91 | liking twice: the second request is rejected with `AlreadyLiked` and the store is unchanged, so the like count is unchanged |
| `RouterLaws.CreateLikeUnlikeWalkthrough` | routes/api/posts.js:52-119 | creating "hello" as u1 gives an owner u1 with empty likes and comments; a like by u2 gives likes [u2]; a second like by u2 is rejected; an unlike by u2 leaves no likes |

## Left out

- Listing posts (`GET /`, newest first) and fetching one post (`GET /:post_id`): pure store reads. The date ordering is done by the store's `sort`.
- The `/test` route: a constant reply with no logic.
- Persistence: `find`, `findById`, `save` and `remove` become map lookups and updates. Store failures are not modelled: a failing `save` of an existing post, which add-comment and delete-comment answer with a 404 and the other handlers never answer; a failing `post.remove()`, which has no `.catch`, so the delete gets no reply; and a failing `Profile.findOne` in delete, like and unlike, which also has no `.catch`, so no reply is sent. The one store failure modelled is an insert under an id already in use.
- Authentication: the caller's id is a parameter. Rejections of an absent or invalid token are not modelled.
- `validatePostInput` is not part of this model. Its verdict is the boolean `valid`, and the field-level error map it returns is not modelled.
- The `Profile.findOne` lookups in delete, like and unlike: their result is never used.
- Malformed post ids: the store rejects them when casting, and the handlers answer them the same way as a missing post. They are modelled as a missing post.
- Id comparison: stored ids are compared through `toString()`, so ids are modelled as strings. Mongoose's own `_id` on each like entry is not modelled.
- Concurrent requests: the read-modify-save races between them are not modelled, because the source has no concurrency control to verify.
- HTTP status codes and JSON bodies: each becomes a `Reply` constructor.
- The dashboard and post-feed client components: presentation only.
