/** The `Post` document the posts router reads and saves, with its nested
    likes and comments, and the predicates that describe its lists. */
module PostModel {

  /** Identifiers compare as strings: the router compares `toString()`
      of stored ids against the id it was given. */
  type UserId = string
  type PostId = string
  type CommentId = string

  /** One entry of `likes`: the user who liked the post. */
  datatype Like = Like(user: UserId)

  /** One entry of `comments`; `id` and `date` are assigned by the store. */
  datatype Comment = Comment(
    id: CommentId,
    text: string,
    name: string,
    avatar: string,
    user: UserId,
    date: int)

  /** A post. `user` is its owner; `name` and `avatar` are copied from the
      request body; `id` and `date` are assigned by the store. */
  datatype Post = Post(
    id: PostId,
    user: UserId,
    text: string,
    name: string,
    avatar: string,
    likes: seq<Like>,
    comments: seq<Comment>,
    date: int)

  /** The fields a create-post or add-comment request body supplies. */
  datatype PostInput = PostInput(text: string, name: string, avatar: string)

  /** The rejections the router answers with. */
  datatype Error =
    | ValidationFailed   // 400 with the validator's error map
    | NotAuthorized      // 401 {notauthorized}
    | PostNotFound       // 404 {nopostfound}
    | AlreadyLiked       // 400 {alreadyliked}
    | NotLiked           // 400 {notliked}
    | CommentNotExist    // 404 {commentnotexist}

  /** The key the router maps `likes` to before `indexOf`. */
  function LikerOf(l: Like): UserId { l.user }

  /** The key the router maps `comments` to before `indexOf`. */
  function IdOf(c: Comment): CommentId { c.id }

  /** `u` has an entry in `likes`. */
  predicate HasLiked(likes: seq<Like>, u: UserId) {
    exists i :: 0 <= i < |likes| && likes[i].user == u
  }

  /** `i` is the first position of `likes` held by `u`. */
  predicate FirstLikeOf(likes: seq<Like>, u: UserId, i: int) {
    && 0 <= i < |likes|
    && likes[i].user == u
    && forall j :: 0 <= j < i ==> likes[j].user != u
  }

  /** No user likes a post twice. */
  predicate UniqueLikers(likes: seq<Like>) {
    forall i, j :: 0 <= i < j < |likes| ==> likes[i].user != likes[j].user
  }

  /** Some comment of `comments` has id `cid`. */
  predicate HasComment(comments: seq<Comment>, cid: CommentId) {
    exists i :: 0 <= i < |comments| && comments[i].id == cid
  }

  /** `i` is the first position of `comments` with id `cid`. */
  predicate FirstCommentWith(comments: seq<Comment>, cid: CommentId, i: int) {
    && 0 <= i < |comments|
    && comments[i].id == cid
    && forall j :: 0 <= j < i ==> comments[j].id != cid
  }

  /** Comment ids are unique within a post. */
  predicate UniqueCommentIds(comments: seq<Comment>) {
    forall i, j :: 0 <= i < j < |comments| ==> comments[i].id != comments[j].id
  }

  /** The per-post invariants: at most one like per user, distinct comment ids. */
  predicate WellFormedPost(p: Post) {
    UniqueLikers(p.likes) && UniqueCommentIds(p.comments)
  }
}
