/** The posts router's mutating handlers over an abstract document store.
    Each handler is read-modify-save: look the post up, run the per-post
    operation, and save the result or answer with the rejection. The store
    is a map from post id to post; the caller's identity, the validator's
    verdict, the store's fresh ids and the clock are parameters. */
module PostsRouter {
  import opened Wrappers
  import opened PostModel
  import opened PostOps

  /** The posts collection, by id. */
  type Store = map<PostId, Post>

  /** What a handler sends back. */
  datatype Reply =
    | Json(post: Post)         // 200 with the saved post
    | Deleted                  // 200 {success: true}
    | Rejected(error: Error)   // the error's status and payload
    | NoReply                  // an exception nothing catches: no response is sent

  /** The store after the request and the reply sent. */
  datatype Response = Response(store: Store, reply: Reply)

  /** One request to the router, with everything the environment supplies
      (caller identity, validator verdict, store-assigned id, clock). */
  datatype Request =
    | CreateReq(input: PostInput, caller: UserId, valid: bool, id: PostId, now: int)
    | DeleteReq(pid: PostId, caller: UserId)
    | LikeReq(pid: PostId, caller: UserId)
    | UnlikeReq(pid: PostId, caller: UserId)
    | CommentReq(pid: PostId, input: PostInput, caller: UserId, valid: bool, cid: CommentId, now: int)
    | UncommentReq(pid: PostId, cid: CommentId)

  /** The store's standing invariant: every post is filed under its own id,
      has at most one like per user and has distinct comment ids. */
  predicate WellFormed(st: Store) {
    forall k :: k in st ==> st[k].id == k && WellFormedPost(st[k])
  }

  /** Saves what a per-post operation produced under `pid`, or answers with
      its rejection and leaves the store alone. */
  function Save(st: Store, pid: PostId, r: Result<Post, Error>): (res: Response)
    ensures r.Failure? ==> res == Response(st, Rejected(r.error))
    ensures r.Success? ==> res.reply == Json(r.value) && res.store == st[pid := r.value]
  {
    match r
    case Failure(e) => Response(st, Rejected(e))
    case Success(q) => Response(st[pid := q], Json(q))
  }

  /** POST /: an invalid body is rejected before anything is built;
      otherwise a post owned by the caller is inserted under the id the
      store assigned and returned, and every other post is untouched. An
      insert under an id already in use fails inside `save()`, which
      nothing catches, so no reply is sent and the store keeps the old
      post. */
  function CreatePost(st: Store, input: PostInput, caller: UserId, valid: bool, id: PostId, now: int): (res: Response)
    ensures !valid ==> res == Response(st, Rejected(ValidationFailed))
    ensures valid && id in st ==> res == Response(st, NoReply)
    ensures valid && id !in st ==> res.reply.Json? && id in res.store && res.reply.post == res.store[id]
    ensures valid && id !in st ==>
      var p := res.store[id];
      && p.user == caller && p.id == id
      && p.text == input.text && p.name == input.name && p.avatar == input.avatar
      && p.likes == [] && p.comments == []
    ensures valid && id !in st ==> res.store.Keys == st.Keys + {id} && |res.store| == |st| + 1
    ensures forall k :: k in st ==> k in res.store && res.store[k] == st[k]
  {
    if !valid then Response(st, Rejected(ValidationFailed))
    else if id in st then Response(st, NoReply)
    else
      var p := NewPost(input, caller, id, now);
      Response(st[id := p], Json(p))
  }

  /** DELETE /:post_id: only the owner may delete. A missing post or a
      caller other than the owner is rejected and the post stays; the
      owner's request removes it and nothing else. */
  function DeletePost(st: Store, pid: PostId, caller: UserId): (res: Response)
    ensures res.reply == Deleted <==> pid in st && st[pid].user == caller
    ensures pid !in st ==> res == Response(st, Rejected(PostNotFound))
    ensures pid in st && st[pid].user != caller ==> res == Response(st, Rejected(NotAuthorized))
    ensures res.reply == Deleted ==>
      && res.store.Keys == st.Keys - {pid}
      && forall k :: k in res.store ==> res.store[k] == st[k]
  {
    if pid !in st then Response(st, Rejected(PostNotFound))
    else if st[pid].user != caller then Response(st, Rejected(NotAuthorized))
    else Response(st - {pid}, Deleted)
  }

  /** POST /like/:post_id: a missing post is not found, a repeated like is
      rejected with the store unchanged, and a first like is saved with the
      caller's like in front. */
  function LikePost(st: Store, pid: PostId, caller: UserId): (res: Response)
    ensures pid !in st ==> res == Response(st, Rejected(PostNotFound))
    ensures pid in st ==> (res.reply == Rejected(AlreadyLiked) <==> HasLiked(st[pid].likes, caller))
    ensures pid in st && !HasLiked(st[pid].likes, caller) ==> res.reply.Json?
    ensures res.reply.Rejected? ==> res.store == st
    ensures res.reply.Json? ==>
      var q := res.reply.post;
      && pid in st && res.store == st[pid := q]
      && |q.likes| > 0 && q.likes[0].user == caller && q.likes[1..] == st[pid].likes
      && q == st[pid].(likes := q.likes)
  {
    if pid !in st then Response(st, Rejected(PostNotFound))
    else Save(st, pid, AddLike(st[pid], caller))
  }

  /** POST /unlike/:post_id: a missing post is not found, an unlike by a
      caller who does not like the post is rejected with the store
      unchanged, and otherwise the caller's first like is removed and the
      post saved. */
  function UnlikePost(st: Store, pid: PostId, caller: UserId): (res: Response)
    ensures pid !in st ==> res == Response(st, Rejected(PostNotFound))
    ensures pid in st ==> (res.reply == Rejected(NotLiked) <==> !HasLiked(st[pid].likes, caller))
    ensures pid in st && HasLiked(st[pid].likes, caller) ==> res.reply.Json?
    ensures res.reply.Rejected? ==> res.store == st
    ensures res.reply.Json? ==>
      var q := res.reply.post;
      && pid in st && res.store == st[pid := q]
      && |q.likes| == |st[pid].likes| - 1
      && (forall i :: FirstLikeOf(st[pid].likes, caller, i) ==>
            q.likes == st[pid].likes[..i] + st[pid].likes[i + 1..])
      && q == st[pid].(likes := q.likes)
  {
    if pid !in st then Response(st, Rejected(PostNotFound))
    else Save(st, pid, RemoveLike(st[pid], caller))
  }

  /** POST /comment/:post_id: an invalid body is rejected before the post
      is looked up; a missing post throws where nothing catches it, so no
      reply is sent; otherwise the caller's comment is saved in front of
      the others. */
  function CommentOnPost(st: Store, pid: PostId, input: PostInput, caller: UserId, valid: bool,
                         cid: CommentId, now: int): (res: Response)
    ensures !valid ==> res == Response(st, Rejected(ValidationFailed))
    ensures valid && pid !in st ==> res == Response(st, NoReply)
    ensures valid && pid in st ==>
      && res.reply.Json?
      && var q := res.reply.post;
      && res.store == st[pid := q]
      && |q.comments| > 0 && q.comments[1..] == st[pid].comments
      && q.comments[0] == Comment(cid, input.text, input.name, input.avatar, caller, now)
      && q == st[pid].(comments := q.comments)
  {
    if !valid then Response(st, Rejected(ValidationFailed))
    else if pid !in st then Response(st, NoReply)
    else
      var q := AddComment(st[pid], input, caller, cid, now);
      Response(st[pid := q], Json(q))
  }

  /** DELETE /comment/:post_id/:comment_id: a missing post throws where
      nothing catches it, so no reply is sent; an id no comment has is
      rejected with the store unchanged; otherwise the first comment with
      that id is removed and the post saved. Any authenticated caller may
      do this. */
  function DeleteComment(st: Store, pid: PostId, cid: CommentId): (res: Response)
    ensures pid !in st ==> res == Response(st, NoReply)
    ensures pid in st ==> (res.reply == Rejected(CommentNotExist) <==> !HasComment(st[pid].comments, cid))
    ensures pid in st && HasComment(st[pid].comments, cid) ==> res.reply.Json?
    ensures res.reply.Rejected? ==> res.store == st
    ensures res.reply.Json? ==>
      var q := res.reply.post;
      && pid in st && res.store == st[pid := q]
      && |q.comments| == |st[pid].comments| - 1
      && (forall i :: FirstCommentWith(st[pid].comments, cid, i) ==>
            q.comments == st[pid].comments[..i] + st[pid].comments[i + 1..])
      && q == st[pid].(comments := q.comments)
  {
    if pid !in st then Response(st, NoReply)
    else Save(st, pid, RemoveComment(st[pid], cid))
  }

  /** Dispatches a request to its handler. */
  function Handle(st: Store, req: Request): (res: Response)
    ensures !res.reply.Json? && !res.reply.Deleted? ==> res.store == st
  {
    match req
    case CreateReq(input, caller, valid, id, now) => CreatePost(st, input, caller, valid, id, now)
    case DeleteReq(pid, caller) => DeletePost(st, pid, caller)
    case LikeReq(pid, caller) => LikePost(st, pid, caller)
    case UnlikeReq(pid, caller) => UnlikePost(st, pid, caller)
    case CommentReq(pid, input, caller, valid, cid, now) => CommentOnPost(st, pid, input, caller, valid, cid, now)
    case UncommentReq(pid, cid) => DeleteComment(st, pid, cid)
  }

  /** The store's fresh comment id really is fresh on the target post. */
  predicate FreshFor(st: Store, req: Request) {
    req.CommentReq? && req.pid in st ==> !HasComment(st[req.pid].comments, req.cid)
  }
}
