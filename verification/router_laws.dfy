/** What the router's handlers promise across requests: every handler keeps
    the store well formed, unlike undoes like and delete-comment undoes
    add-comment on the stored post, and a create/like/like/unlike
    walk-through. */
module RouterLaws {
  import opened Wrappers
  import opened PostModel
  import opened PostOps
  import opened PostLaws
  import opened PostsRouter

  /** Replacing the post under its own id by a well-formed post with the
      same id keeps the store well formed. */
  lemma SaveKeepsWellFormed(st: Store, pid: PostId, q: Post)
    requires WellFormed(st)
    requires pid in st && q.id == st[pid].id
    requires WellFormedPost(q)
    ensures WellFormed(st[pid := q])
  {
  }

  /** Every handler keeps the store well formed, provided the store's fresh
      comment id is fresh on the post being commented on. */
  lemma HandleKeepsWellFormed(st: Store, req: Request)
    requires WellFormed(st)
    requires FreshFor(st, req)
    ensures WellFormed(Handle(st, req).store)
  {
    match req
    case CreateReq(input, caller, valid, id, now) =>
    case DeleteReq(pid, caller) =>
    case LikeReq(pid, caller) =>
      if pid in st && AddLike(st[pid], caller).Success? {
        AddLikeKeepsUniqueLikers(st[pid], caller);
        SaveKeepsWellFormed(st, pid, AddLike(st[pid], caller).value);
      }
    case UnlikeReq(pid, caller) =>
      if pid in st && RemoveLike(st[pid], caller).Success? {
        RemoveLikeKeepsUniqueLikers(st[pid], caller);
        SaveKeepsWellFormed(st, pid, RemoveLike(st[pid], caller).value);
      }
    case CommentReq(pid, input, caller, valid, cid, now) =>
      if valid && pid in st {
        AddCommentKeepsUniqueIds(st[pid], input, caller, cid, now);
        SaveKeepsWellFormed(st, pid, AddComment(st[pid], input, caller, cid, now));
      }
    case UncommentReq(pid, cid) =>
      if pid in st && RemoveComment(st[pid], cid).Success? {
        RemoveCommentKeepsUniqueIds(st[pid], cid);
        SaveKeepsWellFormed(st, pid, RemoveComment(st[pid], cid).value);
      }
  }

  /** A like by a caller who had not liked the post, then an unlike by the
      same caller, leaves the store exactly as it was. */
  lemma UnlikeUndoesLike(st: Store, pid: PostId, caller: UserId)
    requires pid in st && !HasLiked(st[pid].likes, caller)
    ensures LikePost(st, pid, caller).reply.Json?
    ensures UnlikePost(LikePost(st, pid, caller).store, pid, caller) == Response(st, Json(st[pid]))
  {
    LikeThenUnlikeRestores(st[pid], caller);
    var st1 := LikePost(st, pid, caller).store;
    assert st1[pid := st[pid]] == st;
  }

  /** A valid comment, then deleting its id, leaves the store exactly as it
      was. */
  lemma DeleteCommentUndoesComment(st: Store, pid: PostId, input: PostInput, caller: UserId,
                                   cid: CommentId, now: int)
    requires pid in st
    ensures CommentOnPost(st, pid, input, caller, true, cid, now).reply.Json?
    ensures DeleteComment(CommentOnPost(st, pid, input, caller, true, cid, now).store, pid, cid)
            == Response(st, Json(st[pid]))
  {
    AddThenRemoveCommentRestores(st[pid], input, caller, cid, now);
    var st1 := CommentOnPost(st, pid, input, caller, true, cid, now).store;
    assert st1[pid := st[pid]] == st;
  }

  /** Liking twice: the second like is rejected and the store is unchanged,
      so the post keeps exactly one like from the caller. */
  lemma SecondLikeLeavesStore(st: Store, pid: PostId, caller: UserId)
    requires LikePost(st, pid, caller).reply.Json?
    ensures var st1 := LikePost(st, pid, caller).store;
      LikePost(st1, pid, caller) == Response(st1, Rejected(AlreadyLiked))
  {
    SecondLikeRejected(st[pid], caller);
  }

  /** A create/like/like/unlike walk-through: "u1" creates "hello"; "u2" likes it; a
      second like by "u2" is rejected; "u2" unlikes it and no likes are
      left. */
  lemma CreateLikeUnlikeWalkthrough()
    ensures
      var r1 := CreatePost(map[], PostInput("hello", "A", ""), "u1", true, "p1", 0);
      var r2 := LikePost(r1.store, "p1", "u2");
      var r3 := LikePost(r2.store, "p1", "u2");
      var r4 := UnlikePost(r3.store, "p1", "u2");
      && r1.reply.Json? && r1.reply.post.user == "u1"
      && r1.reply.post.likes == [] && r1.reply.post.comments == []
      && r2.reply.Json? && r2.reply.post.likes == [Like("u2")]
      && r3.reply == Rejected(AlreadyLiked)
      && r4.reply.Json? && r4.reply.post.likes == []
  {
    var r1 := CreatePost(map[], PostInput("hello", "A", ""), "u1", true, "p1", 0);
    var p := r1.store["p1"];
    assert !HasLiked(p.likes, "u2");
    var r2 := LikePost(r1.store, "p1", "u2");
    assert r2.reply.post.likes == [Like("u2")];
    SecondLikeLeavesStore(r1.store, "p1", "u2");
    UnlikeUndoesLike(r1.store, "p1", "u2");
  }
}
