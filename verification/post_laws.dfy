/** What the per-post operations promise together: the removal idiom is
    "remove the first match", like/unlike and add/delete comment undo each
    other, and the per-post invariants survive every operation. */
module PostLaws {
  import opened Wrappers
  import opened JsArrays
  import opened PostModel
  import opened PostOps

  /** Unlike removes exactly the caller's first like, as the reference
      definition does. */
  lemma RemoveLikeIsRemoveFirst(p: Post, caller: UserId)
    requires HasLiked(p.likes, caller)
    ensures RemoveLike(p, caller).Success?
    ensures RemoveLike(p, caller).value.likes == RemoveFirstBy(p.likes, LikerOf, caller)
  {
    var keys := MapSeq(p.likes, LikerOf);
    var k :| 0 <= k < |p.likes| && p.likes[k].user == caller;
    assert keys[k] == caller;
    SpliceAtIndexOfIsRemoveFirst(p.likes, LikerOf, caller);
  }

  /** Delete comment removes exactly the first comment with the id, as the
      reference definition does. */
  lemma RemoveCommentIsRemoveFirst(p: Post, cid: CommentId)
    requires HasComment(p.comments, cid)
    ensures RemoveComment(p, cid).Success?
    ensures RemoveComment(p, cid).value.comments == RemoveFirstBy(p.comments, IdOf, cid)
  {
    var keys := MapSeq(p.comments, IdOf);
    var k :| 0 <= k < |p.comments| && p.comments[k].id == cid;
    assert keys[k] == cid;
    SpliceAtIndexOfIsRemoveFirst(p.comments, IdOf, cid);
  }

  /** Liking twice in a row: the second like is rejected. */
  lemma SecondLikeRejected(p: Post, caller: UserId)
    requires AddLike(p, caller).Success?
    ensures AddLike(AddLike(p, caller).value, caller) == Failure(AlreadyLiked)
  {
    var q := AddLike(p, caller).value;
    assert q.likes[0].user == caller;
  }

  /** A like by a caller who had not liked the post, followed by an unlike,
      gives back the original post: the new like sits at index 0, which is
      where unlike's search finds it. */
  lemma LikeThenUnlikeRestores(p: Post, caller: UserId)
    requires !HasLiked(p.likes, caller)
    ensures AddLike(p, caller).Success?
    ensures RemoveLike(AddLike(p, caller).value, caller) == Success(p)
  {
    var q := AddLike(p, caller).value;
    assert FirstLikeOf(q.likes, caller, 0);
    assert q.likes[..0] + q.likes[1..] == p.likes;
  }

  /** Like keeps "at most one like per user". */
  lemma AddLikeKeepsUniqueLikers(p: Post, caller: UserId)
    requires UniqueLikers(p.likes)
    requires AddLike(p, caller).Success?
    ensures UniqueLikers(AddLike(p, caller).value.likes)
    ensures HasLiked(AddLike(p, caller).value.likes, caller)
  {
    var q := AddLike(p, caller).value;
    forall i, j | 0 <= i < j < |q.likes| ensures q.likes[i].user != q.likes[j].user {
      assert q.likes[j] == p.likes[j - 1];
      if i > 0 {
        assert q.likes[i] == p.likes[i - 1];
      }
    }
  }

  /** Dropping position `i` from a list without repeated likers leaves a
      list without repeated likers in which `likes[i]`'s user no longer
      appears. */
  lemma DropLikeKeepsUniqueLikers(likes: seq<Like>, i: int)
    requires UniqueLikers(likes) && 0 <= i < |likes|
    ensures UniqueLikers(likes[..i] + likes[i + 1..])
    ensures !HasLiked(likes[..i] + likes[i + 1..], likes[i].user)
  {
    var rest := likes[..i] + likes[i + 1..];
    // Position k of rest holds what likes held at k, or at k + 1 past the gap.
    forall k | 0 <= k < |rest| ensures rest[k] == likes[if k < i then k else k + 1] {
    }
    forall a, b | 0 <= a < b < |rest| ensures rest[a].user != rest[b].user {
      assert rest[a] == likes[if a < i then a else a + 1];
      assert rest[b] == likes[if b < i then b else b + 1];
    }
    forall k | 0 <= k < |rest| ensures rest[k].user != likes[i].user {
      assert rest[k] == likes[if k < i then k else k + 1];
    }
  }

  /** Unlike keeps "at most one like per user" and leaves the caller with
      no like at all. */
  lemma RemoveLikeKeepsUniqueLikers(p: Post, caller: UserId)
    requires UniqueLikers(p.likes)
    requires RemoveLike(p, caller).Success?
    ensures UniqueLikers(RemoveLike(p, caller).value.likes)
    ensures !HasLiked(RemoveLike(p, caller).value.likes, caller)
  {
    var i :| 0 <= i < |p.likes| && p.likes[i].user == caller;
    assert FirstLikeOf(p.likes, caller, i);
    DropLikeKeepsUniqueLikers(p.likes, i);
  }

  /** Adding a comment, then deleting its id, gives back the original post:
      the new comment sits at index 0, which is where delete's search finds
      it, even when an older comment shares the id. */
  lemma AddThenRemoveCommentRestores(p: Post, input: PostInput, caller: UserId, cid: CommentId, now: int)
    ensures RemoveComment(AddComment(p, input, caller, cid, now), cid) == Success(p)
  {
    var q := AddComment(p, input, caller, cid, now);
    assert FirstCommentWith(q.comments, cid, 0);
    assert q.comments[..0] + q.comments[1..] == p.comments;
  }

  /** Adding a comment under a fresh id keeps comment ids unique. */
  lemma AddCommentKeepsUniqueIds(p: Post, input: PostInput, caller: UserId, cid: CommentId, now: int)
    requires UniqueCommentIds(p.comments)
    requires !HasComment(p.comments, cid)
    ensures UniqueCommentIds(AddComment(p, input, caller, cid, now).comments)
  {
    var q := AddComment(p, input, caller, cid, now);
    forall i, j | 0 <= i < j < |q.comments| ensures q.comments[i].id != q.comments[j].id {
      assert q.comments[j] == p.comments[j - 1];
      if i > 0 {
        assert q.comments[i] == p.comments[i - 1];
      }
    }
  }

  /** Dropping position `i` from a list of comments with distinct ids
      leaves distinct ids, none of them `comments[i]`'s. */
  lemma DropCommentKeepsUniqueIds(comments: seq<Comment>, i: int)
    requires UniqueCommentIds(comments) && 0 <= i < |comments|
    ensures UniqueCommentIds(comments[..i] + comments[i + 1..])
    ensures !HasComment(comments[..i] + comments[i + 1..], comments[i].id)
  {
    var rest := comments[..i] + comments[i + 1..];
    forall k | 0 <= k < |rest| ensures rest[k] == comments[if k < i then k else k + 1] {
    }
    forall a, b | 0 <= a < b < |rest| ensures rest[a].id != rest[b].id {
      assert rest[a] == comments[if a < i then a else a + 1];
      assert rest[b] == comments[if b < i then b else b + 1];
    }
    forall k | 0 <= k < |rest| ensures rest[k].id != comments[i].id {
      assert rest[k] == comments[if k < i then k else k + 1];
    }
  }

  /** Deleting a comment keeps comment ids unique, and afterwards no
      comment has the deleted id. */
  lemma RemoveCommentKeepsUniqueIds(p: Post, cid: CommentId)
    requires UniqueCommentIds(p.comments)
    requires RemoveComment(p, cid).Success?
    ensures UniqueCommentIds(RemoveComment(p, cid).value.comments)
    ensures !HasComment(RemoveComment(p, cid).value.comments, cid)
  {
    var i :| 0 <= i < |p.comments| && p.comments[i].id == cid;
    assert FirstCommentWith(p.comments, cid, i);
    DropCommentKeepsUniqueIds(p.comments, i);
  }
}
