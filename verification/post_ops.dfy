/** The read-modify-save handlers of the posts router with the store taken
    away: each is a pure operation on one `Post`, guarded the way the
    handler guards it. */
module PostOps {
  import opened Wrappers
  import opened JsArrays
  import opened PostModel

  /** `post.likes.filter(like => like.user === u)`: the guard of like and
      unlike is "this list is non-empty", which holds exactly when `u` has
      liked the post. */
  function LikesBy(likes: seq<Like>, u: UserId): (r: seq<Like>)
    ensures |r| > 0 <==> HasLiked(likes, u)
    ensures forall k :: 0 <= k < |r| ==> r[k].user == u
  {
    Filter(likes, (l: Like) => l.user == u)
  }

  /** `post.comments.filter(comment => comment._id === cid)`: non-empty
      exactly when a comment with id `cid` exists. */
  function CommentsWith(comments: seq<Comment>, cid: CommentId): (r: seq<Comment>)
    ensures |r| > 0 <==> HasComment(comments, cid)
    ensures forall k :: 0 <= k < |r| ==> r[k].id == cid
  {
    Filter(comments, (c: Comment) => c.id == cid)
  }

  /** The post a valid create request builds: owned by the caller, with the
      body's text, name and avatar, and no likes or comments yet. */
  function NewPost(input: PostInput, caller: UserId, id: PostId, now: int): (p: Post)
    ensures p.user == caller && p.id == id && p.date == now
    ensures p.text == input.text && p.name == input.name && p.avatar == input.avatar
    ensures p.likes == [] && p.comments == []
  {
    Post(id, caller, input.text, input.name, input.avatar, [], [], now)
  }

  /** Like: rejected when the caller already likes the post; otherwise the
      caller's like goes in front of the existing ones and nothing else
      changes. */
  function AddLike(p: Post, caller: UserId): (r: Result<Post, Error>)
    ensures r.Failure? <==> HasLiked(p.likes, caller)
    ensures r.Failure? ==> r.error == AlreadyLiked
    ensures r.Success? ==>
      && |r.value.likes| == |p.likes| + 1
      && r.value.likes[0].user == caller
      && r.value.likes[1..] == p.likes
    ensures r.Success? ==> r.value == p.(likes := r.value.likes)
  {
    if |LikesBy(p.likes, caller)| > 0 then Failure(AlreadyLiked)
    else Success(p.(likes := [Like(caller)] + p.likes))
  }

  /** Unlike: rejected when the caller does not like the post; otherwise
      the caller's first like is spliced out, the other likes keep their
      order and nothing else changes. */
  function RemoveLike(p: Post, caller: UserId): (r: Result<Post, Error>)
    ensures r.Failure? <==> !HasLiked(p.likes, caller)
    ensures r.Failure? ==> r.error == NotLiked
    ensures r.Success? ==> |r.value.likes| == |p.likes| - 1
    ensures forall i :: FirstLikeOf(p.likes, caller, i) && r.Success? ==>
      r.value.likes == p.likes[..i] + p.likes[i + 1..]
    ensures r.Success? ==> r.value == p.(likes := r.value.likes)
  {
    if |LikesBy(p.likes, caller)| == 0 then Failure(NotLiked)
    else
      var keys := MapSeq(p.likes, LikerOf);
      assert caller in keys by {
        var k :| 0 <= k < |p.likes| && p.likes[k].user == caller;
        assert keys[k] == caller;
      }
      var i := IndexOf(keys, caller);
      assert FirstLikeOf(p.likes, caller, i);
      FirstLikeOfUnique(p.likes, caller, i);
      Success(p.(likes := Splice1(p.likes, i)))
  }

  /** Add comment: the new comment, stamped with the caller and the
      store-assigned id and date, goes in front of the existing ones;
      nothing else changes. */
  function AddComment(p: Post, input: PostInput, caller: UserId, cid: CommentId, now: int): (q: Post)
    ensures |q.comments| == |p.comments| + 1 && q.comments[1..] == p.comments
    ensures q.comments[0].id == cid && q.comments[0].user == caller && q.comments[0].date == now
    ensures q.comments[0].text == input.text && q.comments[0].name == input.name
    ensures q.comments[0].avatar == input.avatar
    ensures q == p.(comments := q.comments)
  {
    p.(comments := [Comment(cid, input.text, input.name, input.avatar, caller, now)] + p.comments)
  }

  /** Delete comment: rejected when no comment has the id; otherwise the
      first comment with that id is spliced out, the others keep their
      order and nothing else changes. */
  function RemoveComment(p: Post, cid: CommentId): (r: Result<Post, Error>)
    ensures r.Failure? <==> !HasComment(p.comments, cid)
    ensures r.Failure? ==> r.error == CommentNotExist
    ensures r.Success? ==> |r.value.comments| == |p.comments| - 1
    ensures forall i :: FirstCommentWith(p.comments, cid, i) && r.Success? ==>
      r.value.comments == p.comments[..i] + p.comments[i + 1..]
    ensures r.Success? ==> r.value == p.(comments := r.value.comments)
  {
    if |CommentsWith(p.comments, cid)| == 0 then Failure(CommentNotExist)
    else
      var keys := MapSeq(p.comments, IdOf);
      assert cid in keys by {
        var k :| 0 <= k < |p.comments| && p.comments[k].id == cid;
        assert keys[k] == cid;
      }
      var i := IndexOf(keys, cid);
      assert FirstCommentWith(p.comments, cid, i);
      FirstCommentWithUnique(p.comments, cid, i);
      Success(p.(comments := Splice1(p.comments, i)))
  }

  /** There is only one first like of a user. */
  lemma FirstLikeOfUnique(likes: seq<Like>, u: UserId, i: int)
    requires FirstLikeOf(likes, u, i)
    ensures forall j :: FirstLikeOf(likes, u, j) ==> j == i
  {
  }

  /** There is only one first comment with a given id. */
  lemma FirstCommentWithUnique(comments: seq<Comment>, cid: CommentId, i: int)
    requires FirstCommentWith(comments, cid, i)
    ensures forall j :: FirstCommentWith(comments, cid, j) ==> j == i
  {
  }
}
