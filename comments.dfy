/**
 * The comment controller: `addComment` validates the text, checks that the
 * post exists and inserts the comment; `getPostComments` returns the
 * comments of one post, newest first.
 */
module Comments {
  import opened Wrappers
  import opened Text
  import opened ApiErrors
  import opened PostModel
  import opened Sorting

  type CommentId = nat

  datatype Comment = Comment(id: CommentId, content: string, author: UserId, post: PostId, createdAt: nat)

  const ContentRequired := ApiError(BadRequest, "Comment content is required")

  /**
   * What `addComment` inserts: blank or absent text is a 400 before the post
   * is looked up, a missing post a 404; otherwise a comment by the caller on
   * that post with the text as supplied.
   */
  function AddOutcome(posts: map<PostId, Post>, id: CommentId, postId: PostId, content: Option<string>,
                      caller: UserId, now: nat): (r: Result<Comment, Error>)
    ensures content.None? || IsBlank(content.value) ==> r == Failure(ContentRequired)
    ensures content.Some? && !IsBlank(content.value) && postId !in posts ==> r == Failure(PostNotFound)
    ensures r.Success? <==> content.Some? && !IsBlank(content.value) && postId in posts
    ensures r.Success? ==> r.value == Comment(id, content.value, caller, postId, now)
  {
    if content.None? || Trim(content.value) == "" then Failure(ContentRequired)
    else if postId !in posts then Failure(PostNotFound)
    else Success(Comment(id, content.value, caller, postId, now))
  }

  /** `Comment.find({ post: postId })`: the comments on that post, in collection order. */
  function ForPost(comments: seq<Comment>, postId: PostId): (r: seq<Comment>)
    ensures forall c :: c in r <==> c in comments && c.post == postId
    ensures |r| <= |comments|
  {
    if comments == [] then []
    else
      var init := comments[..|comments| - 1];
      var last := comments[|comments| - 1];
      assert comments == init + [last];
      ForPost(init, postId) + (if last.post == postId then [last] else [])
  }

  function CommentCreatedAt(c: Comment): int {
    c.createdAt
  }

  /** The comment collection, in insertion order; ids come from a counter. */
  class CommentStore {
    var comments: seq<Comment>
    var nextId: CommentId

    ghost predicate Valid()
      reads this
    {
      forall i | 0 <= i < |comments| :: comments[i].id < nextId
    }

    constructor ()
      ensures Valid() && comments == []
    {
      comments := [];
      nextId := 0;
    }

    /** `addComment`: on success the new comment is appended and the existing ones are kept. */
    method AddComment(posts: map<PostId, Post>, postId: PostId, content: Option<string>, caller: UserId, now: nat)
      returns (r: Result<Comment, Error>)
      requires Valid()
      modifies this
      ensures Valid()
      ensures r == AddOutcome(posts, old(nextId), postId, content, caller, now)
      ensures r.Success? ==> comments == old(comments) + [r.value]
      ensures r.Failure? ==> comments == old(comments)
    {
      r := AddOutcome(posts, nextId, postId, content, caller, now);
      if r.Success? {
        var c := r.value;
        assert c.id == nextId;
        comments := comments + [c];
        nextId := nextId + 1;
        assert forall i | 0 <= i < |comments| - 1 :: comments[i] == old(comments)[i];
      }
    }

    /**
     * `getPostComments`: always a success, an empty list included, and the
     * post is not looked up. The result holds exactly the comments on the
     * post, each as often as stored, newest first.
     */
    method GetPostComments(postId: PostId) returns (r: Result<seq<Comment>, Error>)
      ensures r.Success?
      ensures forall c :: c in r.value <==> c in comments && c.post == postId
      ensures multiset(r.value) == multiset(ForPost(comments, postId))
      ensures SortedBy(r.value, CommentCreatedAt, true)
    {
      var found := ForPost(comments, postId);
      var sorted := SortByKey(found, CommentCreatedAt, true);
      assert forall c :: c in sorted <==> c in multiset(found);
      r := Success(sorted);
    }
  }

  /** The post's list holds each of its comments as often as it is stored, and no other comment. */
  lemma {:induction false} ForPostCounts(comments: seq<Comment>, postId: PostId)
    ensures forall c :: multiset(ForPost(comments, postId))[c]
                        == if c.post == postId then multiset(comments)[c] else 0
  {
    if comments != [] {
      var init := comments[..|comments| - 1];
      var last := comments[|comments| - 1];
      assert comments == init + [last];
      ForPostCounts(init, postId);
    }
  }

  /** A new comment shows up in its post's list and in no other post's. */
  lemma AddedCommentListed(comments: seq<Comment>, c: Comment, postId: PostId)
    ensures ForPost(comments + [c], postId) == ForPost(comments, postId) + (if c.post == postId then [c] else [])
  {
    assert (comments + [c])[..|comments|] == comments;
  }
}
