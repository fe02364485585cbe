/**
 * The `Post` document and the rules its schema enforces: `title` and `content`
 * are required strings that are trimmed when set, `image` defaults to `""`,
 * `author` is a required user reference, and the timestamps option maintains
 * `createdAt` and `updatedAt`. `likes`, which the like controller reads and
 * writes, is part of the document too; it starts empty.
 */
module PostModel {
  import opened Wrappers
  import opened Text
  import opened ApiErrors

  type PostId = nat
  type UserId = nat

  datatype Post = Post(
    id: PostId,
    title: string,
    content: string,
    image: string,
    author: UserId,
    likes: seq<UserId>,
    createdAt: nat,
    updatedAt: nat)

  /** No user id appears twice: the likes list is used as a set. */
  predicate Distinct(s: seq<UserId>) {
    forall i, j | 0 <= i < j < |s| :: s[i] != s[j]
  }

  /** What the schema guarantees of every stored post: both texts are trimmed and not empty. */
  predicate WellFormed(p: Post) {
    Trimmed(p.title) && Trimmed(p.content)
  }

  /** The paths whose `required` rule fails once the `trim` setter has run. */
  function MissingPaths(title: Option<string>, content: Option<string>): (paths: set<string>)
    ensures "title" in paths <==> title.None? || IsBlank(title.value)
    ensures "content" in paths <==> content.None? || IsBlank(content.value)
    ensures paths <= {"title", "content"}
  {
    (if title.None? || Trim(title.value) == [] then {"title"} else {})
    + (if content.None? || Trim(content.value) == [] then {"content"} else {})
  }

  /**
   * `Post.create`: casts the fields through the schema and validates them.
   * The result is well formed and holds the trimmed title and content, the
   * image (or `""`), the author, no likes and both timestamps set to `now`.
   */
  function NewPost(id: PostId, title: Option<string>, content: Option<string>, image: Option<string>,
                   author: UserId, now: nat): (r: Result<Post, Error>)
    ensures r.Failure? <==> MissingPaths(title, content) != {}
    ensures r.Failure? ==> r.error == SchemaError(MissingPaths(title, content))
    ensures r.Success? ==> && WellFormed(r.value)
                           && r.value.title == Trim(title.value)
                           && r.value.content == Trim(content.value)
                           && r.value.image == (if image.Some? then image.value else "")
                           && r.value.author == author && r.value.id == id
                           && r.value.likes == []
                           && r.value.createdAt == now && r.value.updatedAt == now
  {
    var missing := MissingPaths(title, content);
    if missing != {} then Failure(SchemaError(missing))
    else
      Success(Post(id, Trim(title.value), Trim(content.value),
                   if image.Some? then image.value else "", author, [], now, now))
  }

  /**
   * `post.title = title; post.content = content; post.image = image;
   * post.save()`: the setters trim, validation runs again, and `updatedAt`
   * moves to `now` only when some field actually changed. Identity, author,
   * likes and `createdAt` are kept.
   */
  function Assign(p: Post, title: string, content: string, image: string, now: nat): (r: Result<Post, Error>)
    ensures r.Failure? <==> IsBlank(title) || IsBlank(content)
    ensures r.Failure? ==> r.error == SchemaError(MissingPaths(Some(title), Some(content)))
    ensures r.Success? ==> && WellFormed(r.value)
                           && r.value.title == Trim(title) && r.value.content == Trim(content)
                           && r.value.image == image
                           && r.value.id == p.id && r.value.author == p.author
                           && r.value.likes == p.likes && r.value.createdAt == p.createdAt
    ensures r.Success? ==> var changed := Trim(title) != p.title || Trim(content) != p.content || image != p.image;
                           r.value.updatedAt == if changed then now else p.updatedAt
  {
    if Trim(title) == [] || Trim(content) == [] then Failure(SchemaError(MissingPaths(Some(title), Some(content))))
    else
      var changed := Trim(title) != p.title || Trim(content) != p.content || image != p.image;
      Success(p.(title := Trim(title), content := Trim(content), image := image,
                 updatedAt := if changed then now else p.updatedAt))
  }

  /** Re-saving a stored post with its own fields changes nothing. */
  lemma AssignUnchanged(p: Post, now: nat)
    requires WellFormed(p)
    ensures Assign(p, p.title, p.content, p.image, now) == Success(p)
  {
    TrimOfTrimmed(p.title);
    TrimOfTrimmed(p.content);
  }
}
