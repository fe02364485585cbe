/**
 * The post controller: creation with validation, the filtered, sorted and
 * paginated listing, and the ownership-checked update and delete. The post
 * collection is a `PostStore` object whose map the mutations update in place;
 * the decisions each controller takes are functions of the store's contents.
 */
module Posts {
  import opened Wrappers
  import opened Text
  import opened ApiErrors
  import opened PostModel
  import opened Sorting
  import Users

  const TitleContentRequired := ApiError(BadRequest, "Title and content are required")
  const AuthorNotFound := ApiError(NotFound, "Author not found")
  const NoPostsFound := ApiError(NotFound, "No posts found")
  const NotAuthorizedToUpdate := ApiError(Forbidden, "You are not authorized to update this post")
  const NotAuthorizedToDelete := ApiError(Forbidden, "You are not authorized to delete this post")

  /** `!s?.trim()`: absent, or nothing left after trimming. */
  predicate MissingText(s: Option<string>) {
    s.None? || Trim(s.value) == ""
  }

  /** What every post in the collection satisfies: keyed by its id, well formed, likes without repeats. */
  ghost predicate StoreInvariant(posts: map<PostId, Post>) {
    forall k | k in posts :: posts[k].id == k && WellFormed(posts[k]) && Distinct(posts[k].likes)
  }

  // ---------------------------------------------------------------------------
  // createPost
  // ---------------------------------------------------------------------------

  /**
   * The post `createPost` inserts under `id`: both texts must be present and
   * not blank; the image is the upload URL when a file came with the request
   * and the upload returned a URL, and `""` otherwise; the caller is the author.
   */
  function CreateOutcome(id: PostId, title: Option<string>, content: Option<string>,
                         imagePath: Option<string>, upload: Option<string>,
                         caller: UserId, now: nat): (r: Result<Post, Error>)
    ensures r.Failure? <==> MissingText(title) || MissingText(content)
    ensures r.Failure? ==> r.error == TitleContentRequired
    ensures r.Success? ==> && WellFormed(r.value) && r.value.id == id
                           && r.value.title == Trim(title.value) && r.value.content == Trim(content.value)
                           && r.value.author == caller && r.value.likes == []
                           && r.value.createdAt == now && r.value.updatedAt == now
    ensures r.Success? ==> r.value.image == if Truthy(imagePath) && Truthy(upload) then upload.value else ""
  {
    if MissingText(title) || MissingText(content) then Failure(TitleContentRequired)
    else
      var image := if Truthy(imagePath) && Truthy(upload) then upload.value else "";
      match NewPost(id, title, content, Some(image), caller, now)
      case Success(p) => Success(p)
      case Failure(_) => assert false; Failure(TitleContentRequired)
  }

  // ---------------------------------------------------------------------------
  // getAllPosts
  // ---------------------------------------------------------------------------

  /** The query string of the listing; a parameter that was not sent is `None`. */
  datatype ListQuery = ListQuery(
    search: Option<string>,
    author: Option<string>,
    sortBy: Option<string>,
    page: Option<string>,
    limit: Option<string>)

  /** `parseInt(raw) || fallback`: `NaN` (including an absent parameter) and `0` give `fallback`. */
  function IntOr(raw: Option<string>, fallback: int): (n: int)
    ensures raw.Some? && ParseInt(raw.value).Some? && ParseInt(raw.value).value != 0
            ==> n == ParseInt(raw.value).value
    ensures raw.None? || ParseInt(raw.value).None? || ParseInt(raw.value) == Some(0) ==> n == fallback
  {
    if raw.None? then fallback
    else match ParseInt(raw.value)
      case None => fallback
      case Some(v) => if v == 0 then fallback else v
  }

  /** A number sent as its decimal text is read back, except that `0` falls back to the default. */
  lemma IntOrDecimal(n: int, fallback: int)
    ensures IntOr(Some(IntToString(n)), fallback) == if n == 0 then fallback else n
  {
    ParseIntToString(n);
  }

  /** The filter object: a search text, and the id the author username resolved to. */
  datatype PostFilter = PostFilter(search: Option<string>, author: Option<UserId>)

  /**
   * Builds the filter: a truthy `search` is kept, and a truthy `author` is
   * looked up by exact username; an unknown author is a 404 before any post
   * is read.
   */
  function BuildFilter(users: seq<Users.User>, q: ListQuery): (r: Result<PostFilter, Error>)
    ensures r.Failure? <==> Truthy(q.author) && Users.FindByUsername(users, q.author.value).None?
    ensures r.Failure? ==> r.error == AuthorNotFound
    ensures r.Success? ==> r.value.search == (if Truthy(q.search) then q.search else None)
    ensures r.Success? ==> (r.value.author.Some? <==> Truthy(q.author))
    ensures r.Success? && Truthy(q.author) ==>
              exists i | 0 <= i < |users| :: users[i].username == q.author.value && users[i].id == r.value.author.value
  {
    var search := if Truthy(q.search) then q.search else None;
    if !Truthy(q.author) then Success(PostFilter(search, None))
    else match Users.FindByUsername(users, q.author.value)
      case None => Failure(AuthorNotFound)
      case Some(u) => Success(PostFilter(search, Some(u.id)))
  }

  /** The post satisfies the filter: the search text occurs, ignoring case, in its title or its content, and it has the requested author. */
  predicate Matches(p: Post, f: PostFilter) {
    && (f.search.None? || ContainsIgnoringCase(p.title, f.search.value) || ContainsIgnoringCase(p.content, f.search.value))
    && (f.author.None? || p.author == f.author.value)
  }

  /** The posts of the collection that satisfy the filter. */
  function MatchingPosts(posts: map<PostId, Post>, f: PostFilter): set<Post> {
    set p | p in posts.Values && Matches(p, f)
  }

  /** Newest first unless `sortBy` is exactly `"oldest"`. */
  predicate NewestFirst(sortBy: Option<string>) {
    sortBy != Some("oldest")
  }

  function CreatedAt(p: Post): int {
    p.createdAt
  }

  /** `Math.ceil(n / d)` for a positive divisor. */
  function CeilDiv(n: nat, d: int): (r: nat)
    requires d >= 1
    ensures r * d >= n
    ensures r > 0 ==> (r - 1) * d < n
  {
    (n + d - 1) / d
  }

  /** The response payload of the listing. */
  datatype PostPage = PostPage(posts: seq<Post>, totalPosts: nat, currentPage: int, totalPages: nat)

  /**
   * `.skip((page - 1) * limit).limit(limit)` over the sorted matches, and the
   * 404 the controller answers when that page is empty, which happens both
   * when nothing matches and when the page lies past the last match.
   */
  function Paginate(ordered: seq<Post>, page: int, limit: int): (r: Result<PostPage, Error>)
    requires page >= 1 && limit >= 1
    ensures r.Success? <==> (page - 1) * limit < |ordered|
    ensures r.Failure? ==> r.error == NoPostsFound
    ensures r.Success? ==> var skip := (page - 1) * limit;
              && 0 < |r.value.posts| <= limit
              && 0 <= skip && skip + |r.value.posts| <= |ordered|
              && r.value.posts == ordered[skip..skip + |r.value.posts|]
              && |r.value.posts| == (if skip + limit <= |ordered| then limit else |ordered| - skip)
              && r.value.totalPosts == |ordered| && r.value.currentPage == page
              && r.value.totalPages == CeilDiv(|ordered|, limit)
  {
    var skip := (page - 1) * limit;
    NonNegativeProduct(page - 1, limit);
    if skip >= |ordered| then Failure(NoPostsFound)
    else
      var end := if skip + limit <= |ordered| then skip + limit else |ordered|;
      Success(PostPage(ordered[skip..end], |ordered|, page, CeilDiv(|ordered|, limit)))
  }

  /** `Post.find(filter)`: every post of the collection that satisfies the filter, each once, in no promised order. */
  method FindMatching(candidates: set<Post>, f: PostFilter) returns (found: seq<Post>)
    ensures multiset(found) == multiset(set p | p in candidates && Matches(p, f))
  {
    found := [];
    var rest := candidates;
    ghost var seen: set<Post> := {};
    while rest != {}
      invariant rest <= candidates && seen == candidates - rest
      invariant multiset(found) == multiset(set p | p in seen && Matches(p, f))
      decreases |rest|
    {
      var p :| p in rest;
      ghost var before := set x | x in seen && Matches(x, f);
      if Matches(p, f) {
        assert (set x | x in seen + {p} && Matches(x, f)) == before + {p};
        MultisetOfSetAdd(before, p);
        found := found + [p];
      } else {
        assert (set x | x in seen + {p} && Matches(x, f)) == before;
      }
      rest := rest - {p};
      seen := seen + {p};
    }
    assert seen == candidates;
  }

  /** Storing a well-formed post under its own id keeps the collection invariant. */
  lemma StoreInvariantPut(posts: map<PostId, Post>, k: PostId, p: Post)
    requires StoreInvariant(posts) && p.id == k && WellFormed(p) && Distinct(p.likes)
    ensures StoreInvariant(posts[k := p])
  {
  }

  /** Every id in use is below `bound`, so `bound` itself is free. */
  ghost predicate IdsBelow(posts: map<PostId, Post>, bound: PostId) {
    forall k | k in posts :: k < bound
  }

  lemma IdsBelowPut(posts: map<PostId, Post>, bound: PostId, p: Post)
    requires IdsBelow(posts, bound)
    ensures bound !in posts && IdsBelow(posts[bound := p], bound + 1)
  {
  }

  lemma IdsBelowReplace(posts: map<PostId, Post>, bound: PostId, k: PostId, p: Post)
    requires IdsBelow(posts, bound) && k in posts
    ensures IdsBelow(posts[k := p], bound)
  {
  }

  lemma NonNegativeProduct(a: int, b: int)
    requires a >= 0 && b >= 0
    ensures a * b >= 0
  {
  }

  lemma MultisetOfSetAdd<T>(s: set<T>, x: T)
    requires x !in s
    ensures multiset(s + {x}) == multiset(s) + multiset{x}
  {
  }

  /**
   * The post collection. Ids come from a counter, so a new post never
   * reuses the id of a post that exists or existed.
   */
  class PostStore {
    var posts: map<PostId, Post>
    var nextId: PostId

    ghost predicate Valid()
      reads this
    {
      StoreInvariant(posts) && IdsBelow(posts, nextId)
    }

    constructor ()
      ensures Valid() && posts == map[]
    {
      posts := map[];
      nextId := 0;
    }

    /** `createPost`: on success the new post is stored under a fresh id and nothing else changes. */
    method CreatePost(title: Option<string>, content: Option<string>, imagePath: Option<string>,
                      upload: Option<string>, caller: UserId, now: nat) returns (r: Result<Post, Error>)
      requires Valid()
      modifies this
      ensures Valid()
      ensures r == CreateOutcome(old(nextId), title, content, imagePath, upload, caller, now)
      ensures r.Success? ==> old(nextId) !in old(posts) && posts == old(posts)[old(nextId) := r.value]
      ensures r.Failure? ==> posts == old(posts)
    {
      r := CreateOutcome(nextId, title, content, imagePath, upload, caller, now);
      if r.Success? {
        CreateKeepsInvariant(posts, nextId, title, content, imagePath, upload, caller, now);
        posts := posts[nextId := r.value];
        nextId := nextId + 1;
      }
    }

    /**
     * `getAllPosts`. `ordered` is the whole filtered collection in the order
     * the query sorts it (ties between equal timestamps in no promised
     * order); the response is the page `Paginate` cuts from it.
     */
    method GetAllPosts(users: seq<Users.User>, q: ListQuery) returns (r: Result<PostPage, Error>, ghost ordered: seq<Post>)
      requires Valid()
      requires IntOr(q.page, 1) >= 1 && IntOr(q.limit, 6) >= 1
      ensures BuildFilter(users, q).Failure? ==> r == Failure(AuthorNotFound)
      ensures BuildFilter(users, q).Success? ==>
                && multiset(ordered) == multiset(MatchingPosts(posts, BuildFilter(users, q).value))
                && SortedBy(ordered, CreatedAt, NewestFirst(q.sortBy))
                && r == Paginate(ordered, IntOr(q.page, 1), IntOr(q.limit, 6))
    {
      ordered := [];
      var built := BuildFilter(users, q);
      if built.Failure? {
        return Failure(AuthorNotFound), ordered;
      }
      var found := FindMatching(posts.Values, built.value);
      var sorted := SortByKey(found, CreatedAt, NewestFirst(q.sortBy));
      ordered := sorted;
      r := Paginate(sorted, IntOr(q.page, 1), IntOr(q.limit, 6));
    }

    /**
     * `updatePost`: on success the stored post is replaced by the edited one
     * and every other post is kept; on failure nothing changes.
     */
    method UpdatePost(postId: PostId, caller: UserId, title: Option<string>, content: Option<string>,
                      imagePath: Option<string>, upload: Option<string>, now: nat) returns (r: Result<Post, Error>)
      requires Valid()
      modifies this
      ensures Valid() && nextId == old(nextId)
      ensures r == UpdateOutcome(old(posts), postId, caller, title, content, imagePath, upload, now)
      ensures r.Success? ==> posts == old(posts)[postId := r.value]
      ensures r.Failure? ==> posts == old(posts)
    {
      r := UpdateOutcome(posts, postId, caller, title, content, imagePath, upload, now);
      if r.Success? {
        var updated := posts[postId := r.value];
        UpdateKeepsInvariant(posts, postId, caller, title, content, imagePath, upload, now);
        IdsBelowReplace(posts, nextId, postId, r.value);
        assert StoreInvariant(updated) && IdsBelow(updated, nextId);
        posts := updated;
      }
    }

    /** `deletePost`: on success exactly that post is removed and the payload is empty. */
    method DeletePost(postId: PostId, caller: UserId) returns (r: Result<(), Error>)
      requires Valid()
      modifies this
      ensures Valid() && nextId == old(nextId)
      ensures r.Success? <==> DeleteRefusal(old(posts), postId, caller).None?
      ensures r.Failure? ==> posts == old(posts) && DeleteRefusal(old(posts), postId, caller) == Some(r.error)
      ensures r.Success? ==> posts == map k | k in old(posts) && k != postId :: old(posts)[k]
    {
      var refusal := DeleteRefusal(posts, postId, caller);
      if refusal.Some? {
        return Failure(refusal.value);
      }
      posts := map k | k in posts && k != postId :: posts[k];
      r := Success(());
    }
  }

  /**
   * The edited post `updatePost` saves: 404 for a missing post, then 403 when
   * the caller is not its author. A falsy title or content keeps the old
   * text; a truthy one is trimmed by the schema, and a blank one fails its
   * `required` rule on save. The image changes only when a file came with the
   * request and the upload returned a URL. Id, author, likes and `createdAt`
   * never change.
   */
  function UpdateOutcome(posts: map<PostId, Post>, postId: PostId, caller: UserId,
                         title: Option<string>, content: Option<string>,
                         imagePath: Option<string>, upload: Option<string>, now: nat): (r: Result<Post, Error>)
    ensures postId !in posts ==> r == Failure(PostNotFound)
    ensures postId in posts && posts[postId].author != caller ==> r == Failure(NotAuthorizedToUpdate)
    ensures postId in posts && posts[postId].author == caller && StoreInvariant(posts) ==>
              (r.Failure? <==> (Truthy(title) && IsBlank(title.value)) || (Truthy(content) && IsBlank(content.value)))
    ensures r.Success? ==> postId in posts && posts[postId].author == caller
    ensures r.Success? ==> var old_ := posts[postId];
              && WellFormed(r.value)
              && r.value.id == old_.id && r.value.author == old_.author
              && r.value.likes == old_.likes && r.value.createdAt == old_.createdAt
              && r.value.image == (if Truthy(imagePath) && Truthy(upload) then upload.value else old_.image)
    ensures r.Success? && StoreInvariant(posts) ==> var old_ := posts[postId];
              && r.value.title == (if Truthy(title) then Trim(title.value) else old_.title)
              && r.value.content == (if Truthy(content) then Trim(content.value) else old_.content)
  {
    if postId !in posts then Failure(PostNotFound)
    else
      var p := posts[postId];
      if p.author != caller then Failure(NotAuthorizedToUpdate)
      else
        var image := if Truthy(imagePath) && Truthy(upload) then upload.value else p.image;
        var newTitle := if Truthy(title) then title.value else p.title;
        var newContent := if Truthy(content) then content.value else p.content;
        assert StoreInvariant(posts) ==> WellFormed(p);
        Assign(p, newTitle, newContent, image, now)
  }

  /** Why `deletePost` refuses, if it does: 404 for a missing post, then 403 for a caller who is not its author. */
  function DeleteRefusal(posts: map<PostId, Post>, postId: PostId, caller: UserId): (e: Option<Error>)
    ensures postId !in posts ==> e == Some(PostNotFound)
    ensures postId in posts && posts[postId].author != caller ==> e == Some(NotAuthorizedToDelete)
    ensures e.None? <==> postId in posts && posts[postId].author == caller
  {
    if postId !in posts then Some(PostNotFound)
    else if posts[postId].author != caller then Some(NotAuthorizedToDelete)
    else None
  }

  /** Storing the created post under the counter's value keeps the collection invariant and leaves the next id free. */
  lemma CreateKeepsInvariant(posts: map<PostId, Post>, id: PostId, title: Option<string>, content: Option<string>,
                             imagePath: Option<string>, upload: Option<string>, caller: UserId, now: nat)
    requires StoreInvariant(posts) && IdsBelow(posts, id)
    requires CreateOutcome(id, title, content, imagePath, upload, caller, now).Success?
    ensures id !in posts
    ensures var p := CreateOutcome(id, title, content, imagePath, upload, caller, now).value;
            StoreInvariant(posts[id := p]) && IdsBelow(posts[id := p], id + 1)
  {
    var p := CreateOutcome(id, title, content, imagePath, upload, caller, now).value;
    assert p.id == id && WellFormed(p) && p.likes == [];
    StoreInvariantPut(posts, id, p);
    IdsBelowPut(posts, id, p);
  }

  /** Saving the edited post keeps the collection invariant. */
  lemma UpdateKeepsInvariant(posts: map<PostId, Post>, postId: PostId, caller: UserId,
                             title: Option<string>, content: Option<string>,
                             imagePath: Option<string>, upload: Option<string>, now: nat)
    requires StoreInvariant(posts)
    requires UpdateOutcome(posts, postId, caller, title, content, imagePath, upload, now).Success?
    ensures postId in posts
    ensures StoreInvariant(posts[postId := UpdateOutcome(posts, postId, caller, title, content, imagePath, upload, now).value])
  {
    var p := UpdateOutcome(posts, postId, caller, title, content, imagePath, upload, now).value;
    assert p.id == postId && WellFormed(p) && p.likes == posts[postId].likes;
    StoreInvariantPut(posts, postId, p);
  }

  /** A caller who is not the author can neither edit nor delete the post. */
  lemma OnlyAuthorMutates(posts: map<PostId, Post>, postId: PostId, caller: UserId,
                          title: Option<string>, content: Option<string>,
                          imagePath: Option<string>, upload: Option<string>, now: nat)
    requires postId in posts && posts[postId].author != caller
    ensures UpdateOutcome(posts, postId, caller, title, content, imagePath, upload, now).Failure?
    ensures DeleteRefusal(posts, postId, caller).Some?
  {
  }
}
