/**
 * The home page's client-side listing: the effect that filters the loaded
 * posts by the search text and the author menu and sorts them by date, and
 * the pagination over the result, six posts to a page.
 */
module HomePage {
  import opened Wrappers
  import opened Text
  import opened Sorting
  import Posts

  /** A post as the page holds it: the author is populated with a username; dates are timestamps. */
  datatype FeedPost = FeedPost(id: nat, title: string, content: string, authorUsername: string, createdAt: nat)

  const PostsPerPage := 6
  const AllAuthors := "all"

  function FeedCreatedAt(p: FeedPost): int {
    p.createdAt
  }

  /** The search test: the lowercased title or content includes the lowercased query. */
  predicate MatchesSearch(p: FeedPost, query: string) {
    ContainsIgnoringCase(p.title, query) || ContainsIgnoringCase(p.content, query)
  }

  /** `result.filter(...)` by the search text, applied only when the query is truthy; order is kept. */
  function SearchFiltered(posts: seq<FeedPost>, query: Option<string>): (r: seq<FeedPost>)
    ensures |r| <= |posts|
    ensures forall p :: p in r <==> p in posts && (!Truthy(query) || MatchesSearch(p, query.value))
    ensures multiset(r) <= multiset(posts)
  {
    if !Truthy(query) then posts
    else if posts == [] then []
    else
      var rest := SearchFiltered(posts[1..], query);
      assert posts == [posts[0]] + posts[1..];
      (if MatchesSearch(posts[0], query.value) then [posts[0]] else []) + rest
  }

  /** `result.filter(post => post.author.username === authorFilter)` unless the menu says `all`; order is kept. */
  function AuthorFiltered(posts: seq<FeedPost>, author: string): (r: seq<FeedPost>)
    ensures |r| <= |posts|
    ensures forall p :: p in r <==> p in posts && (author == AllAuthors || p.authorUsername == author)
    ensures multiset(r) <= multiset(posts)
  {
    if author == AllAuthors then posts
    else if posts == [] then []
    else
      var rest := AuthorFiltered(posts[1..], author);
      assert posts == [posts[0]] + posts[1..];
      (if posts[0].authorUsername == author then [posts[0]] else []) + rest
  }

  /** The search filter keeps every matching post as often as it occurs and drops every other one. */
  lemma {:induction false} SearchFilteredCounts(posts: seq<FeedPost>, query: Option<string>)
    ensures forall p :: multiset(SearchFiltered(posts, query))[p]
                        == if !Truthy(query) || MatchesSearch(p, query.value) then multiset(posts)[p] else 0
  {
    if Truthy(query) && posts != [] {
      SearchFilteredCounts(posts[1..], query);
      assert posts == [posts[0]] + posts[1..];
    }
  }

  /** The author filter keeps every post by that username as often as it occurs and drops every other one. */
  lemma {:induction false} AuthorFilteredCounts(posts: seq<FeedPost>, author: string)
    ensures forall p :: multiset(AuthorFiltered(posts, author))[p]
                        == if author == AllAuthors || p.authorUsername == author then multiset(posts)[p] else 0
  {
    if author != AllAuthors && posts != [] {
      AuthorFilteredCounts(posts[1..], author);
      assert posts == [posts[0]] + posts[1..];
    }
  }

  /** If `whole` is `head` before the rest's two parts and `first` is `head` before the first part, `whole` is `first` before the second part. */
  lemma ConcatAfterHead<T>(head: seq<T>, rest1: seq<T>, rest2: seq<T>, first: seq<T>, whole: seq<T>)
    requires whole == head + (rest1 + rest2) && first == head + rest1
    ensures whole == first + rest2
  {
  }

  /** One step of the search filter: the first post is kept or dropped, then the rest is filtered. */
  lemma SearchFilteredCons(x: FeedPost, rest: seq<FeedPost>, query: Option<string>)
    requires Truthy(query)
    ensures SearchFiltered([x] + rest, query) == (if MatchesSearch(x, query.value) then [x] else []) + SearchFiltered(rest, query)
  {
    assert ([x] + rest)[1..] == rest;
  }

  /** Filtering by the search text distributes over concatenation, so the kept posts stay in their loaded order. */
  lemma {:induction false} SearchFilteredConcat(a: seq<FeedPost>, b: seq<FeedPost>, query: Option<string>)
    ensures SearchFiltered(a + b, query) == SearchFiltered(a, query) + SearchFiltered(b, query)
  {
    if a == [] {
      assert a + b == b;
    } else if Truthy(query) {
      assert a == [a[0]] + a[1..] && a + b == [a[0]] + (a[1..] + b);
      SearchFilteredCons(a[0], a[1..] + b, query);
      SearchFilteredCons(a[0], a[1..], query);
      SearchFilteredConcat(a[1..], b, query);
      ConcatAfterHead(if MatchesSearch(a[0], query.value) then [a[0]] else [], SearchFiltered(a[1..], query), SearchFiltered(b, query),
                      SearchFiltered(a, query), SearchFiltered(a + b, query));
    }
  }

  /** One post is kept by the search filter iff the query is falsy or the post matches it. */
  lemma SearchFilteredOne(p: FeedPost, query: Option<string>)
    ensures SearchFiltered([p], query) == if !Truthy(query) || MatchesSearch(p, query.value) then [p] else []
  {
    assert [p][1..] == [];
  }

  /** One step of the author filter: the first post is kept or dropped, then the rest is filtered. */
  lemma AuthorFilteredCons(x: FeedPost, rest: seq<FeedPost>, author: string)
    requires author != AllAuthors
    ensures AuthorFiltered([x] + rest, author) == (if x.authorUsername == author then [x] else []) + AuthorFiltered(rest, author)
  {
    assert ([x] + rest)[1..] == rest;
  }

  /** Filtering by author distributes over concatenation, so the kept posts stay in their loaded order. */
  lemma {:induction false} AuthorFilteredConcat(a: seq<FeedPost>, b: seq<FeedPost>, author: string)
    ensures AuthorFiltered(a + b, author) == AuthorFiltered(a, author) + AuthorFiltered(b, author)
  {
    if a == [] {
      assert a + b == b;
    } else if author != AllAuthors {
      assert a == [a[0]] + a[1..] && a + b == [a[0]] + (a[1..] + b);
      AuthorFilteredCons(a[0], a[1..] + b, author);
      AuthorFilteredCons(a[0], a[1..], author);
      AuthorFilteredConcat(a[1..], b, author);
      ConcatAfterHead(if a[0].authorUsername == author then [a[0]] else [], AuthorFiltered(a[1..], author), AuthorFiltered(b, author),
                      AuthorFiltered(a, author), AuthorFiltered(a + b, author));
    }
  }

  /** One post is kept by the author filter iff the menu says `all` or the post is by that username. */
  lemma AuthorFilteredOne(p: FeedPost, author: string)
    ensures AuthorFiltered([p], author) == if author == AllAuthors || p.authorUsername == author then [p] else []
  {
    assert [p][1..] == [];
  }

  /** The posts the effect keeps, in their loaded order. */
  function Selected(posts: seq<FeedPost>, query: Option<string>, author: string): seq<FeedPost> {
    AuthorFiltered(SearchFiltered(posts, query), author)
  }

  /** Newest first only when the menu says exactly `newest`; every other value sorts oldest first. */
  predicate NewestFirst(sortBy: string) {
    sortBy == "newest"
  }

  /**
   * The two sides default in opposite directions: a sort value that is
   * neither `newest` nor `oldest` sorts the client's list oldest first and
   * the server's listing newest first.
   */
  lemma SortDefaultsDiffer(sortBy: string)
    requires sortBy != "newest" && sortBy != "oldest"
    ensures !NewestFirst(sortBy) && Posts.NewestFirst(Some(sortBy))
  {
  }

  /**
   * `list` is what the page should display for these settings: the selected
   * posts sorted by date in the chosen direction, equal dates in loaded order.
   */
  ghost predicate Displays(list: seq<FeedPost>, posts: seq<FeedPost>, query: Option<string>, author: string, sortBy: string) {
    && multiset(list) == multiset(Selected(posts, query, author))
    && SortedBy(list, FeedCreatedAt, NewestFirst(sortBy))
    && (forall k :: WithKey(list, FeedCreatedAt, k) == WithKey(Selected(posts, query, author), FeedCreatedAt, k))
  }

  /** The sorted selection is what the page displays, and it holds only loaded posts. */
  lemma SelectionDisplayed(posts: seq<FeedPost>, query: Option<string>, author: string, sortBy: string, list: seq<FeedPost>)
    requires list == InsertionSort(AuthorFiltered(SearchFiltered(posts, query), author), FeedCreatedAt, NewestFirst(sortBy))
    ensures Displays(list, posts, query, author, sortBy)
    ensures multiset(list) <= multiset(posts)
  {
    var selected := Selected(posts, query, author);
    InsertionSortCorrect(selected, FeedCreatedAt, NewestFirst(sortBy));
    assert multiset(selected) <= multiset(SearchFiltered(posts, query)) <= multiset(posts);
  }

  /** `Math.ceil(n / 6)` */
  function PageCount(n: nat): (r: nat)
    ensures r * PostsPerPage >= n && (r > 0 ==> (r - 1) * PostsPerPage < n)
    ensures r == 0 <==> n == 0
  {
    Posts.CeilDiv(n, PostsPerPage)
  }

  /** `list.slice(start, end)` for `0 <= start < end`: both bounds are clamped to the length. */
  function Slice(list: seq<FeedPost>, start: nat, end: nat): (r: seq<FeedPost>)
    requires start < end
    ensures |r| <= end - start
    ensures start < |list| ==> r != [] && |r| == (if end <= |list| then end else |list|) - start
    ensures start >= |list| ==> r == []
    ensures forall i | 0 <= i < |r| :: start + i < |list| && r[i] == list[start + i]
  {
    var s := if start <= |list| then start else |list|;
    var e := if end <= |list| then end else |list|;
    list[s..e]
  }

  /** The page's React state. */
  class HomePageState {
    var posts: seq<FeedPost>
    var searchQuery: Option<string>
    var authorFilter: string
    var sortBy: string
    var filtered: seq<FeedPost>
    var currentPage: int

    /**
     * What the effect maintains: the list holds the selected posts sorted
     * by date in the chosen direction, equal dates in loaded order; and the
     * page number is at least 1 and names a page that exists, or is 1 when
     * there is none.
     */
    ghost predicate Valid()
      reads this
    {
      && Displays(filtered, posts, searchQuery, authorFilter, sortBy)
      && 1 <= currentPage && (currentPage == 1 || currentPage <= TotalPages())
    }

    /** The page once mounted: all authors, newest first, and the effect has run once. */
    constructor (loaded: seq<FeedPost>, query: Option<string>)
      ensures Valid()
      ensures posts == loaded && searchQuery == query
      ensures authorFilter == AllAuthors && sortBy == "newest" && currentPage == 1
    {
      posts := loaded;
      filtered := loaded;
      searchQuery := query;
      authorFilter := AllAuthors;
      sortBy := "newest";
      currentPage := 1;
      new;
      RunEffect();
    }

    function TotalPages(): (n: nat)
      reads this
      ensures n == PageCount(|filtered|)
    {
      PageCount(|filtered|)
    }

    /** `filteredPosts.slice((currentPage - 1) * 6, currentPage * 6)` */
    function VisiblePosts(): (r: seq<FeedPost>)
      reads this
      requires Valid()
      ensures |r| <= PostsPerPage
      ensures r == [] <==> filtered == []
      ensures forall i | 0 <= i < |r| ::
                (currentPage - 1) * PostsPerPage + i < |filtered| && r[i] == filtered[(currentPage - 1) * PostsPerPage + i]
    {
      PageStartInRange(currentPage, |filtered|);
      Slice(filtered, (currentPage - 1) * PostsPerPage, currentPage * PostsPerPage)
    }

    /** An empty page shows the "No posts found" message in place of the grid. */
    predicate ShowsNoPostsMessage(): (shown: bool)
      reads this
      requires Valid()
      ensures shown <==> filtered == []
    {
      |VisiblePosts()| == 0
    }

    /** The pagination bar, with its previous, numbered and next buttons, appears only when there are two pages or more. */
    predicate ShowsPagination()
      reads this
    {
      TotalPages() > 1
    }

    /**
     * The effect: filters a copy of `posts` by the search text and then by
     * author, sorts it by date in place (a stable sort), stores it and goes
     * back to page 1. `posts` itself is not reordered.
     */
    method RunEffect()
      modifies this
      ensures Valid()
      ensures posts == old(posts) && searchQuery == old(searchQuery)
      ensures authorFilter == old(authorFilter) && sortBy == old(sortBy)
      ensures currentPage == 1
      ensures multiset(filtered) <= multiset(posts)
    {
      var result := posts;
      result := SearchFiltered(result, searchQuery);
      result := AuthorFiltered(result, authorFilter);
      result := SortByKey(result, FeedCreatedAt, NewestFirst(sortBy));
      SelectionDisplayed(posts, searchQuery, authorFilter, sortBy, result);
      filtered := result;
      currentPage := 1;
    }

    /**
     * Choosing an author in the menu. Setting the value it already has does
     * not re-render, so the effect does not run and the page is kept.
     */
    method SetAuthorFilter(author: string)
      modifies this
      requires Valid()
      ensures Valid() && authorFilter == author
      ensures author != old(authorFilter) ==> currentPage == 1
      ensures author == old(authorFilter) ==> filtered == old(filtered) && currentPage == old(currentPage)
      ensures posts == old(posts) && searchQuery == old(searchQuery) && sortBy == old(sortBy)
    {
      if author != authorFilter {
        authorFilter := author;
        RunEffect();
      }
    }

    /** Choosing a sort order: the same posts, re-sorted, from page 1. */
    method SetSortBy(order: string)
      modifies this
      requires Valid()
      ensures Valid() && sortBy == order
      ensures order != old(sortBy) ==> currentPage == 1 && multiset(filtered) == multiset(old(filtered))
      ensures order == old(sortBy) ==> filtered == old(filtered) && currentPage == old(currentPage)
      ensures posts == old(posts) && searchQuery == old(searchQuery) && authorFilter == old(authorFilter)
    {
      if order != sortBy {
        sortBy := order;
        RunEffect();
      }
    }

    /** A new search text from the parent (the `searchQuery` prop). */
    method SetSearchQuery(query: Option<string>)
      modifies this
      requires Valid()
      ensures Valid() && searchQuery == query
      ensures query != old(searchQuery) ==> currentPage == 1
      ensures query == old(searchQuery) ==> filtered == old(filtered) && currentPage == old(currentPage)
      ensures posts == old(posts) && authorFilter == old(authorFilter) && sortBy == old(sortBy)
    {
      if query != searchQuery {
        searchQuery := query;
        RunEffect();
      }
    }

    /** The previous-page button: `Math.max(prev - 1, 1)`. */
    method PreviousPage()
      modifies this
      requires Valid() && ShowsPagination()
      ensures Valid() && currentPage == if old(currentPage) > 1 then old(currentPage) - 1 else 1
      ensures filtered == old(filtered) && posts == old(posts)
    {
      currentPage := if currentPage - 1 > 1 then currentPage - 1 else 1;
    }

    /** The next-page button: `Math.min(prev + 1, totalPages)`. */
    method NextPage()
      modifies this
      requires Valid() && ShowsPagination()
      ensures Valid() && currentPage == if old(currentPage) < TotalPages() then old(currentPage) + 1 else TotalPages()
      ensures filtered == old(filtered) && posts == old(posts)
    {
      currentPage := if currentPage + 1 < TotalPages() then currentPage + 1 else TotalPages();
    }

    /** The numbered button `i + 1`. */
    method GoToPage(i: nat)
      modifies this
      requires Valid() && ShowsPagination() && i < TotalPages()
      ensures Valid() && currentPage == i + 1
      ensures filtered == old(filtered) && posts == old(posts)
    {
      currentPage := i + 1;
    }
  }

  /** Every post of the list is shown on exactly one page: post `i` is entry `i % 6` of page `i / 6 + 1`. */
  lemma EveryPostOnItsPage(filtered: seq<FeedPost>, i: nat)
    requires i < |filtered|
    ensures var page := i / PostsPerPage + 1;
            && 1 <= page <= PageCount(|filtered|)
            && var shown := Slice(filtered, (page - 1) * PostsPerPage, page * PostsPerPage);
               i % PostsPerPage < |shown| && shown[i % PostsPerPage] == filtered[i]
  {
    var page := i / PostsPerPage + 1;
    assert (page - 1) * PostsPerPage + i % PostsPerPage == i;
    assert (page - 1) * PostsPerPage <= i;
  }

  /** Page `p` starts inside the list whenever it is one of its pages. */
  lemma PageStartInRange(p: int, n: nat)
    requires 1 <= p && (p == 1 || p <= PageCount(n))
    ensures 0 <= (p - 1) * PostsPerPage
    ensures n > 0 ==> (p - 1) * PostsPerPage < n
  {
  }
}
