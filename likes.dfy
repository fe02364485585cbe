/**
 * `toggleLike`: the caller's id is appended to the post's `likes` list when
 * absent and filtered out of it when present; the post is saved and the
 * response reports the new count and whether the caller now likes the post.
 */
module Likes {
  import opened Wrappers
  import opened ApiErrors
  import opened PostModel
  import opened Posts

  /** `s.filter(id => id !== x)`: every occurrence of `x` removed, everything else kept in order. */
  function Without(s: seq<UserId>, x: UserId): (r: seq<UserId>)
    ensures x !in r
    ensures |r| <= |s|
  {
    if s == [] then []
    else
      var rest := Without(s[1..], x);
      if s[0] == x then rest else [s[0]] + rest
  }

  /** The filter keeps every other id as often as it occurs, and drops all the occurrences of `x`. */
  lemma {:induction false} WithoutCounts(s: seq<UserId>, x: UserId)
    ensures forall y | y != x :: multiset(Without(s, x))[y] == multiset(s)[y]
    ensures |Without(s, x)| == |s| - multiset(s)[x]
  {
    if s != [] {
      WithoutCounts(s[1..], x);
      assert s == [s[0]] + s[1..];
    }
  }

  /** Filtering distributes over concatenation, so the entries kept stay in their relative order. */
  lemma {:induction false} WithoutConcat(a: seq<UserId>, b: seq<UserId>, x: UserId)
    ensures Without(a + b, x) == Without(a, x) + Without(b, x)
  {
    if a == [] {
      assert a + b == b;
    } else {
      assert (a + b)[1..] == a[1..] + b;
      WithoutConcat(a[1..], b, x);
    }
  }

  /** Filtering out an id that is not in the list changes nothing. */
  lemma {:induction false} WithoutAbsent(s: seq<UserId>, x: UserId)
    requires x !in s
    ensures Without(s, x) == s
  {
    if s != [] {
      WithoutAbsent(s[1..], x);
      assert s == [s[0]] + s[1..];
    }
  }

  /** The likes list after the caller toggles: unliked when present, liked when absent. */
  function Toggled(likes: seq<UserId>, user: UserId): (r: seq<UserId>)
    ensures user in r <==> user !in likes
    ensures forall y | y != user :: multiset(r)[y] == multiset(likes)[y]
    ensures |r| == if user in likes then |likes| - multiset(likes)[user] else |likes| + 1
  {
    if user in likes then
      WithoutCounts(likes, user);
      Without(likes, user)
    else likes + [user]
  }

  /** A toggle flips the caller's membership and keeps every other user's. */
  lemma ToggledMembership(likes: seq<UserId>, user: UserId, y: UserId)
    ensures y in Toggled(likes, user) <==> if y == user then user !in likes else y in likes
  {
    assert y in Toggled(likes, user) <==> y in multiset(Toggled(likes, user));
    assert y in likes <==> y in multiset(likes);
  }

  /** A list without repeats keeps that property through a toggle. */
  lemma ToggledDistinct(likes: seq<UserId>, user: UserId)
    requires Distinct(likes)
    ensures Distinct(Toggled(likes, user))
  {
    var r := Toggled(likes, user);
    forall y ensures multiset(r)[y] <= 1 {
      DistinctCount(likes, y);
      if y == user && user !in likes {
        assert r == likes + [user];
      }
    }
    CountDistinct(r);
  }

  /** A list in which no id occurs twice has no repeats. */
  lemma CountDistinct(s: seq<UserId>)
    requires forall y :: multiset(s)[y] <= 1
    ensures Distinct(s)
  {
    forall i, j | 0 <= i < j < |s| ensures s[i] != s[j] {
      assert s == s[..i] + [s[i]] + s[i + 1..j] + [s[j]] + s[j + 1..];
      assert multiset(s)[s[i]] >= multiset([s[i]])[s[i]] + multiset([s[j]])[s[i]];
    }
  }

  /** In a list without repeats, no id occurs more than once. */
  lemma {:induction false} DistinctCount(s: seq<UserId>, y: UserId)
    requires Distinct(s)
    ensures multiset(s)[y] <= 1
  {
    if s != [] {
      assert s == [s[0]] + s[1..];
      DistinctCount(s[1..], y);
      if s[0] == y {
        assert y !in s[1..];
      }
    }
  }

  /** With no repeats, a toggle changes the count by exactly one. */
  lemma ToggledCount(likes: seq<UserId>, user: UserId)
    requires Distinct(likes)
    ensures |Toggled(likes, user)| == if user in likes then |likes| - 1 else |likes| + 1
  {
    DistinctCount(likes, user);
  }

  /**
   * Two toggles by the same user restore everyone's membership; with no
   * repeats they restore the multiset (so the count), and an unliked post
   * gets its list back exactly. A user who liked the post moves to the end.
   */
  lemma ToggleTwice(likes: seq<UserId>, user: UserId)
    ensures forall y :: y in Toggled(Toggled(likes, user), user) <==> y in likes
    ensures user !in likes ==> Toggled(Toggled(likes, user), user) == likes
    ensures Distinct(likes) ==> multiset(Toggled(Toggled(likes, user), user)) == multiset(likes)
  {
    forall y ensures y in Toggled(Toggled(likes, user), user) <==> y in likes {
      ToggleTwiceMember(likes, user, y);
    }
    if user !in likes {
      ToggleTwiceUnliked(likes, user);
    }
    if Distinct(likes) {
      ToggleTwiceCount(likes, user);
    }
  }

  lemma ToggleTwiceMember(likes: seq<UserId>, user: UserId, y: UserId)
    ensures y in Toggled(Toggled(likes, user), user) <==> y in likes
  {
    ToggledMembership(Toggled(likes, user), user, y);
    ToggledMembership(likes, user, y);
  }

  /** Liking and then unliking gives back the very same list. */
  lemma ToggleTwiceUnliked(likes: seq<UserId>, user: UserId)
    requires user !in likes
    ensures Toggled(Toggled(likes, user), user) == likes
  {
    assert Toggled(likes, user) == likes + [user];
    assert user in likes + [user];
    WithoutConcat(likes, [user], user);
    WithoutAbsent(likes, user);
    assert Without([user], user) == [];
  }

  lemma ToggleTwiceCount(likes: seq<UserId>, user: UserId)
    requires Distinct(likes)
    ensures multiset(Toggled(Toggled(likes, user), user)) == multiset(likes)
  {
    var twice: seq<UserId> := Toggled(Toggled(likes, user), user);
    DistinctCount(likes, user);
    assert multiset(twice)[user] == multiset(likes)[user];
  }

  /** The response payload: the new number of likes and whether the caller now likes the post. */
  datatype LikeState = LikeState(likes: nat, liked: bool, message: string)

  /**
   * `toggleLike`. A missing post is a 404 and nothing changes; otherwise the
   * post's likes become `Toggled(likes, caller)`, the save stamps
   * `updatedAt`, and every other post is kept.
   */
  method ToggleLike(store: PostStore, postId: PostId, caller: UserId, now: nat) returns (r: Result<LikeState, Error>)
    requires store.Valid()
    modifies store
    ensures store.Valid() && store.nextId == old(store.nextId)
    ensures postId !in old(store.posts) ==> r == Failure(PostNotFound) && store.posts == old(store.posts)
    ensures postId in old(store.posts) ==>
              var p := old(store.posts)[postId];
              && store.posts == old(store.posts)[postId := p.(likes := Toggled(p.likes, caller), updatedAt := now)]
              && r == Success(LikeState(|Toggled(p.likes, caller)|, caller !in p.likes,
                                        if caller in p.likes then "Post unliked" else "Post liked"))
  {
    if postId !in store.posts {
      return Failure(PostNotFound);
    }
    var post := store.posts[postId];
    var isLiked := caller in post.likes;
    var likes := post.likes;
    if isLiked {
      likes := Without(likes, caller);
    } else {
      likes := likes + [caller];
    }
    ToggledDistinct(post.likes, caller);
    store.posts := store.posts[postId := post.(likes := likes, updatedAt := now)];
    r := Success(LikeState(|likes|, !isLiked, if isLiked then "Post unliked" else "Post liked"));
  }
}
