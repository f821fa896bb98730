/** Likes and favourites: each flips the membership of one (user, post)
    link in a unique relation. A like also moves the post's like counter,
    which never drops below zero. */
module InteractionService {
  import opened Wrappers
  import opened Errors
  import opened Numbers
  import opened Database
  import Posts

  datatype InteractionResponse = InteractionResponse(active: bool, total: int)

  const MSG_LOGIN_FIRST: string := "请先登录"
  const MSG_USER_MISSING: string := "用户不存在"
  const MSG_POST_MISSING: string := "文章不存在"

  /** The signed-in user's account, or why there is none. */
  function RequireCurrentUser(db: Db, currentUser: Option<int>): (r: Outcome<int>)
    ensures currentUser.None? ==> r == Failure(Fail(Unauthorized, MSG_LOGIN_FIRST))
    ensures currentUser.Some? && currentUser.value !in db.users ==> r == Failure(NotFoundError(MSG_USER_MISSING))
    ensures r.Success? <==> currentUser.Some? && currentUser.value in db.users
    ensures r.Success? ==> r.value == currentUser.value
  {
    if currentUser.None? then Failure(Fail(Unauthorized, MSG_LOGIN_FIRST))
    else if currentUser.value !in db.users then Failure(NotFoundError(MSG_USER_MISSING))
    else Success(currentUser.value)
  }

  /** `safeInt`: a missing counter reads as 0. */
  function SafeInt(v: Option<int>): (n: int)
    ensures v.None? ==> n == 0
    ensures v.Some? ==> n == v.value
  {
    OrZero(v)
  }

  function Max(a: int, b: int): int {
    if a >= b then a else b
  }

  /** `toggleLike`: the user, then the post, must exist. An existing like is
      removed and the counter drops by one but not below zero; otherwise a
      like is added and the counter rises by one (Java int arithmetic). The
      total is the post's number of likes afterwards. */
  function ToggleLike(db: Db, currentUser: Option<int>, postId: int): (r: Outcome<(Db, InteractionResponse)>)
    ensures RequireCurrentUser(db, currentUser).Failure? ==> r == Failure(RequireCurrentUser(db, currentUser).error)
    ensures RequireCurrentUser(db, currentUser).Success? && postId !in db.posts ==> r == Failure(NotFoundError(MSG_POST_MISSING))
    ensures r.Success? ==>
      var link := Link(currentUser.value, postId);
      var (db', resp) := r.value;
      var before := SafeInt(db.posts[postId].likeCount);
      && currentUser.Some? && postId in db.posts
      && (resp.active <==> link !in db.likes)
      && db'.likes == (if resp.active then db.likes + {link} else db.likes - {link})
      && db'.posts == db.posts[postId := db.posts[postId].(likeCount := Some(
           if resp.active then Wrap32(before + 1) else Max(0, Wrap32(before - 1))))]
      && db' == db.(likes := db'.likes, posts := db'.posts)
      && resp.total == |LinksTo(db'.likes, postId)|
    ensures r.Success? && !r.value.1.active ==> SafeInt(r.value.0.posts[postId].likeCount) >= 0
  {
    var user :- RequireCurrentUser(db, currentUser);
    if postId !in db.posts then Failure(NotFoundError(MSG_POST_MISSING))
    else
      var link := Link(user, postId);
      var p := db.posts[postId];
      var active := link !in db.likes;
      var likes := if active then db.likes + {link} else db.likes - {link};
      var count := if active then Wrap32(SafeInt(p.likeCount) + 1) else Max(0, Wrap32(SafeInt(p.likeCount) - 1));
      var db' := db.(likes := likes, posts := db.posts[postId := p.(likeCount := Some(count))]);
      Success((db', InteractionResponse(active, |LinksTo(likes, postId)|)))
  }

  /** Two likes in a row by the same user restore the set of likes, and the
      counter too when it starts inside the Java int range without being at
      its ends. */
  lemma ToggleLikeTwice(db: Db, user: int, postId: int)
    requires user in db.users && postId in db.posts
    ensures var r1 := ToggleLike(db, Some(user), postId);
      && r1.Success?
      && var r2 := ToggleLike(r1.value.0, Some(user), postId);
      && r2.Success?
      && r2.value.0.likes == db.likes
      && r1.value.1.active != r2.value.1.active
      && (db.posts[postId].likeCount.Some? && 1 <= db.posts[postId].likeCount.value < INT_MAX ==>
            r2.value.0.posts[postId].likeCount == db.posts[postId].likeCount)
  {
    var link := Link(user, postId);
    if link in db.likes {
      assert (db.likes - {link}) + {link} == db.likes;
    } else {
      assert (db.likes + {link}) - {link} == db.likes;
    }
  }

  /** `toggleFavorite`: flips the (user, post) favourite and reports the
      post's number of favourites; post counters are untouched. */
  function ToggleFavorite(db: Db, currentUser: Option<int>, postId: int): (r: Outcome<(Db, InteractionResponse)>)
    ensures RequireCurrentUser(db, currentUser).Failure? ==> r == Failure(RequireCurrentUser(db, currentUser).error)
    ensures RequireCurrentUser(db, currentUser).Success? && postId !in db.posts ==> r == Failure(NotFoundError(MSG_POST_MISSING))
    ensures r.Success? ==>
      var link := Link(currentUser.value, postId);
      var (db', resp) := r.value;
      && currentUser.Some? && postId in db.posts
      && (resp.active <==> link !in db.favorites)
      && db' == db.(favorites := if resp.active then db.favorites + {link} else db.favorites - {link})
      && resp.total == |LinksTo(db'.favorites, postId)|
  {
    var user :- RequireCurrentUser(db, currentUser);
    if postId !in db.posts then Failure(NotFoundError(MSG_POST_MISSING))
    else
      var link := Link(user, postId);
      var active := link !in db.favorites;
      var favorites := if active then db.favorites + {link} else db.favorites - {link};
      Success((db.(favorites := favorites), InteractionResponse(active, |LinksTo(favorites, postId)|)))
  }

  /** Two favourite toggles in a row restore the database. */
  lemma ToggleFavoriteTwice(db: Db, user: int, postId: int)
    requires user in db.users && postId in db.posts
    ensures var r1 := ToggleFavorite(db, Some(user), postId);
      && r1.Success?
      && var r2 := ToggleFavorite(r1.value.0, Some(user), postId);
      && r2.Success? && r2.value.0 == db
  {
    var link := Link(user, postId);
    if link in db.favorites {
      assert (db.favorites - {link}) + {link} == db.favorites;
    } else {
      assert (db.favorites + {link}) - {link} == db.favorites;
    }
  }
}
