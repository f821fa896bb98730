/** Comment workflows: the public reply forest of a post, submission (every
    new comment waits for moderation), the moderation queue, and the status
    changes and deletions that keep a post's comment counter equal to its
    number of approved comments. */
module CommentService {
  import opened Wrappers
  import opened Errors
  import opened Numbers
  import opened Comments
  import opened Database
  import CommentForest
  import Posts
  import Paging
  import SensitiveWordFilter
  import ContentSanitizer

  // ---- listApproved ----

  /** `findByPostIdAndStatusOrderByCreatedAtAsc(postId, "approved")`. */
  function ApprovedFor(cs: CommentTable, postId: int): (r: seq<Comment>)
    ensures forall c :: c in r <==> c in cs && ApprovedOn(c, postId)
  {
    if cs == [] then []
    else
      var rest := ApprovedFor(cs[1..], postId);
      assert forall c :: c in cs <==> c == cs[0] || c in cs[1..];
      if ApprovedOn(cs[0], postId) then [cs[0]] + rest else rest
  }

  lemma {:induction false} ApprovedForUnique(cs: CommentTable, postId: int)
    requires IdsUnique(cs)
    ensures IdsUnique(ApprovedFor(cs, postId))
  {
    if cs != [] {
      var tail := cs[1..];
      assert IdsUnique(tail) by {
        forall i, j | 0 <= i < |tail| && 0 <= j < |tail| && i != j
          ensures tail[i].id != tail[j].id
        {
          assert tail[i] == cs[i + 1] && tail[j] == cs[j + 1];
        }
      }
      ApprovedForUnique(tail, postId);
      var rest := ApprovedFor(tail, postId);
      forall c | c in rest
        ensures c.id != cs[0].id
      {
        var j :| 0 <= j < |tail| && tail[j] == c;
        assert c == cs[j + 1];
      }
    }
  }

  /** `listApproved`: the reply forest of the post's approved comments. */
  function ListApproved(db: Db, postId: int): seq<CommentForest.Node> {
    CommentForest.Forest(ApprovedFor(db.comments, postId))
  }

  /** Only the post's approved comments appear, none twice; the roots are
      its parentless approved comments in creation order; and an approved
      comment appears exactly when its chain of parents reaches a root. */
  lemma ListApprovedContents(db: Db, postId: int)
    requires Valid(db)
    ensures forall c :: c in CommentForest.FlattenAll(ListApproved(db, postId)) ==> c in db.comments && ApprovedOn(c, postId)
    ensures CommentForest.Distinct(CommentForest.FlattenAll(ListApproved(db, postId)))
    ensures CommentForest.RootComments(ListApproved(db, postId)) == CommentForest.Parentless(ApprovedFor(db.comments, postId))
    ensures var cs := ApprovedFor(db.comments, postId);
      forall k :: 0 <= k < |cs| ==> (cs[k] in CommentForest.FlattenAll(ListApproved(db, postId)) <==> CommentForest.Attached(cs, k))
  {
    var cs := ApprovedFor(db.comments, postId);
    ApprovedForUnique(db.comments, postId);
    CommentForest.ForestDistinct(cs);
    CommentForest.ForestMembers(cs);
    CommentForest.RootsAreParentless(cs, 0);
    assert cs[0..] == cs;
  }

  // ---- addComment ----

  datatype CommentRequest = CommentRequest(content: string, parentId: Option<int>)

  const MSG_POST_MISSING: string := "文章不存在"
  const MSG_LOGIN_FIRST: string := "请先登录后再评论"
  const MSG_USER_MISSING: string := "用户不存在"
  const MSG_PARENT_MISSING: string := "父评论不存在"
  const MSG_PARENT_ELSEWHERE: string := "父评论不属于当前文章"
  const MSG_COMMENT_MISSING: string := "评论不存在"

  /** The parent a request names is acceptable: absent, or an existing
      comment on the same post. */
  function CheckParent(db: Db, postId: int, parentId: Option<int>): (r: Outcome<Option<int>>)
    ensures r.Success? ==> r.value == parentId
    ensures parentId.None? ==> r.Success?
    ensures parentId.Some? && IndexOf(db.comments, parentId.value).None? ==> r == Failure(NotFoundError(MSG_PARENT_MISSING))
    ensures parentId.Some? && IndexOf(db.comments, parentId.value).Some? ==>
      (r.Success? <==> db.comments[IndexOf(db.comments, parentId.value).value].postId == postId)
    ensures r.Failure? && parentId.Some? && IndexOf(db.comments, parentId.value).Some? ==> r.error == Fail(BadRequest, MSG_PARENT_ELSEWHERE)
  {
    match parentId
    case None => Success(None)
    case Some(pid) =>
      match IndexOf(db.comments, pid)
      case None => Failure(NotFoundError(MSG_PARENT_MISSING))
      case Some(i) =>
        if db.comments[i].postId != postId then Failure(Fail(BadRequest, MSG_PARENT_ELSEWHERE))
        else Success(parentId)
  }

  /** The post exists, someone is signed in and the text has no banned
      word: the checks `addComment` makes before looking up the author. */
  predicate PassesFirstChecks(db: Db, postId: int, request: CommentRequest, currentUser: Option<int>, words: seq<string>) {
    postId in db.posts && currentUser.Some? && SensitiveWordFilter.AssertClean(Some(request.content), words).Success?
  }

  /** `addComment`: checks the post, the signed-in user, the banned words,
      the author row and the parent, in that order, and appends a pending
      comment. `newId` is the identifier the database assigns. */
  function AddComment(db: Db, postId: int, request: CommentRequest, currentUser: Option<int>,
                      ip: string, userAgent: string, words: seq<string>, clean: string -> string,
                      newId: int, now: Posts.Instant): (r: Outcome<(Db, Comment)>)
    requires IndexOf(db.comments, newId).None?
    ensures postId !in db.posts ==> r == Failure(NotFoundError(MSG_POST_MISSING))
    ensures postId in db.posts && currentUser.None? ==> r == Failure(Fail(Unauthorized, MSG_LOGIN_FIRST))
    ensures postId in db.posts && currentUser.Some? && SensitiveWordFilter.AssertClean(Some(request.content), words).Failure? ==>
      r == Failure(SensitiveWordFilter.AssertClean(Some(request.content), words).error)
    ensures PassesFirstChecks(db, postId, request, currentUser, words) && currentUser.value !in db.users ==>
      r == Failure(NotFoundError(MSG_USER_MISSING))
    ensures PassesFirstChecks(db, postId, request, currentUser, words) && currentUser.value in db.users ==>
      var parent := CheckParent(db, postId, request.parentId);
      parent.Failure? ==> r == Failure(parent.error)
    ensures r.Success? <==>
      && PassesFirstChecks(db, postId, request, currentUser, words)
      && currentUser.value in db.users
      && CheckParent(db, postId, request.parentId).Success?
    ensures r.Success? ==>
      var (db', c) := r.value;
      && c.status == STATUS_PENDING && c.postId == postId && c.id == newId
      && c.userId == currentUser && c.parentId == request.parentId && c.createdAt == now
      && Some(c.content) == ContentSanitizer.Sanitize(Some(request.content), clean)
      && c.ipAddress == Some(ip) && c.userAgent == Some(userAgent) && c.authorName.None?
      && db' == db.(comments := db.comments + [c])
    ensures r.Success? && request.parentId.Some? ==>
      exists i :: 0 <= i < |db.comments| && db.comments[i].id == request.parentId.value && db.comments[i].postId == postId
    ensures r.Success? ==> SensitiveWordFilter.AssertClean(Some(request.content), words).Success?
    ensures r.Success? && Valid(db) ==> Valid(r.value.0)
  {
    if postId !in db.posts then Failure(NotFoundError(MSG_POST_MISSING))
    else if currentUser.None? then Failure(Fail(Unauthorized, MSG_LOGIN_FIRST))
    else
      var _ :- SensitiveWordFilter.AssertClean(Some(request.content), words);
      var content := ContentSanitizer.Sanitize(Some(request.content), clean).value;
      if currentUser.value !in db.users then Failure(NotFoundError(MSG_USER_MISSING))
      else
        var parent :- CheckParent(db, postId, request.parentId);
        var c := Comment(newId, postId, currentUser, parent, content, None, STATUS_PENDING, Some(ip), Some(userAgent), now);
        var db' := db.(comments := db.comments + [c]);
        assert forall i :: 0 <= i < |db.comments| ==> db'.comments[i] == db.comments[i];
        Success((db', c))
  }

  // ---- status changes and deletion ----

  /** `refreshCommentCount`: the post's counter becomes its number of
      approved comments (narrowed to a Java int). */
  function RefreshCommentCount(db: Db, postId: int): (r: Outcome<Db>)
    ensures postId !in db.posts <==> r.Failure?
    ensures r.Failure? ==> r.error == NotFoundError(MSG_POST_MISSING)
    ensures r.Success? ==>
      && r.value.posts.Keys == db.posts.Keys
      && r.value.posts[postId] == db.posts[postId].(commentCount := Some(Wrap32(|ApprovedPositions(db.comments, postId)|)))
      && (forall id :: id in db.posts && id != postId ==> r.value.posts[id] == db.posts[id])
      && r.value == db.(posts := r.value.posts)
  {
    if postId !in db.posts then Failure(NotFoundError(MSG_POST_MISSING))
    else
      ApprovedCountIsSize(db.comments, postId);
      var p := db.posts[postId];
      Success(db.(posts := db.posts[postId := p.(commentCount := Some(Wrap32(ApprovedCount(db.comments, postId))))]))
  }

  /** `db'` is `db` with its comments replaced by `cs` and post `p`'s
      counter recounted over them; no other post and no other table
      changes. */
  predicate Recounted(db: Db, cs: CommentTable, p: int, db': Db)
    requires p in db.posts
  {
    && db'.posts.Keys == db.posts.Keys
    && db'.posts[p] == db.posts[p].(commentCount := Some(Wrap32(|ApprovedPositions(cs, p)|)))
    && (forall q :: q in db.posts && q != p ==> db'.posts[q] == db.posts[q])
    && db' == db.(comments := cs, posts := db'.posts)
  }

  /** The comments with comment `i` given `status`, the others untouched. */
  function WithStatusAt(cs: CommentTable, i: nat, status: string): (r: CommentTable)
    requires i < |cs|
    ensures |r| == |cs| && r[i] == cs[i].(status := status)
    ensures forall j :: 0 <= j < |cs| && j != i ==> r[j] == cs[j]
  {
    cs[i := cs[i].(status := status)]
  }

  /** `updateStatus`: a missing comment is 404, a comment whose post is
      gone is 404; otherwise the comment takes the status and its post is
      recounted, and nothing else changes. */
  function UpdateStatus(db: Db, id: int, status: string): (r: Outcome<Db>)
    ensures IndexOf(db.comments, id).None? ==> r == Failure(NotFoundError(MSG_COMMENT_MISSING))
    ensures r.Failure? <==> IndexOf(db.comments, id).None? || db.comments[IndexOf(db.comments, id).value].postId !in db.posts
    ensures IndexOf(db.comments, id).Some? && db.comments[IndexOf(db.comments, id).value].postId !in db.posts ==>
      r == Failure(NotFoundError(MSG_POST_MISSING))
    ensures r.Success? ==>
      && IndexOf(db.comments, id).Some?
      && var i := IndexOf(db.comments, id).value;
      && db.comments[i].postId in db.posts
      && Recounted(db, WithStatusAt(db.comments, i, status), db.comments[i].postId, r.value)
  {
    match IndexOf(db.comments, id)
    case None => Failure(NotFoundError(MSG_COMMENT_MISSING))
    case Some(i) =>
      RefreshCommentCount(db.(comments := WithStatusAt(db.comments, i, status)), db.comments[i].postId)
  }

  /** `approve`: the comment becomes approved on its post, the post's
      counter counts it, and nothing else changes. */
  function Approve(db: Db, id: int): (r: Outcome<Db>)
    ensures r.Failure? <==> IndexOf(db.comments, id).None? || db.comments[IndexOf(db.comments, id).value].postId !in db.posts
    ensures r.Success? ==>
      && IndexOf(db.comments, id).Some?
      && var i := IndexOf(db.comments, id).value;
      && db.comments[i].postId in db.posts
      && Recounted(db, WithStatusAt(db.comments, i, STATUS_APPROVED), db.comments[i].postId, r.value)
      && ApprovedOn(r.value.comments[i], db.comments[i].postId)
  {
    UpdateStatus(db, id, STATUS_APPROVED)
  }

  /** `reject`: the comment becomes rejected, no longer counts on its post,
      and nothing else changes. */
  function Reject(db: Db, id: int): (r: Outcome<Db>)
    ensures r.Failure? <==> IndexOf(db.comments, id).None? || db.comments[IndexOf(db.comments, id).value].postId !in db.posts
    ensures r.Success? ==>
      && IndexOf(db.comments, id).Some?
      && var i := IndexOf(db.comments, id).value;
      && db.comments[i].postId in db.posts
      && Recounted(db, WithStatusAt(db.comments, i, STATUS_REJECTED), db.comments[i].postId, r.value)
      && r.value.comments[i].status == STATUS_REJECTED
      && !ApprovedOn(r.value.comments[i], db.comments[i].postId)
  {
    UpdateStatus(db, id, STATUS_REJECTED)
  }

  /** Approving a comment raises its post's approved count by one when it
      was not approved before, and leaves it unchanged otherwise. */
  lemma ApproveCountsOnce(cs: CommentTable, i: nat)
    requires i < |cs|
    ensures var cs' := cs[i := cs[i].(status := STATUS_APPROVED)];
      |ApprovedPositions(cs', cs[i].postId)| ==
        |ApprovedPositions(cs, cs[i].postId)| + (if cs[i].status == STATUS_APPROVED then 0 else 1)
  {
    var cs' := cs[i := cs[i].(status := STATUS_APPROVED)];
    var p := cs[i].postId;
    if cs[i].status == STATUS_APPROVED {
      assert ApprovedPositions(cs', p) == ApprovedPositions(cs, p);
    } else {
      assert ApprovedPositions(cs', p) == ApprovedPositions(cs, p) + {i};
    }
  }

  function RemoveAt(cs: CommentTable, i: nat): (r: CommentTable)
    requires i < |cs|
    ensures |r| == |cs| - 1
    ensures forall j :: 0 <= j < i ==> r[j] == cs[j]
    ensures forall j :: i <= j < |r| ==> r[j] == cs[j + 1]
  {
    cs[..i] + cs[i + 1..]
  }

  /** `delete`: a missing comment is 404, a comment whose post is gone is
      404; otherwise the comment is removed and its post recounted, and
      nothing else changes. */
  function Delete(db: Db, id: int): (r: Outcome<Db>)
    ensures IndexOf(db.comments, id).None? ==> r == Failure(NotFoundError(MSG_COMMENT_MISSING))
    ensures r.Failure? <==> IndexOf(db.comments, id).None? || db.comments[IndexOf(db.comments, id).value].postId !in db.posts
    ensures IndexOf(db.comments, id).Some? && db.comments[IndexOf(db.comments, id).value].postId !in db.posts ==>
      r == Failure(NotFoundError(MSG_POST_MISSING))
    ensures r.Success? ==>
      && IndexOf(db.comments, id).Some?
      && var i := IndexOf(db.comments, id).value;
      && db.comments[i].postId in db.posts
      && Recounted(db, RemoveAt(db.comments, i), db.comments[i].postId, r.value)
    ensures r.Success? && IdsUnique(db.comments) ==> forall c :: c in r.value.comments ==> c.id != id
  {
    match IndexOf(db.comments, id)
    case None => Failure(NotFoundError(MSG_COMMENT_MISSING))
    case Some(i) =>
      var c := db.comments[i];
      var cs := RemoveAt(db.comments, i);
      assert IdsUnique(db.comments) ==> forall j :: 0 <= j < |cs| ==> cs[j].id != id;
      RefreshCommentCount(db.(comments := cs), c.postId)
  }

  // ---- listForModeration ----

  datatype ModerationItem = ModerationItem(
    id: int, postId: int, postTitle: string, authorName: string,
    content: string, status: string, createdAt: Posts.Instant)

  const ANONYMOUS: string := "匿名用户"

  /** The displayed author: the account's nickname or username, else the
      name left on the comment, else "anonymous". */
  function AuthorName(db: Db, c: Comment): (name: string)
    ensures c.userId.Some? && c.userId.value in db.users && db.users[c.userId.value].nickname.Some? ==>
      name == db.users[c.userId.value].nickname.value
    ensures c.userId.Some? && c.userId.value in db.users && db.users[c.userId.value].nickname.None? ==>
      name == db.users[c.userId.value].username
    ensures (c.userId.None? || c.userId.value !in db.users) && c.authorName.Some? ==> name == c.authorName.value
    ensures (c.userId.None? || c.userId.value !in db.users) && c.authorName.None? ==> name == ANONYMOUS
  {
    if c.userId.Some? && c.userId.value in db.users then
      var u := db.users[c.userId.value];
      u.nickname.GetOr(u.username)
    else c.authorName.GetOr(ANONYMOUS)
  }

  function WithStatus(cs: CommentTable, status: string): (r: seq<Comment>)
    ensures forall c :: c in r <==> c in cs && c.status == status
    ensures forall i :: 0 <= i < |r| ==> r[i].status == status
    ensures |r| <= |cs|
  {
    if cs == [] then []
    else
      var rest := WithStatus(cs[1..], status);
      assert forall c :: c in cs <==> c == cs[0] || c in cs[1..];
      if cs[0].status == status then [cs[0]] + rest else rest
  }

  /** The moderation record of a stored comment: its own fields, its
      post's title and its displayed author. */
  function ToItem(db: Db, c: Comment): (item: ModerationItem)
    requires c.postId in db.posts
    ensures item.id == c.id && item.postId == c.postId && item.status == c.status
    ensures item.postTitle == db.posts[c.postId].title && item.authorName == AuthorName(db, c)
    ensures item.content == c.content && item.createdAt == c.createdAt
  {
    ModerationItem(c.id, c.postId, db.posts[c.postId].title, AuthorName(db, c), c.content, c.status, c.createdAt)
  }

  /** The moderation items of some stored comments, in order. */
  function ToItems(db: Db, cs: seq<Comment>): (items: seq<ModerationItem>)
    requires forall c :: c in cs ==> c.postId in db.posts
    ensures |items| == |cs|
    ensures forall j :: 0 <= j < |cs| ==> items[j] == ToItem(db, cs[j])
  {
    seq(|cs|, j requires 0 <= j < |cs| => ToItem(db, cs[j]))
  }

  /** The page index `listForModeration` asks for: one below the requested
      page in Java int arithmetic, never negative. */
  function ModerationIndex(page: int): (index: int)
    requires IsInt32(page)
    ensures index >= 0
    ensures page >= 1 ==> index == page - 1
    ensures page <= 1 && page != INT_MIN ==> index == 0
    ensures page == INT_MIN ==> index == INT_MAX
  {
    if Wrap32(page - 1) > 0 then Wrap32(page - 1) else 0
  }

  /** The page request of `listForModeration`: the size capped at 50, and a
      size below one rejected by `PageRequest.of`. */
  function ModerationRequest(page: int, size: int): (r: Outcome<Paging.PageRequest>)
    requires IsInt32(page) && IsInt32(size)
    ensures r.Failure? <==> size < 1
    ensures r.Success? ==> r.value == Paging.PageRequest(ModerationIndex(page), if size < 50 then size else 50)
  {
    Paging.PageRequestOf(ModerationIndex(page), if size < 50 then size else 50)
  }

  /** `listForModeration`: the status defaults to pending; the page holds
      the requested slice of the comments with that status, and the total
      counts them all. The response echoes the requested page and size. */
  function ListForModeration(db: Db, status: Option<string>, page: int, size: int): (r: Outcome<Paging.PageResponse<ModerationItem>>)
    requires CommentsLinked(db)
    requires IsInt32(page) && IsInt32(size)
    ensures r.Failure? <==> size < 1
    ensures r.Success? ==>
      var wanted := status.GetOr(STATUS_PENDING);
      var all := WithStatus(db.comments, wanted);
      var slice := Paging.Slice(all, ModerationRequest(page, size).value);
      && r.value.page == page && r.value.size == size
      && r.value.total == |all|
      && |r.value.records| == |slice|
      && (forall j :: 0 <= j < |r.value.records| ==>
            && slice[j] in db.comments && slice[j].status == wanted
            && r.value.records[j] == ToItem(db, slice[j]))
  {
    var req :- ModerationRequest(page, size);
    var wanted := status.GetOr(STATUS_PENDING);
    var all := WithStatus(db.comments, wanted);
    StoredCommentsLinked(db, all);
    Success(ModerationPage(db, all, wanted, req, page, size))
  }

  /** Comments taken from the table have their post. */
  lemma StoredCommentsLinked(db: Db, cs: seq<Comment>)
    requires CommentsLinked(db)
    requires forall c :: c in cs ==> c in db.comments
    ensures forall c :: c in cs ==> c.postId in db.posts
  {
  }

  /** The page of moderation items one request selects from `all`, the
      comments with status `wanted`. */
  function ModerationPage(db: Db, all: seq<Comment>, wanted: string, req: Paging.PageRequest, page: int, size: int): (r: Paging.PageResponse<ModerationItem>)
    requires forall c :: c in all ==> c.postId in db.posts && c.status == wanted
    ensures r.page == page && r.size == size && r.total == |all|
    ensures |r.records| == |Paging.Slice(all, req)|
    ensures forall j :: 0 <= j < |r.records| ==> r.records[j] == ToItem(db, Paging.Slice(all, req)[j])
  {
    var slice := Paging.Slice(all, req);
    Paging.PageResponse(ToItems(db, slice), |all|, page, size)
  }
}
