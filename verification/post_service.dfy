/** Post administration and reading: paging, keyword search, create,
    update, soft delete, and the public read by slug, which records a
    view. The clock (`now`, `today`), the signed-in user, the sensitive
    word list, the markup cleaner and the two search queries are
    parameters. */
module PostService {
  import opened Wrappers
  import opened Errors
  import opened Numbers
  import opened Text
  import opened Split
  import opened Posts
  import opened Database
  import opened Paging
  import Tags
  import Dates
  import Redis
  import Requests
  import SensitiveWordFilter
  import ContentSanitizer
  import AnalyticsService

  const MAX_PAGE_SIZE: nat := 50
  const MSG_SLUG_TAKEN: string := "Slug 已存在"
  const MSG_NOT_SIGNED_IN: string := "未登录"
  const MSG_USER_MISSING: string := "用户不存在"
  const MSG_POST_MISSING: string := "文章不存在"
  const MSG_NOT_PUBLISHED: string := "文章不存在或未发布"
  const MSG_TAGS_MISSING: string := "部分标签不存在"

  /** `buildPageRequest`: one-based pages below 1 read as the first page;
      sizes are clamped into 1..50. */
  function BuildPageRequest(page: int, size: int): (r: PageRequest)
    ensures ValidRequest(r) && r.size <= MAX_PAGE_SIZE
    ensures page >= 1 ==> r.index == page - 1
    ensures page < 1 ==> r.index == 0
    ensures 1 <= size <= MAX_PAGE_SIZE ==> r.size == size
    ensures size < 1 ==> r.size == 1
    ensures size > MAX_PAGE_SIZE ==> r.size == MAX_PAGE_SIZE
  {
    var safePage := (if page >= 1 then page else 1) - 1;
    var atLeastOne := if size >= 1 then size else 1;
    var safeSize := if atLeastOne <= MAX_PAGE_SIZE then atLeastOne else MAX_PAGE_SIZE;
    PageRequest(safePage, safeSize)
  }

  /** The clamped request is always acceptable to `PageRequest.of`, and
      asking again for the page and size it names gives it back. */
  lemma BuildPageRequestStable(page: int, size: int)
    ensures var r := BuildPageRequest(page, size);
      && PageRequestOf(r.index, r.size) == Success(r)
      && BuildPageRequest(r.index + 1, r.size) == r
  {
  }

  /** The words that have text, in order. */
  function Words(ws: seq<string>): (r: seq<string>)
    ensures |r| <= |ws|
    ensures forall i :: 0 <= i < |r| ==> HasText(r[i]) && r[i] in ws
    ensures (forall i :: 0 <= i < |ws| ==> HasText(ws[i])) ==> r == ws
  {
    if ws == [] then []
    else
      var rest := Words(ws[1..]);
      assert forall w :: w in ws[1..] ==> w in ws;
      if HasText(ws[0]) then [ws[0]] + rest else rest
  }

  /** Each word with the prefix-match operator appended. */
  function Starred(ws: seq<string>): (r: seq<string>)
    ensures |r| == |ws|
    ensures forall i :: 0 <= i < |ws| ==> r[i] == ws[i] + "*"
  {
    seq(|ws|, i requires 0 <= i < |ws| => ws[i] + "*")
  }

  /** `buildBooleanModeKeyword`: blank gives the empty string; otherwise the
      trimmed keyword's whitespace-separated words with text, each starred,
      joined by single spaces. */
  function BooleanKeyword(keyword: string): (r: string)
    ensures !HasText(keyword) ==> r == []
  {
    if !HasText(keyword) then []
    else Join(Starred(Words(SplitSpaces(Trim(keyword)))), " ")
  }

  /** A character a reader types inside a word: printable, not whitespace. */
  predicate CleanChar(c: char) {
    !IsTrimmable(c) && !IsWhitespace(c)
  }

  /** A word as a reader types it: printable, no whitespace of any kind. */
  predicate CleanWord(w: string) {
    w != [] && forall i :: 0 <= i < |w| ==> CleanChar(w[i])
  }

  /** Clean words joined by spaces start and end with a clean character. */
  lemma {:induction false} JoinEnds(ws: seq<string>)
    requires |ws| >= 1 && forall i :: 0 <= i < |ws| ==> CleanWord(ws[i])
    ensures Join(ws, " ") != []
    ensures CleanChar(Join(ws, " ")[0]) && CleanChar(Join(ws, " ")[|Join(ws, " ")| - 1])
    decreases |ws|
  {
    var w := ws[0];
    assert CleanWord(w);
    if |ws| > 1 {
      JoinEnds(ws[1..]);
      var tail := Join(ws[1..], " ");
      assert Join(ws, " ") == w + " " + tail;
      assert Join(ws, " ")[0] == w[0];
      assert Join(ws, " ")[|Join(ws, " ")| - 1] == tail[|tail| - 1];
    } else {
      assert Join(ws, " ") == w;
      assert CleanChar(w[|w| - 1]);
    }
  }

  lemma CleanWordIsWord(w: string)
    requires CleanWord(w)
    ensures IsWord(w) && HasText(w)
  {
    assert CleanChar(w[0]);
    forall i | 0 <= i < |w| ensures !IsRegexSpace(w[i]) {
      assert CleanChar(w[i]);
      RegexSpaceIsTrimmable(w[i]);
    }
  }

  /** Text starting and ending with a clean character needs no trimming
      and has text. */
  lemma EndsClean(s: string)
    requires s != [] && CleanChar(s[0]) && CleanChar(s[|s| - 1])
    ensures HasText(s) && Trim(s) == s
  {
    TrimNoop(s);
    assert !IsWhitespace(s[0]);
  }

  /** Words typed with single spaces come back starred, in order. */
  lemma BooleanKeywordOfWords(ws: seq<string>)
    requires |ws| >= 1 && forall i :: 0 <= i < |ws| ==> CleanWord(ws[i])
    ensures BooleanKeyword(Join(ws, " ")) == Join(Starred(ws), " ")
  {
    JoinEnds(ws);
    EndsClean(Join(ws, " "));
    forall i | 0 <= i < |ws| ensures IsWord(ws[i]) && HasText(ws[i]) {
      CleanWordIsWord(ws[i]);
    }
    SplitJoin(ws);
    assert Words(ws) == ws;
  }

  /** A page of query results: the records and the total match count. */
  datatype Page = Page(records: seq<Post>, total: int)

  /** `searchPublished`: a blank keyword yields an empty page. Otherwise the
      full-text query runs on the boolean keyword when that has text, and
      the plain query on the raw keyword runs instead when the full-text
      query fails (None) or finds nothing, or when the boolean keyword is
      blank. The response echoes the page and size asked for. */
  function SearchPublished(keyword: Option<string>, page: int, size: int,
                           fulltext: (string, PageRequest) -> Option<Page>,
                           plain: (string, PageRequest) -> Page): (r: PageResponse<Post>)
    ensures r.page == page && r.size == size
    ensures !(keyword.Some? && HasText(keyword.value)) ==> r.records == [] && r.total == 0
    ensures keyword.Some? && HasText(keyword.value) ==>
      var k := keyword.value;
      var req := BuildPageRequest(page, size);
      var ft := fulltext(BooleanKeyword(k), req);
      if HasText(BooleanKeyword(k)) && ft.Some? && ft.value.records != []
      then r.records == ft.value.records && r.total == ft.value.total
      else r.records == plain(k, req).records && r.total == plain(k, req).total
  {
    if !(keyword.Some? && HasText(keyword.value)) then PageResponse([], 0, page, size)
    else
      var k := keyword.value;
      var req := BuildPageRequest(page, size);
      var bk := BooleanKeyword(k);
      var pager :=
        if HasText(bk) then
          match fulltext(bk, req)
          case Some(p) => if p.records == [] then plain(k, req) else p
          case None => plain(k, req)
        else plain(k, req);
      PageResponse(pager.records, pager.total, page, size)
  }

  /** The fields of a create or update request. */
  datatype PostRequest = PostRequest(
    title: string,
    slug: string,
    summary: Option<string>,
    content: string,
    coverUrl: Option<string>,
    status: string,
    readingTime: Option<int>,
    seoKeywords: Option<string>,
    tagIds: Option<set<int>>)

  /** `resolveTags`: no ids (null or empty) means no tags; otherwise the
      number of tags found must equal the number of ids asked for. */
  function ResolveTags(tags: Tags.TagTable, ids: Option<set<int>>): (r: Outcome<set<int>>)
    ensures r.Success? <==> ids.None? || ids.value <= tags.Keys
    ensures r.Success? ==> r.value == (if ids.None? then {} else ids.value)
    ensures r.Failure? ==> r.error == Fail(BadRequest, MSG_TAGS_MISSING)
  {
    if ids.None? || ids.value == {} then Success({})
    else
      var found := ids.value * tags.Keys;
      FoundAllIffSubset(ids.value, tags.Keys);
      if |found| != |ids.value| then Failure(Fail(BadRequest, MSG_TAGS_MISSING))
      else Success(ids.value)
  }

  /** Counting what was found detects exactly the missing ids. */
  lemma FoundAllIffSubset(ids: set<int>, keys: set<int>)
    ensures |ids * keys| == |ids| <==> ids <= keys
  {
    var missing := ids - keys;
    assert ids == (ids * keys) + missing;
    assert (ids * keys) * missing == {};
    assert |ids| == |ids * keys| + |missing|;
    if |missing| == 0 {
      assert missing == {};
      assert forall x :: x in ids ==> x in keys by {
        forall x | x in ids ensures x in keys {
          assert x !in missing;
        }
      }
    }
    if ids <= keys {
      assert missing == {};
    }
  }

  /** `applyRequest`: title, summary and content must pass the sensitive
      word check; summary and content are cleaned; the publication time is
      set on the first save with a published status and never afterwards;
      the tag ids must all exist. Identity, author, counters and deletion
      are untouched. */
  function ApplyRequest(p: Post, request: PostRequest, tags: Tags.TagTable, words: seq<string>,
                        clean: string -> string, now: Instant): (r: Outcome<Post>)
    ensures r.Failure? <==>
      || SensitiveWordFilter.AssertClean(Some(request.title), words).Failure?
      || SensitiveWordFilter.AssertClean(request.summary, words).Failure?
      || SensitiveWordFilter.AssertClean(Some(request.content), words).Failure?
      || ResolveTags(tags, request.tagIds).Failure?
    ensures r.Success? ==>
      && r.value.id == p.id && r.value.authorId == p.authorId && r.value.deletedAt == p.deletedAt
      && r.value.viewCount == p.viewCount && r.value.likeCount == p.likeCount && r.value.commentCount == p.commentCount
      && r.value.top == p.top
      && r.value.title == request.title && r.value.slug == request.slug && r.value.status == request.status
      && r.value.coverUrl == request.coverUrl && r.value.readingTime == request.readingTime
      && r.value.seoKeywords == request.seoKeywords
      && r.value.summary == ContentSanitizer.Sanitize(request.summary, clean)
      && Some(r.value.content) == ContentSanitizer.Sanitize(Some(request.content), clean)
      && r.value.tagIds == ResolveTags(tags, request.tagIds).value
    ensures r.Success? && p.publishedAt.Some? ==> r.value.publishedAt == p.publishedAt
    ensures r.Success? && p.publishedAt.None? ==>
      r.value.publishedAt == (if StatusIsPublished(request.status) then Some(now) else None)
  {
    var _ :- SensitiveWordFilter.AssertClean(Some(request.title), words);
    var _ :- SensitiveWordFilter.AssertClean(request.summary, words);
    var _ :- SensitiveWordFilter.AssertClean(Some(request.content), words);
    var content := ContentSanitizer.Sanitize(Some(request.content), clean);
    var publishedAt := if StatusIsPublished(request.status) && p.publishedAt.None? then Some(now) else p.publishedAt;
    var tagIds :- ResolveTags(tags, request.tagIds);
    Success(p.(title := request.title, slug := request.slug,
               summary := ContentSanitizer.Sanitize(request.summary, clean), content := content.value,
               coverUrl := request.coverUrl, status := request.status, readingTime := request.readingTime,
               seoKeywords := request.seoKeywords, publishedAt := publishedAt, tagIds := tagIds))
  }

  /** Once set, the publication time survives any later request. */
  lemma PublishedAtNeverOverwritten(p: Post, request1: PostRequest, request2: PostRequest, tags: Tags.TagTable,
                                    words: seq<string>, clean: string -> string, t1: Instant, t2: Instant)
    requires ApplyRequest(p, request1, tags, words, clean, t1).Success?
    requires StatusIsPublished(request1.status)
    requires ApplyRequest(ApplyRequest(p, request1, tags, words, clean, t1).value, request2, tags, words, clean, t2).Success?
    ensures var first := ApplyRequest(p, request1, tags, words, clean, t1).value;
      && first.publishedAt.Some?
      && ApplyRequest(first, request2, tags, words, clean, t2).value.publishedAt == first.publishedAt
  {
  }

  /** `create`: the slug must be free; then the request is applied to a new
      post; then a signed-in user who still exists becomes its author.
      `newId` is the identifier the database assigns. */
  function Create(db: Db, request: PostRequest, currentUser: Option<int>, words: seq<string>,
                  clean: string -> string, now: Instant, newId: int): (r: Outcome<(Db, Post)>)
    requires newId !in db.posts
    ensures SlugTaken(db.posts, request.slug) ==> r == Failure(Fail(BadRequest, MSG_SLUG_TAKEN))
    ensures !SlugTaken(db.posts, request.slug) ==>
      var applied := ApplyRequest(NewPost(newId), request, db.tags, words, clean, now);
      && (applied.Failure? ==> r == Failure(applied.error))
      && (applied.Success? && currentUser.None? ==> r == Failure(Fail(Unauthorized, MSG_NOT_SIGNED_IN)))
      && (applied.Success? && currentUser.Some? && currentUser.value !in db.users ==> r == Failure(NotFoundError(MSG_USER_MISSING)))
      && (applied.Success? && currentUser.Some? && currentUser.value in db.users ==>
            r.Success? && r.value.1 == applied.value.(authorId := currentUser))
    ensures r.Success? ==>
      && r.value.0 == db.(posts := db.posts[newId := r.value.1])
      && r.value.1.id == newId && r.value.1.slug == request.slug && r.value.1.deletedAt.None?
      && r.value.1.viewCount == Some(0) && r.value.1.likeCount == Some(0) && r.value.1.commentCount == Some(0)
      && (r.value.1.publishedAt.Some? <==> StatusIsPublished(request.status))
    ensures r.Success? && Posts.Valid(db.posts) ==> Posts.Valid(r.value.0.posts)
  {
    if SlugTaken(db.posts, request.slug) then Failure(Fail(BadRequest, MSG_SLUG_TAKEN))
    else
      var post :- ApplyRequest(NewPost(newId), request, db.tags, words, clean, now);
      if currentUser.None? then Failure(Fail(Unauthorized, MSG_NOT_SIGNED_IN))
      else if currentUser.value !in db.users then Failure(NotFoundError(MSG_USER_MISSING))
      else
        var saved := post.(authorId := currentUser);
        Success((db.(posts := db.posts[newId := saved]), saved))
  }

  /** `update`: the post must exist; a new slug must be free, while keeping
      its own slug is always allowed. */
  function Update(db: Db, id: int, request: PostRequest, words: seq<string>,
                  clean: string -> string, now: Instant): (r: Outcome<(Db, Post)>)
    ensures id !in db.posts ==> r == Failure(NotFoundError(MSG_POST_MISSING))
    ensures id in db.posts && db.posts[id].slug != request.slug && SlugTaken(db.posts, request.slug) ==>
      r == Failure(Fail(BadRequest, MSG_SLUG_TAKEN))
    ensures id in db.posts && (db.posts[id].slug == request.slug || !SlugTaken(db.posts, request.slug)) ==>
      var applied := ApplyRequest(db.posts[id], request, db.tags, words, clean, now);
      && (applied.Failure? ==> r == Failure(applied.error))
      && (applied.Success? ==> r == Success((db.(posts := db.posts[id := applied.value]), applied.value)))
    ensures r.Success? && Posts.Valid(db.posts) ==> Posts.Valid(r.value.0.posts)
  {
    if id !in db.posts then Failure(NotFoundError(MSG_POST_MISSING))
    else
      var p := db.posts[id];
      if p.slug != request.slug && SlugTaken(db.posts, request.slug) then Failure(Fail(BadRequest, MSG_SLUG_TAKEN))
      else
        var post :- ApplyRequest(p, request, db.tags, words, clean, now);
        Success((db.(posts := db.posts[id := post]), post))
  }

  /** `delete`: a soft delete stamping the deletion time; the post is then
      unpublished whatever its status. */
  function Delete(db: Db, id: int, now: Instant): (r: Outcome<Db>)
    ensures id !in db.posts <==> r.Failure?
    ensures r.Failure? ==> r.error == NotFoundError(MSG_POST_MISSING)
    ensures r.Success? ==>
      && r.value == db.(posts := db.posts[id := db.posts[id].(deletedAt := Some(now))])
      && !IsPublished(r.value.posts[id])
  {
    if id !in db.posts then Failure(NotFoundError(MSG_POST_MISSING))
    else Success(db.(posts := db.posts[id := db.posts[id].(deletedAt := Some(now))]))
  }

  /** The detail view of a post for the current reader. */
  datatype PostDetail = PostDetail(post: Post, likedByCurrentUser: bool, favoritedByCurrentUser: bool)

  /** Row `id` is the undeleted post carrying the slug
      (`findBySlugAndDeletedAtIsNull`). */
  predicate LiveWithSlug(posts: PostTable, id: int, slug: string) {
    id in posts && posts[id].slug == slug && posts[id].deletedAt.None?
  }

  /** Slugs being unique, at most one row matches. */
  lemma LiveWithSlugAtMostOne(posts: PostTable, slug: string)
    requires Posts.Valid(posts)
    ensures forall a, b :: LiveWithSlug(posts, a, slug) && LiveWithSlug(posts, b, slug) ==> a == b
  {
  }

  /** `getPublishedPostBySlug`: the undeleted post with the slug must be
      published; its view is recorded, and the detail shows the view count
      one higher than read (Java int arithmetic). */
  function GetPublishedPostBySlug(db: Db, st: Redis.Store, slug: string, currentUser: Option<int>,
                                  request: Option<Requests.HttpRequest>, today: Dates.Date): (r: Outcome<(Db, Redis.Store, PostDetail)>)
    requires Posts.Valid(db.posts) && Redis.Valid(st) && Dates.Valid(today)
    ensures (forall id :: LiveWithSlug(db.posts, id, slug) ==> !IsPublished(db.posts[id])) ==>
      r == Failure(NotFoundError(MSG_NOT_PUBLISHED))
    ensures r.Success? ==> PublishedDetail(db, slug, currentUser, r.value.2)
    ensures forall id :: LiveWithSlug(db.posts, id, slug) && IsPublished(db.posts[id]) ==>
      r == ShowPublished(db, st, id, currentUser, request, today)
  {
    match FindLive(db.posts, slug)
    case None => Failure(NotFoundError(MSG_NOT_PUBLISHED))
    case Some(id) =>
      if !IsPublished(db.posts[id]) then Failure(NotFoundError(MSG_NOT_PUBLISHED))
      else ShowPublished(db, st, id, currentUser, request, today)
  }

  /** The row `findBySlugAndDeletedAtIsNull` returns, if any. */
  function FindLive(posts: PostTable, slug: string): (r: Option<int>)
    requires Posts.Valid(posts)
    ensures r.None? <==> forall id :: !LiveWithSlug(posts, id, slug)
    ensures r.Some? ==> forall id :: LiveWithSlug(posts, id, slug) <==> id == r.value
  {
    if !exists id | id in posts :: LiveWithSlug(posts, id, slug) then None
    else
      LiveWithSlugAtMostOne(posts, slug);
      var id :| id in posts && LiveWithSlug(posts, id, slug);
      Some(id)
  }

  /** Records the view of a published post, then builds its detail. */
  function ShowPublished(db: Db, st: Redis.Store, id: int, currentUser: Option<int>,
                         request: Option<Requests.HttpRequest>, today: Dates.Date): (r: Outcome<(Db, Redis.Store, PostDetail)>)
    requires id in db.posts && Redis.Valid(st) && Dates.Valid(today)
    ensures var recorded := AnalyticsService.RecordPostView(db, st, Some(id), currentUser, request, today);
      && (recorded.Failure? ==> r == Failure(recorded.error))
      && (recorded.Success? ==> r.Success? && r.value.0 == recorded.value.0 && r.value.1 == recorded.value.1)
    ensures r.Success? ==> ShowsRow(db, id, currentUser, r.value.2)
  {
    var (db', st') :- AnalyticsService.RecordPostView(db, st, Some(id), currentUser, request, today);
    Success((db', st', Detail(db, id, currentUser)))
  }

  /** The detail of a post for a reader: its view count one higher than
      read (Java int arithmetic) and the reader's own like and favourite. */
  function Detail(db: Db, id: int, currentUser: Option<int>): (d: PostDetail)
    requires id in db.posts
    ensures ShowsRow(db, id, currentUser, d)
  {
    var p := db.posts[id];
    var liked := currentUser.Some? && Link(currentUser.value, id) in db.likes;
    var favorited := currentUser.Some? && Link(currentUser.value, id) in db.favorites;
    PostDetail(p.(viewCount := Some(Wrap32(OrZero(p.viewCount) + 1))), liked, favorited)
  }

  /** `detail` shows row `id`: the row with the view just recorded counted,
      and the reader's own like and favourite. */
  predicate ShowsRow(db: Db, id: int, currentUser: Option<int>, detail: PostDetail)
    requires id in db.posts
  {
    && detail.post == db.posts[id].(viewCount := Some(Wrap32(OrZero(db.posts[id].viewCount) + 1)))
    && (detail.likedByCurrentUser <==> currentUser.Some? && Link(currentUser.value, id) in db.likes)
    && (detail.favoritedByCurrentUser <==> currentUser.Some? && Link(currentUser.value, id) in db.favorites)
  }

  /** What a reader is shown: the published row carrying the slug, with the
      view just recorded, and their own like and favourite. */
  predicate PublishedDetail(db: Db, slug: string, currentUser: Option<int>, detail: PostDetail) {
    exists id | id in db.posts ::
      && LiveWithSlug(db.posts, id, slug) && IsPublished(db.posts[id])
      && ShowsRow(db, id, currentUser, detail)
  }

  /** A created post is the one its slug now finds. */
  lemma CreatedFoundBySlug(db: Db, request: PostRequest, currentUser: Option<int>, words: seq<string>,
                           clean: string -> string, now: Instant, newId: int)
    requires newId !in db.posts && Posts.Valid(db.posts)
    requires Create(db, request, currentUser, words, clean, now, newId).Success?
    ensures var db' := Create(db, request, currentUser, words, clean, now, newId).value.0;
      Posts.Valid(db'.posts) && FindLive(db'.posts, request.slug) == Some(newId)
  {
    var db' := Create(db, request, currentUser, words, clean, now, newId).value.0;
    assert LiveWithSlug(db'.posts, newId, request.slug);
  }

  /** A deleted post is no longer found by its slug. */
  lemma DeletedNotFoundBySlug(db: Db, id: int, now: Instant)
    requires id in db.posts && Posts.Valid(db.posts)
    ensures var db' := Delete(db, id, now).value;
      Posts.Valid(db'.posts) && FindLive(db'.posts, db.posts[id].slug).None?
  {
    var db' := Delete(db, id, now).value;
    var slug := db.posts[id].slug;
    forall other | other in db'.posts && other != id ensures db'.posts[other].slug != slug {
      assert db'.posts[other] == db.posts[other];
    }
  }
}
