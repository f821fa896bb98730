# my_blog core in Dafny

This project models the server core of a Spring Boot + Vue blog, together with the browser-side session and navigation logic. It covers:

- posts, with paging, keyword search, create, update, soft delete and reading by slug;
- threaded comments and their moderation;
- tags and tag subscriptions;
- likes and favourites;
- a Redis fixed-window rate limiter and a sensitive-word filter;
- registration and login, with rotating refresh tokens kept in Redis;
- the Spring Security principal;
- the API envelope and the global exception handler;
- Redis-backed view analytics: daily page views, unique visitors, a ranking board, and the nightly archive;
- the Pinia auth store, the token storage helpers and the router guard.

The model is functional. The database is an immutable `Db` value, with one map per table keyed by id and comments as a sequence in creation order. Redis is an immutable `Store`. Every service call is a function from its inputs to an `Outcome`: either the new state and value, or the exception it throws. The following arrive as parameters:

- the clock and today's date;
- the signed-in user id;
- the current HTTP request;
- password hashing and token generation;
- the HTML cleaner;
- the configured word list;
- the database queries the source leaves to MySQL full-text search.

Java's fixed-width arithmetic is written out where the code relies on it:

- `int` wrap-around on counters (`Numbers.Wrap32`);
- `(int) Math.min(Integer.MAX_VALUE, v)`;
- `Long.parseLong`;
- Redis `INCR` range errors.

Modules follow the source structure: one per service, entity group or frontend file, plus the supporting models `Text`, `Numbers`, `Dates`, `Split`, `SortedSet`, `Redis` and `Paging`.

## Model

| member | source | states |
|---|---|---|
| Posts.NewPost | backend/src/main/java/com/example/blog/content/entity/Post.java:56-93 | a new post is a draft, not pinned, with zero view/like/comment counters, no author, no tags, no publication or deletion time, and is not published |
| Posts.DeletedNeverPublished | backend/src/main/java/com/example/blog/content/entity/Post.java:95-97 | a soft-deleted post is never published, whatever its status text |
| ViewStats.NewViewStat | backend/src/main/java/com/example/blog/analytics/entity/ViewStat.java:31-42 | a new statistics row has zero page views and zero unique visitors for its date and post |
| Errors.NotFoundError | backend/src/main/java/com/example/blog/common/exception/ResourceNotFoundException.java:5-7 | a not-found exception is a business exception whose code is always NOT_FOUND with the given message |
| Errors.CodeInjective | backend/src/main/java/com/example/blog/common/enums/ErrorCode.java:10-16 | distinct error codes have distinct wire codes |
| Api.Ok | backend/src/main/java/com/example/blog/common/api/ApiResponse.java:21-23 | a success envelope carries success=true, code "0", message "success" and the data |
| Api.OkEmpty | backend/src/main/java/com/example/blog/common/api/ApiResponse.java:25-27 | the data-less success envelope is the success envelope with null data |
| Api.FailWith | backend/src/main/java/com/example/blog/common/api/ApiResponse.java:29-31 | a failure envelope carries the code's wire code and its default message, no data |
| Api.FailWithMessage | backend/src/main/java/com/example/blog/common/api/ApiResponse.java:33-35 | a failure with a message keeps the code and replaces the message, even by null |
| Api.FailWithCode | backend/src/main/java/com/example/blog/common/api/ApiResponse.java:37-39 | a failure with a raw code string carries that code and message verbatim |
| Api.Handle | backend/src/main/java/com/example/blog/common/exception/GlobalExceptionHandler.java:15-29 | a business exception keeps its code and message; a validation failure becomes 400 and anything else 500, both with the exception's own message |
| Api.NotFoundIs404 | backend/src/main/java/com/example/blog/common/exception/GlobalExceptionHandler.java:15-18 | a resource-not-found exception always reaches the client as code "404" with its message |
| Api.HandledNeverSuccess | backend/src/main/java/com/example/blog/common/exception/GlobalExceptionHandler.java:15-29 | no handled exception yields a success envelope or the code "0" |
| Numbers.ParseLong | backend/src/main/java/com/example/blog/analytics/service/AnalyticsService.java:75-85 | `Long.parseLong`: whatever parses lies in the 64-bit range and is non-empty |
| Numbers.ParseLongDecimal | backend/src/main/java/com/example/blog/analytics/service/AnalyticsService.java:75-85 | a text parses exactly when it is an optional sign followed by a non-empty run of ASCII digits whose signed value fits in 64 bits, and then to that value ("+5" is 5, "007" is 7) |
| Numbers.ParseShow | backend/src/main/java/com/example/blog/auth/service/RefreshTokenService.java:23-32 | the decimal text of every 64-bit value parses back to that value |
| Numbers.ShowInjective | backend/src/main/java/com/example/blog/auth/service/RefreshTokenService.java:23 | distinct numbers have distinct decimal texts |
| Numbers.ParseLongOrZero | backend/src/main/java/com/example/blog/analytics/task/AnalyticsScheduler.java:59-68 | a missing or unparsable value reads as 0, a parsable one as its value |
| Numbers.Wrap32 | backend/src/main/java/com/example/blog/interaction/service/InteractionService.java:43 | Java `int` arithmetic: the result is the unique 32-bit value congruent to the input, unchanged inside the int range |
| Text.Trim | backend/src/main/java/com/example/blog/content/service/PostService.java:243 | `String.trim`: the result is a slice of the input with no trimmable character at either end, everything cut being trimmable |
| Text.EqualsIgnoreCaseAscii | backend/src/main/java/com/example/blog/content/entity/Post.java:95-97 | an ASCII text equals a lower-case ASCII word such as "published" ignoring case exactly when its lower-case is that word |
| Dates.MinusOneDay | backend/src/main/java/com/example/blog/analytics/task/AnalyticsScheduler.java:24 | `LocalDate.minusDays(1)`: the valid day before, failing only at the earliest representable date |
| Dates.IsoTextInjective | backend/src/main/java/com/example/blog/analytics/service/AnalyticsService.java:47-50 | distinct valid dates print as distinct ISO texts, so daily keys never collide |
| Split.SplitJoin | backend/src/main/java/com/example/blog/content/service/PostService.java:243 | splitting on `\\s+` the single-space join of words without whitespace gives back the words |
| SortedSet.IncrementScore | backend/src/main/java/com/example/blog/analytics/service/AnalyticsService.java:52 | ZINCRBY adds the delta to one member's score (missing counts as 0), keeps the set sorted and every other member's score |
| SortedSet.RevTop | backend/src/main/java/com/example/blog/analytics/service/AnalyticsService.java:88-89 | the k highest entries, highest first, each taken from the set |
| SortedSet.RemoveLowest | backend/src/main/java/com/example/blog/analytics/task/AnalyticsScheduler.java:52 | ZREMRANGEBYRANK drops the lowest entries; the rest keep their scores and outrank everything dropped |
| Redis.Incr | backend/src/main/java/com/example/blog/analytics/service/AnalyticsService.java:47 | INCR: a missing key counts from 0; a non-integer value gives "ERR value is not an integer or out of range" and a value at the 64-bit maximum gives "ERR increment or decrement would overflow"; the expiry is kept and only that key changes |
| Redis.PfAdd | backend/src/main/java/com/example/blog/analytics/service/AnalyticsService.java:50 | PFADD adds the element to the key's distinct set and touches nothing else |
| Redis.PfCount | backend/src/main/java/com/example/blog/analytics/service/AnalyticsService.java:59 | PFCOUNT is the number of distinct elements, 0 for a missing key |
| Redis.Delete | backend/src/main/java/com/example/blog/analytics/task/AnalyticsScheduler.java:55-57 | DEL removes the key from every keyspace with its expiry and changes no other key |
| Redis.SetWithExpiry | backend/src/main/java/com/example/blog/auth/service/RefreshTokenService.java:23-24 | SET with an expiry stores the value and its time to live for that key only |
| Paging.PageRequestOf | backend/src/main/java/com/example/blog/content/service/CommentService.java:99 | `PageRequest.of` rejects a negative index or a size below one and accepts everything else |
| Paging.Slice | backend/src/main/java/com/example/blog/content/service/CommentService.java:98-99 | a page holds at most `size` records, record j being element index*size+j, and is full when enough records exist |
| Requests.ClientIpAsWritten | backend/src/main/java/com/example/blog/common/util/RequestUtils.java:26-38 | the first non-blank forwarding header's first comma field, trimmed, else the remote address, else "unknown"; fails when the split is empty |
| Requests.ClientIpAsWrittenFailsOnCommas | backend/src/main/java/com/example/blog/common/util/RequestUtils.java:34 | a request whose X-Forwarded-For is "," makes the lookup throw instead of naming a client |
| Requests.ClientIp | backend/src/main/java/com/example/blog/common/util/RequestUtils.java:26-38 | the corrected lookup always names a client: a header naming no address is passed over like a blank one |
| Requests.ClientIpAgrees | backend/src/main/java/com/example/blog/common/util/RequestUtils.java:26-38 | wherever the code as written names a client, the corrected lookup names the same one |
| Requests.UserAgent | backend/src/main/java/com/example/blog/common/util/RequestUtils.java:40-46 | the User-Agent header, or "unknown" without a request or header |
| ContentSanitizer.Sanitize | backend/src/main/java/com/example/blog/common/util/ContentSanitizer.java:11-16 | null and blank text pass through unchanged; other text is replaced by the cleaner's output |
| SensitiveWordFilter.AssertClean | backend/src/main/java/com/example/blog/common/service/SensitiveWordFilter.java:18-32 | blank text or an empty list passes; otherwise the text is rejected with 400 exactly when some non-blank word occurs in it ignoring ASCII case |
| SensitiveWordFilter.FlaggedTextHasText | backend/src/main/java/com/example/blog/common/service/SensitiveWordFilter.java:19-21 | a text containing a non-blank word has text itself, so the blank-text guard never changes the verdict |
| SensitiveWordFilter.BlankWordsIgnored | backend/src/main/java/com/example/blog/common/service/SensitiveWordFilter.java:28 | adding a blank word to the list never changes the verdict |
| Comments.ApprovedCountIsSize | backend/src/main/java/com/example/blog/content/service/CommentService.java:153 | the approved count of a post is the number of positions holding its approved comments |
| CommentForest.ForestMembers | backend/src/main/java/com/example/blog/content/service/CommentService.java:45-62 | with unique ids a comment appears in the reply forest exactly when its parent chain reaches a root through earlier comments |
| CommentForest.ForestDistinct | backend/src/main/java/com/example/blog/content/service/CommentService.java:45-62 | with unique ids no comment appears twice in the forest, and every one comes from the input |
| CommentForest.RootsAreParentless | backend/src/main/java/com/example/blog/content/service/CommentService.java:52-59 | the forest's roots are the parentless comments in input order |
| CommentService.ApprovedFor | backend/src/main/java/com/example/blog/content/service/CommentService.java:46 | exactly the post's approved comments, in creation order |
| CommentService.ListApprovedContents | backend/src/main/java/com/example/blog/content/service/CommentService.java:45-62 | only the post's approved comments appear, none twice; the roots are its parentless approved comments in order; a comment appears iff its parent chain reaches a root |
| CommentService.CheckParent | backend/src/main/java/com/example/blog/content/service/CommentService.java:83-90 | no parent passes; a missing parent is 404 and a parent on another post is 400 |
| CommentService.AddComment | backend/src/main/java/com/example/blog/content/service/CommentService.java:65-94 | a missing post is 404, no sign-in 401, a banned word the filter's 400, a missing author row 404, then the parent check's 404 or 400, in that order; it succeeds exactly when all pass, appending one pending comment by the user with the sanitized content, the request's parent, the IP and user agent, and no author name |
| CommentService.RefreshCommentCount | backend/src/main/java/com/example/blog/content/service/CommentService.java:150-156 | the post's comment count becomes its number of approved comments narrowed to int; a missing post is 404 |
| CommentService.UpdateStatus | backend/src/main/java/com/example/blog/content/service/CommentService.java:141-156 | a missing comment or a missing post is 404; otherwise only that comment's status changes and its post's counter becomes its approved count; no other post or table changes |
| CommentService.Approve | backend/src/main/java/com/example/blog/content/service/CommentService.java:122-124 | fails exactly when the comment or its post is missing; otherwise the comment alone becomes approved, the post is recounted, and nothing else changes |
| CommentService.Reject | backend/src/main/java/com/example/blog/content/service/CommentService.java:127-129 | fails exactly when the comment or its post is missing; otherwise the comment alone becomes rejected and no longer counts, the post is recounted, and nothing else changes |
| CommentService.ApproveCountsOnce | backend/src/main/java/com/example/blog/content/service/CommentService.java:122-124 | approving raises the post's approved count by one when the comment was not approved, else leaves it |
| CommentService.Delete | backend/src/main/java/com/example/blog/content/service/CommentService.java:132-139 | a missing comment or a missing post is 404; otherwise exactly that comment is removed and its post recounted; no other post or table changes |
| CommentService.AuthorName | backend/src/main/java/com/example/blog/content/service/CommentService.java:105-107 | an account's nickname, else its username; without an account, the name left on the comment, else the anonymous name |
| CommentService.ToItem | backend/src/main/java/com/example/blog/content/service/CommentService.java:101-111 | a moderation record carries the comment's id, post id, content, status and creation time, its post's title and the displayed author |
| CommentService.ToItems | backend/src/main/java/com/example/blog/content/service/CommentService.java:100-112 | one record per comment, in order, each the comment's own record |
| CommentService.ModerationPage | backend/src/main/java/com/example/blog/content/service/CommentService.java:113-118 | the records of the requested slice, the total of all matching comments, and the echoed page and size |
| CommentService.ModerationIndex | backend/src/main/java/com/example/blog/content/service/CommentService.java:99 | the index is one below the requested page and never negative; the int subtraction wraps, so the lowest int page asks for the highest index |
| CommentService.ModerationRequest | backend/src/main/java/com/example/blog/content/service/CommentService.java:99 | the size is capped at 50 and a size below one is rejected |
| CommentService.ListForModeration | backend/src/main/java/com/example/blog/content/service/CommentService.java:97-119 | the status defaults to pending; record j renders the comment at slice position j of the stored comments with that status, each a stored comment with that status; the total counts them all; page and size are echoed |
| TagService.FindAll | backend/src/main/java/com/example/blog/content/service/TagService.java:34-47 | every tag is listed with its own name, description and post count, subscribed exactly when the user has a subscription to it |
| TagService.ToResponse | backend/src/main/java/com/example/blog/content/service/TagService.java:90-98 | the response carries the tag's id, name, description and post count and the given subscription flag |
| TagService.Create | backend/src/main/java/com/example/blog/content/service/TagService.java:51-62 | rejected with 400 exactly when the name is taken; otherwise adds one tag and keeps names unique |
| TagService.Update | backend/src/main/java/com/example/blog/content/service/TagService.java:66-79 | a missing tag is 404; 400 exactly when another tag holds the name; otherwise renames and keeps names unique |
| TagService.UpdateKeepsOwnName | backend/src/main/java/com/example/blog/content/service/TagService.java:69-70 | updating a tag with its own name is never a name clash |
| TagService.Delete | backend/src/main/java/com/example/blog/content/service/TagService.java:83-88 | a missing tag is 404; otherwise only that tag is removed |
| InteractionService.RequireCurrentUser | backend/src/main/java/com/example/blog/interaction/service/InteractionService.java:76-83 | no user is 401 "请先登录"; an unknown user is 404 |
| InteractionService.SafeInt | backend/src/main/java/com/example/blog/interaction/service/InteractionService.java:90-92 | a null counter reads as 0, a present one as itself |
| InteractionService.ToggleLike | backend/src/main/java/com/example/blog/interaction/service/InteractionService.java:32-53 | flips the user's like; the counter goes up by one (int wrap) or down by one floored at 0; total is the post's like count after the flip |
| InteractionService.ToggleLikeTwice | backend/src/main/java/com/example/blog/interaction/service/InteractionService.java:32-53 | two toggles restore the likes and, away from the int bounds and zero, the counter |
| InteractionService.ToggleFavorite | backend/src/main/java/com/example/blog/interaction/service/InteractionService.java:56-74 | flips the user's favourite; total is the post's favourite count after the flip |
| InteractionService.ToggleFavoriteTwice | backend/src/main/java/com/example/blog/interaction/service/InteractionService.java:56-74 | two toggles restore the database |
| SubscriptionService.Toggle | backend/src/main/java/com/example/blog/interaction/service/SubscriptionService.java:29-44 | sign-in and tag checks, then flips the subscription and reports whether it is now on |
| SubscriptionService.ToggleTwice | backend/src/main/java/com/example/blog/interaction/service/SubscriptionService.java:29-44 | two toggles restore the database |
| RateLimitService.AssertAllowed | backend/src/main/java/com/example/blog/common/service/RateLimitService.java:17-29 | a blank key changes nothing; otherwise the counter rises by one, the window starts on the first hit, and the call is rejected with 429 exactly when the count exceeds the maximum |
| RateLimitService.FixedWindow | backend/src/main/java/com/example/blog/common/service/RateLimitService.java:17-29 | n calls on a fresh key leave the count n with the window's expiry, and the n-th call is rejected exactly when n exceeds the maximum |
| UserPrincipal.NormalizeRole | backend/src/main/java/com/example/blog/auth/security/UserPrincipal.java:34 | a role keeps the "ROLE_" prefix it has, or gains it |
| UserPrincipal.NormalizeIdempotent | backend/src/main/java/com/example/blog/auth/security/UserPrincipal.java:34 | normalising twice is normalising once |
| UserPrincipal.NormalizeCollapses | backend/src/main/java/com/example/blog/auth/security/UserPrincipal.java:32-36 | two role names give the same authority iff they are equal or one is the other with the prefix |
| UserPrincipal.FromUser | backend/src/main/java/com/example/blog/auth/security/UserPrincipal.java:31-38 | enabled iff the user is active; the authorities are exactly the normalised role names, no more of them than roles |
| UserPrincipal.MayAuthenticateIffActive | backend/src/main/java/com/example/blog/auth/security/UserPrincipal.java:55-73 | with the account flags always true, a principal may authenticate exactly when its user is active |
| UserPrincipal.AdminRolesCollapse | backend/src/main/java/com/example/blog/auth/security/UserPrincipal.java:32-36 | roles ADMIN and ROLE_ADMIN collapse into the single authority ROLE_ADMIN |
| RefreshTokenService.BuildKey | backend/src/main/java/com/example/blog/auth/service/RefreshTokenService.java:39-41 | the key is the prefix followed by the token |
| RefreshTokenService.BuildKeyInjective | backend/src/main/java/com/example/blog/auth/service/RefreshTokenService.java:39-41 | distinct tokens have distinct keys |
| RefreshTokenService.Store | backend/src/main/java/com/example/blog/auth/service/RefreshTokenService.java:19-25 | a blank token stores nothing; otherwise the user id's text is stored under the token's key with the expiry |
| RefreshTokenService.GetUserId | backend/src/main/java/com/example/blog/auth/service/RefreshTokenService.java:27-33 | a missing or blank value gives null, a numeric one its value, anything else a number-format failure |
| RefreshTokenService.StoreThenGet | backend/src/main/java/com/example/blog/auth/service/RefreshTokenService.java:19-33 | a stored token reads back the user id it was stored with |
| RefreshTokenService.Remove | backend/src/main/java/com/example/blog/auth/service/RefreshTokenService.java:35-37 | the token's key reads back nothing afterwards and every other key is unchanged |
| RefreshTokenService.RemoveThenGet | backend/src/main/java/com/example/blog/auth/service/RefreshTokenService.java:27-37 | a removed token reads back null |
| RefreshTokenService.StoreLeavesOthers | backend/src/main/java/com/example/blog/auth/service/RefreshTokenService.java:19-25 | storing one token leaves every other token's lookup unchanged |
| AuthService.Register | backend/src/main/java/com/example/blog/auth/service/AuthService.java:35-54 | username then email clashes are 400; a missing base role is 500; otherwise one active user with the encoded password and role ROLE_USER is added |
| AuthService.RegisterKeepsNamesUnique | backend/src/main/java/com/example/blog/auth/service/AuthService.java:35-54 | registration keeps usernames and emails unique |
| AuthService.ToProfile | backend/src/main/java/com/example/blog/auth/service/AuthService.java:102-114 | the profile carries the user's id, username, nickname, email, avatar URL and role names unchanged |
| AuthService.Login | backend/src/main/java/com/example/blog/auth/service/AuthService.java:57-64 | no match, an inactive user or a wrong password is 401; two matching rows is an incorrect-result-size failure; otherwise a token pair is issued and the refresh token stored for the user |
| AuthService.GenerateTokens | backend/src/main/java/com/example/blog/auth/service/AuthService.java:95-100 | the pair is the provider's access token and the fresh refresh token, which is stored for the user and then resolves to the user's id |
| AuthService.RefreshToken | backend/src/main/java/com/example/blog/auth/service/AuthService.java:67-76 | an unknown token is 401, a vanished user 404; otherwise the old token is removed and a new pair issued |
| AuthService.RefreshRotates | backend/src/main/java/com/example/blog/auth/service/AuthService.java:67-76 | after a refresh the old token no longer resolves and the new one resolves to the same user |
| AuthService.GetProfile | backend/src/main/java/com/example/blog/auth/service/AuthService.java:79-87 | no user is 401, an unknown user 404, otherwise the user's profile |
| AuthService.Logout | backend/src/main/java/com/example/blog/auth/service/AuthService.java:89-93 | a null token changes nothing; otherwise that token's key is deleted |
| AnalyticsService.PvKey | backend/src/main/java/com/example/blog/analytics/service/AnalyticsService.java:47 | the daily page-view key is the prefix followed by the ISO date |
| AnalyticsService.UvKey | backend/src/main/java/com/example/blog/analytics/service/AnalyticsService.java:50 | the daily distinct-visitor key is its prefix followed by the ISO date |
| AnalyticsService.KeysDistinct | backend/src/main/java/com/example/blog/analytics/service/AnalyticsService.java:47-52 | page-view, visitor and ranking keys never coincide, and days have distinct keys |
| AnalyticsService.Visitor | backend/src/main/java/com/example/blog/analytics/service/AnalyticsService.java:43-44 | a signed-in reader is "user:" and the id; anyone else is "ip:" and the address `getClientIp` finds, and the visitor lookup throws exactly when that lookup throws; a visitor it does name is the one the corrected lookup names |
| AnalyticsService.AnonymousCommaViewFails | backend/src/main/java/com/example/blog/analytics/service/AnalyticsService.java:44 | an anonymous view whose X-Forwarded-For is "," fails instead of being counted |
| AnalyticsService.VisitorsDistinct | backend/src/main/java/com/example/blog/analytics/service/AnalyticsService.java:44 | distinct users are distinct visitors, and no user is confused with an address |
| AnalyticsService.IncreaseViewCount | backend/src/main/java/com/example/blog/analytics/service/AnalyticsService.java:53 | the post's stored view count rises by one, a null count reading as 0; every other post is unchanged |
| AnalyticsService.CountView | backend/src/main/java/com/example/blog/analytics/service/AnalyticsService.java:47-52 | fails exactly when the page-view INCR fails; otherwise the counter holds the incremented value with a two-day expiry, the visitor joins the day's set, and the member's ranking score rises by one (a missing member counting as 0) while every other member keeps its score |
| AnalyticsService.RecordPostView | backend/src/main/java/com/example/blog/analytics/service/AnalyticsService.java:39-54 | null post: nothing; otherwise a failed visitor lookup or page-view increment is the call's failure, and on success the day's page views rise by one with a two-day expiry, the visitor joins the day's set, and the post's ranking score and stored view count rise by one |
| AnalyticsService.ViewCountsVisitorOnce | backend/src/main/java/com/example/blog/analytics/service/AnalyticsService.java:50 | a view raises the day's unique visitors by at most one, and not at all for a visitor seen before |
| AnalyticsService.FirstBadMember | backend/src/main/java/com/example/blog/analytics/service/AnalyticsService.java:93-96 | the position of the first member a pass looks at that does not parse as a `long`, none exactly when every looked-at member parses |
| AnalyticsService.ParseIds | backend/src/main/java/com/example/blog/analytics/service/AnalyticsService.java:93-97 | the stream pass skips blank members and reads the rest as ids; it fails exactly when a member with text does not parse, naming the first such member, and otherwise yields exactly the ids those members spell |
| AnalyticsService.HotPostsFrom | backend/src/main/java/com/example/blog/analytics/service/AnalyticsService.java:101-118 | the loop succeeds exactly when every member, blank ones included, parses, and otherwise names the first that does not; entries come from tuples whose post exists, with that post's fields and the tuple's score |
| AnalyticsService.ReportedMember | backend/src/main/java/com/example/blog/analytics/service/AnalyticsService.java:93-105 | the member reported is the first member with text that does not parse, or, when all of those parse, the first blank member; none exactly when every member parses |
| AnalyticsService.HotPostsOfRanking | backend/src/main/java/com/example/blog/analytics/service/AnalyticsService.java:93-118 | both passes together fail exactly when some member does not parse, with the exception naming the reported member; when they succeed the list is the loop's |
| AnalyticsService.TextMemberReportedBeforeBlank | backend/src/main/java/com/example/blog/analytics/service/AnalyticsService.java:93-105 | for a blank member ranked above "abc", the exception names "abc", while the loop on its own would name the blank member |
| AnalyticsService.HotPostsMatchTuples | backend/src/main/java/com/example/blog/analytics/service/AnalyticsService.java:101-117 | an entry is in the list exactly when some tuple's member parses to an existing post's id and the entry carries that post's title, slug and view count with the tuple's score |
| AnalyticsService.HotPostsKeepOrder | backend/src/main/java/com/example/blog/analytics/service/AnalyticsService.java:101-117 | hot posts keep the ranking's order, so their scores descend |
| AnalyticsService.HotTuples | backend/src/main/java/com/example/blog/analytics/service/AnalyticsService.java:88-89 | the ranking's entries at ranks 0 to 4, best first: at most five, all from the ranking, and every entry left out ranks below every one taken |
| AnalyticsService.BuildHotPosts | backend/src/main/java/com/example/blog/analytics/service/AnalyticsService.java:87-119 | the list built from the top five tuples: it fails exactly when one of their members, a blank one included, does not parse, with a NumberFormat exception naming the reported member; otherwise it holds at most five entries, highest score first, and an entry is in it exactly when a top-five tuple names an existing post, with that post's title, slug and view count and the tuple's score |
| AnalyticsService.PublishedCount | backend/src/main/java/com/example/blog/analytics/service/AnalyticsService.java:61 | the number of undeleted posts whose status is "published" |
| AnalyticsService.PendingCount | backend/src/main/java/com/example/blog/analytics/service/AnalyticsService.java:62 | the number of pending comments |
| AnalyticsService.GetOverview | backend/src/main/java/com/example/blog/analytics/service/AnalyticsService.java:56-73 | today's page views (0 if missing or unparsable), unique visitors, published and pending counts, and the hot posts of `BuildHotPosts`, whose failure is the overview's failure |
| AnalyticsService.ViewShowsOnOverview | backend/src/main/java/com/example/blog/analytics/service/AnalyticsService.java:39-73 | recording a view raises the overview's page views for today by one |
| AnalyticsScheduler.ClampToInt | backend/src/main/java/com/example/blog/analytics/task/AnalyticsScheduler.java:39-40 | a count narrowed as `(int) Math.min(Integer.MAX_VALUE, v)`: itself when it fits, else the int maximum |
| AnalyticsScheduler.Archive | backend/src/main/java/com/example/blog/analytics/task/AnalyticsScheduler.java:23-44 | yesterday's keys are always deleted; with no views and no visitors nothing is written, else yesterday's site-wide row holds the clamped counts |
| AnalyticsScheduler.StoreDaily | backend/src/main/java/com/example/blog/analytics/task/AnalyticsScheduler.java:35-41 | the site-wide row for the date is reused (keeping its id) or created, holds the counts capped at the `int` maximum, and no other row changes |
| AnalyticsScheduler.ArchiveIdempotent | backend/src/main/java/com/example/blog/analytics/task/AnalyticsScheduler.java:23-44 | running the archive a second time changes nothing further |
| AnalyticsScheduler.TrimRankingBoard | backend/src/main/java/com/example/blog/analytics/task/AnalyticsScheduler.java:47-53 | a board of at most 100 is left alone; a larger one keeps exactly its 100 highest entries |
| AnalyticsScheduler.TrimIdempotent | backend/src/main/java/com/example/blog/analytics/task/AnalyticsScheduler.java:47-53 | trimming a trimmed board changes nothing |
| PostService.BuildPageRequest | backend/src/main/java/com/example/blog/content/service/PostService.java:249-253 | pages below 1 read as the first, sizes are clamped into 1..50 |
| PostService.BuildPageRequestStable | backend/src/main/java/com/example/blog/content/service/PostService.java:249-253 | the clamped request is always valid and asking for it again gives it back |
| PostService.Words | backend/src/main/java/com/example/blog/content/service/PostService.java:244 | the words with text, in order; every word kept when all have text |
| PostService.BooleanKeyword | backend/src/main/java/com/example/blog/content/service/PostService.java:239-247 | a blank keyword gives the empty string |
| PostService.BooleanKeywordOfWords | backend/src/main/java/com/example/blog/content/service/PostService.java:239-247 | clean words typed with single spaces come back each starred, joined by single spaces |
| PostService.SearchPublished | backend/src/main/java/com/example/blog/content/service/PostService.java:95-126 | a blank keyword gives an empty page; otherwise the full-text results when that query runs and finds any, else the plain query's; page and size are echoed |
| PostService.ResolveTags | backend/src/main/java/com/example/blog/content/service/PostService.java:189-198 | succeeds exactly when every requested id is a tag, yielding those ids; 400 otherwise |
| PostService.FoundAllIffSubset | backend/src/main/java/com/example/blog/content/service/PostService.java:193-194 | counting the found tags detects exactly the missing ids |
| PostService.ApplyRequest | backend/src/main/java/com/example/blog/content/service/PostService.java:171-187 | fails exactly when a text is rejected or a tag is missing; copies the fields, cleans summary and content, sets the publication time only on the first published save |
| PostService.PublishedAtNeverOverwritten | backend/src/main/java/com/example/blog/content/service/PostService.java:183-185 | once published, a later request never changes the publication time |
| PostService.Create | backend/src/main/java/com/example/blog/content/service/PostService.java:130-145 | a taken slug is 400; then the request, sign-in and author are checked in order; success inserts one post with zero counters, keeping slugs unique |
| PostService.Update | backend/src/main/java/com/example/blog/content/service/PostService.java:149-159 | a missing post is 404; a changed slug that is taken is 400; success replaces that post only, keeping slugs unique |
| PostService.Delete | backend/src/main/java/com/example/blog/content/service/PostService.java:163-169 | a missing post is 404; otherwise only its deletion time is set and it is no longer published |
| PostService.FindLive | backend/src/main/java/com/example/blog/content/service/PostService.java:69 | the undeleted post with the slug, if any; at most one exists |
| PostService.GetPublishedPostBySlug | backend/src/main/java/com/example/blog/content/service/PostService.java:68-75 | no published live post with the slug is 404; otherwise the view is recorded, a failed recording (a visitor lookup that throws included) failing the call, and the detail shows that post with its view count one higher and the reader's like and favourite |
| PostService.ShowPublished | backend/src/main/java/com/example/blog/content/service/PostService.java:72-74 | the view is recorded exactly as `recordPostView` records it, and its failure is the call's failure; the detail shows the row with its view count one higher and the reader's own like and favourite |
| PostService.Detail | backend/src/main/java/com/example/blog/content/service/PostService.java:216-237 | the detail shows the row with its view count one higher (Java int arithmetic, as set at line 73), liked and favourited exactly when the reader holds that link |
| PostService.CreatedFoundBySlug | backend/src/main/java/com/example/blog/content/service/PostService.java:130-145 | a created post is the one its slug then finds |
| PostService.DeletedNotFoundBySlug | backend/src/main/java/com/example/blog/content/service/PostService.java:163-169 | a deleted post is no longer found by its slug |
| TokenStorage.SetTokens | frontend/src/utils/token.ts:12-17 | the access token is always written, the refresh token only when truthy; no other key changes |
| TokenStorage.GetAccessToken | frontend/src/utils/token.ts:4-6 | the stored access token, or null when the key is absent |
| TokenStorage.GetRefreshToken | frontend/src/utils/token.ts:8-10 | the stored refresh token, or null when the key is absent |
| TokenStorage.SetAccessToken | frontend/src/utils/token.ts:19-21 | only the access token changes |
| TokenStorage.ClearTokens | frontend/src/utils/token.ts:23-26 | both tokens are gone; no other key changes |
| TokenStorage.ClearUndoesSet | frontend/src/utils/token.ts:12-26 | clearing after setting leaves the storage as clearing alone would |
| AuthStore.Init | frontend/src/stores/auth.ts:14-19 | a new store reads both tokens from storage, with no user and not loading |
| AuthStore.DisplayName | frontend/src/stores/auth.ts:22 | the truthy nickname, else the truthy username, else the guest name; never empty |
| AuthStore.Roles | frontend/src/stores/auth.ts:23 | the profile's roles, none without a profile |
| AuthStore.AdminNeedsProfile | frontend/src/stores/auth.ts:14-26 | `isAdmin` holds exactly when a profile is loaded and lists ROLE_ADMIN; a freshly loaded store is authenticated exactly when storage holds a non-empty access token, yet is no administrator until its profile is fetched |
| AuthStore.SetSession | frontend/src/stores/auth.ts:29-33 | both tokens are set in memory and storage, which agree when the refresh token is non-empty |
| AuthStore.FetchProfile | frontend/src/stores/auth.ts:52-55 | without an access token nothing happens; otherwise the profile replaces the user, or the error is thrown with the state unchanged |
| AuthStore.Login | frontend/src/stores/auth.ts:34-43 | loading ends off; a failed login changes nothing else; a successful one sets the session and then fetches the profile |
| AuthStore.Register | frontend/src/stores/auth.ts:44-51 | only the loading flag is touched; the call's error is thrown |
| AuthStore.RefreshTokens | frontend/src/stores/auth.ts:56-63 | without a refresh token it throws before any call; otherwise the new pair becomes the session and the new access token is returned |
| AuthStore.LogoutArgument | frontend/src/stores/auth.ts:66 | the refresh token is passed to `authApi.logout` when truthy, otherwise `undefined` |
| AuthStore.Logout | frontend/src/stores/auth.ts:64-74 | whatever the call does, tokens and user are cleared in memory and storage |
| AuthStore.SetAccessToken | frontend/src/stores/auth.ts:75-78 | the access token is replaced in memory and storage, the refresh token kept |
| AuthStore.LoginSurvivesReload | frontend/src/stores/auth.ts:14-43 | after a successful login a reloaded store holds the same tokens |
| AuthStore.LogoutSurvivesReload | frontend/src/stores/auth.ts:14-74 | after logging out a reloaded store starts signed out |
| AuthStore.RefreshKeepsMirror | frontend/src/stores/auth.ts:56-63 | refreshing keeps storage and memory in step |
| Router.MergeMeta | frontend/src/router/index.ts:41-78 | a child route's meta keys override its layout's |
| Router.EnsureProfile | frontend/src/router/index.ts:92-100 | a signed-in store without a profile fetches it and logs out when that fails; otherwise nothing changes |
| Router.Guard | frontend/src/router/index.ts:91-118 | an auth-only route redirects an unauthenticated visitor to Login with the path; a signed-in visitor (or any visitor on a route not needing sign-in) who holds none of a role-restricted route's roles is redirected to Home with no query; navigation proceeds exactly when neither check fails, and proceeding sets "<title> \| 我的博客" |
| Router.AdminPagesNeedAdmin | frontend/src/router/index.ts:41-118 | an admin page is entered exactly when the store is authenticated and holds ROLE_ADMIN |
| Router.PublicPagesOpen | frontend/src/router/index.ts:4-40 | public pages are never redirected |
| Router.StaleSessionGoesToLogin | frontend/src/router/index.ts:93-103 | a session whose profile cannot be fetched ends signed out, and an admin page then redirects to Login with the path |

## Left out

- `listPublishedPosts`, `listAdminPosts` and the summary/detail projections: they only page a repository query and copy fields. The projections' author name and tag names are not modelled. The paging rule they share is `PostService.BuildPageRequest`.
- The `increaseViewCount` JPQL query and the full-text and LIKE search queries: their text is not part of this model. The view-count update is modelled as adding one to a null-as-zero count without overflow. The search queries are parameters of `PostService.SearchPublished`.
- `PublishedCount` compares the status exactly. A case-insensitive SQL collation is not modelled.
- The `User`, `Role` and `Tag` entities and their repositories are not part of this model. A user is active when its status is 1. A tag's post count is carried as stored.
- JWT signing, BCrypt, UUID generation, Jsoup cleaning, the clock, the security context and the servlet request are parameters. Cache annotations, audit logging and transactions are left out.
- Redis:
  - HyperLogLog is modelled as an exact set of elements.
  - Expiries are recorded but never fire.
  - WRONGTYPE errors cannot arise, because each key is used with one type.
  - A null reply from INCR (pipelining or transactions) is not modelled.
- Header lookup is exact-case. The servlet API's case-insensitive header names are not modelled.
- SensitiveWordFilter.AssertClean: `toLowerCase` is modelled on ASCII letters only; Java also lower-cases other letters (the Kelvin sign U+212A becomes 'k'). The status check's `equalsIgnoreCase` does fold U+0130, U+0131, U+017F and U+212A onto ASCII letters.
- Numbers.ParseLong: accepts ASCII digits only. Java's `Long.parseLong` also accepts other Unicode decimal digits, such as "٣" or "３".
- Sorted-set scores are exact integers. The code only ever adds 1 to a score, and `buildHotPosts` truncates the double with `longValue()`; rounding of doubles above 2^53 is not modelled.
- CommentService.ListForModeration: pages the comments with the status in creation order. `findByStatus` with an unsorted `PageRequest` leaves the database's order unspecified.
- Deleting a tag does not touch the post-tag join rows.
- Deleting a comment that still has replies would hit the parent foreign key. The model removes only the comment.
- Concurrency between requests, and the `REQUIRES_NEW` transaction of `recordPostView`, are not modelled. A failure inside `recordPostView`, the visitor lookup's included, therefore propagates to `getPublishedPostBySlug`, as the code does; it is not swallowed as best-effort.
- The HTTP client's interceptors, the API modules and page components of the frontend are left out. The backend calls of the auth store are parameters giving each call's outcome.
- The router's path matching and lazy component loading are left out. A navigation target is the matched route's name with its full path.
- `PostService.BooleanKeyword` states only the blank case in its own contract. The shape of the non-blank result is stated by `PostService.BooleanKeywordOfWords` for keywords made of clean words separated by single spaces. Other spacing is not characterised.

## Findings

| source | as written | input that shows it | evidently intended | confidence | as-written member | corrected member |
|---|---|---|---|---|---|---|
| backend/src/main/java/com/example/blog/common/util/RequestUtils.java:34 | `header.split(",")[0].trim()` on any non-blank header | X-Forwarded-For: `,` (the split yields an empty array, so element 0 throws) | a header naming no address is skipped like a blank one, so the lookup always names a client | not executed | Requests.ClientIpAsWritten | Requests.ClientIp |

The view recorder keeps the lookup as written, so an anonymous view with such a header fails as it does in the code (`AnalyticsService.AnonymousCommaViewFails`). Through `Requests.ClientIpAgrees`, `AnalyticsService.Visitor` states that whenever the lookup as written names a visitor, the corrected lookup names the same one.
