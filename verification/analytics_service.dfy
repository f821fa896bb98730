/** View analytics: every view of a post bumps a daily page-view counter,
    adds the visitor to the day's distinct-visitor accumulator, raises the
    post's score on the view ranking and its durable view count. The
    overview reads those back, with the five best-ranked posts. */
module AnalyticsService {
  import opened Wrappers
  import opened Errors
  import opened Numbers
  import opened Database
  import Dates
  import Posts
  import Comments
  import Redis
  import SortedSet
  import Requests
  import Text

  const KEY_PV_DAILY: string := "pv:daily:"
  const KEY_UV_DAILY: string := "uv:daily:"
  const KEY_POST_RANKING: string := "post:ranking:views"

  /** Two days, in seconds. */
  const PV_TTL_SECONDS: nat := 2 * 24 * 60 * 60

  const HOT_POSTS: nat := 5

  /** The day's page-view counter key: prefix and ISO date. */
  function PvKey(d: Dates.Date): (k: string)
    requires Dates.Valid(d)
    ensures |k| == |KEY_PV_DAILY| + |Dates.IsoText(d)|
    ensures k[..|KEY_PV_DAILY|] == KEY_PV_DAILY && k[|KEY_PV_DAILY|..] == Dates.IsoText(d)
  {
    KEY_PV_DAILY + Dates.IsoText(d)
  }

  /** The day's distinct-visitor key. */
  function UvKey(d: Dates.Date): (k: string)
    requires Dates.Valid(d)
    ensures |k| == |KEY_UV_DAILY| + |Dates.IsoText(d)|
    ensures k[..|KEY_UV_DAILY|] == KEY_UV_DAILY && k[|KEY_UV_DAILY|..] == Dates.IsoText(d)
  {
    KEY_UV_DAILY + Dates.IsoText(d)
  }

  /** Different days use different keys, and no key is used for two
      purposes. */
  lemma KeysDistinct(a: Dates.Date, b: Dates.Date)
    requires Dates.Valid(a) && Dates.Valid(b)
    ensures PvKey(a) == PvKey(b) ==> a == b
    ensures UvKey(a) == UvKey(b) ==> a == b
    ensures PvKey(a) != UvKey(b)
    ensures PvKey(a) != KEY_POST_RANKING && UvKey(a) != KEY_POST_RANKING
  {
    if PvKey(a) == PvKey(b) {
      assert Dates.IsoText(a) == PvKey(a)[|KEY_PV_DAILY|..];
      Dates.IsoTextInjective(a, b);
    }
    if UvKey(a) == UvKey(b) {
      assert Dates.IsoText(a) == UvKey(a)[|KEY_UV_DAILY|..];
      Dates.IsoTextInjective(a, b);
    }
    assert PvKey(a)[0] != UvKey(b)[0];
    assert PvKey(a)[1] != KEY_POST_RANKING[1];
    assert UvKey(a)[0] != KEY_POST_RANKING[0];
  }

  /** Who a view is counted for: the signed-in user, or else the client
      address as `getClientIp` finds it. The lookup as written throws on a
      forwarding header made only of commas, and so does this; wherever it
      names a client, that is the client the corrected lookup names. */
  function Visitor(currentUser: Option<int>, request: Option<Requests.HttpRequest>): (v: Outcome<string>)
    ensures currentUser.Some? ==> v == Success("user:" + Show(currentUser.value))
    ensures v.Failure? <==> currentUser.None? && Requests.ClientIpAsWritten(request).Failure?
    ensures v.Failure? ==> v.error == Requests.ClientIpAsWritten(request).error
    ensures currentUser.None? && v.Success? ==> v.value == "ip:" + Requests.ClientIp(request)
  {
    if currentUser.Some? then Success("user:" + Show(currentUser.value))
    else
      var ip :- Requests.ClientIpAsWritten(request);
      Requests.ClientIpAgrees(request);
      Success("ip:" + ip)
  }

  /** A signed-in visitor is never counted as an address, and two users are
      never counted as one. */
  lemma VisitorsDistinct(a: int, b: int, request: Option<Requests.HttpRequest>)
    requires IsInt64(a) && IsInt64(b)
    ensures Visitor(None, request).Success? ==> Visitor(Some(a), None).value != Visitor(None, request).value
    ensures Visitor(Some(a), None).value == Visitor(Some(b), None).value ==> a == b
  {
    if Visitor(None, request).Success? {
      assert Visitor(Some(a), None).value[0] != Visitor(None, request).value[0];
    }
    if Visitor(Some(a), None).value == Visitor(Some(b), None).value {
      assert Show(a) == Visitor(Some(a), None).value[5..];
      ShowInjective(a, b);
    }
  }

  /** An anonymous reader whose X-Forwarded-For header is "," is not
      counted: looking up the address throws, before the store is touched. */
  lemma AnonymousCommaViewFails(db: Db, st: Redis.Store, post: int, today: Dates.Date)
    requires Redis.Valid(st) && Dates.Valid(today)
    ensures RecordPostView(db, st, Some(post), None, Some(Requests.HttpRequest(map["X-Forwarded-For" := ","], Some("10.0.0.1"))), today).Failure?
  {
    Requests.ClientIpAsWrittenFailsOnCommas();
  }

  /** The durable view count raised by one (a missing count reads as 0). */
  function IncreaseViewCount(posts: Posts.PostTable, postId: int): (r: Posts.PostTable)
    ensures r.Keys == posts.Keys
    ensures postId in posts ==> r[postId] == posts[postId].(viewCount := Some(OrZero(posts[postId].viewCount) + 1))
    ensures forall id :: id in posts && id != postId ==> r[id] == posts[id]
  {
    if postId in posts then posts[postId := posts[postId].(viewCount := Some(OrZero(posts[postId].viewCount) + 1))]
    else posts
  }

  /** The store side of one view: the page-view counter goes up by one and
      lives two more days, the visitor joins the accumulator and the
      member's ranking score rises by one. */
  function CountView(st: Redis.Store, pv: string, uv: string, member: string, visitor: string): (r: Outcome<Redis.Store>)
    requires Redis.Valid(st)
    requires pv != uv && pv != KEY_POST_RANKING && uv != KEY_POST_RANKING
    ensures r.Failure? <==> Redis.Incr(st, pv).Failure?
    ensures r.Success? ==> Redis.Valid(r.value)
    ensures r.Success? ==> Redis.Get(r.value, pv) == Some(Show(Redis.Incr(st, pv).value.1))
    ensures r.Success? ==> pv in r.value.ttl && r.value.ttl[pv] == PV_TTL_SECONDS
    ensures r.Success? ==> uv in r.value.hlls && r.value.hlls[uv] == (if uv in st.hlls then st.hlls[uv] else {}) + {visitor}
    ensures r.Success? ==> KEY_POST_RANKING in r.value.zsets
    ensures r.Success? ==>
      SortedSet.ScoreOf(r.value.zsets[KEY_POST_RANKING], member) == Some(SortedSet.ScoreOf(Redis.ZSet(st, KEY_POST_RANKING), member).GetOr(0) + 1)
    ensures r.Success? ==> forall m :: m != member ==>
      SortedSet.ScoreOf(r.value.zsets[KEY_POST_RANKING], m) == SortedSet.ScoreOf(Redis.ZSet(st, KEY_POST_RANKING), m)
  {
    var (st1, _) :- Redis.Incr(st, pv);
    var st2 := Redis.Expire(st1, pv, PV_TTL_SECONDS);
    var st3 := Redis.PfAdd(st2, uv, visitor);
    assert st3.zsets == st.zsets;
    var (st4, _) := Redis.ZIncrBy(st3, KEY_POST_RANKING, member, 1);
    Success(st4)
  }

  /** `recordPostView`: nothing happens without a post. Otherwise the
      visitor is named first (which can throw, see `Visitor`), then the
      store counts the view (see `CountView`) under today's keys and the
      post's ranking member, its id in decimal, and the post's durable view
      count goes up by one. A counter the store cannot increment is an
      error. */
  function RecordPostView(db: Db, st: Redis.Store, post: Option<int>, currentUser: Option<int>,
                          request: Option<Requests.HttpRequest>, today: Dates.Date): (r: Outcome<(Db, Redis.Store)>)
    requires Redis.Valid(st) && Dates.Valid(today)
    ensures post.None? ==> r == Success((db, st))
    ensures post.Some? ==>
      (r.Failure? <==> Visitor(currentUser, request).Failure? || Redis.Incr(st, PvKey(today)).Failure?)
    ensures post.Some? && Visitor(currentUser, request).Failure? ==> r == Failure(Visitor(currentUser, request).error)
    ensures r.Success? ==> Redis.Valid(r.value.1)
    ensures r.Success? && post.Some? ==>
      && Visitor(currentUser, request).Success?
      && PvKey(today) != UvKey(today) && PvKey(today) != KEY_POST_RANKING && UvKey(today) != KEY_POST_RANKING
      && r.value.1 == CountView(st, PvKey(today), UvKey(today), Show(post.value), Visitor(currentUser, request).value).value
    ensures r.Success? && post.Some? ==> r.value.0 == db.(posts := IncreaseViewCount(db.posts, post.value))
  {
    if post.None? then Success((db, st))
    else
      var visitor :- Visitor(currentUser, request);
      KeysDistinctOnDay(today);
      var st' :- CountView(st, PvKey(today), UvKey(today), Show(post.value), visitor);
      Success((db.(posts := IncreaseViewCount(db.posts, post.value)), st'))
  }

  lemma KeysDistinctOnDay(d: Dates.Date)
    requires Dates.Valid(d)
    ensures PvKey(d) != UvKey(d) && PvKey(d) != KEY_POST_RANKING && UvKey(d) != KEY_POST_RANKING
  {
    assert PvKey(d)[0] != UvKey(d)[0];
    assert PvKey(d)[1] != KEY_POST_RANKING[1];
    assert UvKey(d)[0] != KEY_POST_RANKING[0];
  }

  /** The day's distinct-visitor count grows by at most one per view, and
      not at all for a visitor already counted. */
  lemma ViewCountsVisitorOnce(db: Db, st: Redis.Store, post: int, currentUser: Option<int>,
                              request: Option<Requests.HttpRequest>, today: Dates.Date)
    requires Redis.Valid(st) && Dates.Valid(today)
    requires RecordPostView(db, st, Some(post), currentUser, request, today).Success?
    ensures var st' := RecordPostView(db, st, Some(post), currentUser, request, today).value.1;
      && Redis.PfCount(st, UvKey(today)) <= Redis.PfCount(st', UvKey(today)) <= Redis.PfCount(st, UvKey(today)) + 1
      && (UvKey(today) in st.hlls && Visitor(currentUser, request).value in st.hlls[UvKey(today)] ==>
            Redis.PfCount(st', UvKey(today)) == Redis.PfCount(st, UvKey(today)))
  {
    var st' := RecordPostView(db, st, Some(post), currentUser, request, today).value.1;
    KeysDistinctOnDay(today);
    var uv := UvKey(today);
    var before := if uv in st.hlls then st.hlls[uv] else {};
    assert Redis.PfCount(st, uv) == |before|;
    AddOneCount(before, Visitor(currentUser, request).value);
  }

  /** Adding one element grows a set by at most one, and not at all when it
      is already there. */
  lemma AddOneCount(before: set<string>, v: string)
    ensures |before| <= |before + {v}| <= |before| + 1
    ensures v in before ==> |before + {v}| == |before|
  {
    if v in before {
      assert before + {v} == before;
    } else {
      assert |before + {v}| == |before| + 1;
    }
  }

  /** A ranking entry on the overview. */
  datatype HotPost = HotPost(postId: int, title: string, slug: string, viewCount: Option<int>, score: int)

  datatype Overview = Overview(todayPv: int, todayUv: int, publishedPosts: nat, pendingComments: nat, hotPosts: seq<HotPost>)

  /** The message `Long.valueOf` throws for a string that is not a `long`. */
  function ForInputString(s: string): (e: Exception)
    ensures e.Runtime? && e.failure == NumberFormat
  {
    Runtime(NumberFormat, Some("For input string: \"" + s + "\""))
  }

  /** A member the pass looks at: every member when `blanksToo`, otherwise
      only those with text. */
  predicate Scanned(member: string, blanksToo: bool) {
    blanksToo || Text.HasText(member)
  }

  /** Tuple `i` is the first tuple the pass looks at whose member does not
      parse as a `long`. */
  predicate FirstUnparsable(tuples: seq<SortedSet.Entry>, i: int, blanksToo: bool) {
    && 0 <= i < |tuples|
    && Scanned(tuples[i].member, blanksToo)
    && ParseLong(tuples[i].member).None?
    && forall j :: 0 <= j < i && Scanned(tuples[j].member, blanksToo) ==> ParseLong(tuples[j].member).Some?
  }

  /** The position of the first member a pass over `tuples` trips on,
      if any. */
  function FirstBadMember(tuples: seq<SortedSet.Entry>, blanksToo: bool): (r: Option<nat>)
    ensures r.None? <==>
      forall i :: 0 <= i < |tuples| && Scanned(tuples[i].member, blanksToo) ==> ParseLong(tuples[i].member).Some?
    ensures r.Some? ==> FirstUnparsable(tuples, r.value, blanksToo)
    decreases |tuples|
  {
    if tuples == [] then None
    else if Scanned(tuples[0].member, blanksToo) && ParseLong(tuples[0].member).None? then Some(0)
    else
      var rest := FirstBadMember(tuples[1..], blanksToo);
      assert forall i :: 1 <= i < |tuples| ==> tuples[i] == tuples[1..][i - 1];
      if rest.None? then None else Some(rest.value + 1)
  }

  /** The stream pass of `buildHotPosts`: the members with text, in order,
      each read as a `long`; the first of them that does not parse throws. */
  function ParseIds(tuples: seq<SortedSet.Entry>): (r: Outcome<seq<int>>)
    ensures r.Success? <==> FirstBadMember(tuples, false).None?
    ensures r.Failure? ==> r.error == ForInputString(tuples[FirstBadMember(tuples, false).value].member)
    ensures r.Success? ==> forall id :: id in r.value <==>
      exists i :: 0 <= i < |tuples| && Text.HasText(tuples[i].member) && ParseLong(tuples[i].member) == Some(id)
    decreases |tuples|
  {
    if tuples == [] then Success([])
    else
      var e := tuples[0];
      assert forall i :: 1 <= i < |tuples| ==> tuples[i] == tuples[1..][i - 1];
      if !Text.HasText(e.member) then ParseIds(tuples[1..])
      else match ParseLong(e.member)
        case None => Failure(ForInputString(e.member))
        case Some(id) =>
          var rest :- ParseIds(tuples[1..]);
          Success([id] + rest)
  }

  /** The loop of `buildHotPosts` over ranking tuples, best first: every
      member must parse as a `long` (the first that does not throws); ids
      naming no post are skipped; the rest keep their order. */
  function HotPostsFrom(posts: Posts.PostTable, tuples: seq<SortedSet.Entry>): (r: Outcome<seq<HotPost>>)
    ensures r.Success? <==> forall i :: 0 <= i < |tuples| ==> ParseLong(tuples[i].member).Some?
    ensures r.Failure? ==> FirstBadMember(tuples, true).Some?
    ensures r.Failure? && FirstBadMember(tuples, true).Some? ==>
      r.error == ForInputString(tuples[FirstBadMember(tuples, true).value].member)
    ensures r.Success? ==> |r.value| <= |tuples|
    ensures r.Success? ==> forall h :: h in r.value ==>
      && h.postId in posts && h.title == posts[h.postId].title && h.slug == posts[h.postId].slug
      && h.viewCount == posts[h.postId].viewCount
    decreases |tuples|
  {
    if tuples == [] then Success([])
    else
      var e := tuples[0];
      match ParseLong(e.member)
      case None => Failure(ForInputString(e.member))
      case Some(id) =>
        var rest :- HotPostsFrom(posts, tuples[1..]);
        assert forall i :: 1 <= i < |tuples| ==> tuples[i] == tuples[1..][i - 1];
        if id in posts then
          var p := posts[id];
          Success([HotPost(id, p.title, p.slug, p.viewCount, e.score)] + rest)
        else Success(rest)
  }

  /** The member `buildHotPosts` reports for `tuples`: the first member with
      text that does not parse, since the stream pass throws first; when
      every such member parses, the first blank one, on which the loop
      throws. */
  function ReportedMember(tuples: seq<SortedSet.Entry>): (r: Option<nat>)
    ensures r.None? <==> forall i :: 0 <= i < |tuples| ==> ParseLong(tuples[i].member).Some?
    ensures r.Some? ==>
      || FirstUnparsable(tuples, r.value, false)
      || (FirstBadMember(tuples, false).None? && FirstUnparsable(tuples, r.value, true)
          && !Text.HasText(tuples[r.value].member))
  {
    var textBad := FirstBadMember(tuples, false);
    if textBad.Some? then textBad else FirstBadMember(tuples, true)
  }

  /** Both passes of `buildHotPosts` over the tuples read. */
  function HotPostsOfRanking(posts: Posts.PostTable, tuples: seq<SortedSet.Entry>): (r: Outcome<seq<HotPost>>)
    ensures r.Success? <==> forall i :: 0 <= i < |tuples| ==> ParseLong(tuples[i].member).Some?
    ensures r.Failure? ==> ReportedMember(tuples).Some?
    ensures r.Failure? && ReportedMember(tuples).Some? ==>
      r.error == ForInputString(tuples[ReportedMember(tuples).value].member)
    ensures r.Success? ==> r == HotPostsFrom(posts, tuples)
  {
    var ids :- ParseIds(tuples);
    HotPostsFrom(posts, tuples)
  }

  /** A non-number ranked below a blank member is the one reported: the
      stream pass skips the blank member and throws on the later one, which
      a single loop over the tuples would not reach. */
  lemma TextMemberReportedBeforeBlank(posts: Posts.PostTable)
    ensures HotPostsOfRanking(posts, [SortedSet.Entry("", 9), SortedSet.Entry("abc", 8)]) == Failure(ForInputString("abc"))
    ensures HotPostsFrom(posts, [SortedSet.Entry("", 9), SortedSet.Entry("abc", 8)]) == Failure(ForInputString(""))
  {
    var tuples := [SortedSet.Entry("", 9), SortedSet.Entry("abc", 8)];
    var abc := tuples[1].member;
    assert abc == "abc" && abc[0] == 'a' && !Text.IsWhitespace(abc[0]);
    assert Text.HasText(abc);
  }

  /** `h` is the entry a ranking tuple yields: the tuple's member parses
      to the id of an existing post, and `h` carries that post's title,
      slug and view count with the tuple's score. */
  predicate Renders(posts: Posts.PostTable, e: SortedSet.Entry, h: HotPost) {
    && ParseLong(e.member) == Some(h.postId) && h.postId in posts
    && h.title == posts[h.postId].title && h.slug == posts[h.postId].slug
    && h.viewCount == posts[h.postId].viewCount && h.score == e.score
  }

  /** The entries are exactly those the tuples yield: each comes from a
      tuple naming its post, and each tuple naming an existing post yields
      its entry. */
  lemma HotPostsMatchTuples(posts: Posts.PostTable, tuples: seq<SortedSet.Entry>)
    requires HotPostsFrom(posts, tuples).Success?
    ensures forall h :: h in HotPostsFrom(posts, tuples).value <==> exists e :: e in tuples && Renders(posts, e, h)
  {
    HotPostsFromTuples(posts, tuples);
    TuplesGiveHotPosts(posts, tuples);
    forall h | exists e :: e in tuples && Renders(posts, e, h)
      ensures h in HotPostsFrom(posts, tuples).value
    {
      var e :| e in tuples && Renders(posts, e, h);
      var id := ParseLong(e.member).value;
      assert h == HotPost(id, posts[id].title, posts[id].slug, posts[id].viewCount, e.score);
    }
  }

  /** One step of `HotPostsFrom`: the first tuple's entry, if its post
      exists, ahead of the rest's. */
  lemma HotPostsStep(posts: Posts.PostTable, tuples: seq<SortedSet.Entry>)
    requires tuples != [] && HotPostsFrom(posts, tuples).Success?
    ensures ParseLong(tuples[0].member).Some?
    ensures HotPostsFrom(posts, tuples[1..]).Success?
    ensures var id := ParseLong(tuples[0].member).value;
      var rest := HotPostsFrom(posts, tuples[1..]).value;
      HotPostsFrom(posts, tuples).value ==
        if id in posts then [HotPost(id, posts[id].title, posts[id].slug, posts[id].viewCount, tuples[0].score)] + rest
        else rest
  {
  }

  lemma {:induction false} HotPostsFromTuples(posts: Posts.PostTable, tuples: seq<SortedSet.Entry>)
    requires HotPostsFrom(posts, tuples).Success?
    ensures forall h :: h in HotPostsFrom(posts, tuples).value ==> exists e :: e in tuples && Renders(posts, e, h)
    decreases |tuples|
  {
    if tuples != [] {
      HotPostsStep(posts, tuples);
      HotPostsFromTuples(posts, tuples[1..]);
      forall h | h in HotPostsFrom(posts, tuples).value
        ensures exists e :: e in tuples && Renders(posts, e, h)
      {
        if h in HotPostsFrom(posts, tuples[1..]).value {
          var e :| e in tuples[1..] && Renders(posts, e, h);
          assert e in tuples;
        } else {
          assert tuples[0] in tuples && Renders(posts, tuples[0], h);
        }
      }
    }
  }

  lemma {:induction false} TuplesGiveHotPosts(posts: Posts.PostTable, tuples: seq<SortedSet.Entry>)
    requires HotPostsFrom(posts, tuples).Success?
    ensures forall e :: e in tuples && ParseLong(e.member).Some? && ParseLong(e.member).value in posts ==>
      exists h :: h in HotPostsFrom(posts, tuples).value && Renders(posts, e, h)
    decreases |tuples|
  {
    if tuples != [] {
      HotPostsStep(posts, tuples);
      TuplesGiveHotPosts(posts, tuples[1..]);
      var r := HotPostsFrom(posts, tuples).value;
      var rest := HotPostsFrom(posts, tuples[1..]).value;
      assert forall h :: h in rest ==> h in r;
      forall e | e in tuples && ParseLong(e.member).Some? && ParseLong(e.member).value in posts
        ensures exists h :: h in r && Renders(posts, e, h)
      {
        if e != tuples[0] {
          assert e in tuples[1..];
        } else {
          assert Renders(posts, e, r[0]);
        }
      }
    }
  }

  /** No entry scores above a bound every tuple respects. */
  lemma {:induction false} HotPostsBounded(posts: Posts.PostTable, tuples: seq<SortedSet.Entry>, bound: int)
    requires HotPostsFrom(posts, tuples).Success?
    requires forall i :: 0 <= i < |tuples| ==> tuples[i].score <= bound
    ensures forall h :: h in HotPostsFrom(posts, tuples).value ==> h.score <= bound
    decreases |tuples|
  {
    if tuples != [] {
      var rest := tuples[1..];
      assert forall i :: 0 <= i < |rest| ==> rest[i] == tuples[i + 1];
      HotPostsBounded(posts, rest, bound);
    }
  }

  /** Entries keep the tuples' order, so descending scores stay descending. */
  lemma {:induction false} HotPostsKeepOrder(posts: Posts.PostTable, tuples: seq<SortedSet.Entry>)
    requires HotPostsFrom(posts, tuples).Success?
    requires forall i, j :: 0 <= i < j < |tuples| ==> tuples[j].score <= tuples[i].score
    ensures var r := HotPostsFrom(posts, tuples).value;
      forall i, j :: 0 <= i < j < |r| ==> r[j].score <= r[i].score
    decreases |tuples|
  {
    if tuples != [] {
      HotPostsStep(posts, tuples);
      var rest := tuples[1..];
      assert forall i :: 0 <= i < |rest| ==> rest[i] == tuples[i + 1];
      HotPostsKeepOrder(posts, rest);
      HotPostsBounded(posts, rest, tuples[0].score);
      var tail := HotPostsFrom(posts, rest).value;
      var id := ParseLong(tuples[0].member).value;
      if id in posts {
        var p := posts[id];
        var r := [HotPost(id, p.title, p.slug, p.viewCount, tuples[0].score)] + tail;
        assert HotPostsFrom(posts, tuples).value == r;
        forall i, j | 0 <= i < j < |r| ensures r[j].score <= r[i].score {
          assert r[j] == tail[j - 1];
          if i > 0 {
            assert r[i] == tail[i - 1];
          } else {
            assert r[j] in tail;
          }
        }
      } else {
        assert HotPostsFrom(posts, tuples).value == tail;
      }
    }
  }

  /** The ranking tuples `buildHotPosts` reads: ranks 0 to 4 of the
      ranking, best first. */
  function HotTuples(st: Redis.Store): (top: seq<SortedSet.Entry>)
    requires Redis.Valid(st)
    ensures |top| == if HOT_POSTS < |Redis.ZSet(st, KEY_POST_RANKING)| then HOT_POSTS else |Redis.ZSet(st, KEY_POST_RANKING)|
    ensures forall i, j :: 0 <= i < j < |top| ==> SortedSet.EntryLess(top[j], top[i])
    ensures forall x :: x in top ==> x in Redis.ZSet(st, KEY_POST_RANKING)
    ensures forall x, y :: x in Redis.ZSet(st, KEY_POST_RANKING) && x !in top && y in top ==> SortedSet.EntryLess(x, y)
  {
    SortedSet.RevTop(Redis.ZSet(st, KEY_POST_RANKING), HOT_POSTS)
  }

  /** `buildHotPosts`: the entries the top five ranking tuples yield, in
      ranking order. Any member that does not parse as a `long`, a blank
      one included, makes the whole call fail, and the exception names the
      member `ReportedMember` picks. */
  function BuildHotPosts(posts: Posts.PostTable, st: Redis.Store): (r: Outcome<seq<HotPost>>)
    requires Redis.Valid(st)
    ensures Redis.ZSet(st, KEY_POST_RANKING) == [] ==> r == Success([])
    ensures r.Success? <==> forall e :: e in HotTuples(st) ==> ParseLong(e.member).Some?
    ensures r.Failure? ==> ReportedMember(HotTuples(st)).Some?
    ensures r.Failure? && ReportedMember(HotTuples(st)).Some? ==>
      r.error == ForInputString(HotTuples(st)[ReportedMember(HotTuples(st)).value].member)
    ensures r.Success? ==> |r.value| <= HOT_POSTS
    ensures r.Success? ==> forall i, j :: 0 <= i < j < |r.value| ==> r.value[j].score <= r.value[i].score
    ensures r.Success? ==> forall h :: h in r.value <==> exists e :: e in HotTuples(st) && Renders(posts, e, h)
  {
    var top := HotTuples(st);
    HotTuplesDescend(st);
    HotPostsOfTuples(posts, top);
    HotPostsOfRanking(posts, top)
  }

  /** The tuples read come best first, so their scores descend. */
  lemma HotTuplesDescend(st: Redis.Store)
    requires Redis.Valid(st)
    ensures var top := HotTuples(st);
      forall i, j :: 0 <= i < j < |top| ==> top[j].score <= top[i].score
  {
    var top := HotTuples(st);
    forall i, j | 0 <= i < j < |top| ensures top[j].score <= top[i].score {
      assert SortedSet.EntryLess(top[j], top[i]);
    }
  }

  /** What `HotPostsFrom` gives for tuples with descending scores: it fails
      exactly on an unparsable member, keeps the order, and holds exactly
      the entries the tuples yield. */
  lemma HotPostsOfTuples(posts: Posts.PostTable, top: seq<SortedSet.Entry>)
    requires forall i, j :: 0 <= i < j < |top| ==> top[j].score <= top[i].score
    ensures var r := HotPostsFrom(posts, top);
      && (r.Success? <==> forall e :: e in top ==> ParseLong(e.member).Some?)
      && (r.Success? ==> forall i, j :: 0 <= i < j < |r.value| ==> r.value[j].score <= r.value[i].score)
      && (r.Success? ==> forall h :: h in r.value <==> exists e :: e in top && Renders(posts, e, h))
  {
    assert (forall e :: e in top ==> ParseLong(e.member).Some?) <==> (forall i :: 0 <= i < |top| ==> ParseLong(top[i].member).Some?);
    if HotPostsFrom(posts, top).Success? {
      HotPostsMatchTuples(posts, top);
      HotPostsKeepOrder(posts, top);
    }
  }

  /** Posts counted as published on the overview: status exactly
      "published" and not deleted. */
  function PublishedCount(posts: Posts.PostTable): (n: nat)
    ensures n == |set id | id in posts && posts[id].status == Posts.STATUS_PUBLISHED && posts[id].deletedAt.None?|
  {
    |set id | id in posts && posts[id].status == Posts.STATUS_PUBLISHED && posts[id].deletedAt.None?|
  }

  /** Comments whose status is exactly "pending". */
  function PendingCount(cs: Comments.CommentTable): (n: nat)
    ensures n == |set i: nat | i < |cs| && cs[i].status == Comments.STATUS_PENDING|
  {
    |set i: nat | i < |cs| && cs[i].status == Comments.STATUS_PENDING|
  }

  /** `getOverview`: today's counters read back (a missing or unreadable
      page-view value reads as 0), the two table counts and the hot posts. */
  function GetOverview(db: Db, st: Redis.Store, today: Dates.Date): (r: Outcome<Overview>)
    requires Redis.Valid(st) && Dates.Valid(today)
    ensures r.Success? <==> BuildHotPosts(db.posts, st).Success?
    ensures r.Failure? ==> r.error == BuildHotPosts(db.posts, st).error
    ensures r.Success? ==>
      && r.value.todayPv == ParseLongOrZero(Redis.Get(st, PvKey(today)))
      && r.value.todayUv == Redis.PfCount(st, UvKey(today))
      && r.value.publishedPosts == PublishedCount(db.posts)
      && r.value.pendingComments == PendingCount(db.comments)
      && r.value.hotPosts == BuildHotPosts(db.posts, st).value
    ensures r.Success? && PvKey(today) !in st.strings ==> r.value.todayPv == 0
    ensures r.Success? && UvKey(today) !in st.hlls ==> r.value.todayUv == 0
  {
    var hot :- BuildHotPosts(db.posts, st);
    Success(Overview(ParseLongOrZero(Redis.Get(st, PvKey(today))), Redis.PfCount(st, UvKey(today)),
                     PublishedCount(db.posts), PendingCount(db.comments), hot))
  }

  /** A view on the overview's day shows up in its page-view counter. */
  lemma ViewShowsOnOverview(db: Db, st: Redis.Store, post: int, currentUser: Option<int>,
                            request: Option<Requests.HttpRequest>, today: Dates.Date)
    requires Redis.Valid(st) && Dates.Valid(today)
    requires RecordPostView(db, st, Some(post), currentUser, request, today).Success?
    ensures var (db', st') := RecordPostView(db, st, Some(post), currentUser, request, today).value;
      GetOverview(db', st', today).Success? ==>
        GetOverview(db', st', today).value.todayPv == ParseLongOrZero(Redis.Get(st, PvKey(today))) + 1
  {
    var st' := RecordPostView(db, st, Some(post), currentUser, request, today).value.1;
    KeysDistinctOnDay(today);
    var pv := PvKey(today);
    var n := Redis.Incr(st, pv).value.1;
    assert Redis.Get(st', pv) == Some(Show(n));
    IncrReadsBack(st, pv);
  }

  /** A successful increment yields the counter as read, plus one, and reads
      back as that value. */
  lemma IncrReadsBack(st: Redis.Store, key: string)
    requires Redis.Incr(st, key).Success?
    ensures var n := Redis.Incr(st, key).value.1;
      && n == ParseLongOrZero(Redis.Get(st, key)) + 1
      && ParseLongOrZero(Some(Show(n))) == n
  {
    var n := Redis.Incr(st, key).value.1;
    if key in st.strings {
      assert StoreInteger(st.strings[key]) == Some(n - 1);
      ParseShow(n - 1);
    }
    ParseShow(n);
  }
}
