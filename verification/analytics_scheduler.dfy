/** The nightly archive of the previous day's counters into the durable
    statistics table, and the hourly trim of the view ranking. The clock
    is the `today` parameter. */
module AnalyticsScheduler {
  import opened Wrappers
  import opened Errors
  import opened Numbers
  import opened Database
  import Dates
  import ViewStats
  import Redis
  import SortedSet
  import AnalyticsService

  const RANKING_KEEP: nat := 100

  /** `(int) Math.min(Integer.MAX_VALUE, v)` for a `long`: capped from above
      only; a value below the `int` range wraps. */
  function ClampToInt(v: int): (r: int)
    ensures IsInt32(r)
    ensures v >= INT_MAX ==> r == INT_MAX
    ensures IsInt32(v) ==> r == v
  {
    Wrap32(if v < INT_MAX then v else INT_MAX)
  }

  /** The site-wide row for a date. */
  function SiteKey(d: Dates.Date): ViewStats.StatKey {
    ViewStats.StatKey(d, None)
  }

  /** `newId` is the identifier the database assigns if a row is created. */
  predicate FreshStatId(stats: ViewStats.ViewStatTable, newId: int) {
    forall k :: k in stats ==> stats[k].id != newId
  }

  /** The site-wide row for `target` holds the capped counts, keeping its
      identifier when it already existed; every other row and table is as
      before. */
  predicate Upserted(db: Db, db': Db, target: Dates.Date, pv: int, uv: int, newId: int) {
    var key := SiteKey(target);
    && key in db'.viewStats
    && db'.viewStats[key].pageViews == ClampToInt(pv)
    && db'.viewStats[key].uniqueVisitors == ClampToInt(uv)
    && db'.viewStats[key].id == (if key in db.viewStats then db.viewStats[key].id else newId)
    && db'.viewStats.Keys == db.viewStats.Keys + {key}
    && (forall k :: k in db.viewStats && k != key ==> db'.viewStats[k] == db.viewStats[k])
    && db' == db.(viewStats := db'.viewStats)
  }

  /** What one run leaves behind for `target`: both keys deleted, and the
      site-wide row written unless there was nothing to record. */
  predicate Archived(db: Db, st: Redis.Store, target: Dates.Date, newId: int, db': Db, st': Redis.Store)
    requires Dates.Valid(target)
  {
    var pv := ParseLongOrZero(Redis.Get(st, AnalyticsService.PvKey(target)));
    var uv := Redis.PfCount(st, AnalyticsService.UvKey(target));
    && st' == Redis.Delete(Redis.Delete(st, AnalyticsService.PvKey(target)), AnalyticsService.UvKey(target))
    && (pv == 0 && uv == 0 ==> db' == db)
    && (!(pv == 0 && uv == 0) ==> Upserted(db, db', target, pv, uv, newId))
  }

  /** Writing the site-wide row for `target`: reused or created with `newId`,
      its date and post kept, its counts overwritten. */
  function StoreDaily(db: Db, target: Dates.Date, pv: int, uv: int, newId: int): (db': Db)
    requires FreshStatId(db.viewStats, newId)
    ensures Upserted(db, db', target, pv, uv, newId)
    ensures ViewStats.WellKeyed(db.viewStats) ==> ViewStats.WellKeyed(db'.viewStats)
  {
    var key := SiteKey(target);
    var row := if key in db.viewStats then db.viewStats[key] else ViewStats.NewViewStat(newId, target, None);
    var row' := row.(statDate := target, postId := None, pageViews := ClampToInt(pv), uniqueVisitors := ClampToInt(uv));
    db.(viewStats := db.viewStats[key := row'])
  }

  /** One run for a known previous day. */
  function ArchiveDay(db: Db, st: Redis.Store, target: Dates.Date, newId: int): (r: (Db, Redis.Store))
    requires Dates.Valid(target) && FreshStatId(db.viewStats, newId)
    ensures Archived(db, st, target, newId, r.0, r.1)
    ensures ViewStats.WellKeyed(db.viewStats) ==> ViewStats.WellKeyed(r.0.viewStats)
  {
    var pvKey := AnalyticsService.PvKey(target);
    var uvKey := AnalyticsService.UvKey(target);
    var pv := ParseLongOrZero(Redis.Get(st, pvKey));
    var uv := Redis.PfCount(st, uvKey);
    var st' := Redis.Delete(Redis.Delete(st, pvKey), uvKey);
    if pv == 0 && uv == 0 then (db, st') else (StoreDaily(db, target, pv, uv, newId), st')
  }

  /** `archiveDailyMetrics`: yesterday's page views (0 when missing or not a
      `long`) and distinct visitors are read. Both zero: nothing is written.
      Otherwise the site-wide row for that date, reused or created, has its
      counts overwritten with the capped values. Either way both keys are
      deleted. `today` must have a previous day. */
  function Archive(db: Db, st: Redis.Store, today: Dates.Date, newId: int): (r: Outcome<(Db, Redis.Store)>)
    requires Dates.Valid(today) && FreshStatId(db.viewStats, newId)
    ensures Dates.MinusOneDay(today).None? <==> r.Failure?
    ensures r.Failure? ==> r.error.Runtime? && r.error.failure == DateTime
    ensures r.Success? ==> Archived(db, st, Dates.MinusOneDay(today).value, newId, r.value.0, r.value.1)
    ensures r.Success? && ViewStats.WellKeyed(db.viewStats) ==> ViewStats.WellKeyed(r.value.0.viewStats)
  {
    match Dates.MinusOneDay(today)
    case None => Failure(Runtime(DateTime, Some("Invalid date")))
    case Some(target) => Success(ArchiveDay(db, st, target, newId))
  }

  /** After a run both of the day's keys are gone, and a second run the same
      day writes nothing and changes nothing. */
  lemma ArchiveIdempotent(db: Db, st: Redis.Store, today: Dates.Date, newId: int, newId2: int)
    requires Dates.Valid(today) && FreshStatId(db.viewStats, newId)
    requires Archive(db, st, today, newId).Success?
    requires FreshStatId(Archive(db, st, today, newId).value.0.viewStats, newId2)
    ensures var (db1, st1) := Archive(db, st, today, newId).value;
      var target := Dates.MinusOneDay(today).value;
      && !Redis.Exists(st1, AnalyticsService.PvKey(target)) && !Redis.Exists(st1, AnalyticsService.UvKey(target))
      && Archive(db1, st1, today, newId2) == Success((db1, st1))
  {
    var target := Dates.MinusOneDay(today).value;
    var (db1, st1) := Archive(db, st, today, newId).value;
    assert Archived(db, st, target, newId, db1, st1);
    var pvKey := AnalyticsService.PvKey(target);
    var uvKey := AnalyticsService.UvKey(target);
    DeleteTwiceSettles(st, pvKey, uvKey);
    assert Redis.Get(st1, pvKey).None? && Redis.PfCount(st1, uvKey) == 0;
    assert ArchiveDay(db1, st1, target, newId2) == (db1, st1);
  }

  /** Deleting two keys leaves a store in which deleting them again does
      nothing. */
  lemma DeleteTwiceSettles(st: Redis.Store, a: string, b: string)
    ensures var st1 := Redis.Delete(Redis.Delete(st, a), b);
      Redis.Delete(Redis.Delete(st1, a), b) == st1
  {
    var st1 := Redis.Delete(Redis.Delete(st, a), b);
    assert Redis.Delete(st1, a) == st1;
  }

  /** `trimRankingBoard`: a ranking of at most 100 members (or none) is left
      alone; a larger one loses its lowest-ranked members until 100 remain,
      and those are the highest-ranked, with their scores. */
  function TrimRankingBoard(st: Redis.Store): (st': Redis.Store)
    requires Redis.Valid(st)
    ensures Redis.Valid(st')
    ensures |Redis.ZSet(st, AnalyticsService.KEY_POST_RANKING)| <= RANKING_KEEP ==> st' == st
    ensures var z := Redis.ZSet(st, AnalyticsService.KEY_POST_RANKING);
      var z' := Redis.ZSet(st', AnalyticsService.KEY_POST_RANKING);
      && |z'| == (if |z| <= RANKING_KEEP then |z| else RANKING_KEEP)
      && (forall x :: x in z' ==> x in z)
      && (forall x, y :: x in z && x !in z' && y in z' ==> SortedSet.EntryLess(x, y))
    ensures st'.strings == st.strings && st'.hlls == st.hlls && st'.ttl == st.ttl
    ensures forall k :: k != AnalyticsService.KEY_POST_RANKING ==>
      (k in st'.zsets <==> k in st.zsets) && (k in st.zsets ==> st'.zsets[k] == st.zsets[k])
  {
    var z := Redis.ZSet(st, AnalyticsService.KEY_POST_RANKING);
    if |z| <= RANKING_KEEP then st
    else st.(zsets := st.zsets[AnalyticsService.KEY_POST_RANKING := SortedSet.RemoveLowest(z, |z| - RANKING_KEEP)])
  }

  /** Trimming twice is trimming once. */
  lemma TrimIdempotent(st: Redis.Store)
    requires Redis.Valid(st)
    ensures TrimRankingBoard(TrimRankingBoard(st)) == TrimRankingBoard(st)
  {
  }
}
