/** Durable daily statistics: one row per (date, post), where a missing
    post marks the site-wide row. The table is keyed by that pair, so the
    unique constraint on it holds by construction. */
module ViewStats {
  import opened Wrappers
  import Dates

  /** The unique key: the statistics date and the post (None: site-wide). */
  datatype StatKey = StatKey(statDate: Dates.Date, postId: Option<int>)

  datatype ViewStat = ViewStat(id: int, statDate: Dates.Date, postId: Option<int>, pageViews: int, uniqueVisitors: int)

  type ViewStatTable = map<StatKey, ViewStat>

  /** Every row sits under its own key. */
  predicate WellKeyed(stats: ViewStatTable) {
    forall k :: k in stats ==> stats[k].statDate == k.statDate && stats[k].postId == k.postId
  }

  /** A new row: counts default to 0. */
  function NewViewStat(id: int, date: Dates.Date, postId: Option<int>): (s: ViewStat)
    ensures s.id == id && s.statDate == date && s.postId == postId
    ensures s.pageViews == 0 && s.uniqueVisitors == 0
  {
    ViewStat(id, date, postId, 0, 0)
  }
}
