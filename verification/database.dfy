/** The relational state the services read and write: one table per
    entity, and the three unique (user, item) relations for likes,
    favourites and tag subscriptions. */
module Database {
  import Posts
  import Tags
  import Users
  import Comments
  import ViewStats

  /** A (user id, item id) pair of a unique relation. */
  datatype Link = Link(userId: int, itemId: int)

  datatype Db = Db(
    posts: Posts.PostTable,
    tags: Tags.TagTable,
    users: Users.UserTable,
    roles: set<string>,
    comments: Comments.CommentTable,
    likes: set<Link>,
    favorites: set<Link>,
    subscriptions: set<Link>,
    viewStats: ViewStats.ViewStatTable)

  predicate Valid(db: Db) {
    && Posts.Valid(db.posts)
    && Tags.Valid(db.tags)
    && Users.WellKeyed(db.users)
    && Comments.IdsUnique(db.comments)
    && CommentsLinked(db)
    && ViewStats.WellKeyed(db.viewStats)
  }

  /** The foreign keys of a comment: its post and, when set, its author. */
  predicate CommentsLinked(db: Db) {
    forall i :: 0 <= i < |db.comments| ==>
      db.comments[i].postId in db.posts
      && (db.comments[i].userId.Some? ==> db.comments[i].userId.value in db.users)
  }

  /** `countByPostId` and friends: the links to one item. */
  function LinksTo(links: set<Link>, itemId: int): (r: set<Link>)
    ensures forall l :: l in r <==> l in links && l.itemId == itemId
  {
    set l | l in links && l.itemId == itemId
  }
}
