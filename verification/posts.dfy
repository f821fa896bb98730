/** The post entity: a blog article with its publication state, counters
    and tags. Nullable columns are `Option`s; timestamps are abstract
    instants supplied by the caller's clock. */
module Posts {
  import opened Wrappers
  import opened Text

  /** A `LocalDateTime`, kept abstract: only equality and presence matter. */
  type Instant = int

  const STATUS_DRAFT: string := "draft"
  const STATUS_PUBLISHED: string := "published"

  datatype Post = Post(
    id: int,
    title: string,
    slug: string,
    summary: Option<string>,
    content: string,
    coverUrl: Option<string>,
    status: string,
    top: Option<bool>,
    authorId: Option<int>,
    viewCount: Option<int>,
    likeCount: Option<int>,
    commentCount: Option<int>,
    readingTime: Option<int>,
    seoKeywords: Option<string>,
    publishedAt: Option<Instant>,
    deletedAt: Option<Instant>,
    tagIds: set<int>)

  /** The status reads "published" in any letter case. */
  predicate StatusIsPublished(status: string) {
    EqualsIgnoreCase(status, STATUS_PUBLISHED)
  }

  /** `isPublished`: published status and not soft-deleted. */
  predicate IsPublished(p: Post) {
    StatusIsPublished(p.status) && p.deletedAt.None?
  }

  /** A freshly constructed post before any request is applied. Title, slug
      and content are unset (null in the entity) until the request is
      applied, which always happens before the post is stored; they are
      empty here. */
  function NewPost(id: int): (p: Post)
    ensures p.id == id && p.status == STATUS_DRAFT && p.top == Some(false)
    ensures p.viewCount == Some(0) && p.likeCount == Some(0) && p.commentCount == Some(0)
    ensures p.tagIds == {} && p.publishedAt.None? && p.deletedAt.None? && p.authorId.None?
    ensures !IsPublished(p)
  {
    Post(id, "", "", None, "", None, STATUS_DRAFT, Some(false), None,
         Some(0), Some(0), Some(0), None, None, None, None, {})
  }

  /** A soft-deleted post is never published, whatever its status says. */
  lemma DeletedNeverPublished(p: Post)
    requires p.deletedAt.Some?
    ensures !IsPublished(p)
  {
  }

  /** The posts table, keyed by id. */
  type PostTable = map<int, Post>

  predicate WellKeyed(posts: PostTable) {
    forall id :: id in posts ==> posts[id].id == id
  }

  /** The unique constraint on `slug`. */
  predicate SlugsUnique(posts: PostTable) {
    forall a, b :: a in posts && b in posts && a != b ==> posts[a].slug != posts[b].slug
  }

  predicate SlugTaken(posts: PostTable, slug: string) {
    exists id :: id in posts && posts[id].slug == slug
  }

  predicate Valid(posts: PostTable) {
    WellKeyed(posts) && SlugsUnique(posts)
  }
}
