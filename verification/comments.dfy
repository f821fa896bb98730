/** The comment entity. The comments table is a sequence in creation
    order, so "ordered by creation time" is the table's own order. */
module Comments {
  import opened Wrappers
  import Posts

  const STATUS_APPROVED: string := "approved"
  const STATUS_PENDING: string := "pending"
  const STATUS_REJECTED: string := "rejected"

  datatype Comment = Comment(
    id: int,
    postId: int,
    userId: Option<int>,
    parentId: Option<int>,
    content: string,
    authorName: Option<string>,
    status: string,
    ipAddress: Option<string>,
    userAgent: Option<string>,
    createdAt: Posts.Instant)

  type CommentTable = seq<Comment>

  predicate IdsUnique(cs: CommentTable) {
    forall i, j :: 0 <= i < |cs| && 0 <= j < |cs| && i != j ==> cs[i].id != cs[j].id
  }

  /** The position of the comment with `id`. */
  function IndexOf(cs: CommentTable, id: int): (r: Option<nat>)
    ensures r.Some? ==> r.value < |cs| && cs[r.value].id == id
    ensures r.None? <==> forall i :: 0 <= i < |cs| ==> cs[i].id != id
  {
    if cs == [] then None
    else if cs[|cs| - 1].id == id then Some(|cs| - 1)
    else IndexOf(cs[..|cs| - 1], id)
  }

  predicate ApprovedOn(c: Comment, postId: int) {
    c.postId == postId && c.status == STATUS_APPROVED
  }

  /** `countByPostIdAndStatus(postId, "approved")`. */
  function ApprovedCount(cs: CommentTable, postId: int): (n: nat)
    ensures n <= |cs|
  {
    if cs == [] then 0
    else
      var last := if ApprovedOn(cs[|cs| - 1], postId) then 1 else 0;
      ApprovedCount(cs[..|cs| - 1], postId) + last
  }

  /** The positions of the approved comments on a post. */
  function ApprovedPositions(cs: CommentTable, postId: int): set<nat> {
    set i: nat | i < |cs| && ApprovedOn(cs[i], postId)
  }

  /** The count is the number of approved comments on the post. */
  lemma {:induction false} ApprovedCountIsSize(cs: CommentTable, postId: int)
    ensures ApprovedCount(cs, postId) == |ApprovedPositions(cs, postId)|
  {
    if cs != [] {
      var n := |cs| - 1;
      ApprovedCountIsSize(cs[..n], postId);
      var before := ApprovedPositions(cs[..n], postId);
      assert forall i: nat :: i < n ==> cs[..n][i] == cs[i];
      if ApprovedOn(cs[n], postId) {
        assert ApprovedPositions(cs, postId) == before + {n};
      } else {
        assert ApprovedPositions(cs, postId) == before;
      }
    }
  }
}
