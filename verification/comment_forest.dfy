/** The reply forest shown under a post. The approved comments arrive in
    creation order; each one is registered under its id, parentless ones
    become roots, and a reply is hung under the response registered for its
    parent id if there is one -- otherwise it is dropped. A reply can only
    hang under a comment that came before it.

    The forest is built here as the code builds it, and proved against an
    independent description: comment `k` appears in the forest exactly when
    its chain of parents leads to a root (`Attached`), and no comment
    appears twice. */
module CommentForest {
  import opened Wrappers
  import opened Comments

  datatype Node = Node(comment: Comment, children: seq<Node>)

  /** The latest position before `upTo` holding a comment with `id`: the
      entry the id-to-response map holds at that moment. */
  function LastWithId(cs: seq<Comment>, id: int, upTo: nat): (r: Option<nat>)
    requires upTo <= |cs|
    ensures r.Some? ==> r.value < upTo && cs[r.value].id == id
    ensures r.Some? ==> forall m :: r.value < m < upTo ==> cs[m].id != id
    ensures r.None? ==> forall m :: 0 <= m < upTo ==> cs[m].id != id
    decreases upTo
  {
    if upTo == 0 then None
    else if cs[upTo - 1].id == id then Some(upTo - 1)
    else LastWithId(cs, id, upTo - 1)
  }

  /** Where the lookup of `k`'s parent lands. Comment `k` is registered
      before the lookup, so a comment naming itself as parent finds itself. */
  function ParentPos(cs: seq<Comment>, k: nat): Option<nat>
    requires k < |cs|
  {
    match cs[k].parentId
    case None => None
    case Some(pid) => LastWithId(cs, pid, k + 1)
  }

  predicate IsRoot(cs: seq<Comment>, k: nat)
    requires k < |cs|
  {
    cs[k].parentId.None?
  }

  /** The earlier comment `k` is hung under, if any. A comment hung under
      itself is reachable from no root, as in the code. */
  function Up(cs: seq<Comment>, k: nat): (r: Option<nat>)
    requires k < |cs|
    ensures r.Some? ==> r.value < k
    ensures IsRoot(cs, k) ==> r.None?
  {
    var p := ParentPos(cs, k);
    if p.Some? && p.value < k then p else None
  }

  predicate ChildOf(cs: seq<Comment>, k: nat, i: nat)
    requires k < |cs|
  {
    Up(cs, k) == Some(i)
  }

  // ---- The forest as the code builds it ----

  function Subtree(cs: seq<Comment>, i: nat): Node
    requires i < |cs|
    decreases |cs| - i, 0
  {
    Node(cs[i], Kids(cs, i, i + 1))
  }

  /** The subtrees of `i`'s children at positions `from` and later. */
  function Kids(cs: seq<Comment>, i: nat, from: nat): seq<Node>
    requires i < |cs| && from <= |cs|
    decreases |cs| - from, 1
  {
    if from == |cs| then []
    else (if ChildOf(cs, from, i) then [Subtree(cs, from)] else []) + Kids(cs, i, from + 1)
  }

  function Roots(cs: seq<Comment>, from: nat): seq<Node>
    requires from <= |cs|
    decreases |cs| - from
  {
    if from == |cs| then []
    else (if IsRoot(cs, from) then [Subtree(cs, from)] else []) + Roots(cs, from + 1)
  }

  /** The forest built from the approved comments in creation order. */
  function Forest(cs: seq<Comment>): seq<Node> {
    Roots(cs, 0)
  }

  /** Every comment of a tree, in depth-first order. */
  function Flatten(n: Node): seq<Comment>
    decreases n
  {
    [n.comment] + FlattenAll(n.children)
  }

  function FlattenAll(ns: seq<Node>): seq<Comment>
    decreases ns
  {
    if ns == [] then [] else Flatten(ns[0]) + FlattenAll(ns[1..])
  }

  // ---- The same traversal over positions ----

  function FlatAt(cs: seq<Comment>, i: nat): (r: seq<nat>)
    requires i < |cs|
    ensures forall j :: 0 <= j < |r| ==> i <= r[j] < |cs|
    decreases |cs| - i, 0
  {
    [i] + FlatKids(cs, i, i + 1)
  }

  function FlatKids(cs: seq<Comment>, i: nat, from: nat): (r: seq<nat>)
    requires i < |cs| && from <= |cs|
    ensures forall j :: 0 <= j < |r| ==> from <= r[j] < |cs|
    decreases |cs| - from, 1
  {
    if from == |cs| then []
    else (if ChildOf(cs, from, i) then FlatAt(cs, from) else []) + FlatKids(cs, i, from + 1)
  }

  function FlatRoots(cs: seq<Comment>, from: nat): (r: seq<nat>)
    requires from <= |cs|
    ensures forall j :: 0 <= j < |r| ==> from <= r[j] < |cs|
    decreases |cs| - from
  {
    if from == |cs| then []
    else (if IsRoot(cs, from) then FlatAt(cs, from) else []) + FlatRoots(cs, from + 1)
  }

  function At(cs: seq<Comment>, ix: seq<nat>): (r: seq<Comment>)
    requires forall j :: 0 <= j < |ix| ==> ix[j] < |cs|
    ensures |r| == |ix| && forall j :: 0 <= j < |ix| ==> r[j] == cs[ix[j]]
  {
    seq(|ix|, j requires 0 <= j < |ix| => cs[ix[j]])
  }

  lemma AtConcat(cs: seq<Comment>, a: seq<nat>, b: seq<nat>)
    requires forall j :: 0 <= j < |a| ==> a[j] < |cs|
    requires forall j :: 0 <= j < |b| ==> b[j] < |cs|
    ensures At(cs, a + b) == At(cs, a) + At(cs, b)
  {
  }

  lemma {:induction false} FlattenSubtree(cs: seq<Comment>, i: nat)
    requires i < |cs|
    ensures Flatten(Subtree(cs, i)) == At(cs, FlatAt(cs, i))
    decreases |cs| - i, 0
  {
    FlattenKids(cs, i, i + 1);
    AtConcat(cs, [i], FlatKids(cs, i, i + 1));
  }

  lemma {:induction false} FlattenKids(cs: seq<Comment>, i: nat, from: nat)
    requires i < |cs| && from <= |cs|
    ensures FlattenAll(Kids(cs, i, from)) == At(cs, FlatKids(cs, i, from))
    decreases |cs| - from, 1
  {
    if from < |cs| {
      FlattenKids(cs, i, from + 1);
      var rest := Kids(cs, i, from + 1);
      if ChildOf(cs, from, i) {
        FlattenSubtree(cs, from);
        var ns := [Subtree(cs, from)] + rest;
        assert ns[0] == Subtree(cs, from) && ns[1..] == rest;
        AtConcat(cs, FlatAt(cs, from), FlatKids(cs, i, from + 1));
      } else {
        assert [] + rest == rest;
        assert [] + FlatKids(cs, i, from + 1) == FlatKids(cs, i, from + 1);
      }
    }
  }

  lemma {:induction false} FlattenRoots(cs: seq<Comment>, from: nat)
    requires from <= |cs|
    ensures FlattenAll(Roots(cs, from)) == At(cs, FlatRoots(cs, from))
    decreases |cs| - from
  {
    if from < |cs| {
      FlattenRoots(cs, from + 1);
      var rest := Roots(cs, from + 1);
      if IsRoot(cs, from) {
        FlattenSubtree(cs, from);
        var ns := [Subtree(cs, from)] + rest;
        assert ns[0] == Subtree(cs, from) && ns[1..] == rest;
        AtConcat(cs, FlatAt(cs, from), FlatRoots(cs, from + 1));
      } else {
        assert [] + rest == rest;
        assert [] + FlatRoots(cs, from + 1) == FlatRoots(cs, from + 1);
      }
    }
  }

  // ---- The independent description: chains of parents ----

  /** `k` lies in the subtree of `i`: following parents from `k` reaches `i`. */
  predicate Desc(cs: seq<Comment>, i: nat, k: nat)
    requires i < |cs| && k < |cs|
    decreases k
  {
    k == i || (Up(cs, k).Some? && Desc(cs, i, Up(cs, k).value))
  }

  /** Following parents from `k` reaches a root. */
  predicate Attached(cs: seq<Comment>, k: nat)
    requires k < |cs|
    decreases k
  {
    IsRoot(cs, k) || (Up(cs, k).Some? && Attached(cs, Up(cs, k).value))
  }

  lemma {:induction false} DescBelow(cs: seq<Comment>, i: nat, k: nat)
    requires i < |cs| && k < |cs| && Desc(cs, i, k)
    ensures i <= k
    decreases k
  {
    if k != i {
      DescBelow(cs, i, Up(cs, k).value);
    }
  }

  /** The child of `i` on the way from `i` down to `k`. */
  function ChildOnChain(cs: seq<Comment>, i: nat, k: nat): (c: nat)
    requires i < |cs| && k < |cs| && Desc(cs, i, k) && k != i
    ensures i < c <= k && ChildOf(cs, c, i) && Desc(cs, c, k)
    decreases k
  {
    var j := Up(cs, k).value;
    if j == i then k
    else
      var c := ChildOnChain(cs, i, j);
      c
  }

  /** The root above an attached comment. */
  function RootOf(cs: seq<Comment>, k: nat): (r: nat)
    requires k < |cs| && Attached(cs, k)
    ensures r <= k && IsRoot(cs, r) && Desc(cs, r, k)
    decreases k
  {
    if IsRoot(cs, k) then k else RootOf(cs, Up(cs, k).value)
  }

  lemma {:induction false} ChainThroughChild(cs: seq<Comment>, i: nat, c: nat, k: nat)
    requires i < |cs| && c < |cs| && k < |cs|
    requires ChildOf(cs, c, i) && Desc(cs, c, k)
    ensures Desc(cs, i, k) && k != i && ChildOnChain(cs, i, k) == c
    decreases k
  {
    DescBelow(cs, c, k);
    if k != c {
      ChainThroughChild(cs, i, c, Up(cs, k).value);
    }
  }

  lemma {:induction false} ChainFromRoot(cs: seq<Comment>, r: nat, k: nat)
    requires r < |cs| && k < |cs|
    requires IsRoot(cs, r) && Desc(cs, r, k)
    ensures Attached(cs, k) && RootOf(cs, k) == r
    decreases k
  {
    if k != r {
      ChainFromRoot(cs, r, Up(cs, k).value);
    }
  }

  // ---- Membership ----

  lemma {:induction false} FlatAtMembers(cs: seq<Comment>, i: nat)
    requires i < |cs|
    ensures forall k: nat :: k in FlatAt(cs, i) <==> k < |cs| && Desc(cs, i, k)
    decreases |cs| - i, 0
  {
    FlatKidsMembers(cs, i, i + 1);
  }

  lemma {:induction false} FlatKidsMembers(cs: seq<Comment>, i: nat, from: nat)
    requires i < |cs| && from <= |cs|
    ensures forall k: nat :: k in FlatKids(cs, i, from) <==>
      k < |cs| && k != i && Desc(cs, i, k) && ChildOnChain(cs, i, k) >= from
    decreases |cs| - from, 1
  {
    if from < |cs| {
      FlatKidsMembers(cs, i, from + 1);
      if ChildOf(cs, from, i) {
        FlatAtMembers(cs, from);
        forall k | k in FlatAt(cs, from)
          ensures k < |cs| && k != i && Desc(cs, i, k) && ChildOnChain(cs, i, k) == from
        {
          ChainThroughChild(cs, i, from, k);
        }
      }
    }
  }

  lemma {:induction false} FlatRootsMembers(cs: seq<Comment>, from: nat)
    requires from <= |cs|
    ensures forall k: nat :: k in FlatRoots(cs, from) <==> k < |cs| && Attached(cs, k) && RootOf(cs, k) >= from
    decreases |cs| - from
  {
    if from < |cs| {
      FlatRootsMembers(cs, from + 1);
      if IsRoot(cs, from) {
        FlatAtMembers(cs, from);
        forall k | k in FlatAt(cs, from)
          ensures k < |cs| && Attached(cs, k) && RootOf(cs, k) == from
        {
          ChainFromRoot(cs, from, k);
        }
      }
    }
  }

  // ---- No repetitions ----

  predicate Distinct<T(==)>(s: seq<T>) {
    forall a, b :: 0 <= a < b < |s| ==> s[a] != s[b]
  }

  lemma DistinctConcat<T>(x: seq<T>, y: seq<T>)
    requires Distinct(x) && Distinct(y)
    requires forall v :: v in x ==> v !in y
    ensures Distinct(x + y)
  {
    forall a, b | 0 <= a < b < |x + y|
      ensures (x + y)[a] != (x + y)[b]
    {
      if a < |x| && b >= |x| {
        assert (x + y)[a] in x && (x + y)[b] == y[b - |x|];
      }
    }
  }

  lemma {:induction false} FlatAtDistinct(cs: seq<Comment>, i: nat)
    requires i < |cs|
    ensures Distinct(FlatAt(cs, i))
    decreases |cs| - i, 0
  {
    FlatKidsDistinct(cs, i, i + 1);
    FlatKidsMembers(cs, i, i + 1);
    DistinctConcat([i], FlatKids(cs, i, i + 1));
  }

  lemma {:induction false} FlatKidsDistinct(cs: seq<Comment>, i: nat, from: nat)
    requires i < |cs| && from <= |cs|
    ensures Distinct(FlatKids(cs, i, from))
    decreases |cs| - from, 1
  {
    if from < |cs| {
      FlatKidsDistinct(cs, i, from + 1);
      if ChildOf(cs, from, i) {
        FlatAtDistinct(cs, from);
        KidBlockApart(cs, i, from);
        DistinctConcat(FlatAt(cs, from), FlatKids(cs, i, from + 1));
      } else {
        assert [] + FlatKids(cs, i, from + 1) == FlatKids(cs, i, from + 1);
      }
    }
  }

  /** A reply's thread shares no position with the threads of later replies
      to the same comment. */
  lemma KidBlockApart(cs: seq<Comment>, i: nat, from: nat)
    requires i < |cs| && from < |cs| && ChildOf(cs, from, i)
    ensures forall k :: k in FlatAt(cs, from) ==> k !in FlatKids(cs, i, from + 1)
  {
    FlatAtMembers(cs, from);
    FlatKidsMembers(cs, i, from + 1);
    forall k | k in FlatAt(cs, from)
      ensures k !in FlatKids(cs, i, from + 1)
    {
      ChainThroughChild(cs, i, from, k);
    }
  }

  lemma {:induction false} FlatRootsDistinct(cs: seq<Comment>, from: nat)
    requires from <= |cs|
    ensures Distinct(FlatRoots(cs, from))
    decreases |cs| - from
  {
    if from < |cs| {
      FlatRootsDistinct(cs, from + 1);
      if IsRoot(cs, from) {
        FlatAtDistinct(cs, from);
        RootBlockApart(cs, from);
        DistinctConcat(FlatAt(cs, from), FlatRoots(cs, from + 1));
      } else {
        assert [] + FlatRoots(cs, from + 1) == FlatRoots(cs, from + 1);
      }
    }
  }

  /** A root's thread shares no position with the threads of later roots. */
  lemma RootBlockApart(cs: seq<Comment>, from: nat)
    requires from < |cs| && IsRoot(cs, from)
    ensures forall k :: k in FlatAt(cs, from) ==> k !in FlatRoots(cs, from + 1)
  {
    FlatAtMembers(cs, from);
    FlatRootsMembers(cs, from + 1);
    forall k | k in FlatAt(cs, from)
      ensures k !in FlatRoots(cs, from + 1)
    {
      ChainFromRoot(cs, from, k);
    }
  }

  // ---- The forest, stated over comments ----

  /** The positions the forest visits: exactly the attached comments, each
      once. */
  lemma ForestPositions(cs: seq<Comment>)
    ensures FlattenAll(Forest(cs)) == At(cs, FlatRoots(cs, 0))
    ensures forall k: nat :: k in FlatRoots(cs, 0) <==> k < |cs| && Attached(cs, k)
    ensures Distinct(FlatRoots(cs, 0))
  {
    FlattenRoots(cs, 0);
    FlatRootsMembers(cs, 0);
    FlatRootsDistinct(cs, 0);
  }

  /** With unique ids: comment `k` appears in the forest iff its parent
      chain reaches a root. A reply whose parent did not come earlier
      therefore appears nowhere, and neither do the replies below it. */
  lemma ForestMembers(cs: seq<Comment>)
    requires IdsUnique(cs)
    ensures forall k :: 0 <= k < |cs| ==> (cs[k] in FlattenAll(Forest(cs)) <==> Attached(cs, k))
  {
    ForestPositions(cs);
    var ix := FlatRoots(cs, 0);
    var flat := FlattenAll(Forest(cs));
    forall k | 0 <= k < |cs|
      ensures cs[k] in flat <==> Attached(cs, k)
    {
      if Attached(cs, k) {
        assert k in ix;
        var j :| 0 <= j < |ix| && ix[j] == k;
        assert flat[j] == cs[k];
      }
      if cs[k] in flat {
        var j :| 0 <= j < |flat| && flat[j] == cs[k];
        assert cs[ix[j]].id == cs[k].id;
        assert ix[j] == k;
      }
    }
  }

  /** With unique ids no comment appears twice, and everything that appears
      comes from the input. */
  lemma ForestDistinct(cs: seq<Comment>)
    requires IdsUnique(cs)
    ensures Distinct(FlattenAll(Forest(cs)))
    ensures forall c :: c in FlattenAll(Forest(cs)) ==> c in cs
  {
    ForestPositions(cs);
    var ix := FlatRoots(cs, 0);
    var flat := FlattenAll(Forest(cs));
    forall a, b | 0 <= a < b < |flat|
      ensures flat[a] != flat[b]
    {
      assert ix[a] != ix[b];
      assert cs[ix[a]].id != cs[ix[b]].id;
    }
    forall c | c in flat
      ensures c in cs
    {
      var j :| 0 <= j < |flat| && flat[j] == c;
      assert c == cs[ix[j]];
    }
  }

  /** The roots are the parentless comments, in creation order. */
  function RootComments(ns: seq<Node>): seq<Comment> {
    seq(|ns|, j requires 0 <= j < |ns| => ns[j].comment)
  }

  function Parentless(cs: seq<Comment>): (r: seq<Comment>)
    ensures forall c :: c in r <==> c in cs && c.parentId.None?
  {
    if cs == [] then []
    else (if cs[0].parentId.None? then [cs[0]] else []) + Parentless(cs[1..])
  }

  lemma {:induction false} RootsAreParentless(cs: seq<Comment>, from: nat)
    requires from <= |cs|
    ensures RootComments(Roots(cs, from)) == Parentless(cs[from..])
    decreases |cs| - from
  {
    if from < |cs| {
      RootsAreParentless(cs, from + 1);
      assert cs[from..][0] == cs[from] && cs[from..][1..] == cs[from + 1..];
      var rest := Roots(cs, from + 1);
      if IsRoot(cs, from) {
        assert RootComments([Subtree(cs, from)] + rest) == [cs[from]] + RootComments(rest);
      } else {
        assert [] + rest == rest;
      }
    }
  }
}
