/** The key-value store's sorted set: members with numeric scores, kept in
    ascending order of (score, member), ties between equal scores broken by
    the byte order of the members (for UTF-8 text the same as code-point
    order). Ranks count from 0 at the lowest entry. */
module SortedSet {
  import opened Wrappers

  datatype Entry = Entry(member: string, score: int)

  /** Lexicographic order on code points. */
  predicate StrLess(a: string, b: string) {
    if a == [] then b != []
    else if b == [] then false
    else a[0] < b[0] || (a[0] == b[0] && StrLess(a[1..], b[1..]))
  }

  lemma {:induction false} StrLessTotal(a: string, b: string)
    requires a != b
    ensures StrLess(a, b) || StrLess(b, a)
  {
    if a != [] && b != [] && a[0] == b[0] {
      StrLessTotal(a[1..], b[1..]);
    }
  }

  lemma {:induction false} StrLessIrreflexive(a: string)
    ensures !StrLess(a, a)
  {
    if a != [] { StrLessIrreflexive(a[1..]); }
  }

  lemma {:induction false} StrLessTransitive(a: string, b: string, c: string)
    requires StrLess(a, b) && StrLess(b, c)
    ensures StrLess(a, c)
  {
    if a != [] && a[0] == b[0] && b[0] == c[0] {
      StrLessTransitive(a[1..], b[1..], c[1..]);
    }
  }

  lemma EntryLessTransitive(x: Entry, y: Entry, z: Entry)
    requires EntryLess(x, y) && EntryLess(y, z)
    ensures EntryLess(x, z)
  {
    if x.score == y.score == z.score {
      StrLessTransitive(x.member, y.member, z.member);
    }
  }

  /** The store's order: by score, then by member. */
  predicate EntryLess(x: Entry, y: Entry) {
    x.score < y.score || (x.score == y.score && StrLess(x.member, y.member))
  }

  predicate Sorted(z: seq<Entry>) {
    forall i, j :: 0 <= i < j < |z| ==> EntryLess(z[i], z[j])
  }

  predicate DistinctMembers(z: seq<Entry>) {
    forall i, j :: 0 <= i < j < |z| ==> z[i].member != z[j].member
  }

  /** The shape every stored sorted set has. */
  predicate Valid(z: seq<Entry>) {
    Sorted(z) && DistinctMembers(z)
  }

  predicate HasMember(z: seq<Entry>, m: string) {
    exists i :: 0 <= i < |z| && z[i].member == m
  }

  /** ZSCORE: the member's score, if it is present. */
  function ScoreOf(z: seq<Entry>, m: string): (r: Option<int>)
    ensures r.Some? <==> HasMember(z, m)
    ensures r.Some? ==> Entry(m, r.value) in z
  {
    if z == [] then None
    else if z[0].member == m then Some(z[0].score)
    else
      var r := ScoreOf(z[1..], m);
      assert HasMember(z, m) <==> HasMember(z[1..], m) by {
        if HasMember(z, m) {
          var i :| 0 <= i < |z| && z[i].member == m;
          assert z[1..][i - 1].member == m;
        }
        if HasMember(z[1..], m) {
          var i :| 0 <= i < |z| - 1 && z[1..][i].member == m;
          assert z[i + 1].member == m;
        }
      }
      r
  }

  /** With distinct members an entry fixes the member's score. */
  lemma ScoreOfEntry(z: seq<Entry>, e: Entry)
    requires DistinctMembers(z) && e in z
    ensures ScoreOf(z, e.member) == Some(e.score)
  {
    var r := ScoreOf(z, e.member);
    assert HasMember(z, e.member);
    var i :| 0 <= i < |z| && z[i] == e;
    var j :| 0 <= j < |z| && z[j] == Entry(e.member, r.value);
    assert i == j;
  }

  /** ZREM: the set without `m`. */
  function Remove(z: seq<Entry>, m: string): (r: seq<Entry>)
    requires Valid(z)
    ensures Valid(r)
    ensures forall x :: x in r <==> x in z && x.member != m
    ensures |r| == if HasMember(z, m) then |z| - 1 else |z|
  {
    if z == [] then []
    else
      HeadAndTail(z, m);
      var t := Remove(z[1..], m);
      if z[0].member == m then t
      else
        PrependValid(z[0], t);
        [z[0]] + t
  }

  /** A valid set splits into its lowest entry and a valid rest above it
      with other members; a member is in the set when it is the lowest's or
      in the rest, and never both. */
  lemma HeadAndTail(z: seq<Entry>, m: string)
    requires Valid(z) && z != []
    ensures Valid(z[1..])
    ensures forall x :: x in z[1..] ==> EntryLess(z[0], x) && z[0].member != x.member
    ensures forall x :: x in z <==> x == z[0] || x in z[1..]
    ensures HasMember(z, m) <==> z[0].member == m || HasMember(z[1..], m)
    ensures z[0].member == m ==> !HasMember(z[1..], m)
  {
    var t := z[1..];
    assert forall i :: 0 <= i < |t| ==> t[i] == z[i + 1];
    if HasMember(z, m) && z[0].member != m {
      var i :| 0 <= i < |z| && z[i].member == m;
      assert t[i - 1].member == m;
    }
    if HasMember(t, m) {
      var i :| 0 <= i < |t| && t[i].member == m;
      assert z[i + 1].member == m;
    }
  }

  /** An entry below every entry of a valid set, with a member of its own,
      can go in front. */
  lemma PrependValid(e: Entry, t: seq<Entry>)
    requires Valid(t)
    requires forall x :: x in t ==> EntryLess(e, x) && e.member != x.member
    ensures Valid([e] + t)
  {
    var r := [e] + t;
    forall i, j | 0 <= i < j < |r| ensures EntryLess(r[i], r[j]) && r[i].member != r[j].member {
      assert r[j] == t[j - 1];
      if i > 0 {
        assert r[i] == t[i - 1];
      } else {
        assert t[j - 1] in t;
      }
    }
  }

  /** Places an entry for a new member at its rank. */
  function Insert(z: seq<Entry>, e: Entry): (r: seq<Entry>)
    requires Valid(z) && !HasMember(z, e.member)
    ensures Valid(r)
    ensures forall x :: x in r <==> x in z || x == e
    ensures |r| == |z| + 1
  {
    if z == [] then [e]
    else if EntryLess(e, z[0]) then
      assert forall x :: x in z ==> x.member != e.member;
      assert forall j :: 0 < j < |z| ==> EntryLess(e, z[j]) by {
        forall j | 0 < j < |z| ensures EntryLess(e, z[j]) { EntryLessTransitive(e, z[0], z[j]); }
      }
      [e] + z
    else
      assert z[0].member != e.member;
      StrLessTotal(z[0].member, e.member);
      assert !HasMember(z[1..], e.member);
      var t := Insert(z[1..], e);
      assert forall x :: x in t ==> EntryLess(z[0], x) && z[0].member != x.member;
      [z[0]] + t
  }

  /** ZINCRBY: adds `delta` to the member's score, a missing member counting
      as 0. Returns the new set and the new score; every other member keeps
      its score. */
  function IncrementScore(z: seq<Entry>, m: string, delta: int): (res: (seq<Entry>, int))
    requires Valid(z)
    ensures Valid(res.0)
    ensures res.1 == ScoreOf(z, m).GetOr(0) + delta
    ensures ScoreOf(res.0, m) == Some(res.1)
    ensures forall n :: n != m ==> ScoreOf(res.0, n) == ScoreOf(z, n)
    ensures |res.0| == if HasMember(z, m) then |z| else |z| + 1
  {
    var score := ScoreOf(z, m).GetOr(0) + delta;
    var removed := Remove(z, m);
    var r := Insert(removed, Entry(m, score));
    ScoreOfEntry(r, Entry(m, score));
    forall n | n != m
      ensures ScoreOf(r, n) == ScoreOf(z, n)
    {
      var a, b := ScoreOf(r, n), ScoreOf(z, n);
      if a.Some? {
        assert Entry(n, a.value) in z;
        ScoreOfEntry(z, Entry(n, a.value));
      }
    }
    (r, score)
  }

  /** ZREVRANGE 0 (k-1): the `k` highest entries, highest first. */
  function RevTop(z: seq<Entry>, k: nat): (r: seq<Entry>)
    requires Valid(z)
    ensures |r| == if k < |z| then k else |z|
    ensures forall i, j :: 0 <= i < j < |r| ==> EntryLess(r[j], r[i])
    ensures forall x :: x in r ==> x in z
    ensures forall x, y :: x in z && x !in r && y in r ==> EntryLess(x, y)
  {
    var n := if k < |z| then k else |z|;
    var r := seq(n, i requires 0 <= i < n => z[|z| - 1 - i]);
    forall a | |z| - n <= a < |z|
      ensures z[a] in r
    {
      assert r[|z| - 1 - a] == z[a];
    }
    forall x, y | x in z && x !in r && y in r
      ensures EntryLess(x, y)
    {
      var a :| 0 <= a < |z| && z[a] == x;
      var b :| 0 <= b < n && r[b] == y;
    }
    r
  }

  /** ZREMRANGEBYRANK 0 (count-1): drops the `count` lowest entries; what is
      left keeps its scores and ranks above everything dropped. */
  function RemoveLowest(z: seq<Entry>, count: nat): (r: seq<Entry>)
    requires Valid(z) && count <= |z|
    ensures Valid(r)
    ensures |r| == |z| - count
    ensures forall x :: x in r ==> x in z
    ensures forall x, y :: x in z && x !in r && y in r ==> EntryLess(x, y)
  {
    var r := z[count..];
    forall x, y | x in z && x !in r && y in r
      ensures EntryLess(x, y)
    {
      var a :| 0 <= a < |z| && z[a] == x;
      var b :| 0 <= b < |r| && r[b] == y;
    }
    r
  }
}
