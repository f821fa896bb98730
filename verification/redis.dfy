/** The fast counter store, reduced to the commands the application issues.
    Each kind of value lives in its own keyspace: plain strings (counters
    are decimal strings), distinct-count accumulators (a HyperLogLog,
    modelled as the exact set of what was added), and sorted sets. Expiry
    is recorded as data (seconds to live) and never fires in the model. */
module Redis {
  import opened Wrappers
  import opened Numbers
  import opened Errors
  import SortedSet

  datatype Store = Store(
    strings: map<string, string>,
    hlls: map<string, set<string>>,
    zsets: map<string, seq<SortedSet.Entry>>,
    ttl: map<string, nat>)

  predicate Valid(st: Store) {
    forall k :: k in st.zsets ==> SortedSet.Valid(st.zsets[k])
  }

  const Empty: Store := Store(map[], map[], map[], map[])

  predicate Exists(st: Store, key: string) {
    key in st.strings || key in st.hlls || key in st.zsets
  }

  /** GET: the string value, or null. */
  function Get(st: Store, key: string): (r: Option<string>)
    ensures r.Some? <==> key in st.strings
    ensures r.Some? ==> r.value == st.strings[key]
  {
    if key in st.strings then Some(st.strings[key]) else None
  }

  const ERR_NOT_INTEGER: string := "ERR value is not an integer or out of range"
  const ERR_OVERFLOW: string := "ERR increment or decrement would overflow"

  /** INCR: a missing key counts as 0; a value that is not the canonical
      decimal of a 64-bit integer is one error reply, and a value at the
      64-bit maximum is the overflow reply. The expiry of an existing key is
      kept. */
  function Incr(st: Store, key: string): (r: Outcome<(Store, int)>)
    ensures r.Success? && key !in st.strings ==> r.value.1 == 1
    ensures r.Success? && key in st.strings ==> StoreInteger(st.strings[key]) == Some(r.value.1 - 1)
    ensures r.Success? ==> r.value.0.strings == st.strings[key := Show(r.value.1)]
    ensures r.Success? ==> r.value.0.hlls == st.hlls && r.value.0.zsets == st.zsets && r.value.0.ttl == st.ttl
    ensures r.Failure? <==>
      key in st.strings && (StoreInteger(st.strings[key]).None? || StoreInteger(st.strings[key]).value == LONG_MAX)
    ensures r.Failure? && StoreInteger(st.strings[key]).None? ==> r.error == Runtime(StoreError, Some(ERR_NOT_INTEGER))
    ensures r.Failure? && StoreInteger(st.strings[key]).Some? ==> r.error == Runtime(StoreError, Some(ERR_OVERFLOW))
  {
    var current := if key in st.strings then StoreInteger(st.strings[key]) else Some(0);
    if current.None? then
      Failure(Runtime(StoreError, Some(ERR_NOT_INTEGER)))
    else if current.value == LONG_MAX then
      Failure(Runtime(StoreError, Some(ERR_OVERFLOW)))
    else
      var n := current.value + 1;
      Success((st.(strings := st.strings[key := Show(n)]), n))
  }

  /** EXPIRE: sets the time to live of an existing key; a missing key is left
      alone. */
  function Expire(st: Store, key: string, seconds: nat): (st': Store)
    ensures st'.strings == st.strings && st'.hlls == st.hlls && st'.zsets == st.zsets
    ensures Exists(st, key) ==> st'.ttl == st.ttl[key := seconds]
    ensures !Exists(st, key) ==> st'.ttl == st.ttl
  {
    if Exists(st, key) then st.(ttl := st.ttl[key := seconds]) else st
  }

  /** PFADD: adds one element to the accumulator, creating it if needed. */
  function PfAdd(st: Store, key: string, element: string): (st': Store)
    ensures key in st'.hlls && st'.hlls[key] == (if key in st.hlls then st.hlls[key] else {}) + {element}
    ensures forall k :: k != key ==> (k in st'.hlls <==> k in st.hlls)
    ensures forall k :: k != key && k in st.hlls ==> st'.hlls[k] == st.hlls[k]
    ensures st'.strings == st.strings && st'.zsets == st.zsets && st'.ttl == st.ttl
  {
    var old_ := if key in st.hlls then st.hlls[key] else {};
    st.(hlls := st.hlls[key := old_ + {element}])
  }

  /** PFCOUNT: the number of distinct elements added; 0 for a missing key. */
  function PfCount(st: Store, key: string): (n: nat)
    ensures key !in st.hlls ==> n == 0
    ensures key in st.hlls ==> n == |st.hlls[key]|
  {
    if key in st.hlls then |st.hlls[key]| else 0
  }

  function ZSet(st: Store, key: string): (z: seq<SortedSet.Entry>)
    requires Valid(st)
    ensures SortedSet.Valid(z)
    ensures key !in st.zsets ==> z == []
  {
    if key in st.zsets then st.zsets[key] else []
  }

  /** ZINCRBY: adds `delta` to one member's score; returns the new score. */
  function ZIncrBy(st: Store, key: string, member: string, delta: int): (r: (Store, int))
    requires Valid(st)
    ensures Valid(r.0)
    ensures key in r.0.zsets
    ensures r.1 == SortedSet.ScoreOf(ZSet(st, key), member).GetOr(0) + delta
    ensures SortedSet.ScoreOf(r.0.zsets[key], member) == Some(r.1)
    ensures forall n :: n != member ==> SortedSet.ScoreOf(r.0.zsets[key], n) == SortedSet.ScoreOf(ZSet(st, key), n)
    ensures forall k :: k != key ==> (k in r.0.zsets <==> k in st.zsets)
    ensures forall k :: k != key && k in st.zsets ==> r.0.zsets[k] == st.zsets[k]
    ensures r.0.strings == st.strings && r.0.hlls == st.hlls && r.0.ttl == st.ttl
  {
    var (z, score) := SortedSet.IncrementScore(ZSet(st, key), member, delta);
    (st.(zsets := st.zsets[key := z]), score)
  }

  /** ZCARD: the number of members; 0 for a missing key. */
  function ZCard(st: Store, key: string): nat
    requires Valid(st)
  {
    |ZSet(st, key)|
  }

  /** DEL: the key is gone from every keyspace, with its expiry; no other key
      changes. */
  function Delete(st: Store, key: string): (st': Store)
    ensures !Exists(st', key) && key !in st'.ttl
    ensures st'.strings == st.strings - {key} && st'.hlls == st.hlls - {key}
    ensures st'.zsets == st.zsets - {key} && st'.ttl == st.ttl - {key}
  {
    Store(st.strings - {key}, st.hlls - {key}, st.zsets - {key}, st.ttl - {key})
  }

  lemma DeletePreservesValid(st: Store, key: string)
    requires Valid(st)
    ensures Valid(Delete(st, key))
  {
  }

  /** SET with an expiry: replaces whatever the key held. */
  function SetWithExpiry(st: Store, key: string, value: string, seconds: nat): (st': Store)
    ensures Get(st', key) == Some(value) && st'.ttl == st.ttl[key := seconds]
    ensures key !in st'.hlls && key !in st'.zsets
    ensures forall k :: k != key ==> Get(st', k) == Get(st, k)
    ensures st'.hlls == st.hlls - {key} && st'.zsets == st.zsets - {key}
  {
    Store(st.strings[key := value], st.hlls - {key}, st.zsets - {key}, st.ttl[key := seconds])
  }
}
