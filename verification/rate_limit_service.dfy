/** The fixed-window rate limiter: one counter per key in the key-value
    store, started with an expiry on the first hit of a window. */
module RateLimitService {
  import opened Wrappers
  import opened Errors
  import opened Numbers
  import opened Text
  import Redis

  const DEFAULT_MESSAGE: string := "请求过于频繁，请稍后再试"

  /** The store after the call, and the rejection it raised, if any. A
      rejected call still counts, so both are needed. */
  datatype Verdict = Verdict(store: Redis.Store, rejection: Option<Exception>)

  function RejectionMessage(message: Option<string>): (m: string)
    ensures message.Some? && HasText(message.value) ==> m == message.value
    ensures !(message.Some? && HasText(message.value)) ==> m == DEFAULT_MESSAGE
  {
    if message.Some? && HasText(message.value) then message.value else DEFAULT_MESSAGE
  }

  /** `assertAllowed`: a blank key is always let through untouched; any
      other key's counter goes up by one, gets the window as its expiry when
      it has just become 1, and the call is refused once the counter is
      above `maxCount`. A counter the store cannot increment is an error. */
  function AssertAllowed(st: Redis.Store, key: Option<string>, maxCount: int, windowSeconds: nat, message: Option<string>): (r: Outcome<Verdict>)
    ensures !(key.Some? && HasText(key.value)) ==> r == Success(Verdict(st, None))
    ensures key.Some? && HasText(key.value) ==> (r.Failure? <==> Redis.Incr(st, key.value).Failure?)
    ensures r.Success? && key.Some? && HasText(key.value) ==>
      var (st1, count) := Redis.Incr(st, key.value).value;
      && r.value.store == (if count == 1 then Redis.Expire(st1, key.value, windowSeconds) else st1)
      && (r.value.rejection.Some? <==> count > maxCount)
      && (r.value.rejection.Some? ==> r.value.rejection.value == Fail(TooManyRequests, RejectionMessage(message)))
  {
    if !(key.Some? && HasText(key.value)) then Success(Verdict(st, None))
    else
      var (st1, count) :- Redis.Incr(st, key.value);
      var st2 := if count == 1 then Redis.Expire(st1, key.value, windowSeconds) else st1;
      Success(Verdict(st2, if count > maxCount then Some(Fail(TooManyRequests, RejectionMessage(message))) else None))
  }

  /** `n` calls in a row on one key; the verdict of the last one. */
  function Repeat(st: Redis.Store, key: string, maxCount: int, windowSeconds: nat, message: Option<string>, n: nat): Outcome<Verdict>
    decreases n
  {
    if n == 0 then Success(Verdict(st, None))
    else
      var previous :- Repeat(st, key, maxCount, windowSeconds, message, n - 1);
      AssertAllowed(previous.store, Some(key), maxCount, windowSeconds, message)
  }

  /** The key's counter reads `n` and expires with the window. */
  predicate Counted(st: Redis.Store, key: string, windowSeconds: nat, n: int) {
    && Redis.Get(st, key) == Some(Show(n))
    && key in st.ttl && st.ttl[key] == windowSeconds
  }

  /** One call on a counter that reads n - 1 (absent for n = 1). */
  lemma OneCall(st: Redis.Store, key: string, maxCount: int, windowSeconds: nat, message: Option<string>, n: nat)
    requires HasText(key) && 1 <= n <= LONG_MAX
    requires n == 1 ==> key !in st.strings
    requires n > 1 ==> Counted(st, key, windowSeconds, n - 1)
    ensures var r := AssertAllowed(st, Some(key), maxCount, windowSeconds, message);
      && r.Success?
      && Counted(r.value.store, key, windowSeconds, n)
      && (r.value.rejection.None? <==> n <= maxCount)
  {
    if n > 1 {
      StoreIntegerShow(n - 1);
    }
    var incr := Redis.Incr(st, key);
    assert incr.Success? && incr.value.1 == n;
  }

  /** What `n` calls in a row on a key with no counter leave: all of them
      succeed; none changes nothing; otherwise the counter reads n with the
      window as its expiry, and the last call was let through exactly when
      n <= maxCount. */
  predicate AfterCalls(st: Redis.Store, key: string, maxCount: int, windowSeconds: nat, message: Option<string>, n: nat) {
    var r := Repeat(st, key, maxCount, windowSeconds, message, n);
    && r.Success?
    && (n == 0 ==> r.value.store == st)
    && (n >= 1 ==> Counted(r.value.store, key, windowSeconds, n))
    && (n >= 1 ==> (r.value.rejection.None? <==> n <= maxCount))
  }

  /** Starting from a key with no counter, the n-th call within a window is
      let through exactly when n <= maxCount; the counter then reads n and
      its expiry is the window set on the first call. */
  lemma {:induction false} FixedWindow(st: Redis.Store, key: string, maxCount: int, windowSeconds: nat, message: Option<string>, n: nat)
    requires HasText(key) && key !in st.strings && n <= LONG_MAX
    ensures AfterCalls(st, key, maxCount, windowSeconds, message, n)
    decreases n
  {
    if n == 0 {
      NoCalls(st, key, maxCount, windowSeconds, message);
    } else {
      FixedWindow(st, key, maxCount, windowSeconds, message, n - 1);
      WindowStep(st, key, maxCount, windowSeconds, message, n);
    }
  }

  /** No calls leave the store as it was. */
  lemma NoCalls(st: Redis.Store, key: string, maxCount: int, windowSeconds: nat, message: Option<string>)
    ensures AfterCalls(st, key, maxCount, windowSeconds, message, 0)
  {
    assert Repeat(st, key, maxCount, windowSeconds, message, 0) == Success(Verdict(st, None));
  }

  /** One more call extends the run by one. */
  lemma WindowStep(st: Redis.Store, key: string, maxCount: int, windowSeconds: nat, message: Option<string>, n: nat)
    requires HasText(key) && key !in st.strings && 1 <= n <= LONG_MAX
    requires AfterCalls(st, key, maxCount, windowSeconds, message, n - 1)
    ensures AfterCalls(st, key, maxCount, windowSeconds, message, n)
  {
    var previous := Repeat(st, key, maxCount, windowSeconds, message, n - 1).value;
    RepeatStep(st, key, maxCount, windowSeconds, message, n);
    OneCall(previous.store, key, maxCount, windowSeconds, message, n);
  }

  /** The n-th call acts on the store the first n - 1 calls left. */
  lemma RepeatStep(st: Redis.Store, key: string, maxCount: int, windowSeconds: nat, message: Option<string>, n: nat)
    requires n > 0 && Repeat(st, key, maxCount, windowSeconds, message, n - 1).Success?
    ensures Repeat(st, key, maxCount, windowSeconds, message, n)
      == AssertAllowed(Repeat(st, key, maxCount, windowSeconds, message, n - 1).value.store, Some(key), maxCount, windowSeconds, message)
  {
  }
}
