/** Refresh tokens live in the key-value store under "refresh_token:" plus
    the token, holding the owner's id in decimal, with an expiry. */
module RefreshTokenService {
  import opened Wrappers
  import opened Errors
  import opened Numbers
  import opened Text
  import Redis

  const KEY_PREFIX: string := "refresh_token:"

  /** `buildKey`: the token can be read back off its key. */
  function BuildKey(token: string): (k: string)
    ensures |k| == |KEY_PREFIX| + |token|
    ensures k[..|KEY_PREFIX|] == KEY_PREFIX && k[|KEY_PREFIX|..] == token
  {
    KEY_PREFIX + token
  }

  lemma BuildKeyInjective(a: string, b: string)
    ensures BuildKey(a) == BuildKey(b) ==> a == b
  {
    if BuildKey(a) == BuildKey(b) {
      assert a == BuildKey(a)[|KEY_PREFIX|..];
    }
  }

  /** `store`: a blank token stores nothing; otherwise the owner's id is
      written under the token's key with the given expiry. */
  function Store(st: Redis.Store, userId: int, token: Option<string>, expiration: nat): (st': Redis.Store)
    ensures !(token.Some? && HasText(token.value)) ==> st' == st
    ensures token.Some? && HasText(token.value) ==>
      && Redis.Get(st', BuildKey(token.value)) == Some(Show(userId))
      && st'.ttl == st.ttl[BuildKey(token.value) := expiration]
      && forall k :: k != BuildKey(token.value) ==> Redis.Get(st', k) == Redis.Get(st, k)
  {
    if !(token.Some? && HasText(token.value)) then st
    else Redis.SetWithExpiry(st, BuildKey(token.value), Show(userId), expiration)
  }

  /** `getUserId`: no value, or a blank one, means no owner; a value that is
      not a `long` is a number-format error. */
  function GetUserId(st: Redis.Store, token: string): (r: Outcome<Option<int>>)
    ensures var v := Redis.Get(st, BuildKey(token));
      && (!(v.Some? && HasText(v.value)) ==> r == Success(None))
      && (v.Some? && HasText(v.value) ==> (r.Failure? <==> ParseLong(v.value).None?))
      && (r.Success? && r.value.Some? ==> v.Some? && ParseLong(v.value) == Some(r.value.value))
    ensures r.Failure? ==> r.error.Runtime? && r.error.failure == NumberFormat
  {
    var v := Redis.Get(st, BuildKey(token));
    if !(v.Some? && HasText(v.value)) then Success(None)
    else match ParseLong(v.value)
      case None => Failure(Runtime(NumberFormat, Some("For input string: \"" + v.value + "\"")))
      case Some(n) => Success(Some(n))
  }

  /** `remove`: the token's key is deleted. */
  function Remove(st: Redis.Store, token: string): (st': Redis.Store)
    ensures Redis.Get(st', BuildKey(token)).None?
    ensures forall k :: k != BuildKey(token) ==> Redis.Get(st', k) == Redis.Get(st, k)
  {
    Redis.Delete(st, BuildKey(token))
  }

  /** A stored token reads back its owner. */
  lemma StoreThenGet(st: Redis.Store, userId: int, token: string, expiration: nat)
    requires HasText(token) && IsInt64(userId)
    ensures GetUserId(Store(st, userId, Some(token), expiration), token) == Success(Some(userId))
  {
    var st' := Store(st, userId, Some(token), expiration);
    assert Redis.Get(st', BuildKey(token)) == Some(Show(userId));
    ShowHasText(userId);
    ParseShow(userId);
  }

  /** A number's decimal text is never blank. */
  lemma ShowHasText(n: int)
    ensures HasText(Show(n))
  {
    var s := Show(n);
    if n < 0 {
      assert s[0] == '-';
    } else {
      assert IsDigit(s[0]);
    }
    assert !IsWhitespace(s[0]);
  }

  /** A removed token has no owner. */
  lemma RemoveThenGet(st: Redis.Store, token: string)
    ensures GetUserId(Remove(st, token), token) == Success(None)
  {
  }

  /** Storing one token leaves every other token's owner as it was. */
  lemma StoreLeavesOthers(st: Redis.Store, userId: int, token: string, other: string, expiration: nat)
    requires other != token
    ensures GetUserId(Store(st, userId, Some(token), expiration), other) == GetUserId(st, other)
  {
    BuildKeyInjective(token, other);
  }
}
