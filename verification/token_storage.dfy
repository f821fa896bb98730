/** The browser's token persistence: two fixed `localStorage` keys for the
    access and refresh tokens. Storage is a string-to-string map; other
    keys belong to other code and are never touched. */
module TokenStorage {
  import opened Wrappers

  const ACCESS_TOKEN_KEY: string := "blog_access_token"
  const REFRESH_TOKEN_KEY: string := "blog_refresh_token"

  /** `localStorage`. */
  type Storage = map<string, string>

  /** JavaScript truthiness of a `string | null | undefined`: present and
      not the empty string. */
  predicate Truthy(s: Option<string>) {
    s.Some? && s.value != ""
  }

  /** `localStorage.getItem`: null for a missing key. */
  function GetItem(storage: Storage, key: string): (r: Option<string>)
    ensures r.Some? <==> key in storage
    ensures r.Some? ==> r.value == storage[key]
  {
    if key in storage then Some(storage[key]) else None
  }

  /** `getAccessToken`: the stored access token, null when absent. */
  function GetAccessToken(storage: Storage): (r: Option<string>)
    ensures r.Some? <==> ACCESS_TOKEN_KEY in storage
    ensures r.Some? ==> r.value == storage[ACCESS_TOKEN_KEY]
  {
    GetItem(storage, ACCESS_TOKEN_KEY)
  }

  /** `getRefreshToken`: the stored refresh token, null when absent. */
  function GetRefreshToken(storage: Storage): (r: Option<string>)
    ensures r.Some? <==> REFRESH_TOKEN_KEY in storage
    ensures r.Some? ==> r.value == storage[REFRESH_TOKEN_KEY]
  {
    GetItem(storage, REFRESH_TOKEN_KEY)
  }

  /** `setTokens`: the access token is always written; the refresh token
      only when it is truthy, so an absent or empty one keeps the stored
      value. */
  function SetTokens(storage: Storage, accessToken: string, refreshToken: Option<string>): (r: Storage)
    ensures GetAccessToken(r) == Some(accessToken)
    ensures Truthy(refreshToken) ==> GetRefreshToken(r) == refreshToken
    ensures !Truthy(refreshToken) ==> GetRefreshToken(r) == GetRefreshToken(storage)
    ensures forall k :: k != ACCESS_TOKEN_KEY && k != REFRESH_TOKEN_KEY ==> GetItem(r, k) == GetItem(storage, k)
  {
    var withAccess := storage[ACCESS_TOKEN_KEY := accessToken];
    if Truthy(refreshToken) then withAccess[REFRESH_TOKEN_KEY := refreshToken.value] else withAccess
  }

  /** `setAccessToken`: replaces the access token, keeping the refresh token. */
  function SetAccessToken(storage: Storage, token: string): (r: Storage)
    ensures GetAccessToken(r) == Some(token)
    ensures forall k :: k != ACCESS_TOKEN_KEY ==> GetItem(r, k) == GetItem(storage, k)
  {
    storage[ACCESS_TOKEN_KEY := token]
  }

  /** `clearTokens`: both keys removed. */
  function ClearTokens(storage: Storage): (r: Storage)
    ensures GetAccessToken(r).None? && GetRefreshToken(r).None?
    ensures forall k :: k != ACCESS_TOKEN_KEY && k != REFRESH_TOKEN_KEY ==> GetItem(r, k) == GetItem(storage, k)
  {
    storage - {ACCESS_TOKEN_KEY, REFRESH_TOKEN_KEY}
  }

  /** Clearing forgets any tokens set before: the storage is as if they had
      never been set, for every key. */
  lemma ClearUndoesSet(storage: Storage, accessToken: string, refreshToken: Option<string>)
    ensures ClearTokens(SetTokens(storage, accessToken, refreshToken)) == ClearTokens(storage)
  {
    var a := ClearTokens(SetTokens(storage, accessToken, refreshToken));
    var b := ClearTokens(storage);
    forall k ensures k in a <==> k in b {
      assert GetItem(a, k) == GetItem(b, k);
    }
    assert a.Keys == b.Keys;
    forall k | k in a ensures a[k] == b[k] {
      assert GetItem(a, k) == GetItem(b, k);
    }
  }

  /** Setting the same tokens twice changes nothing more. */
  lemma SetTokensIdempotent(storage: Storage, accessToken: string, refreshToken: Option<string>)
    ensures SetTokens(SetTokens(storage, accessToken, refreshToken), accessToken, refreshToken)
         == SetTokens(storage, accessToken, refreshToken)
  {
  }
}
