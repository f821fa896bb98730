/** The browser-side session store: the two tokens (mirrored in storage),
    the signed-in user's profile and a loading flag. The backend calls are
    parameters giving each call's outcome: `Success` with the response body,
    or `Failure` with the rejection message the awaited promise throws. */
module AuthStore {
  import opened Wrappers
  import opened TokenStorage

  const ROLE_ADMIN: string := "ROLE_ADMIN"
  const GUEST_NAME: string := "访客"
  const MSG_NO_REFRESH_TOKEN: string := "无可用的刷新令牌"

  datatype UserProfile = UserProfile(id: int, username: string, nickname: Option<string>, email: string,
                                     avatarUrl: Option<string>, roles: seq<string>)

  /** The body of a login or refresh response. */
  datatype Tokens = Tokens(accessToken: string, refreshToken: string)

  datatype State = State(storage: Storage, accessToken: Option<string>, refreshToken: Option<string>,
                         user: Option<UserProfile>, loading: bool)

  /** What an action leaves behind: the state, and either its return value
      or the error it throws. The state changes made before a throw stay. */
  datatype Completion<T> = Completion(state: State, outcome: Result<T, string>)

  /** A fresh store reads both tokens back from storage. */
  function Init(storage: Storage): (s: State)
    ensures s.storage == storage && s.user.None? && !s.loading
    ensures s.accessToken == GetAccessToken(storage) && s.refreshToken == GetRefreshToken(storage)
  {
    State(storage, GetAccessToken(storage), GetRefreshToken(storage), None, false)
  }

  /** `isAuthenticated`: a truthy access token. */
  predicate IsAuthenticated(s: State) {
    Truthy(s.accessToken)
  }

  /** `displayName`: the nickname, else the username, else the guest name,
      each taken only when truthy. */
  function DisplayName(s: State): (r: string)
    ensures r != ""
    ensures s.user.None? ==> r == GUEST_NAME
    ensures s.user.Some? && Truthy(s.user.value.nickname) ==> r == s.user.value.nickname.value
    ensures s.user.Some? && !Truthy(s.user.value.nickname) && s.user.value.username != "" ==> r == s.user.value.username
  {
    if s.user.Some? && Truthy(s.user.value.nickname) then s.user.value.nickname.value
    else if s.user.Some? && s.user.value.username != "" then s.user.value.username
    else GUEST_NAME
  }

  /** `roles`: the profile's roles, none without a profile. */
  function Roles(s: State): (r: seq<string>)
    ensures s.user.None? ==> r == []
    ensures s.user.Some? ==> r == s.user.value.roles
  {
    if s.user.Some? then s.user.value.roles else []
  }

  /** `isAdmin`. */
  predicate IsAdmin(s: State) {
    ROLE_ADMIN in Roles(s)
  }

  /** Being an administrator needs a loaded profile that lists ROLE_ADMIN,
      so a freshly loaded store is signed in exactly when storage holds a
      non-empty access token, yet is no administrator until its profile is
      fetched. */
  lemma AdminNeedsProfile(s: State, storage: Storage)
    ensures IsAdmin(s) <==> s.user.Some? && ROLE_ADMIN in s.user.value.roles
    ensures IsAuthenticated(Init(storage)) <==> ACCESS_TOKEN_KEY in storage && storage[ACCESS_TOKEN_KEY] != ""
    ensures !IsAdmin(Init(storage))
  {
  }

  /** Storage mirrors the tokens held in memory. */
  predicate Mirrored(s: State) {
    s.accessToken == GetAccessToken(s.storage) && s.refreshToken == GetRefreshToken(s.storage)
  }

  /** `setSession`: both tokens into storage and memory. */
  function SetSession(s: State, tokens: Tokens): (r: State)
    ensures r.accessToken == Some(tokens.accessToken) && r.refreshToken == Some(tokens.refreshToken)
    ensures r.user == s.user && r.loading == s.loading
    ensures GetAccessToken(r.storage) == Some(tokens.accessToken)
    ensures tokens.refreshToken != "" ==> Mirrored(r)
  {
    s.(storage := SetTokens(s.storage, tokens.accessToken, Some(tokens.refreshToken)),
       accessToken := Some(tokens.accessToken), refreshToken := Some(tokens.refreshToken))
  }

  /** `fetchProfile`: without a truthy access token nothing happens;
      otherwise the fetched profile replaces the user, or the fetch's error
      is thrown with the state unchanged. */
  function FetchProfile(s: State, fetched: Result<UserProfile, string>): (r: Completion<()>)
    ensures !IsAuthenticated(s) ==> r == Completion(s, Success(()))
    ensures IsAuthenticated(s) && fetched.Failure? ==> r == Completion(s, Failure(fetched.error))
    ensures IsAuthenticated(s) && fetched.Success? ==> r == Completion(s.(user := Some(fetched.value)), Success(()))
  {
    if !IsAuthenticated(s) then Completion(s, Success(()))
    else match fetched
      case Failure(e) => Completion(s, Failure(e))
      case Success(p) => Completion(s.(user := Some(p)), Success(()))
  }

  /** `login`: the login call, then the session, then the profile; loading
      is on during the action and off afterwards whatever happens. */
  function Login(s: State, loggedIn: Result<Tokens, string>, fetched: Result<UserProfile, string>): (r: Completion<()>)
    ensures !r.state.loading
    ensures loggedIn.Failure? ==> r == Completion(s.(loading := false), Failure(loggedIn.error))
    ensures loggedIn.Success? ==>
      && r.state.accessToken == Some(loggedIn.value.accessToken)
      && r.state.refreshToken == Some(loggedIn.value.refreshToken)
      && (loggedIn.value.accessToken != "" && fetched.Success? ==> r.state.user == Some(fetched.value) && r.outcome.Success?)
      && (loggedIn.value.accessToken != "" && fetched.Failure? ==> r.state.user == s.user && r.outcome == Failure(fetched.error))
      && (loggedIn.value.accessToken == "" ==> r.state.user == s.user && r.outcome.Success?)
  {
    var busy := s.(loading := true);
    match loggedIn
    case Failure(e) => Completion(busy.(loading := false), Failure(e))
    case Success(tokens) =>
      var fetchedState := FetchProfile(SetSession(busy, tokens), fetched);
      Completion(fetchedState.state.(loading := false), fetchedState.outcome)
  }

  /** `register`: only the loading flag is touched; the call's error is
      thrown. */
  function Register(s: State, registered: Result<UserProfile, string>): (r: Completion<()>)
    ensures r.state == s.(loading := false)
    ensures r.outcome.Failure? <==> registered.Failure?
    ensures r.outcome.Failure? ==> r.outcome.error == registered.error
  {
    match registered
    case Failure(e) => Completion(s.(loading := false), Failure(e))
    case Success(_) => Completion(s.(loading := false), Success(()))
  }

  /** `refreshTokens`: without a truthy refresh token it throws before any
      call; otherwise the refreshed pair becomes the session and the new
      access token is returned. */
  function RefreshTokens(s: State, refreshed: Result<Tokens, string>): (r: Completion<string>)
    ensures !Truthy(s.refreshToken) ==> r == Completion(s, Failure(MSG_NO_REFRESH_TOKEN))
    ensures Truthy(s.refreshToken) && refreshed.Failure? ==> r == Completion(s, Failure(refreshed.error))
    ensures Truthy(s.refreshToken) && refreshed.Success? ==>
      && r.outcome == Success(refreshed.value.accessToken)
      && r.state.accessToken == Some(refreshed.value.accessToken)
      && r.state.refreshToken == Some(refreshed.value.refreshToken)
      && r.state.user == s.user
  {
    if !Truthy(s.refreshToken) then Completion(s, Failure(MSG_NO_REFRESH_TOKEN))
    else match refreshed
      case Failure(e) => Completion(s, Failure(e))
      case Success(tokens) => Completion(SetSession(s, tokens), Success(tokens.accessToken))
  }

  /** The argument `logout` sends: the refresh token when truthy, else
      `undefined`. */
  function LogoutArgument(s: State): (r: Option<string>)
    ensures r.Some? <==> Truthy(s.refreshToken)
    ensures r.Some? ==> r == s.refreshToken
  {
    if Truthy(s.refreshToken) then s.refreshToken else None
  }

  /** `logout`: the backend call's failure is swallowed; tokens and user are
      always cleared, in storage and memory. */
  function Logout(s: State): (r: State)
    ensures !IsAuthenticated(r) && r.refreshToken.None? && r.user.None? && Mirrored(r)
    ensures r.loading == s.loading
    ensures forall k :: k != ACCESS_TOKEN_KEY && k != REFRESH_TOKEN_KEY ==> GetItem(r.storage, k) == GetItem(s.storage, k)
    ensures DisplayName(r) == GUEST_NAME && !IsAdmin(r)
  {
    s.(storage := ClearTokens(s.storage), accessToken := None, refreshToken := None, user := None)
  }

  /** `setAccessToken`: replaces the access token in storage and memory. */
  function SetAccessToken(s: State, token: string): (r: State)
    ensures r.accessToken == Some(token) && GetAccessToken(r.storage) == Some(token)
    ensures r.refreshToken == s.refreshToken && GetRefreshToken(r.storage) == GetRefreshToken(s.storage)
    ensures r.user == s.user
    ensures Mirrored(s) ==> Mirrored(r)
  {
    s.(storage := TokenStorage.SetAccessToken(s.storage, token), accessToken := Some(token))
  }

  /** A successful login survives a reload: a store built from the storage
      it leaves holds the same tokens. */
  lemma LoginSurvivesReload(s: State, tokens: Tokens, fetched: Result<UserProfile, string>)
    requires tokens.refreshToken != ""
    ensures var after := Login(s, Success(tokens), fetched).state;
      && Init(after.storage).accessToken == Some(tokens.accessToken)
      && Init(after.storage).refreshToken == Some(tokens.refreshToken)
  {
  }

  /** After logging out, a reload starts signed out: nothing of the session
      remains in storage. */
  lemma LogoutSurvivesReload(s: State)
    ensures var reloaded := Init(Logout(s).storage);
      !IsAuthenticated(reloaded) && reloaded.refreshToken.None? && reloaded.user.None?
  {
  }

  /** Rotating the tokens keeps storage and memory in step. */
  lemma RefreshKeepsMirror(s: State, refreshed: Result<Tokens, string>)
    requires Mirrored(s)
    requires refreshed.Success? ==> refreshed.value.refreshToken != ""
    ensures Mirrored(RefreshTokens(s, refreshed).state)
  {
  }
}
