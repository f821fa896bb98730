/** Registration, login, token refresh, logout and the profile. Password
    hashing, access-token signing and the random refresh-token text are
    passed in: `encode` and `matches` stand for the password encoder,
    `accessTokenFor` for the token provider, and `newToken` for the fresh
    random token. */
module AuthService {
  import opened Wrappers
  import opened Errors
  import opened Numbers
  import opened Users
  import opened Database
  import Redis
  import RefreshTokenService
  import Text

  const ROLE_USER: string := "ROLE_USER"
  const MSG_USERNAME_TAKEN: string := "用户名已存在"
  const MSG_EMAIL_TAKEN: string := "邮箱已被注册"
  const MSG_ROLE_MISSING: string := "基础角色不存在"
  const MSG_BAD_CREDENTIALS: string := "用户名或密码错误"
  const MSG_BAD_REFRESH: string := "Refresh Token 无效"
  const MSG_USER_MISSING: string := "用户不存在"
  const MSG_NOT_SIGNED_IN: string := "未登录"

  datatype RegisterRequest = RegisterRequest(username: string, email: string, password: string, nickname: Option<string>)
  datatype LoginRequest = LoginRequest(usernameOrEmail: string, password: string)
  datatype LoginResponse = LoginResponse(accessToken: string, refreshToken: string)
  datatype Profile = Profile(id: int, username: string, nickname: Option<string>, email: string, avatarUrl: Option<string>, roles: set<string>)

  function ToProfile(u: User): (p: Profile)
    ensures p.id == u.id && p.username == u.username && p.email == u.email && p.roles == u.roles
    ensures p.nickname == u.nickname && p.avatarUrl == u.avatarUrl
  {
    Profile(u.id, u.username, u.nickname, u.email, u.avatarUrl, u.roles)
  }

  /** `register`: the username, then the email, must be free, and the basic
      role must exist; the new account is active and holds only that role. */
  function Register(db: Db, request: RegisterRequest, encode: string -> string, newId: int): (r: Outcome<(Db, Profile)>)
    requires newId !in db.users
    ensures UsernameTaken(db.users, request.username) ==> r == Failure(Fail(BadRequest, MSG_USERNAME_TAKEN))
    ensures !UsernameTaken(db.users, request.username) && EmailTaken(db.users, request.email) ==>
      r == Failure(Fail(BadRequest, MSG_EMAIL_TAKEN))
    ensures !UsernameTaken(db.users, request.username) && !EmailTaken(db.users, request.email) ==>
      (r.Failure? <==> ROLE_USER !in db.roles)
    ensures r.Failure? && ROLE_USER !in db.roles && !UsernameTaken(db.users, request.username) && !EmailTaken(db.users, request.email) ==>
      r.error == Fail(ServerError, MSG_ROLE_MISSING)
    ensures r.Success? ==>
      var u := User(newId, request.username, request.email, encode(request.password), request.nickname, None, STATUS_ACTIVE, {ROLE_USER});
      && r.value.0 == db.(users := db.users[newId := u])
      && r.value.1 == ToProfile(u)
      && IsActive(u)
  {
    if UsernameTaken(db.users, request.username) then Failure(Fail(BadRequest, MSG_USERNAME_TAKEN))
    else if EmailTaken(db.users, request.email) then Failure(Fail(BadRequest, MSG_EMAIL_TAKEN))
    else if ROLE_USER !in db.roles then Failure(Fail(ServerError, MSG_ROLE_MISSING))
    else
      var u := User(newId, request.username, request.email, encode(request.password), request.nickname, None, STATUS_ACTIVE, {ROLE_USER});
      Success((db.(users := db.users[newId := u]), ToProfile(u)))
  }

  /** Registration keeps usernames and emails unique. */
  lemma RegisterKeepsNamesUnique(db: Db, request: RegisterRequest, encode: string -> string, newId: int, a: int, b: int)
    requires newId !in db.users
    requires forall x, y :: x in db.users && y in db.users && x != y ==>
      db.users[x].username != db.users[y].username && db.users[x].email != db.users[y].email
    requires Register(db, request, encode, newId).Success?
    requires var users := Register(db, request, encode, newId).value.0.users; a in users && b in users && a != b
    ensures var users := Register(db, request, encode, newId).value.0.users;
      users[a].username != users[b].username && users[a].email != users[b].email
  {
  }

  /** The one element of a singleton set. */
  function TheOnly(s: set<User>): (x: User)
    requires |s| == 1
    ensures s == {x}
  {
    assert s != {};
    var x :| x in s;
    assert s == {x} by {
      assert |s - {x}| == 0;
    }
    x
  }

  /** `generateTokens`: a signed access token and the fresh refresh token,
      recorded for the user. */
  function GenerateTokens(st: Redis.Store, u: User, accessTokenFor: User -> string, newToken: string, expiration: nat): (r: (Redis.Store, LoginResponse))
    ensures r.1 == LoginResponse(accessTokenFor(u), newToken)
    ensures r.0 == RefreshTokenService.Store(st, u.id, Some(newToken), expiration)
    ensures Text.HasText(newToken) && IsInt64(u.id) ==> RefreshTokenService.GetUserId(r.0, newToken) == Success(Some(u.id))
  {
    var r := (RefreshTokenService.Store(st, u.id, Some(newToken), expiration), LoginResponse(accessTokenFor(u), newToken));
    if Text.HasText(newToken) && IsInt64(u.id) then
      RefreshTokenService.StoreThenGet(st, u.id, newToken, expiration);
      r
    else r
  }

  /** `login`: the account is looked up by username or email; more than one
      match is a data error, and no match, an inactive account and a wrong
      password are one and the same refusal. */
  function Login(db: Db, st: Redis.Store, request: LoginRequest, matches: (string, string) -> bool,
                 accessTokenFor: User -> string, newToken: string, expiration: nat): (r: Outcome<(Redis.Store, LoginResponse)>)
    ensures var rows := MatchingUsers(db.users, request.usernameOrEmail);
      && (|rows| > 1 ==> r.Failure? && r.error.Runtime? && r.error.failure == IncorrectResultSize)
      && (|rows| == 0 ==> r == Failure(Fail(Unauthorized, MSG_BAD_CREDENTIALS)))
      && (|rows| == 1 ==> forall u :: u in rows ==>
            && (!IsActive(u) || !matches(request.password, u.passwordHash) ==> r == Failure(Fail(Unauthorized, MSG_BAD_CREDENTIALS)))
            && (IsActive(u) && matches(request.password, u.passwordHash) ==>
                  r == Success(GenerateTokens(st, u, accessTokenFor, newToken, expiration))))
  {
    var rows := MatchingUsers(db.users, request.usernameOrEmail);
    if |rows| > 1 then Failure(Runtime(IncorrectResultSize, Some("query did not return a unique result")))
    else if |rows| == 0 then Failure(Fail(Unauthorized, MSG_BAD_CREDENTIALS))
    else
      var u := TheOnly(rows);
      if !IsActive(u) || !matches(request.password, u.passwordHash) then Failure(Fail(Unauthorized, MSG_BAD_CREDENTIALS))
      else Success(GenerateTokens(st, u, accessTokenFor, newToken, expiration))
  }

  /** `refreshToken`: the presented token must name an owner who still
      exists; it is then retired and a fresh pair is issued. */
  function RefreshToken(db: Db, st: Redis.Store, token: string, accessTokenFor: User -> string, newToken: string, expiration: nat): (r: Outcome<(Redis.Store, LoginResponse)>)
    ensures var owner := RefreshTokenService.GetUserId(st, token);
      && (owner.Failure? ==> r == Failure(owner.error))
      && (owner == Success(None) ==> r == Failure(Fail(Unauthorized, MSG_BAD_REFRESH)))
      && (owner.Success? && owner.value.Some? && owner.value.value !in db.users ==> r == Failure(NotFoundError(MSG_USER_MISSING)))
      && (owner.Success? && owner.value.Some? && owner.value.value in db.users ==>
            r == Success(GenerateTokens(RefreshTokenService.Remove(st, token), db.users[owner.value.value], accessTokenFor, newToken, expiration)))
  {
    var owner :- RefreshTokenService.GetUserId(st, token);
    if owner.None? then Failure(Fail(Unauthorized, MSG_BAD_REFRESH))
    else if owner.value !in db.users then Failure(NotFoundError(MSG_USER_MISSING))
    else Success(GenerateTokens(RefreshTokenService.Remove(st, token), db.users[owner.value], accessTokenFor, newToken, expiration))
  }

  /** Rotation: after a refresh the old token has no owner and the new one
      belongs to the same user. */
  lemma RefreshRotates(db: Db, st: Redis.Store, token: string, accessTokenFor: User -> string, newToken: string, expiration: nat)
    requires Users.WellKeyed(db.users)
    requires RefreshToken(db, st, token, accessTokenFor, newToken, expiration).Success?
    requires Text.HasText(newToken) && newToken != token
    ensures var st' := RefreshToken(db, st, token, accessTokenFor, newToken, expiration).value.0;
      && RefreshTokenService.GetUserId(st', token) == Success(None)
      && RefreshTokenService.GetUserId(st', newToken) == RefreshTokenService.GetUserId(st, token)
  {
    var owner := RefreshTokenService.GetUserId(st, token).value.value;
    var st1 := RefreshTokenService.Remove(st, token);
    RefreshTokenService.RemoveThenGet(st, token);
    RefreshTokenService.StoreLeavesOthers(st1, owner, newToken, token, expiration);
    RefreshTokenService.StoreThenGet(st1, owner, newToken, expiration);
  }

  /** `profile`: the signed-in user's own account. */
  function GetProfile(db: Db, currentUser: Option<int>): (r: Outcome<Profile>)
    ensures currentUser.None? ==> r == Failure(Fail(Unauthorized, MSG_NOT_SIGNED_IN))
    ensures currentUser.Some? && currentUser.value !in db.users ==> r == Failure(NotFoundError(MSG_USER_MISSING))
    ensures currentUser.Some? && currentUser.value in db.users ==> r == Success(ToProfile(db.users[currentUser.value]))
  {
    if currentUser.None? then Failure(Fail(Unauthorized, MSG_NOT_SIGNED_IN))
    else if currentUser.value !in db.users then Failure(NotFoundError(MSG_USER_MISSING))
    else Success(ToProfile(db.users[currentUser.value]))
  }

  /** `logout`: without a token nothing happens; otherwise that token is
      retired. */
  function Logout(st: Redis.Store, token: Option<string>): (st': Redis.Store)
    ensures token.None? ==> st' == st
    ensures token.Some? ==> RefreshTokenService.GetUserId(st', token.value) == Success(None)
    ensures token.Some? ==> forall k :: k != RefreshTokenService.BuildKey(token.value) ==> Redis.Get(st', k) == Redis.Get(st, k)
  {
    if token.None? then st
    else
      RefreshTokenService.RemoveThenGet(st, token.value);
      RefreshTokenService.Remove(st, token.value)
  }
}
