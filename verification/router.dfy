/** The client router: the route table's metadata and the global
    navigation guard. Component loading, path matching and history are the
    router library's business; a navigation target is the matched route's
    name with its full path, and the profile fetch the guard may trigger is
    a parameter giving that call's outcome. */
module Router {
  import opened Wrappers
  import opened TokenStorage
  import opened AuthStore

  const SITE_TITLE_SUFFIX: string := " | 我的博客"

  datatype RouteName =
    | Home | PostDetail | Login | Register | SearchResult
    | AdminDashboard | AdminPosts | AdminComments | AdminTags | AdminSettings
    | NotFound

  /** A route record's `meta`; an absent key is `None`. */
  datatype Meta = Meta(requiresAuth: Option<bool>, roles: Option<seq<string>>, title: Option<string>)

  const NO_META: Meta := Meta(None, None, None)

  /** The admin layout's meta, inherited by every admin page. */
  const ADMIN_META: Meta := Meta(Some(true), Some([ROLE_ADMIN]), Some("后台管理"))

  predicate IsAdminRoute(name: RouteName) {
    name.AdminDashboard? || name.AdminPosts? || name.AdminComments? || name.AdminTags? || name.AdminSettings?
  }

  /** The meta a matched record declares itself. */
  function OwnMeta(name: RouteName): Meta {
    match name
    case Home => Meta(None, None, Some("首页"))
    case PostDetail => Meta(None, None, Some("文章详情"))
    case Login => Meta(None, None, Some("登录"))
    case Register => Meta(None, None, Some("注册"))
    case SearchResult => Meta(None, None, Some("搜索结果"))
    case AdminDashboard => Meta(None, None, Some("仪表盘"))
    case AdminPosts => Meta(None, None, Some("文章管理"))
    case AdminComments => Meta(None, None, Some("评论管理"))
    case AdminTags => Meta(None, None, Some("标签管理"))
    case AdminSettings => Meta(None, None, Some("站点设置"))
    case NotFound => NO_META
  }

  /** The meta of the record's parent layout (none for top-level routes). */
  function ParentMeta(name: RouteName): Meta {
    if IsAdminRoute(name) then ADMIN_META else NO_META
  }

  /** `to.meta`: the matched records' meta merged from parent to child, a
      child's keys overriding its parent's. */
  function MergeMeta(parent: Meta, child: Meta): (m: Meta)
    ensures m.requiresAuth == (if child.requiresAuth.Some? then child.requiresAuth else parent.requiresAuth)
    ensures m.roles == (if child.roles.Some? then child.roles else parent.roles)
    ensures m.title == (if child.title.Some? then child.title else parent.title)
  {
    Meta(Override(parent.requiresAuth, child.requiresAuth), Override(parent.roles, child.roles),
         Override(parent.title, child.title))
  }

  /** One key of `Object.assign(parent, child)`. */
  function Override<T>(parent: Option<T>, child: Option<T>): Option<T> {
    if child.Some? then child else parent
  }

  function RouteMeta(name: RouteName): Meta {
    MergeMeta(ParentMeta(name), OwnMeta(name))
  }

  /** A navigation target. */
  datatype Target = Target(name: RouteName, fullPath: string)

  /** The guard's verdict: go elsewhere (with the `redirect` query when
      sent to the login page), or proceed, setting the document title when
      the route has one. */
  datatype Decision = Redirect(to: RouteName, redirectQuery: Option<string>) | Proceed(documentTitle: Option<string>)

  /** `roles.some(role => required.includes(role))`. */
  predicate HasAccess(userRoles: seq<string>, required: seq<string>) {
    exists i :: 0 <= i < |userRoles| && userRoles[i] in required
  }

  /** The first step of the guard: a signed-in store without a profile
      fetches it, and a failed fetch logs the user out. */
  function EnsureProfile(s: State, fetched: Result<UserProfile, string>): (r: State)
    ensures !(IsAuthenticated(s) && s.user.None?) ==> r == s
    ensures IsAuthenticated(s) && s.user.None? && fetched.Success? ==> r == s.(user := Some(fetched.value))
    ensures IsAuthenticated(s) && s.user.None? && fetched.Failure? ==> r == Logout(s)
  {
    if IsAuthenticated(s) && s.user.None? then
      var c := FetchProfile(s, fetched);
      if c.outcome.Failure? then Logout(c.state) else c.state
    else s
  }

  /** The guard's sign-in check fails: the route requires authentication
      and the store has no access token. */
  predicate NeedsSignIn(s: State, name: RouteName) {
    RouteMeta(name).requiresAuth == Some(true) && !IsAuthenticated(s)
  }

  /** The guard's role check fails: the route lists roles and the store
      holds none of them. */
  predicate LacksRole(s: State, name: RouteName) {
    RouteMeta(name).roles.Some? && RouteMeta(name).roles.value != [] && !HasAccess(Roles(s), RouteMeta(name).roles.value)
  }

  /** `router.beforeEach`. */
  function Guard(s: State, to: Target, fetched: Result<UserProfile, string>): (r: (State, Decision))
    ensures r.0 == EnsureProfile(s, fetched)
    ensures r.1.Proceed? && RouteMeta(to.name).requiresAuth == Some(true) ==> IsAuthenticated(r.0)
    ensures r.1.Proceed? && RouteMeta(to.name).roles.Some? && RouteMeta(to.name).roles.value != [] ==>
      HasAccess(Roles(r.0), RouteMeta(to.name).roles.value)
    ensures RouteMeta(to.name).requiresAuth == Some(true) && !IsAuthenticated(r.0) ==>
      r.1 == Redirect(Login, Some(to.fullPath))
    ensures r.1.Redirect? ==> r.1.to in {Login, Home} && (r.1.to == Login <==> r.1.redirectQuery == Some(to.fullPath))
    ensures !NeedsSignIn(r.0, to.name) && LacksRole(r.0, to.name) ==> r.1 == Redirect(Home, None)
    ensures r.1.Proceed? <==> !NeedsSignIn(r.0, to.name) && !LacksRole(r.0, to.name)
    ensures r.1.Proceed? ==>
      r.1.documentTitle == (if Truthy(RouteMeta(to.name).title) then Some(RouteMeta(to.name).title.value + SITE_TITLE_SUFFIX) else None)
  {
    var s' := EnsureProfile(s, fetched);
    var meta := RouteMeta(to.name);
    if meta.requiresAuth == Some(true) && !IsAuthenticated(s') then (s', Redirect(Login, Some(to.fullPath)))
    else if meta.roles.Some? && meta.roles.value != [] && !HasAccess(Roles(s'), meta.roles.value) then (s', Redirect(Home, None))
    else if Truthy(meta.title) then (s', Proceed(Some(meta.title.value + SITE_TITLE_SUFFIX)))
    else (s', Proceed(None))
  }

  /** Every admin page requires a signed-in administrator: the guard lets
      a navigation through exactly when, after the profile step, the store
      is authenticated and holds the admin role. */
  lemma AdminPagesNeedAdmin(s: State, to: Target, fetched: Result<UserProfile, string>)
    requires IsAdminRoute(to.name)
    ensures var (s', d) := Guard(s, to, fetched);
      d.Proceed? <==> IsAuthenticated(s') && IsAdmin(s')
  {
    var (s', d) := Guard(s, to, fetched);
    assert RouteMeta(to.name).roles == Some([ROLE_ADMIN]);
    if IsAdmin(s') {
      var i :| 0 <= i < |Roles(s')| && Roles(s')[i] == ROLE_ADMIN;
      assert HasAccess(Roles(s'), [ROLE_ADMIN]);
    }
  }

  /** Public pages are never redirected, whoever navigates. */
  lemma PublicPagesOpen(s: State, to: Target, fetched: Result<UserProfile, string>)
    requires !IsAdminRoute(to.name)
    ensures Guard(s, to, fetched).1.Proceed?
  {
  }

  /** A stale session whose profile cannot be fetched ends signed out, and
      an admin page then sends the visitor to log in, remembering where
      they were going. */
  lemma StaleSessionGoesToLogin(s: State, to: Target, e: string)
    requires IsAuthenticated(s) && s.user.None? && IsAdminRoute(to.name)
    ensures var (s', d) := Guard(s, to, Failure(e));
      !IsAuthenticated(s') && s'.user.None? && d == Redirect(Login, Some(to.fullPath))
  {
  }
}
