/** The security principal built from an account: its authorities are the
    account's role names, each carrying the "ROLE_" prefix exactly once. */
module UserPrincipal {
  import opened Text
  import Users

  const ROLE_PREFIX: string := "ROLE_"

  datatype Principal = Principal(id: int, username: string, password: string, enabled: bool, authorities: set<string>)

  /** A role name with the prefix added unless it is already there. */
  function NormalizeRole(role: string): (r: string)
    ensures StartsWith(r, ROLE_PREFIX)
    ensures StartsWith(role, ROLE_PREFIX) ==> r == role
    ensures !StartsWith(role, ROLE_PREFIX) ==> r == ROLE_PREFIX + role
  {
    if StartsWith(role, ROLE_PREFIX) then role else ROLE_PREFIX + role
  }

  /** Normalising twice is normalising once. */
  lemma NormalizeIdempotent(role: string)
    ensures NormalizeRole(NormalizeRole(role)) == NormalizeRole(role)
  {
  }

  /** Two role names give the same authority exactly when they are equal
      or one is the other, unprefixed, with the prefix added. */
  lemma NormalizeCollapses(a: string, b: string)
    ensures NormalizeRole(a) == NormalizeRole(b) <==>
      a == b
      || (!StartsWith(a, ROLE_PREFIX) && b == ROLE_PREFIX + a)
      || (!StartsWith(b, ROLE_PREFIX) && a == ROLE_PREFIX + b)
  {
    assert (ROLE_PREFIX + a)[..|ROLE_PREFIX|] == ROLE_PREFIX;
    assert (ROLE_PREFIX + b)[..|ROLE_PREFIX|] == ROLE_PREFIX;
    if !StartsWith(a, ROLE_PREFIX) && !StartsWith(b, ROLE_PREFIX) && NormalizeRole(a) == NormalizeRole(b) {
      assert a == NormalizeRole(a)[|ROLE_PREFIX|..];
    }
  }

  /** `fromUser`: enabled exactly when the account is active; the
      authorities are the normalised role names. */
  function FromUser(u: Users.User): (p: Principal)
    ensures p.id == u.id && p.username == u.username && p.password == u.passwordHash
    ensures p.enabled <==> Users.IsActive(u)
    ensures forall a :: a in p.authorities ==> StartsWith(a, ROLE_PREFIX)
    ensures forall role :: role in u.roles ==> NormalizeRole(role) in p.authorities
    ensures forall a :: a in p.authorities ==> exists role :: role in u.roles && NormalizeRole(role) == a
    ensures |p.authorities| <= |u.roles|
  {
    var authorities := set role | role in u.roles :: NormalizeRole(role);
    CardinalityOfImage(u.roles);
    Principal(u.id, u.username, u.passwordHash, Users.IsActive(u), authorities)
  }

  lemma {:induction false} CardinalityOfImage(roles: set<string>)
    ensures |set role | role in roles :: NormalizeRole(role)| <= |roles|
    decreases |roles|
  {
    if roles != {} {
      var x :| x in roles;
      var rest := roles - {x};
      CardinalityOfImage(rest);
      assert (set role | role in roles :: NormalizeRole(role))
          == (set role | role in rest :: NormalizeRole(role)) + {NormalizeRole(x)};
    } else {
      assert (set role | role in roles :: NormalizeRole(role)) == {};
    }
  }

  /** The account flags other than `enabled` never hold an account back. */
  predicate AccountNonExpired(p: Principal) { true }
  predicate AccountNonLocked(p: Principal) { true }
  predicate CredentialsNonExpired(p: Principal) { true }

  /** What the framework's status check demands before authentication. */
  predicate MayAuthenticate(p: Principal) {
    AccountNonLocked(p) && p.enabled && AccountNonExpired(p) && CredentialsNonExpired(p)
  }

  /** So an account may authenticate exactly when it is active. */
  lemma MayAuthenticateIffActive(u: Users.User)
    ensures MayAuthenticate(FromUser(u)) <==> Users.IsActive(u)
  {
  }

  /** "ADMIN" and "ROLE_ADMIN" on one account become a single authority. */
  lemma AdminRolesCollapse(u: Users.User)
    requires u.roles == {"ADMIN", "ROLE_ADMIN"}
    ensures FromUser(u).authorities == {"ROLE_ADMIN"}
  {
    assert "ADMIN"[..|ROLE_PREFIX|][0] != ROLE_PREFIX[0];
    assert NormalizeRole("ADMIN") == "ROLE_ADMIN";
    assert NormalizeRole("ROLE_ADMIN") == "ROLE_ADMIN";
  }
}
