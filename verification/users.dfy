/** Accounts and roles. The user and role classes are not part of this
    model's sources: a user is read off the fields the services use, a role
    is its name, and an account counts as active when its status is 1 (the
    status registration assigns). */
module Users {
  import opened Wrappers

  const STATUS_ACTIVE: int := 1

  datatype User = User(
    id: int,
    username: string,
    email: string,
    passwordHash: string,
    nickname: Option<string>,
    avatarUrl: Option<string>,
    status: int,
    roles: set<string>)

  predicate IsActive(u: User) {
    u.status == STATUS_ACTIVE
  }

  type UserTable = map<int, User>

  predicate WellKeyed(users: UserTable) {
    forall id :: id in users ==> users[id].id == id
  }

  predicate UsernameTaken(users: UserTable, username: string) {
    exists id :: id in users && users[id].username == username
  }

  predicate EmailTaken(users: UserTable, email: string) {
    exists id :: id in users && users[id].email == email
  }

  /** The rows `findByUsernameOrEmail(x, x)` selects (rows of a well-keyed
      table differ in their id, so each row is one element). */
  function MatchingUsers(users: UserTable, usernameOrEmail: string): (rows: set<User>)
    ensures forall u :: u in rows <==> u in users.Values && (u.username == usernameOrEmail || u.email == usernameOrEmail)
  {
    set u | u in users.Values && (u.username == usernameOrEmail || u.email == usernameOrEmail)
  }
}
