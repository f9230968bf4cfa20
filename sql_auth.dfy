/** `SQLModelUserAuth.check_credentials`: the login gate over the users table.
    The directory (LDAP) answer is a parameter. */
module SqlAuth {
  import opened Framework
  import opened Text
  import opened AdminModels
  import PageModel

  /** The gate: an active user whose directory login succeeds or whose stored
      hash verifies the password. */
  predicate LoginAccepted(user: UserRow, password: string, ldapOk: bool, ph: PasswordHasher)
  {
    user.active && (ldapOk || ph.verify(user.hashedPassword, password))
  }

  /** The state after a successful login: the group list when the user has
      groups, and the username. */
  function LoginState(entries: map<string, Value>, username: string, groups: seq<string>): map<string, Value>
  {
    (if groups != [] then entries["groups" := List(groups)] else entries)["username" := Str(username)]
  }

  /** The cookies after a successful login: the group names joined by ",",
      when the user has groups. */
  function LoginCookies(jar: map<string, string>, groups: seq<string>): map<string, string>
  {
    if groups != [] then jar["groups" := Join(groups, ',')] else jar
  }

  /** Looks the user up (no row raises `NoResultFound`), then accepts an
      active user by directory login or password hash, recording the user's
      groups in state and cookie and the username in state. */
  method CheckCredentials(db: Database, username: string, password: string, ldapOk: bool, ph: PasswordHasher,
                          state: SessionState, cookies: CookieManager) returns (r: DbResult<bool>)
    modifies state, cookies
    ensures username !in db.users ==> r == Err(NoResultFound)
    ensures username in db.users ==> r == Ok(LoginAccepted(db.users[username], password, ldapOk, ph))
    ensures r == Ok(true) ==>
      state.entries == LoginState(old(state.entries), username, db.users[username].groups)
      && cookies.jar == LoginCookies(old(cookies.jar), db.users[username].groups)
    ensures r != Ok(true) ==> state.entries == old(state.entries) && cookies.jar == old(cookies.jar)
  {
    if username !in db.users {
      return Err(NoResultFound);
    }
    var user := db.users[username];
    if user.active {
      // A hash mismatch is the caught `VerifyMismatchError`: the login fails.
      if ldapOk || ph.verify(user.hashedPassword, password) {
        if user.groups != [] {
          var groups := user.groups;
          state.entries := state.entries["groups" := List(groups)];
          cookies.jar := cookies.jar["groups" := Join(groups, ',')];
        }
        state.entries := state.entries["username" := Str(username)];
        return Ok(true);
      }
    }
    return Ok(false);
  }

  /** An inactive user never logs in, whatever the password or directory say. */
  lemma InactiveNeverLogsIn(user: UserRow, password: string, ldapOk: bool, ph: PasswordHasher)
    requires !user.active
    ensures !LoginAccepted(user, password, ldapOk, ph)
  {
  }

  /** An active user with a correct local password logs in even when the
      directory refuses. */
  lemma LocalPasswordSuffices(user: UserRow, password: string, ph: PasswordHasher)
    requires Sound(ph) && user.active && user.hashedPassword == ph.hash(password)
    ensures LoginAccepted(user, password, false, ph)
  {
  }

  /** The `groups` cookie written at login, read back by a later session that
      has no `groups` state entry, is copied into the state as the very list
      the login recorded (group names holding no "," and not empty). */
  lemma LoginCookieRestoresGroups(jar: map<string, string>, groups: seq<string>)
    requires groups != []
    requires forall i :: 0 <= i < |groups| ==> ',' !in groups[i] && groups[i] != ""
    ensures PageModel.StateAfterGroups(map[], LoginCookies(jar, groups)) == map["groups" := List(groups)]
  {
    var c := Join(groups, ',');
    assert c != "";
    SplitJoin(groups, ',');
  }
}
