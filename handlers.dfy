/** The default plugins of the login widget: credential check, auth cookie and
    user storage, all over one JSON file holding an array of user records. */
module LoginAuthHandlers {
  import opened Framework

  /** One entry of the JSON auth file; `password` holds the hash. */
  datatype UserRecord = UserRecord(username: string, name: string, email: string, password: string)

  /** The JSON auth file on disk: present or absent, and the array it holds. */
  class AuthFile {
    var present: bool
    var records: seq<UserRecord>

    constructor (present: bool, records: seq<UserRecord>)
      ensures this.present == present && this.records == records
    {
      this.present := present;
      this.records := records;
    }
  }

  /** Some record carries `username` and a hash that verifies `password`. */
  ghost predicate CredentialsMatch(records: seq<UserRecord>, username: string, password: string, ph: PasswordHasher)
  {
    exists i :: 0 <= i < |records| && records[i].username == username && ph.verify(records[i].password, password)
  }

  /** The username of the first record whose email is `email`, if any. */
  function UsernameForEmail(records: seq<UserRecord>, email: string): (r: Option<string>)
    ensures r.None? <==> forall i :: 0 <= i < |records| ==> records[i].email != email
    ensures r.Some? ==>
      exists i :: 0 <= i < |records| && records[i].email == email && records[i].username == r.value
        && forall j :: 0 <= j < i ==> records[j].email != email
  {
    if |records| == 0 then None
    else if records[0].email == email then Some(records[0].username)
    else
      var r := UsernameForEmail(records[1..], email);
      assert forall i :: 1 <= i < |records| ==> records[i] == records[1..][i - 1];
      r
  }

  /** The records with the password hash of every record whose email is
      `email` replaced by `hash`. */
  function WithPassword(records: seq<UserRecord>, email: string, hash: string): (r: seq<UserRecord>)
    ensures |r| == |records|
    ensures forall i :: 0 <= i < |records| && records[i].email == email ==> r[i] == records[i].(password := hash)
    ensures forall i :: 0 <= i < |records| && records[i].email != email ==> r[i] == records[i]
  {
    if |records| == 0 then []
    else
      var head := if records[0].email == email then records[0].(password := hash) else records[0];
      var tail := WithPassword(records[1..], email, hash);
      assert forall i :: 1 <= i < |records| ==> records[i] == records[1..][i - 1] && ([head] + tail)[i] == tail[i - 1];
      [head] + tail
  }

  /** `DefaultUserAuth`: checks a login against the auth file. */
  class DefaultUserAuth {
    const file: AuthFile

    constructor (file: AuthFile)
      ensures this.file == file
    {
      this.file := file;
    }

    /** True iff some record has `username` and its hash verifies `password`;
        a record whose hash does not verify does not end the search. */
    method CheckCredentials(username: string, password: string, ph: PasswordHasher) returns (ok: bool)
      requires file.present
      ensures ok <==> CredentialsMatch(file.records, username, password, ph)
    {
      var data := file.records;
      var i := 0;
      while i < |data|
        invariant 0 <= i <= |data|
        invariant forall j :: 0 <= j < i ==> !(data[j].username == username && ph.verify(data[j].password, password))
      {
        if data[i].username == username {
          if ph.verify(data[i].password, password) {
            return true;
          }
        }
        i := i + 1;
      }
      return false;
    }
  }

  /** `DefaultUserStorage`: registration, lookups and password change on the
      auth file. */
  class DefaultUserStorage {
    const file: AuthFile

    /** Creating the storage creates the auth file when it is absent. */
    constructor (file: AuthFile)
      modifies file
      ensures this.file == file && file.present
      ensures file.records == if old(file.present) then old(file.records) else []
    {
      this.file := file;
      new;
      CheckAuthJsonFileExists();
    }

    /** Writes an empty array when the file is absent; an existing file is
        left as it is. */
    method CheckAuthJsonFileExists()
      modifies file
      ensures file.present
      ensures old(file.present) ==> file.records == old(file.records)
      ensures !old(file.present) ==> file.records == []
    {
      if !file.present {
        file.present := true;
        file.records := [];
      }
    }

    /** Appends one record carrying the hash of `password`; nothing checks
        that the username or email are new. */
    method Register(name: string, email: string, username: string, password: string, ph: PasswordHasher)
      requires file.present
      modifies file
      ensures file.present
      ensures file.records == old(file.records) + [UserRecord(username, name, email, ph.hash(password))]
    {
      var newUser := UserRecord(username, name, email, ph.hash(password));
      var data := file.records;
      data := data + [newUser];
      file.records := data;
    }

    /** True iff `username` is among the records' usernames. */
    method CheckUsernameExists(username: string) returns (found: bool)
      requires file.present
      ensures found <==> exists i :: 0 <= i < |file.records| && file.records[i].username == username
    {
      var names: seq<string> := [];
      var data := file.records;
      for i := 0 to |data|
        invariant |names| == i
        invariant forall j :: 0 <= j < i ==> names[j] == data[j].username
      {
        names := names + [data[i].username];
      }
      found := username in names;
    }

    /** `(True, username of the first record with this email)`, or
        `(False, None)`. */
    method CheckEmailExists(email: string) returns (found: bool, username: Option<string>)
      requires file.present
      ensures username == UsernameForEmail(file.records, email)
      ensures found <==> username.Some?
    {
      var data := file.records;
      var i := 0;
      while i < |data|
        invariant 0 <= i <= |data|
        invariant UsernameForEmail(data[i..], email) == UsernameForEmail(data, email)
      {
        assert data[i..][1..] == data[i + 1..];
        if data[i].email == email {
          return true, Some(data[i].username);
        }
        i := i + 1;
      }
      return false, None;
    }

    /** The username of the first record with this email, or `None`. */
    method GetUsernameFromEmail(email: string) returns (username: Option<string>)
      requires file.present
      ensures username == UsernameForEmail(file.records, email)
    {
      var data := file.records;
      var i := 0;
      while i < |data|
        invariant 0 <= i <= |data|
        invariant UsernameForEmail(data[i..], email) == UsernameForEmail(data, email)
      {
        assert data[i..][1..] == data[i + 1..];
        if data[i].email == email {
          return Some(data[i].username);
        }
        i := i + 1;
      }
      return None;
    }

    /** Sets the hash of every record whose email is `email`; length, order and
        every other field stay as they were. */
    method ChangePassword(email: string, password: string, ph: PasswordHasher)
      requires file.present
      modifies file
      ensures file.present
      ensures file.records == WithPassword(old(file.records), email, ph.hash(password))
    {
      var data := file.records;
      ghost var before := data;
      var i := 0;
      while i < |data|
        invariant 0 <= i <= |data| && |data| == |before|
        invariant forall j :: 0 <= j < i ==> data[j] == WithPassword(before, email, ph.hash(password))[j]
        invariant forall j :: i <= j < |data| ==> data[j] == before[j]
      {
        if data[i].email == email {
          data := data[i := data[i].(password := ph.hash(password))];
        }
        i := i + 1;
      }
      file.records := data;
    }
  }

  /** A freshly registered user can log in with the password just given. */
  lemma RegisterThenLogin(records: seq<UserRecord>, name: string, email: string, username: string, password: string, ph: PasswordHasher)
    requires Sound(ph)
    ensures CredentialsMatch(records + [UserRecord(username, name, email, ph.hash(password))], username, password, ph)
  {
    var r := records + [UserRecord(username, name, email, ph.hash(password))];
    assert r[|records|].username == username && ph.verify(r[|records|].password, password);
  }

  /** Registering appends, so every earlier login still succeeds. */
  lemma RegisterKeepsLogins(records: seq<UserRecord>, rec: UserRecord, username: string, password: string, ph: PasswordHasher)
    requires CredentialsMatch(records, username, password, ph)
    ensures CredentialsMatch(records + [rec], username, password, ph)
  {
    var i :| 0 <= i < |records| && records[i].username == username && ph.verify(records[i].password, password);
    assert (records + [rec])[i] == records[i];
  }

  /** After a password change for `email`, every user owning a record with
      that email logs in with the new password. */
  lemma ChangePasswordThenLogin(records: seq<UserRecord>, email: string, username: string, password: string, ph: PasswordHasher)
    requires Sound(ph)
    requires exists i :: 0 <= i < |records| && records[i].email == email && records[i].username == username
    ensures CredentialsMatch(WithPassword(records, email, ph.hash(password)), username, password, ph)
  {
    var i :| 0 <= i < |records| && records[i].email == email && records[i].username == username;
    var r := WithPassword(records, email, ph.hash(password));
    assert r[i].username == username && ph.verify(r[i].password, password);
  }

  /** A password change for `email` does not affect the login of a user none
      of whose records has that email. */
  lemma ChangePasswordKeepsOtherLogins(records: seq<UserRecord>, email: string, hash: string, username: string, password: string, ph: PasswordHasher)
    requires forall i :: 0 <= i < |records| && records[i].username == username ==> records[i].email != email
    ensures CredentialsMatch(WithPassword(records, email, hash), username, password, ph)
        <==> CredentialsMatch(records, username, password, ph)
  {
    var r := WithPassword(records, email, hash);
    if CredentialsMatch(r, username, password, ph) {
      var i :| 0 <= i < |r| && r[i].username == username && ph.verify(r[i].password, password);
      assert r[i].username == records[i].username;
      assert r[i] == records[i];
    }
    if CredentialsMatch(records, username, password, ph) {
      var i :| 0 <= i < |records| && records[i].username == username && ph.verify(records[i].password, password);
      assert r[i] == records[i];
    }
  }

  /** A password change alters no username or email, so the email lookup
      gives the same answer before and after. */
  lemma ChangePasswordKeepsEmailLookup(records: seq<UserRecord>, email: string, hash: string, other: string)
    ensures UsernameForEmail(WithPassword(records, email, hash), other) == UsernameForEmail(records, other)
  {
    var r := WithPassword(records, email, hash);
    assert forall i :: 0 <= i < |r| ==> r[i].email == records[i].email && r[i].username == records[i].username;
    if |records| > 0 {
      ChangePasswordKeepsEmailLookup(records[1..], email, hash, other);
      assert r[1..] == WithPassword(records[1..], email, hash) by {
        var t := WithPassword(records[1..], email, hash);
        assert |r[1..]| == |t|;
        forall k | 0 <= k < |t| ensures r[1..][k] == t[k] {
          assert records[1..][k] == records[k + 1];
        }
      }
    }
  }

  /** Name of the cookie that holds the logged-in username. */
  const UsernameCookie := "__streamlit_login_signup_ui_username__"

  /** `DefaultAuthCookies.check`: the username cookie exists, the logout
      button was not hit, and the cookie is not empty; that is, exactly when
      `get_username` yields a non-empty name. */
  predicate CheckAuthCookies(jar: map<string, string>, logoutButtonHit: bool): (r: bool)
    ensures r <==> GetCookieUsername(jar, logoutButtonHit).Some? && GetCookieUsername(jar, logoutButtonHit).value != ""
  {
    UsernameCookie in jar && !logoutButtonHit && jar[UsernameCookie] != ""
  }

  /** `DefaultAuthCookies.get_username`: the username cookie, unless the
      logout button was hit or the cookie is absent. */
  function GetCookieUsername(jar: map<string, string>, logoutButtonHit: bool): (r: Option<string>)
    ensures r.Some? <==> !logoutButtonHit && UsernameCookie in jar
    ensures r.Some? ==> r.value == jar[UsernameCookie]
  {
    if !logoutButtonHit && UsernameCookie in jar then Some(jar[UsernameCookie]) else None
  }

  /** `DefaultAuthCookies.set`: writes the username cookie and nothing else. */
  method SetAuthCookies(username: string, cookies: CookieManager)
    modifies cookies
    ensures cookies.jar == old(cookies.jar)[UsernameCookie := username]
  {
    cookies.jar := cookies.jar[UsernameCookie := username];
  }

  /** `DefaultAuthCookies.expire`: drops the username cookie and nothing else. */
  method ExpireAuthCookies(cookies: CookieManager)
    modifies cookies
    ensures cookies.jar == old(cookies.jar) - {UsernameCookie}
  {
    cookies.jar := cookies.jar - {UsernameCookie};
  }

  /** With the logout button hit, or no username cookie, there is neither a
      session nor a username. */
  lemma NoSessionWithoutCookie(jar: map<string, string>, logoutButtonHit: bool)
    requires logoutButtonHit || UsernameCookie !in jar
    ensures !CheckAuthCookies(jar, logoutButtonHit) && GetCookieUsername(jar, logoutButtonHit) == None
  {
  }

  /** After `set(u)` with a non-empty `u` and logout not hit, the check passes
      and the username read back is `u`; other cookies are untouched. */
  lemma SetThenCheck(jar: map<string, string>, username: string)
    requires username != ""
    ensures CheckAuthCookies(jar[UsernameCookie := username], false)
    ensures GetCookieUsername(jar[UsernameCookie := username], false) == Some(username)
    ensures forall k :: k in jar && k != UsernameCookie ==> jar[UsernameCookie := username][k] == jar[k]
  {
  }

  /** After `expire`, the check fails and no username is read back. */
  lemma ExpireThenCheck(jar: map<string, string>, logoutButtonHit: bool)
    ensures !CheckAuthCookies(jar - {UsernameCookie}, logoutButtonHit)
    ensures GetCookieUsername(jar - {UsernameCookie}, logoutButtonHit) == None
  {
  }
}
