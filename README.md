# Session, permission and user-record rules of the Streamlit login widgets

This project models the logic behind the login/authentication widgets of
`streamlit_modular_auth` and proves properties about it. The model covers:

- the default plugins of the login widget (`_handlers.py`): a credential check,
  an auth cookie, and a user store kept in one JSON file holding an array of
  `{username, name, email, password}` records;
- the page model's session gate and group gate (`_base/models.py`);
- the application-side variants in `page.py`: the `Page` permission gate and
  page-state slot, the SQL credential gate, the diskcache-backed session
  cookies, and the admin page's setters over the user and group tables.

Everything the source does by changing state in place is modelled in the same
way. The session state, the cookie manager, a Python list, the JSON file and
the database are Dafny objects. The source's methods are methods that
`modify` those objects. Their `ensures` tie the new state to a function of the
old state, and lemmas about those functions state the properties.

- **Password hashing.** argon2 is a `PasswordHasher` value carrying `hash` and
  `verify`. The only thing assumed of it is `Sound`: a hash verifies the
  password it was made from.
- **Directory login, clock and token.** The LDAP answer, the clock (integer
  seconds) and the session token are parameters.
- **Errors.** Database exceptions are an explicit `DbResult`: `NoResultFound`
  from `.one()`, `IntegrityError` from a commit, `ValueError` from
  `list.remove`.

Modules, one file each:

- `text.dfy` (`Text`): Python's `x in s` on strings, `str.split` and
  `str.join`, and the round trips between them.
- `framework.dfy` (`Framework`): session state, cookie manager, mutable list,
  Python truthiness and `in`, the hasher.
- `handlers.dfy` (`LoginAuthHandlers`): `DefaultUserAuth`, `DefaultAuthCookies`
  and `DefaultUserStorage`.
- `page_model.dfy` (`PageModel`): `DefaultPageModel`.
- `base_page.dfy` (`BasePage`): `Page`.
- `sql_auth.dfy` (`SqlAuth`): `SQLModelUserAuth.check_credentials`.
- `cache_cookies.dfy` (`CacheCookies`): `DiskcacheAuthCookies`.
- `admin_models.dfy` (`AdminModels`): the users, groups and link tables.
- `admin.dfy` (`Admin`): `AdminPage`.

Two behaviours of the code that are easy to misread:

- `register` (`_handlers.py:110-117`) appends without a uniqueness check. Only the relational
  schema's unique keys (`page.py:365-366`) enforce unique usernames and emails.
- `check_group_access` and `check_permissions` append `"admin"` to the
  caller's list only after the "no groups" early return. A user with no groups
  leaves the list as it was.

## Model

| member | source | states |
|---|---|---|
| `LoginAuthHandlers.DefaultUserAuth.CheckCredentials` | build/lib/streamlit_login_auth_ui/_handlers.py:18-36 | True iff some record has the username and its stored hash verifies the password; a non-verifying record with that username does not stop the search |
| `LoginAuthHandlers.DefaultUserStorage.constructor` | build/lib/streamlit_login_auth_ui/_handlers.py:93-95 | creating the storage leaves the file present, holding `[]` if it was absent and its old records otherwise |
| `LoginAuthHandlers.DefaultUserStorage.CheckAuthJsonFileExists` | build/lib/streamlit_login_auth_ui/_handlers.py:194-201 | init-if-absent: an absent file becomes `[]`, an existing file is untouched |
| `LoginAuthHandlers.DefaultUserStorage.Register` | build/lib/streamlit_login_auth_ui/_handlers.py:97-117 | the records become the old records plus exactly one new record carrying the password's hash; no uniqueness check |
| `LoginAuthHandlers.DefaultUserStorage.CheckUsernameExists` | build/lib/streamlit_login_auth_ui/_handlers.py:119-138 | True iff the username is among the records' usernames |
| `LoginAuthHandlers.DefaultUserStorage.CheckEmailExists` | build/lib/streamlit_login_auth_ui/_handlers.py:140-155 | `(True, username of the first match)` or `(False, None)`; the second component is `UsernameForEmail` |
| `LoginAuthHandlers.DefaultUserStorage.GetUsernameFromEmail` | build/lib/streamlit_login_auth_ui/_handlers.py:157-172 | equals `UsernameForEmail`, hence always the second component of `CheckEmailExists` |
| `LoginAuthHandlers.UsernameForEmail` | build/lib/streamlit_login_auth_ui/_handlers.py:150-155 | None iff no record has the email; otherwise the username of a record with that email before which no record has it (the first match) |
| `LoginAuthHandlers.DefaultUserStorage.ChangePassword` | build/lib/streamlit_login_auth_ui/_handlers.py:174-192 | the records become `WithPassword(old records, email, hash(password))` |
| `LoginAuthHandlers.WithPassword` | build/lib/streamlit_login_auth_ui/_handlers.py:189-191 | same length and order; every record with the email gets the new hash and no other change; every other record is unchanged |
| `LoginAuthHandlers.RegisterThenLogin` | build/lib/streamlit_login_auth_ui/_handlers.py:110-117 | with a sound hasher, a freshly registered user passes the credential check with the password given |
| `LoginAuthHandlers.RegisterKeepsLogins` | build/lib/streamlit_login_auth_ui/_handlers.py:115-117 | registering appends, so every login that succeeded before still succeeds |
| `LoginAuthHandlers.ChangePasswordThenLogin` | build/lib/streamlit_login_auth_ui/_handlers.py:189-191 | after a password change, every user owning a record with that email passes the credential check with the new password |
| `LoginAuthHandlers.ChangePasswordKeepsOtherLogins` | build/lib/streamlit_login_auth_ui/_handlers.py:189-191 | the password change leaves the credential check unchanged for a user with no record carrying that email |
| `LoginAuthHandlers.ChangePasswordKeepsEmailLookup` | build/lib/streamlit_login_auth_ui/_handlers.py:189-191 | the password change does not alter the email lookup |
| `LoginAuthHandlers.SetAuthCookies` | build/lib/streamlit_login_auth_ui/_handlers.py:57-70 | writes the username cookie and no other cookie |
| `LoginAuthHandlers.ExpireAuthCookies` | build/lib/streamlit_login_auth_ui/_handlers.py:72-84 | drops the username cookie and no other cookie |
| `LoginAuthHandlers.CheckAuthCookies` | build/lib/streamlit_login_auth_ui/_handlers.py:52-55 | the cookie check passes iff `get_username` yields a non-empty name (cookie key present, logout not hit, value not empty) |
| `LoginAuthHandlers.GetCookieUsername` | build/lib/streamlit_login_auth_ui/_handlers.py:86-89 | a name iff the logout button was not hit and the username cookie exists, and then the cookie's value |
| `LoginAuthHandlers.NoSessionWithoutCookie` | build/lib/streamlit_login_auth_ui/_handlers.py:86-89 | with logout hit or the key absent, the check fails and `get_username` is None |
| `LoginAuthHandlers.SetThenCheck` | build/lib/streamlit_login_auth_ui/_handlers.py:70 | after `set(u)` with `u` non-empty and logout not hit, the check passes and `get_username` is `u`; other cookies unchanged |
| `LoginAuthHandlers.ExpireThenCheck` | build/lib/streamlit_login_auth_ui/_handlers.py:84 | after `expire`, the check fails and `get_username` is None |
| `PageModel.DefaultPageModel.CheckExistingSession` | streamlit_modular_auth/_base/models.py:18-29 | a state already logged in yields True with the state unchanged; otherwise the result is the cookie check, a passing check sets `LOGGED_IN` to True, a failing one changes nothing; afterwards the result equals "`LOGGED_IN` is True" |
| `PageModel.DefaultPageModel.CheckGroupAccess` | streamlit_modular_auth/_base/models.py:31-49 | a non-empty groups cookie is split on "," into a state that had no groups entry; no groups (state or cookie) yields False and leaves the caller's list alone; otherwise "admin" is appended to the caller's list and the result is whether some listed group is `in` the user's groups |
| `PageModel.AdminOverride` | streamlit_modular_auth/_base/models.py:48-49 | groups containing "admin" are truthy, and the overlap test with the appended "admin" holds for every required list |
| `PageModel.AdminOverrideGate` | streamlit_modular_auth/_base/models.py:38-49 | a user whose groups, as the gate reads them from state or cookie, contain "admin" passes every group check |
| `PageModel.StatePathIsMembership` | streamlit_modular_auth/_base/models.py:44-49 | with a list in the state, access iff the list is non-empty and holds "admin" or some required group |
| `PageModel.AsWrittenAdmitsIntended` | streamlit_modular_auth/_base/models.py:40-49 | the substring test on the cookie never denies a user whom the split-list test admits |
| `PageModel.CookieSubstringOverGrants` | streamlit_modular_auth/_base/models.py:40-49 | the cookie "sysadmin" passes a check for "finance", while the split list denies it, and so does the next run once the state holds `["sysadmin"]` |
| `PageModel.IntendedStableAcrossReruns` | streamlit_modular_auth/_base/models.py:40-49 | the corrected decision is the same on the run that copies the cookie into the state and on the runs after it, despite the extra "admin" appended |
| `BasePage.Page.CheckPermissions` | page.py:25-47 | a non-empty `provided` is the user's groups and the state is untouched; otherwise state or cookie as in the page model; no groups yields False; otherwise "admin" is appended to the class-level list and the result is the overlap test |
| `BasePage.ProvidedWins` | page.py:35-36 | a non-empty `provided` decides the groups whatever state and cookies hold |
| `BasePage.NoProvidedIsGroupAccess` | page.py:37-43 | without `provided`, the groups read are exactly the page model's |
| `BasePage.Page.CheckState` | page.py:49-57 | the state becomes `StateAfterCheck(old state, name)` |
| `BasePage.CheckStateResult` | page.py:49-57 | afterwards the page dictionary names the page; a matching page leaves the whole state untouched (keys such as `open_user` kept); otherwise the page is exactly `{"name": name}`; no other key changes |
| `BasePage.CheckStateIdempotent` | page.py:49-57 | a second `check_state` changes nothing |
| `SqlAuth.CheckCredentials` | page.py:117-145 | no such user raises `NoResultFound`; otherwise True iff the user is active and the directory or the password hash accepts; on success the groups go to state and to the cookie joined by ",", and the username goes to state; on failure nothing changes |
| `SqlAuth.InactiveNeverLogsIn` | page.py:129 | an inactive user never passes the gate |
| `SqlAuth.LocalPasswordSuffices` | page.py:132-135 | an active user with a correct local password passes even when the directory refuses |
| `SqlAuth.LoginCookieRestoresGroups` | page.py:136-139 | when every group name is non-empty and holds no ",", the groups cookie written at login (page.py:139) is copied back by the group gate as the same list; `create_group` (page.py:661-672) accepts a name with ",", and the cookie path splits such a name in two |
| `Text.IsSubstring` | streamlit_modular_auth/_base/models.py:49 | Python's `in` on two strings: holds only when `x` is no longer than `s`, and always for the empty `x` |
| `Text.SubstringAt` | streamlit_modular_auth/_base/models.py:49 | the recursive substring test holds iff `x` occurs at some index of `s` |
| `Text.Join` | page.py:139 | `",".join`: no pieces give "", otherwise the result starts with the first piece |
| `Text.Split` | streamlit_modular_auth/_base/models.py:43 | `split` yields at least one piece and no piece holds the separator |
| `Text.JoinSplit` | streamlit_modular_auth/_base/models.py:43 | joining the pieces of a split gives back the string |
| `Text.SplitJoin` | page.py:137-139 | splitting a join of non-empty separator-free pieces gives back the pieces |
| `Text.JoinContainsPieces` | page.py:139 | every piece of a join occurs as a substring of the joined string |
| `Text.SplitPiecesInString` | streamlit_modular_auth/_base/models.py:49 | every piece of a split occurs as a substring of the string |
| `CacheCookies.DiskcacheAuthCookies.Check` | page.py:163-186 | True iff the cookies carry a username whose cache entry has the same token and has not expired |
| `CacheCookies.DiskcacheAuthCookies.Set` | page.py:188-207 | caches `(token, now + 200)` for the user and sets the token and username cookies |
| `CacheCookies.DiskcacheAuthCookies.Expire` | page.py:209-221 | removes the token and groups cookies and the state's groups entry; an absent entry raises `KeyError`; the username cookie and the cache stay |
| `CacheCookies.TokenWithoutUsername` | page.py:173-174 | a token cookie without a username cookie is never valid |
| `CacheCookies.SetThenCheck` | page.py:199-207 | after `set` at time `t`, the session is valid exactly at the times up to `t + 200` |
| `CacheCookies.ExpireThenCheck` | page.py:219-221 | after `expire`, no session is valid |
| `CacheCookies.NewTokenRevokesOld` | page.py:178-183 | a new `set` for the user invalidates a cookie holding the user's old token |
| `Admin.AdminPage.UserChangeStatus` | page.py:645-655 | sets the user's active flag and nothing else, or raises `NoResultFound` and changes nothing; keeps the tables valid |
| `Admin.AdminPage.UserDisable` | page.py:629-630 | sets the user inactive |
| `Admin.AdminPage.UserEnable` | page.py:633-634 | sets the user active |
| `Admin.AdminPage.ChangeUserStatus` | page.py:403-407 | sets the user's flag to the opposite of the flag passed |
| `Admin.AdminPage.GroupChangeStatus` | page.py:698-708 | sets the group's active flag and nothing else, or raises `NoResultFound` |
| `Admin.AdminPage.GroupDisable` | page.py:690-691 | sets the group inactive |
| `Admin.AdminPage.GroupEnable` | page.py:694-695 | sets the group active |
| `Admin.AdminPage.ChangeGroupStatus` | page.py:410-417 | sets the group's flag to the opposite of the flag passed |
| `Admin.AdminPage.UserAddGroups` | page.py:555-567 | a missing group or user raises `NoResultFound`; an existing membership fails the link key; otherwise the group is appended to the user's list; keeps every membership unique and naming an existing group |
| `Admin.AdminPage.UserDeleteGroup` | page.py:570-583 | a missing group or user raises `NoResultFound`; a user with no groups is left alone; a non-member raises `ValueError`; otherwise the group's first occurrence is removed |
| `Admin.AdminPage.ChangeUserGroupStatus` | page.py:420-424 | adds the group when `granted` is False and removes it when True |
| `Admin.AdminPage.UserGetGroups` | page.py:586-592 | the user's group names, or `NoResultFound` |
| `Admin.AdminPage.CreateGroup` | page.py:661-672 | False with the tables unchanged on a duplicate name; otherwise True and the group is added as active |
| `Admin.GroupsShown` | page.py:534-546 | all groups when `show_all_groups` is True, otherwise only the active ones |
| `Admin.ActiveGroups` | page.py:542 | exactly the active groups of the list, none added, at most as many rows as the list |
| `Admin.ActiveGroupsAppend` | page.py:542 | the filter keeps order: filtering a concatenation concatenates the filtered parts |
| `Admin.ActiveGroupsSingle` | page.py:542 | one row is kept iff it is active; with `ActiveGroupsAppend` this fixes order and multiplicity |
| `Admin.ActiveGroupsAllActive` | page.py:542 | a list of active groups is shown whole, order and repetitions included |
| `Admin.FirstIndex` | page.py:577 | the first position holding the element, as `list.remove` finds it |
| `Admin.RemoveFirst` | page.py:577 | `list.remove`: the first copy of the element is dropped and the rest keep their order; one element shorter, and the multiset loses exactly one copy |
| `Admin.RemoveFirstKeepsOthers` | page.py:577 | `remove` drops one element, keeps every other value, and on a duplicate-free list leaves no copy of the removed one |
| `Admin.RemoveAppended` | page.py:561 | removing the element just appended gives back the list |
| `Admin.AddThenDelete` | page.py:555-583 | a successful add followed by a delete restores the users table |
| `Admin.MembershipToggles` | page.py:420-424 | with `granted` read from the table, the membership afterwards is its opposite and no other membership or user changes |
| `Admin.UserStatusToggles` | page.py:403-407 | after the callback the user's flag is the opposite of the flag shown and every other row is unchanged |
| `Admin.UserStatusToggleTwice` | page.py:403-407 | toggling twice restores the users table |
| `Admin.GroupStatusToggles` | page.py:410-417 | after the callback the group's flag is the opposite of the flag shown and every other group is unchanged |
| `Admin.FailedStepsChangeNothing` | page.py:555-708 | a setter that does not return True leaves its table as it was |

## Findings

| source | as written | input that shows it | evidently intended | confidence | as-written member | corrected member |
|---|---|---|---|---|---|---|
| streamlit_modular_auth/_base/models.py:40-49 | with no `groups` state entry, `x in user_groups` is evaluated on the raw cookie string, so it is a substring test, while the state is given the cookie split on "," | cookie `groups = "sysadmin"`, required `["finance"]`: the appended "admin" is a substring of "sysadmin", so access is granted; on the next run the state holds `["sysadmin"]` and the same check is denied | test membership in the split list, the same list the state receives | medium (not executed) | `PageModel.CookieSubstringOverGrants` | `PageModel.IntendedStableAcrossReruns` |

The as-written decision is `PageModel.AccessAsWritten`; the corrected one is
`PageModel.AccessIntended`. `PageModel.AsWrittenAdmitsIntended` shows the
defect only over-grants. `page.py:38-47` (`Page.check_permissions`) makes the
same test; its method is modelled as written.

## Left out

- `DefaultForgotPasswordMsg.send` (the Courier e-mail client): network I/O.
- `Page.change_page`, `Page.save_upload` and `Page.add_db`. The first injects a
  browser navigation script, the second writes a file, the third returns its
  argument.
- The not-logged-in branch of `check_permissions`: it only shows a warning,
  sleeps and injects the redirect script, and the checks after it still run.
  The model does nothing there.
- JSON file reading and writing: the file is an object with `present` and
  `records`. Reading an absent file raises `FileNotFoundError` in the source;
  the reading methods require the file to be present, which the storage's
  constructor establishes.
- argon2 salting: the same password gives different hashes in the source.
  Here `hash` is a function, so a password change gives every matching record
  the same hash.
- `SqlAuth.CheckCredentials`: follows the evident intent of page.py:136-141,
  not the code as written. The `src.handlers.auth.py` section (page.py:105-145)
  imports `cookie` (line 111) but calls `cookies.set` (line 139). For an
  active user with at least one group whose login passes, the code as written
  stores `groups` in the state, then raises `NameError`. It never writes
  `username` and never returns True. The model instead writes the groups
  cookie, sets `username` and returns `Ok(true)`.
  `SqlAuth.LoginCookieRestoresGroups` likewise assumes that the cookie write
  at line 139 happens.
  `SQLModelUserAuth` as shown defines no `ldap_auth`, yet line 133 calls
  `self.ldap_auth`. The `ldapOk` parameter stands for a method supplied
  elsewhere.
  A `VerifyMismatchError` with another message, and other argon2 errors, are
  re-raised in the source. The model has only the mismatch case, a failed
  login.
- `LOGOUT_BUTTON_HIT`: an absent flag always raises `KeyError` in
  `get_username` (line 87). In `DefaultAuthCookies.check` it raises only when
  the username cookie is present, because the `and` at line 52 short-circuits
  otherwise. The model counts an absent flag as "hit", so the check fails and
  no username is returned.
- Cookie values are strings. The source's `None` for a cookie is an absent
  key. `CookieManager.expire` is modelled as removing the cookie.
- Python `in` on a boolean state value raises `TypeError`; the model's
  `Contains` is False there.
- `check_state` on a truthy page entry that is not a dictionary raises
  `AttributeError` in the source; the model replaces it.
- `DefaultPageModel` calls the `DefaultAuthCookies` of
  `streamlit_modular_auth/_handlers.py`. That file is not part of this model;
  its check is taken to be the one in
  `build/lib/streamlit_login_auth_ui/_handlers.py`.
- `SQLModelUserStorage` (page.py:234-309), `open_user_info`, `user_info`,
  `create_user`, `users_list`, `user_get_all`, `user_update`,
  `user_refresh_groups`, `group_get_all` and the Admin page script: ORM
  plumbing and widget rendering.
- Row ids, e-mail uniqueness, create/update dates and `created_by` fields are
  not modelled. `.one()` returning several rows cannot happen, because users
  and groups are keyed by their unique names.
- `Admin.AdminPage.UserAddGroups`: adding a group the user already has raises
  `IntegrityError` on the link table's (group, user) key. This is how the model
  reads the commit; the ORM's handling of a repeated element was not checked.
  The other possible outcome: the ORM may not count a group already in the
  loaded collection as added, so no link row is inserted, the commit succeeds
  and the call returns True with the table unchanged.
- `Admin.AdminPage.UserDeleteGroup`: the source's implicit `None` return
  (user with no groups) is `Ok(false)`.
- `Admin.AdminPage.ChangeUserStatus`, `ChangeGroupStatus`,
  `ChangeUserGroupStatus`, `UserDisable`, `UserEnable`, `GroupDisable` and
  `GroupEnable` return the inner call's result. In the source they discard it
  and return `None` (page.py:403-424, 629-634, 690-695); only the inner call's
  exceptions reach the caller.
- Time is whole seconds; the source compares `datetime` values down to
  microseconds. The `diskcache` cache lasting across processes and the random
  token are not modelled; the token is a parameter.
- Error messages shown with `st.error`, `st.warning` and `print`: UI output.
