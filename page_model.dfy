/** `DefaultPageModel`: the session and group gate shared by the pages of an
    application. */
module PageModel {
  import opened Framework
  import opened Text
  import LoginAuthHandlers

  /** The generator `any(True for x in required if x in userGroups)`. */
  predicate AnyIn(required: seq<string>, userGroups: Value)
  {
    exists i :: 0 <= i < |required| && Contains(userGroups, required[i])
  }

  /** `st.session_state['LOGOUT_BUTTON_HIT'] == False` fails: the flag is not
      literally False (an absent flag is taken as not False). */
  predicate LogoutButtonHit(entries: map<string, Value>)
  {
    Get(entries, "LOGOUT_BUTTON_HIT") != Some(Bool(false))
  }

  /** The user's groups as the source reads them: the state entry when there
      is one, else the raw `groups` cookie string (or `None`). */
  function UserGroups(entries: map<string, Value>, jar: map<string, string>): Option<Value>
  {
    if "groups" in entries then Some(entries["groups"])
    else if "groups" in jar then Some(Str(jar["groups"]))
    else None
  }

  /** The state after reading the groups: a non-empty `groups` cookie is split
      on "," into the state when the state had no entry. */
  function StateAfterGroups(entries: map<string, Value>, jar: map<string, string>): map<string, Value>
  {
    if "groups" !in entries && "groups" in jar && jar["groups"] != "" then
      entries["groups" := List(Split(jar["groups"], ','))]
    else entries
  }

  /** The decision `check_group_access` makes, as written: some required group,
      or "admin", is `in` the user's groups, where on the cookie path `in` is a
      substring test on the unsplit cookie. */
  predicate AccessAsWritten(required: seq<string>, entries: map<string, Value>, jar: map<string, string>)
  {
    var ug := UserGroups(entries, jar);
    Truthy(ug) && AnyIn(required + ["admin"], ug.value)
  }

  /** The user's groups as evidently intended: the cookie is split into the
      same list that the state is given. */
  function IntendedUserGroups(entries: map<string, Value>, jar: map<string, string>): Option<Value>
  {
    if "groups" in entries then Some(entries["groups"])
    else if "groups" in jar && jar["groups"] != "" then Some(List(Split(jar["groups"], ',')))
    else None
  }

  /** The corrected decision: membership is tested on the split list. */
  predicate AccessIntended(required: seq<string>, entries: map<string, Value>, jar: map<string, string>)
  {
    var ug := IntendedUserGroups(entries, jar);
    Truthy(ug) && AnyIn(required + ["admin"], ug.value)
  }

  class DefaultPageModel {
    const state: SessionState
    const cookies: CookieManager

    constructor (state: SessionState, cookies: CookieManager)
      ensures this.state == state && this.cookies == cookies
    {
      this.state := state;
      this.cookies := cookies;
    }

    /** Logged in when the state says so (cookies are not consulted), or when
        the auth cookie check passes, which is then recorded in the state. */
    method CheckExistingSession() returns (loggedIn: bool)
      modifies state
      ensures old(Get(state.entries, "LOGGED_IN")) == Some(Bool(true)) ==>
        loggedIn && state.entries == old(state.entries)
      ensures old(Get(state.entries, "LOGGED_IN")) != Some(Bool(true)) ==>
        loggedIn == LoginAuthHandlers.CheckAuthCookies(cookies.jar, LogoutButtonHit(old(state.entries)))
      ensures old(Get(state.entries, "LOGGED_IN")) != Some(Bool(true)) && loggedIn ==>
        state.entries == old(state.entries)["LOGGED_IN" := Bool(true)]
      ensures !loggedIn ==> state.entries == old(state.entries)
      ensures loggedIn <==> Get(state.entries, "LOGGED_IN") == Some(Bool(true))
    {
      if Get(state.entries, "LOGGED_IN") == Some(Bool(true)) {
        return true;
      }
      if LoginAuthHandlers.CheckAuthCookies(cookies.jar, LogoutButtonHit(state.entries)) {
        state.entries := state.entries["LOGGED_IN" := Bool(true)];
        return true;
      }
      return false;
    }

    /** Reads the user's groups (copying a non-empty cookie into the state),
        denies a user with no groups, and otherwise appends "admin" to the
        caller's list and grants iff some listed group is in the user's. */
    method CheckGroupAccess(groups: StrList) returns (granted: bool)
      modifies state, groups
      ensures state.entries == StateAfterGroups(old(state.entries), cookies.jar)
      ensures !Truthy(UserGroups(old(state.entries), cookies.jar)) ==>
        !granted && groups.items == old(groups.items)
      ensures Truthy(UserGroups(old(state.entries), cookies.jar)) ==>
        groups.items == old(groups.items) + ["admin"]
        && granted == AnyIn(groups.items, UserGroups(old(state.entries), cookies.jar).value)
      ensures granted == AccessAsWritten(old(groups.items), old(state.entries), cookies.jar)
    {
      var userGroups: Option<Value>;
      if "groups" !in state.entries {
        var cookie := Get(cookies.jar, "groups");
        userGroups := if cookie.Some? then Some(Str(cookie.value)) else None;
        if Truthy(userGroups) {
          state.entries := state.entries["groups" := List(Split(cookie.value, ','))];
        }
      } else {
        userGroups := Some(state.entries["groups"]);
      }
      if !Truthy(userGroups) {
        return false;
      }
      groups.items := groups.items + ["admin"];
      granted := AnyIn(groups.items, userGroups.value);
    }
  }

  /** Groups that include "admin" are truthy, and the overlap test with the
      appended "admin" holds for every required list. */
  lemma AdminOverride(required: seq<string>, userGroups: Value)
    requires Contains(userGroups, "admin")
    ensures Truthy(Some(userGroups))
    ensures AnyIn(required + ["admin"], userGroups)
  {
    assert (required + ["admin"])[|required|] == "admin";
  }

  /** A user whose groups, as the gate reads them, include "admin" passes
      every group check. */
  lemma AdminOverrideGate(required: seq<string>, entries: map<string, Value>, jar: map<string, string>)
    requires UserGroups(entries, jar).Some? && Contains(UserGroups(entries, jar).value, "admin")
    ensures AccessAsWritten(required, entries, jar)
  {
    AdminOverride(required, UserGroups(entries, jar).value);
  }

  /** On the state path the test is list membership: granted iff some
      required group, or "admin", is one of the listed groups. */
  lemma StatePathIsMembership(required: seq<string>, entries: map<string, Value>, jar: map<string, string>)
    requires "groups" in entries && entries["groups"].List?
    ensures AccessAsWritten(required, entries, jar)
        <==> entries["groups"].items != [] && ("admin" in entries["groups"].items
             || exists i :: 0 <= i < |required| && required[i] in entries["groups"].items)
  {
    var req := required + ["admin"];
    var xs := entries["groups"].items;
    if xs != [] && exists i :: 0 <= i < |required| && required[i] in xs {
      var i :| 0 <= i < |required| && required[i] in xs;
      assert req[i] == required[i];
    }
    if xs != [] && "admin" in xs {
      assert req[|required|] == "admin";
    }
    if AccessAsWritten(required, entries, jar) {
      var i :| 0 <= i < |req| && Contains(List(xs), req[i]);
      if i < |required| {
        assert req[i] == required[i];
      }
    }
  }

  /** As written, the cookie path never denies a user the list test admits:
      every piece of the split cookie occurs in the cookie string. */
  lemma AsWrittenAdmitsIntended(required: seq<string>, entries: map<string, Value>, jar: map<string, string>)
    requires AccessIntended(required, entries, jar)
    ensures AccessAsWritten(required, entries, jar)
  {
    if "groups" !in entries {
      var c := jar["groups"];
      var req := required + ["admin"];
      var i :| 0 <= i < |req| && Contains(List(Split(c, ',')), req[i]);
      SplitPiecesInString(c, ',', req[i]);
      assert Contains(Str(c), req[i]);
    }
  }

  /** "admin" occurs in "sysadmin", and splitting "sysadmin" on "," gives one piece. */
  lemma SysadminCookie()
    ensures IsSubstring("admin", "sysadmin")
    ensures Split("sysadmin", ',') == ["sysadmin"]
  {
    SubstringSelf("admin");
    SubstringOfSuffix("admin", "sys", "admin");
    assert "sys" + "admin" == "sysadmin";
    var c := "sysadmin";
    assert forall i :: 0 <= i < |c| ==> c[i] != ',';
    SplitJoin([c], ',');
  }

  /** The defect: a `groups` cookie "sysadmin" (one group, not "admin") passes
      a check for "finance", because "admin" is a substring of "sysadmin"; on
      the next run the state holds ["sysadmin"] and the same check fails. */
  lemma CookieSubstringOverGrants()
    ensures AccessAsWritten(["finance"], map[], map["groups" := "sysadmin"])
    ensures !AccessIntended(["finance"], map[], map["groups" := "sysadmin"])
    ensures StateAfterGroups(map[], map["groups" := "sysadmin"]) == map["groups" := List(["sysadmin"])]
    ensures !AccessAsWritten(["finance", "admin"], StateAfterGroups(map[], map["groups" := "sysadmin"]), map["groups" := "sysadmin"])
  {
    var c := "sysadmin";
    var jar := map["groups" := c];
    SysadminCookie();
    var r1 := ["finance"] + ["admin"];
    assert r1[1] == "admin";
    assert AnyIn(r1, Str(c));
    assert UserGroups(map[], jar) == Some(Str(c));
    assert IntendedUserGroups(map[], jar) == Some(List([c]));
    assert "finance" != c && "admin" != c by {
      assert |"finance"| == 7 && |"admin"| == 5 && |c| == 8;
    }
    assert !AnyIn(r1, List([c])) by {
      forall i | 0 <= i < |r1| ensures !Contains(List([c]), r1[i]) {
        assert r1[i] == "finance" || r1[i] == "admin";
      }
    }
    var r2 := ["finance", "admin"] + ["admin"];
    assert !AnyIn(r2, List([c])) by {
      forall i | 0 <= i < |r2| ensures !Contains(List([c]), r2[i]) {
        assert r2[i] == "finance" || r2[i] == "admin";
      }
    }
  }

  /** The corrected decision is the same on the run that copies the cookie
      into the state and on every later run, although each run appends
      "admin" to the required list. */
  lemma IntendedStableAcrossReruns(required: seq<string>, entries: map<string, Value>, jar: map<string, string>)
    ensures AccessIntended(required + ["admin"], StateAfterGroups(entries, jar), jar)
        == AccessIntended(required, entries, jar)
  {
    var after := StateAfterGroups(entries, jar);
    assert IntendedUserGroups(after, jar) == IntendedUserGroups(entries, jar);
    var ug := IntendedUserGroups(entries, jar);
    var r1 := required + ["admin"];
    var r2 := required + ["admin"] + ["admin"];
    if Truthy(ug) {
      if AnyIn(r2, ug.value) {
        var i :| 0 <= i < |r2| && Contains(ug.value, r2[i]);
        if i < |r1| {
          assert r1[i] == r2[i];
        } else {
          assert r1[|required|] == r2[i];
        }
      }
      if AnyIn(r1, ug.value) {
        var i :| 0 <= i < |r1| && Contains(ug.value, r1[i]);
        assert r2[i] == r1[i];
      }
    }
  }
}
