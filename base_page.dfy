/** `Page`, the base class of the application's pages: the permission gate and
    the per-page state slot. */
module BasePage {
  import opened Framework
  import opened PageModel

  /** The groups `check_permissions` tests against: a non-empty `provided`
      string when given, else the state entry or the raw `groups` cookie. */
  function PermissionGroups(provided: Option<string>, entries: map<string, Value>, jar: map<string, string>): Option<Value>
  {
    if provided.Some? && provided.value != "" then Some(Str(provided.value)) else UserGroups(entries, jar)
  }

  /** The page dictionary already belongs to the page called `name`. */
  predicate PageMatches(entries: map<string, Value>, name: string)
  {
    var page := Get(entries, "page");
    Truthy(page) && page.value.Dict? && Get(page.value.entries, "name") == Some(Str(name))
  }

  /** The state after `check_state`: unchanged when the page dictionary is the
      current page's, else `page` replaced by a dictionary holding only the
      name. */
  function StateAfterCheck(entries: map<string, Value>, name: string): map<string, Value>
  {
    if PageMatches(entries, name) then entries else entries["page" := Dict(map["name" := Str(name)])]
  }

  class Page {
    const name: string
    /** The class-level `groups` list: one list object shared by every
        instance of the page class. */
    const groups: StrList
    const state: SessionState
    const cookies: CookieManager

    constructor (name: string, groups: StrList, state: SessionState, cookies: CookieManager)
      ensures this.name == name && this.groups == groups && this.state == state && this.cookies == cookies
    {
      this.name := name;
      this.groups := groups;
      this.state := state;
      this.cookies := cookies;
    }

    /** The page's group gate. A non-empty `provided` string is used as the
        user's groups in preference to state and cookie; no groups means
        denied; otherwise "admin" is appended to the class-level list and the
        result is whether some listed group is in the user's groups. */
    method CheckPermissions(provided: Option<string>) returns (granted: bool)
      modifies state, groups
      ensures provided.Some? && provided.value != "" ==> state.entries == old(state.entries)
      ensures !(provided.Some? && provided.value != "") ==>
        state.entries == StateAfterGroups(old(state.entries), cookies.jar)
      ensures !Truthy(PermissionGroups(provided, old(state.entries), cookies.jar)) ==>
        !granted && groups.items == old(groups.items)
      ensures Truthy(PermissionGroups(provided, old(state.entries), cookies.jar)) ==>
        groups.items == old(groups.items) + ["admin"]
        && granted == AnyIn(groups.items, PermissionGroups(provided, old(state.entries), cookies.jar).value)
    {
      // A session that is not logged in only gets a warning and a redirect
      // script here; the checks below still run.
      var userGroups: Option<Value>;
      if provided.Some? && provided.value != "" {
        userGroups := Some(Str(provided.value));
      } else if "groups" !in state.entries {
        var cookie := Get(cookies.jar, "groups");
        userGroups := if cookie.Some? then Some(Str(cookie.value)) else None;
        if Truthy(userGroups) {
          state.entries := state.entries["groups" := List(Text.Split(cookie.value, ','))];
        }
      } else {
        userGroups := Some(state.entries["groups"]);
      }
      if !Truthy(userGroups) {
        return false;
      }
      groups.items := groups.items + ["admin"];
      granted := AnyIn(groups.items, userGroups.value);
    }

    /** Makes `state["page"]` the current page's dictionary. */
    method CheckState()
      modifies state
      ensures state.entries == StateAfterCheck(old(state.entries), name)
    {
      var page := Get(state.entries, "page");
      if Truthy(page) && page.value.Dict? && Get(page.value.entries, "name") == Some(Str(name)) {
        return;
      }
      if Truthy(page) {
        state.entries := state.entries - {"page"};
      }
      state.entries := state.entries["page" := Dict(map["name" := Str(name)])];
    }
  }

  /** After `check_state` the page dictionary names the page; if it already
      did, the whole state (other page keys such as `open_user` included) is
      untouched, otherwise the dictionary is exactly `{"name": name}`; no other
      state key changes. */
  lemma CheckStateResult(entries: map<string, Value>, name: string)
    ensures var r := StateAfterCheck(entries, name);
      && "page" in r && r["page"].Dict? && Get(r["page"].entries, "name") == Some(Str(name))
      && (PageMatches(entries, name) ==> r == entries)
      && (!PageMatches(entries, name) ==> r["page"] == Dict(map["name" := Str(name)]))
      && r.Keys == entries.Keys + {"page"}
      && forall k :: k in entries && k != "page" ==> r[k] == entries[k]
  {
  }

  /** A second `check_state` for the same page changes nothing. */
  lemma CheckStateIdempotent(entries: map<string, Value>, name: string)
    ensures StateAfterCheck(StateAfterCheck(entries, name), name) == StateAfterCheck(entries, name)
  {
    var d := map["name" := Str(name)];
    assert Get(d, "name") == Some(Str(name));
    assert d != map[] by { assert "name" in d; }
  }

  /** An explicit `provided` string decides the outcome whatever the state and
      cookies hold. */
  lemma ProvidedWins(provided: string, entries: map<string, Value>, jar: map<string, string>, entries2: map<string, Value>, jar2: map<string, string>)
    requires provided != ""
    ensures PermissionGroups(Some(provided), entries, jar) == PermissionGroups(Some(provided), entries2, jar2) == Some(Str(provided))
  {
  }

  /** With no `provided` string, the test is exactly the page model's. */
  lemma NoProvidedIsGroupAccess(entries: map<string, Value>, jar: map<string, string>)
    ensures PermissionGroups(None, entries, jar) == UserGroups(entries, jar)
    ensures PermissionGroups(Some(""), entries, jar) == UserGroups(entries, jar)
  {
  }
}
