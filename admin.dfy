/** `AdminPage`: the admin tools' callbacks and setters over the user and
    group tables. */
module Admin {
  import opened Framework
  import opened AdminModels

  /** What a setter returns and the table it leaves behind. */
  datatype Step<S> = Step(status: DbResult<bool>, after: S)

  /** Position of the first `x` in `xs`. */
  function FirstIndex(xs: seq<string>, x: string): (k: nat)
    requires x in xs
    ensures k < |xs| && xs[k] == x
    ensures forall j :: 0 <= j < k ==> xs[j] != x
  {
    if xs[0] == x then 0
    else
      assert xs == [xs[0]] + xs[1..];
      1 + FirstIndex(xs[1..], x)
  }

  /** Python's `xs.remove(x)`: drops the first `x`. */
  function RemoveFirst(xs: seq<string>, x: string): (r: seq<string>)
    requires x in xs
    ensures |r| == |xs| - 1
    ensures multiset(r) + multiset{x} == multiset(xs)
    ensures exists k :: 0 <= k < |xs| && xs[k] == x && x !in xs[..k] && r == xs[..k] + xs[k + 1..]
  {
    var k := FirstIndex(xs, x);
    assert xs == xs[..k] + [xs[k]] + xs[k + 1..];
    assert x !in xs[..k] by {
      forall j | 0 <= j < k ensures xs[..k][j] != x {
        assert xs[..k][j] == xs[j];
      }
    }
    xs[..k] + xs[k + 1..]
  }

  /** `_user_change_status`: sets the user's active flag. */
  function SetUserActive(users: map<string, UserRow>, username: string, active: bool): Step<map<string, UserRow>>
  {
    if username !in users then Step(Err(NoResultFound), users)
    else Step(Ok(true), users[username := users[username].(active := active)])
  }

  /** `_change_group_status`: sets the group's active flag. */
  function SetGroupActive(groups: map<string, bool>, name: string, active: bool): Step<map<string, bool>>
  {
    if name !in groups then Step(Err(NoResultFound), groups)
    else Step(Ok(true), groups[name := active])
  }

  /** `user_add_groups`: the group, then the user, must exist; appending a
      group the user already has breaks the link table's key on commit. */
  function AddGroup(users: map<string, UserRow>, groups: map<string, bool>, username: string, group: string): Step<map<string, UserRow>>
  {
    if group !in groups then Step(Err(NoResultFound), users)
    else if username !in users then Step(Err(NoResultFound), users)
    else if group in users[username].groups then Step(Err(IntegrityError), users)
    else Step(Ok(true), users[username := users[username].(groups := users[username].groups + [group])])
  }

  /** `user_delete_group`: the group, then the user, must exist; a user with
      no groups is left alone (the source returns `None`, here `Ok(false)`);
      removing a group the user lacks raises `ValueError`. */
  function DeleteGroup(users: map<string, UserRow>, groups: map<string, bool>, username: string, group: string): Step<map<string, UserRow>>
  {
    if group !in groups then Step(Err(NoResultFound), users)
    else if username !in users then Step(Err(NoResultFound), users)
    else if users[username].groups == [] then Step(Ok(false), users)
    else if group !in users[username].groups then Step(Err(ValueError), users)
    else Step(Ok(true), users[username := users[username].(groups := RemoveFirst(users[username].groups, group))])
  }

  /** The groups `groups_list` shows: only active ones, unless the page state
      says `show_all_groups` is True. */
  function GroupsShown(groups: seq<GroupRow>, pageState: map<string, Value>): (r: seq<GroupRow>)
    ensures Get(pageState, "show_all_groups") == Some(Bool(true)) ==> r == groups
    ensures Get(pageState, "show_all_groups") != Some(Bool(true)) ==> r == ActiveGroups(groups)
  {
    if Get(pageState, "show_all_groups") != Some(Bool(true)) then ActiveGroups(groups) else groups
  }

  /** `[x for x in groups if x.active == True]`. */
  function ActiveGroups(groups: seq<GroupRow>): (r: seq<GroupRow>)
    ensures forall g :: g in r <==> g in groups && g.active
    ensures |r| <= |groups|
  {
    if groups == [] then []
    else if groups[0].active then [groups[0]] + ActiveGroups(groups[1..])
    else ActiveGroups(groups[1..])
  }

  /** The filter keeps the order of the list: filtering a concatenation
      concatenates the filtered parts. */
  lemma {:induction false} ActiveGroupsAppend(a: seq<GroupRow>, b: seq<GroupRow>)
    ensures ActiveGroups(a + b) == ActiveGroups(a) + ActiveGroups(b)
  {
    if a != [] {
      assert (a + b)[0] == a[0];
      assert (a + b)[1..] == a[1..] + b;
      ActiveGroupsAppend(a[1..], b);
    } else {
      assert a + b == b;
    }
  }

  /** One row is kept exactly when it is active. */
  lemma ActiveGroupsSingle(g: GroupRow)
    ensures ActiveGroups([g]) == if g.active then [g] else []
  {
    assert [g][1..] == [];
  }

  /** A list whose groups are all active is shown whole, in order and with
      every repetition. */
  lemma {:induction false} ActiveGroupsAllActive(groups: seq<GroupRow>)
    requires forall i :: 0 <= i < |groups| ==> groups[i].active
    ensures ActiveGroups(groups) == groups
  {
    if groups != [] {
      ActiveGroupsAllActive(groups[1..]);
      assert groups == [groups[0]] + groups[1..];
    }
  }

  class AdminPage {
    const db: Database

    constructor (db: Database)
      ensures this.db == db
    {
      this.db := db;
    }

    method UserChangeStatus(changeTo: bool, username: string) returns (r: DbResult<bool>)
      requires db.Valid()
      modifies db
      ensures db.Valid() && db.groups == old(db.groups)
      ensures Step(r, db.users) == SetUserActive(old(db.users), username, changeTo)
    {
      if username !in db.users {
        return Err(NoResultFound);
      }
      var user := db.users[username];
      db.users := db.users[username := user.(active := changeTo)];
      return Ok(true);
    }

    method UserDisable(username: string) returns (r: DbResult<bool>)
      requires db.Valid()
      modifies db
      ensures db.Valid() && db.groups == old(db.groups)
      ensures Step(r, db.users) == SetUserActive(old(db.users), username, false)
    {
      r := UserChangeStatus(false, username);
    }

    method UserEnable(username: string) returns (r: DbResult<bool>)
      requires db.Valid()
      modifies db
      ensures db.Valid() && db.groups == old(db.groups)
      ensures Step(r, db.users) == SetUserActive(old(db.users), username, true)
    {
      r := UserChangeStatus(true, username);
    }

    /** The active-checkbox callback: `active` is the flag the list showed,
        and the user is set to its opposite. */
    method ChangeUserStatus(username: string, active: bool) returns (r: DbResult<bool>)
      requires db.Valid()
      modifies db
      ensures db.Valid() && db.groups == old(db.groups)
      ensures Step(r, db.users) == SetUserActive(old(db.users), username, !active)
    {
      if active {
        r := UserDisable(username);
      } else {
        r := UserEnable(username);
      }
    }

    method GroupChangeStatus(changeTo: bool, name: string) returns (r: DbResult<bool>)
      requires db.Valid()
      modifies db
      ensures db.Valid() && db.users == old(db.users)
      ensures Step(r, db.groups) == SetGroupActive(old(db.groups), name, changeTo)
    {
      if name !in db.groups {
        return Err(NoResultFound);
      }
      db.groups := db.groups[name := changeTo];
      return Ok(true);
    }

    method GroupDisable(name: string) returns (r: DbResult<bool>)
      requires db.Valid()
      modifies db
      ensures db.Valid() && db.users == old(db.users)
      ensures Step(r, db.groups) == SetGroupActive(old(db.groups), name, false)
    {
      r := GroupChangeStatus(false, name);
    }

    method GroupEnable(name: string) returns (r: DbResult<bool>)
      requires db.Valid()
      modifies db
      ensures db.Valid() && db.users == old(db.users)
      ensures Step(r, db.groups) == SetGroupActive(old(db.groups), name, true)
    {
      r := GroupChangeStatus(true, name);
    }

    /** The group active-checkbox callback: the group is set to the opposite
        of the flag the list showed. */
    method ChangeGroupStatus(name: string, active: bool) returns (r: DbResult<bool>)
      requires db.Valid()
      modifies db
      ensures db.Valid() && db.users == old(db.users)
      ensures Step(r, db.groups) == SetGroupActive(old(db.groups), name, !active)
    {
      if active {
        r := GroupDisable(name);
      } else {
        r := GroupEnable(name);
      }
    }

    method UserAddGroups(username: string, group: string) returns (r: DbResult<bool>)
      requires db.Valid()
      modifies db
      ensures db.Valid() && db.groups == old(db.groups)
      ensures Step(r, db.users) == AddGroup(old(db.users), db.groups, username, group)
    {
      if group !in db.groups {
        return Err(NoResultFound);
      }
      if username !in db.users {
        return Err(NoResultFound);
      }
      var user := db.users[username];
      if group in user.groups {
        // The commit fails on the link table's key and nothing is stored.
        return Err(IntegrityError);
      }
      db.users := db.users[username := user.(groups := user.groups + [group])];
      return Ok(true);
    }

    method UserDeleteGroup(username: string, group: string) returns (r: DbResult<bool>)
      requires db.Valid()
      modifies db
      ensures db.Valid() && db.groups == old(db.groups)
      ensures Step(r, db.users) == DeleteGroup(old(db.users), db.groups, username, group)
    {
      if group !in db.groups {
        return Err(NoResultFound);
      }
      if username !in db.users {
        return Err(NoResultFound);
      }
      var user := db.users[username];
      if user.groups == [] {
        return Ok(false);
      }
      if group !in user.groups {
        return Err(ValueError);
      }
      RemoveFirstKeepsOthers(user.groups, group);
      db.users := db.users[username := user.(groups := RemoveFirst(user.groups, group))];
      return Ok(true);
    }

    /** The membership-checkbox callback: `granted` is whether the form showed
        the user as a member; a non-member is added, a member removed. */
    method ChangeUserGroupStatus(username: string, group: string, granted: bool) returns (r: DbResult<bool>)
      requires db.Valid()
      modifies db
      ensures db.Valid() && db.groups == old(db.groups)
      ensures Step(r, db.users) == if !granted then AddGroup(old(db.users), db.groups, username, group)
                                    else DeleteGroup(old(db.users), db.groups, username, group)
    {
      if !granted {
        r := UserAddGroups(username, group);
      } else {
        r := UserDeleteGroup(username, group);
      }
    }

    /** The names of the user's groups; no such user raises `NoResultFound`. */
    method UserGetGroups(username: string) returns (r: DbResult<seq<string>>)
      ensures username in db.users ==> r == Ok(db.users[username].groups)
      ensures username !in db.users ==> r == Err(NoResultFound)
    {
      if username !in db.users {
        return Err(NoResultFound);
      }
      var user := db.users[username];
      return Ok(if user.groups != [] then user.groups else []);
    }

    /** Inserts a new, active group; a duplicate name fails the unique key and
        yields False with the table unchanged. */
    method CreateGroup(name: string) returns (created: bool)
      requires db.Valid()
      modifies db
      ensures db.Valid() && db.users == old(db.users)
      ensures created <==> name !in old(db.groups)
      ensures db.groups == if created then old(db.groups)[name := true] else old(db.groups)
    {
      if name in db.groups {
        return false;
      }
      db.groups := db.groups[name := true];
      return true;
    }
  }

  /** Removing `x` from a list keeps every other element and, when the list
      has no duplicates, leaves no `x` and no duplicates behind. */
  lemma RemoveFirstKeepsOthers(xs: seq<string>, x: string)
    requires x in xs
    ensures |RemoveFirst(xs, x)| == |xs| - 1
    ensures forall y :: y != x ==> (y in RemoveFirst(xs, x) <==> y in xs)
    ensures NoDuplicates(xs) ==> x !in RemoveFirst(xs, x) && NoDuplicates(RemoveFirst(xs, x))
  {
    var k := FirstIndex(xs, x);
    var r := RemoveFirst(xs, x);
    assert forall j :: 0 <= j < |r| ==> r[j] == (if j < k then xs[j] else xs[j + 1]);
    forall y | y != x && y in xs ensures y in r {
      var j :| 0 <= j < |xs| && xs[j] == y;
      assert r[if j < k then j else j - 1] == y;
    }
  }

  /** Removing the element just appended gives back the list. */
  lemma RemoveAppended(xs: seq<string>, x: string)
    requires x !in xs
    ensures RemoveFirst(xs + [x], x) == xs
  {
    var ys := xs + [x];
    var k := FirstIndex(ys, x);
    assert forall j :: 0 <= j < |xs| ==> ys[j] == xs[j] && xs[j] in xs;
    assert k == |xs|;
    assert ys[..|xs|] == xs;
  }

  /** Adding a group and then deleting it restores the users table. */
  lemma AddThenDelete(users: map<string, UserRow>, groups: map<string, bool>, username: string, group: string)
    requires AddGroup(users, groups, username, group).status == Ok(true)
    ensures DeleteGroup(AddGroup(users, groups, username, group).after, groups, username, group) == Step(Ok(true), users)
  {
    var u := users[username];
    RemoveAppended(u.groups, group);
    assert u.(groups := RemoveFirst(u.groups + [group], group)) == u;
    var after := users[username := u.(groups := u.groups + [group])];
    assert after[username := u] == users by {
      assert forall v :: v in users ==> v in after[username := u] && after[username := u][v] == users[v];
    }
  }

  /** The membership checkbox toggles: with `granted` read from the table,
      the user's membership afterwards is its opposite, and no other
      membership changes. */
  lemma MembershipToggles(users: map<string, UserRow>, groups: map<string, bool>, username: string, group: string, other: string)
    requires TablesValid(users, groups)
    requires username in users && group in groups
    ensures var granted := group in users[username].groups;
      var s := if !granted then AddGroup(users, groups, username, group) else DeleteGroup(users, groups, username, group);
      && s.status == Ok(true)
      && username in s.after
      && (group in s.after[username].groups <==> !granted)
      && (other != group ==> (other in s.after[username].groups <==> other in users[username].groups))
      && s.after.Keys == users.Keys
      && forall v :: v in users && v != username ==> s.after[v] == users[v]
  {
    var xs := users[username].groups;
    if group in xs {
      RemoveFirstKeepsOthers(xs, group);
    }
  }

  /** Toggling a user's checkbox twice restores the users table. */
  lemma UserStatusToggleTwice(users: map<string, UserRow>, username: string, active: bool)
    requires username in users && users[username].active == active
    ensures SetUserActive(SetUserActive(users, username, !active).after, username, active) == Step(Ok(true), users)
  {
    var u := users[username];
    assert u.(active := !active).(active := active) == u;
    var after := users[username := u.(active := !active)];
    assert after[username := u] == users by {
      assert forall v :: v in users ==> v in after[username := u] && after[username := u][v] == users[v];
    }
  }

  /** After the user checkbox callback the user's flag is the opposite of the
      flag shown, and every other user row is unchanged. */
  lemma UserStatusToggles(users: map<string, UserRow>, username: string, active: bool)
    requires username in users
    ensures var s := SetUserActive(users, username, !active);
      && s.status == Ok(true) && s.after.Keys == users.Keys
      && s.after[username] == users[username].(active := !active)
      && forall v :: v in users && v != username ==> s.after[v] == users[v]
  {
  }

  /** After the group checkbox callback the group's flag is the opposite of
      the flag shown, and every other group is unchanged. */
  lemma GroupStatusToggles(groups: map<string, bool>, name: string, active: bool)
    requires name in groups
    ensures var s := SetGroupActive(groups, name, !active);
      && s.status == Ok(true) && s.after.Keys == groups.Keys && s.after[name] == !active
      && forall n :: n in groups && n != name ==> s.after[n] == groups[n]
  {
  }

  /** Setters that fail leave the table as it was. */
  lemma FailedStepsChangeNothing(users: map<string, UserRow>, groups: map<string, bool>, username: string, group: string, b: bool)
    ensures SetUserActive(users, username, b).status != Ok(true) ==> SetUserActive(users, username, b).after == users
    ensures SetGroupActive(groups, group, b).status != Ok(true) ==> SetGroupActive(groups, group, b).after == groups
    ensures AddGroup(users, groups, username, group).status != Ok(true) ==> AddGroup(users, groups, username, group).after == users
    ensures DeleteGroup(users, groups, username, group).status != Ok(true) ==> DeleteGroup(users, groups, username, group).after == users
  {
  }
}
