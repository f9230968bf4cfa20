/** The relational tables behind the admin tools: users, groups and the
    user-group membership link, kept in memory. */
module AdminModels {

  /** A `streamlit_users` row; `groups` is the user's membership list, in the
      order the link rows were added. */
  datatype UserRow = UserRow(
    email: string,
    firstName: string,
    lastName: string,
    hashedPassword: string,
    active: bool,
    ldap: bool,
    admin: bool,
    groups: seq<string>)

  /** A `streamlit_groups` row as listed on the admin page. */
  datatype GroupRow = GroupRow(name: string, active: bool)

  /** The database errors the admin code lets through: `.one()` finding no
      row, a commit breaking a key, `list.remove` of a missing element. */
  datatype DbError = NoResultFound | IntegrityError | ValueError

  /** A database call's outcome: its return value, or the exception it raised. */
  datatype DbResult<T> = Ok(value: T) | Err(error: DbError)

  /** No group is listed twice: the link table's key is (group, user). */
  predicate NoDuplicates(xs: seq<string>)
  {
    forall i, j :: 0 <= i < j < |xs| ==> xs[i] != xs[j]
  }

  /** Every membership is listed once and names an existing group. */
  ghost predicate TablesValid(users: map<string, UserRow>, groups: map<string, bool>)
  {
    && (forall u :: u in users ==> NoDuplicates(users[u].groups))
    && (forall u, g :: u in users && g in users[u].groups ==> g in groups)
  }

  /** The database: users keyed by their unique username, groups keyed by
      their unique name and holding the `active` flag. */
  class Database {
    var users: map<string, UserRow>
    var groups: map<string, bool>

    ghost predicate Valid()
      reads this
    {
      TablesValid(users, groups)
    }

    constructor (users: map<string, UserRow>, groups: map<string, bool>)
      requires TablesValid(users, groups)
      ensures this.users == users && this.groups == groups
      ensures Valid()
    {
      this.users := users;
      this.groups := groups;
    }
  }
}
