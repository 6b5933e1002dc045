/** The abstract store behind the user mapper: the users table plus the
    group-membership, property and user-role tables that deactivation purges. */
module Rows {
  import opened Maybe

  /** One row of the users table. Timestamps are milliseconds from the clock. */
  datatype UserDto = UserDto(
    id: int,
    login: string,
    name: Option<string>,
    email: Option<string>,
    scmAccounts: Option<string>,
    root: bool,
    active: bool,
    createdAt: int,
    updatedAt: int)

  datatype GroupMembership = GroupMembership(groupId: int, userId: int)

  /** One row of the properties table: a user property when `userId` is set,
      a global or component property otherwise. */
  datatype Property = Property(key: string, userId: Option<int>, componentId: Option<int>, value: string)

  datatype UserRole = UserRole(userId: int, role: string, componentId: Option<int>)

  /** The users table is kept in row order, the other tables as sets of rows. */
  datatype Store = Store(
    users: seq<UserDto>,
    memberships: set<GroupMembership>,
    properties: set<Property>,
    roles: set<UserRole>)

  /** A store transition together with the value the DAO returns. */
  datatype Step<T> = Step(store: Store, value: T)

  /** The table's unique constraints: no two rows share an id or a login. */
  predicate UniqueKeys(us: seq<UserDto>) {
    forall i, j :: 0 <= i < j < |us| ==> us[i].id != us[j].id && us[i].login != us[j].login
  }

  predicate Valid(s: Store) {
    UniqueKeys(s.users)
  }

  /** The rows a `WHERE` clause keeps, in table order. */
  function Where<T(==,!new)>(rows: seq<T>, p: T -> bool): (r: seq<T>)
    ensures |r| <= |rows|
    ensures forall x :: x in r <==> x in rows && p(x)
  {
    if |rows| == 0 then []
    else (if p(rows[0]) then [rows[0]] else []) + Where(rows[1..], p)
  }

  /** A row the login lookup accepts; `activeOnly` adds the active filter. */
  predicate HasLogin(u: UserDto, login: string, activeOnly: bool) {
    u.login == login && (u.active || !activeOnly)
  }

  /** The first row with this login (and, if asked, active), or null. */
  function FindByLogin(us: seq<UserDto>, login: string, activeOnly: bool): (r: Option<UserDto>)
    ensures r.Some? <==> exists u :: u in us && HasLogin(u, login, activeOnly)
    ensures r.Some? ==> r.value in us && HasLogin(r.value, login, activeOnly)
  {
    if |us| == 0 then None
    else if HasLogin(us[0], login, activeOnly) then Some(us[0])
    else FindByLogin(us[1..], login, activeOnly)
  }

  /** The first row with this id, or null. */
  function FindById(us: seq<UserDto>, id: int): (r: Option<UserDto>)
    ensures r.Some? <==> exists u :: u in us && u.id == id
    ensures r.Some? ==> r.value in us && r.value.id == id
  {
    if |us| == 0 then None
    else if us[0].id == id then Some(us[0])
    else FindById(us[1..], id)
  }

  /** Under the unique constraint, a row with the login is the one found. */
  lemma LoginLookupIsUnique(us: seq<UserDto>, login: string, activeOnly: bool, u: UserDto)
    requires UniqueKeys(us)
    requires u in us && HasLogin(u, login, activeOnly)
    ensures FindByLogin(us, login, activeOnly) == Some(u)
  {
    var r := FindByLogin(us, login, activeOnly).value;
    var i :| 0 <= i < |us| && us[i] == u;
    var j :| 0 <= j < |us| && us[j] == r;
  }

  /** When a row-by-row rewrite keeps every login in place, the plain login
      lookup finds the rewritten copy of the row it found before. */
  lemma LookupFollowsRewrite(us: seq<UserDto>, vs: seq<UserDto>, login: string)
    requires UniqueKeys(us)
    requires |vs| == |us| && forall i :: 0 <= i < |us| ==> vs[i].login == us[i].login && vs[i].id == us[i].id
    ensures UniqueKeys(vs)
    ensures FindByLogin(vs, login, false).Some? <==> FindByLogin(us, login, false).Some?
    ensures forall i :: 0 <= i < |us| && us[i].login == login ==>
              FindByLogin(us, login, false) == Some(us[i]) && FindByLogin(vs, login, false) == Some(vs[i])
  {
    forall i | 0 <= i < |us| && us[i].login == login
      ensures FindByLogin(us, login, false) == Some(us[i]) && FindByLogin(vs, login, false) == Some(vs[i])
    {
      LoginLookupIsUnique(us, login, false, us[i]);
      LoginLookupIsUnique(vs, login, false, vs[i]);
    }
    if FindByLogin(vs, login, false).Some? {
      var i :| 0 <= i < |vs| && vs[i] == FindByLogin(vs, login, false).value;
      assert us[i] in us;
    }
    if FindByLogin(us, login, false).Some? {
      var i :| 0 <= i < |us| && us[i] == FindByLogin(us, login, false).value;
      assert vs[i] in vs;
    }
  }
}
