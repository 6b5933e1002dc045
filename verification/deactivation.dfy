/** `deactivateUserByLogin`: look the active user up; if there is none,
    report `false` and change nothing; otherwise drop the user's group
    memberships, user properties and roles, drop the default-assignee
    property that names the login, switch the row off with the clock value,
    and report `true`. The whole cascade is one store-to-store step. */
module Deactivation {
  import opened Maybe
  import opened Rows
  import opened UserDao

  /** The key of the default issue assignee setting. */
  const DefaultIssueAssignee: string := "sonar.issues.defaultAssigneeLogin"

  // ---- the mapper statements of the cascade ----

  function RemoveUserFromGroups(s: Store, userId: int): Store {
    s.(memberships := set m | m in s.memberships && m.userId != userId)
  }

  function DeleteUserProperties(s: Store, userId: int): Store {
    s.(properties := set p | p in s.properties && p.userId != Some(userId))
  }

  function DeleteUserRoles(s: Store, userId: int): Store {
    s.(roles := set r | r in s.roles && r.userId != userId)
  }

  /** Properties under one of `keys` whose value is the login. */
  function DeletePropertiesMatchingLogin(s: Store, keys: seq<string>, login: string): Store {
    s.(properties := set p | p in s.properties && !(p.key in keys && p.value == login))
  }

  /** The rows after `deactivateUser`: the user's row is switched off and
      stamped with the clock value. */
  function Deactivated(us: seq<UserDto>, userId: int, now: int): (r: seq<UserDto>)
    ensures |r| == |us|
    ensures forall i :: 0 <= i < |us| ==> r[i].id == us[i].id && r[i].login == us[i].login
    ensures forall i :: 0 <= i < |us| && us[i].id != userId ==> r[i] == us[i]
    ensures forall i :: 0 <= i < |us| && us[i].id == userId ==> !r[i].active && r[i].updatedAt == now
  {
    seq(|us|, i requires 0 <= i < |us| =>
      if us[i].id == userId then us[i].(active := false, updatedAt := now) else us[i])
  }

  function DeactivateUser(s: Store, userId: int, now: int): Store {
    s.(users := Deactivated(s.users, userId, now))
  }

  /** What deactivating `u` at time `now` leaves in `t`, starting from `s`:
      nothing of the user's in the dependent tables, nothing else removed
      there, and the user's row kept but switched off and stamped. */
  ghost predicate Purged(s: Store, t: Store, u: UserDto, now: int) {
    && (forall m :: m in t.memberships <==> m in s.memberships && m.userId != u.id)
    && (forall r :: r in t.roles <==> r in s.roles && r.userId != u.id)
    && (forall p :: p in t.properties <==>
          p in s.properties && p.userId != Some(u.id) && !(p.key == DefaultIssueAssignee && p.value == u.login))
    && |t.users| == |s.users|
    && (forall i :: 0 <= i < |s.users| && s.users[i].id != u.id ==> t.users[i] == s.users[i])
    && (forall i :: 0 <= i < |s.users| && s.users[i].id == u.id ==>
          t.users[i] == s.users[i].(active := false, updatedAt := now))
  }

  /** `deactivateUserByLogin`, with `now` the value read from the clock. */
  function DeactivateUserByLogin(s: Store, login: string, now: int): (r: Step<bool>)
    ensures r.value <==> SelectActiveUserByLogin(s, login).Some?
    ensures !r.value ==> r.store == s
    ensures r.value ==> Purged(s, r.store, SelectActiveUserByLogin(s, login).value, now)
  {
    match SelectActiveUserByLogin(s, login)
    case None => Step(s, false)
    case Some(dto) =>
      var s1 := RemoveUserFromGroups(s, dto.id);
      var s2 := DeleteUserProperties(s1, dto.id);
      var s3 := DeleteUserRoles(s2, dto.id);
      var s4 := DeletePropertiesMatchingLogin(s3, [DefaultIssueAssignee], dto.login);
      var s5 := DeactivateUser(s4, dto.id, now);
      Step(s5, true)
  }

  /** After a successful deactivation the user is gone from the active
      lookup, still found by the plain lookup with `active = false` and the
      clock value, owns no memberships, user properties or roles, is nobody's
      default assignee any more, and the unique constraints still hold. */
  lemma DeactivatedUserState(s: Store, login: string, now: int)
    requires Valid(s)
    requires SelectActiveUserByLogin(s, login).Some?
    ensures var u := SelectActiveUserByLogin(s, login).value;
            var t := DeactivateUserByLogin(s, login, now).store;
            && Valid(t)
            && SelectActiveUserByLogin(t, login).None?
            && SelectByLogin(t, login) == Some(u.(active := false, updatedAt := now))
            && (forall m :: m in t.memberships ==> m.userId != u.id)
            && (forall p :: p in t.properties ==> p.userId != Some(u.id))
            && (forall r :: r in t.roles ==> r.userId != u.id)
            && (forall p :: p in t.properties ==> !(p.key == DefaultIssueAssignee && p.value == login))
  {
    var u := SelectActiveUserByLogin(s, login).value;
    var t := DeactivateUserByLogin(s, login, now).store;
    var i :| 0 <= i < |s.users| && s.users[i] == u;
    LookupFollowsRewrite(s.users, t.users, login);
    if SelectActiveUserByLogin(t, login).Some? {
      LoginLookupIsUnique(t.users, login, false, SelectActiveUserByLogin(t, login).value);
      assert false;
    }
  }

  /** Every other login reads exactly as before, through both lookups. */
  lemma OtherUsersUntouched(s: Store, login: string, now: int, other: string)
    requires Valid(s)
    requires other != login
    ensures var t := DeactivateUserByLogin(s, login, now).store;
            && SelectByLogin(t, other) == SelectByLogin(s, other)
            && SelectActiveUserByLogin(t, other) == SelectActiveUserByLogin(s, other)
  {
    var t := DeactivateUserByLogin(s, login, now).store;
    if SelectActiveUserByLogin(s, login).Some? {
      var u := SelectActiveUserByLogin(s, login).value;
      LookupFollowsRewrite(s.users, t.users, other);
      ActiveLookupFiltersPlainLookup(s, other);
      ActiveLookupFiltersPlainLookup(t, other);
      if SelectByLogin(s, other).Some? {
        var v := SelectByLogin(s, other).value;
        var j :| 0 <= j < |s.users| && s.users[j] == v;
        if v.id == u.id {
          assert false;
        }
        assert t.users[j] == v;
      }
    }
  }

  /** The lookup only sees active users, so a second deactivation of the same
      login finds nobody, reports `false` and changes nothing. */
  lemma DeactivatingTwiceIsNoop(s: Store, login: string, now: int, later: int)
    requires Valid(s)
    ensures var t := DeactivateUserByLogin(s, login, now).store;
            DeactivateUserByLogin(t, login, later) == Step(t, false)
  {
    if SelectActiveUserByLogin(s, login).Some? {
      DeactivatedUserState(s, login, now);
    }
  }
}
