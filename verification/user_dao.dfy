/** The user DAO's lookups and writes against the abstract store. Each mapper
    statement is one store function here; the clock value and the store's
    partition size are parameters. */
module UserDao {
  import opened Maybe
  import opened Text
  import opened Rows
  import opened LargeInputs
  import opened SqlLike
  import opened ScmAccounts

  /** The not-found failure of `selectOrFailByLogin`. */
  datatype RowNotFound = RowNotFound(message: string)

  // ---- point lookups ----

  /** `selectUserById`: the row with this id, or null. */
  function SelectUserById(s: Store, userId: int): (r: Option<UserDto>)
    ensures r.Some? <==> exists u :: u in s.users && u.id == userId
    ensures r.Some? ==> r.value in s.users && r.value.id == userId
  {
    FindById(s.users, userId)
  }

  /** `selectActiveUserByLogin`: the active row with this login, or null. */
  function SelectActiveUserByLogin(s: Store, login: string): (r: Option<UserDto>)
    ensures r.Some? <==> exists u :: u in s.users && u.login == login && u.active
    ensures r.Some? ==> r.value in s.users && r.value.login == login && r.value.active
  {
    FindByLogin(s.users, login, true)
  }

  /** `selectByLogin`: the row with this login, active or not, or null. */
  function SelectByLogin(s: Store, login: string): (r: Option<UserDto>)
    ensures r.Some? <==> exists u :: u in s.users && u.login == login
    ensures r.Some? ==> r.value in s.users && r.value.login == login
  {
    FindByLogin(s.users, login, false)
  }

  /** An inactive user is invisible to the active lookup and visible to the
      plain one; an active user is visible to both. */
  lemma ActiveLookupFiltersPlainLookup(s: Store, login: string)
    requires Valid(s)
    ensures SelectActiveUserByLogin(s, login)
            == (match SelectByLogin(s, login)
                case Some(u) => if u.active then Some(u) else None
                case None => None)
  {
    match SelectByLogin(s, login)
    case Some(u) =>
      LoginLookupIsUnique(s.users, login, false, u);
      if u.active {
        LoginLookupIsUnique(s.users, login, true, u);
      } else {
        if SelectActiveUserByLogin(s, login).Some? {
          var v := SelectActiveUserByLogin(s, login).value;
          LoginLookupIsUnique(s.users, login, false, v);
        }
      }
    case None =>
  }

  function NotFoundMessage(login: string): string {
    "User with login '" + login + "' has not been found"
  }

  /** The not-found message names the login it was asked for. */
  lemma NotFoundMessageNamesLogin(login: string)
    ensures IsInfix(login, NotFoundMessage(login))
  {
    var prefix := "User with login '";
    var msg := NotFoundMessage(login);
    assert msg[|prefix|..][..|login|] == login;
    assert IsPrefix(login, msg[|prefix|..]);
  }

  /** `selectOrFailByLogin`: the plain lookup's row, or a not-found failure
      naming the login. */
  function SelectOrFailByLogin(s: Store, login: string): (r: Result<UserDto, RowNotFound>)
    ensures r.Ok? <==> SelectByLogin(s, login).Some?
    ensures r.Ok? ==> Some(r.value) == SelectByLogin(s, login)
    ensures r.Err? ==> IsInfix(login, r.error.message)
  {
    match SelectByLogin(s, login)
    case Some(u) => Ok(u)
    case None =>
      NotFoundMessageNamesLogin(login);
      Err(RowNotFound(NotFoundMessage(login)))
  }

  // ---- bulk lookups ----

  /** `selectByIds`: every row whose id is among `ids`, inactive ones included,
      in no promised order; an empty input makes no store call. */
  function SelectByIds(s: Store, ids: seq<int>, partitionSize: nat): (r: Batch<UserDto>)
    requires partitionSize > 0
    ensures |ids| == 0 ==> r.results == [] && r.calls == 0
    ensures r.calls == (|ids| + partitionSize - 1) / partitionSize
    ensures forall u :: u in r.results <==> u in s.users && u.id in ids
  {
    var lookup := (part: seq<int>) => Where(s.users, (u: UserDto) => u.id in part);
    KeyedLookupCoversInput(ids, lookup, partitionSize, s.users, (u: UserDto) => u.id);
    ExecuteLargeInputs(ids, lookup, partitionSize)
  }

  /** `selectByLogins`: every row whose login is among `logins`, inactive ones
      included, in no promised order; an empty input makes no store call. */
  function SelectByLogins(s: Store, logins: seq<string>, partitionSize: nat): (r: Batch<UserDto>)
    requires partitionSize > 0
    ensures |logins| == 0 ==> r.results == [] && r.calls == 0
    ensures r.calls == (|logins| + partitionSize - 1) / partitionSize
    ensures forall u :: u in r.results <==> u in s.users && u.login in logins
  {
    var lookup := (part: seq<string>) => Where(s.users, (u: UserDto) => u.login in part);
    KeyedLookupCoversInput(logins, lookup, partitionSize, s.users, (u: UserDto) => u.login);
    ExecuteLargeInputs(logins, lookup, partitionSize)
  }

  // ---- SCM account, login or email ----

  /** The mapper statement: rows whose login or email is the value, or whose
      account list matches the LIKE pattern. A null column matches nothing. */
  predicate MatchesScmAccountOrLoginOrEmail(u: UserDto, value: string, like: string) {
    || u.login == value
    || u.email == Some(value)
    || (u.scmAccounts.Some? && Like(u.scmAccounts.value, like))
  }

  /** `selectByScmAccountOrLoginOrEmail`, with `sep` the SCM-accounts separator. */
  function SelectByScmAccountOrLoginOrEmail(s: Store, value: string, sep: char): (r: seq<UserDto>)
    ensures forall u :: u in r ==> u in s.users
    ensures forall u :: u in s.users && (u.login == value || u.email == Some(value)) ==> u in r
  {
    var like := LikePattern(sep, value);
    Where(s.users, (u: UserDto) => MatchesScmAccountOrLoginOrEmail(u, value, like))
  }

  /** A user whose accounts are stored in the separator format is found
      exactly when the value is its login, its email or one whole account
      entry, for a value free of the separator and of LIKE wildcards. */
  lemma ScmSearchFindsWholeEntries(s: Store, u: UserDto, entries: seq<string>, value: string, sep: char)
    requires sep != '%' && sep != '_'
    requires IsLiteral(value) && sep !in value
    requires forall e :: e in entries ==> sep !in e
    requires u.scmAccounts == Encode(sep, entries)
    ensures u in SelectByScmAccountOrLoginOrEmail(s, value, sep)
            <==> u in s.users && (u.login == value || u.email == Some(value) || value in entries)
  {
    if |entries| > 0 {
      PatternMatchesWholeEntry(sep, value, entries);
    }
  }

  // ---- email existence ----

  /** The mapper's `countByEmail`: active rows whose lower-cased email equals
      the argument. */
  function CountByEmail(us: seq<UserDto>, lowered: string): (r: nat)
    ensures r > 0 <==> exists u :: u in us && u.active && u.email.Some? && Lower(u.email.value) == lowered
  {
    var hits := Where(us, (u: UserDto) => u.active && u.email.Some? && Lower(u.email.value) == lowered);
    assert |hits| > 0 ==> hits[0] in hits;
    |hits|
  }

  /** `doesEmailExist`: some active user's email equals this one up to the
      case of its letters. */
  function DoesEmailExist(s: Store, email: string): (r: bool)
    ensures r <==> exists u :: u in s.users && u.active && u.email.Some? && EqualIgnoringCase(u.email.value, email)
  {
    var r := CountByEmail(s.users, Lower(email)) > 0;
    assert r <==> exists u :: u in s.users && u.active && u.email.Some? && EqualIgnoringCase(u.email.value, email) by {
      forall u | u in s.users && u.active && u.email.Some? {
        LowerDecidesCase(u.email.value, email);
      }
    }
    r
  }

  /** Two emails that differ only in letter case get the same answer, and the
      answer only depends on the lower-cased email. */
  lemma EmailCheckIgnoresCase(s: Store, a: string, b: string)
    ensures EqualIgnoringCase(a, b) ==> DoesEmailExist(s, a) == DoesEmailExist(s, b)
    ensures DoesEmailExist(s, Lower(a)) == DoesEmailExist(s, a)
  {
    LowerIdempotent(a);
    LowerDecidesCase(a, b);
    LowerDecidesCase(Lower(a), a);
    forall u | u in s.users && u.active && u.email.Some?
      ensures EqualIgnoringCase(a, b) ==> (EqualIgnoringCase(u.email.value, a) <==> EqualIgnoringCase(u.email.value, b))
      ensures EqualIgnoringCase(u.email.value, Lower(a)) <==> EqualIgnoringCase(u.email.value, a)
    {
      LowerDecidesCase(u.email.value, a);
      LowerDecidesCase(u.email.value, b);
      LowerDecidesCase(u.email.value, Lower(a));
    }
  }

  // ---- writes ----

  /** `insert`: the row is added and the argument itself is returned. */
  function Insert(s: Store, dto: UserDto): (r: Step<UserDto>)
    ensures r.value == dto
    ensures |r.store.users| == |s.users| + 1 && r.store.users[..|s.users|] == s.users
    ensures r.store.memberships == s.memberships && r.store.properties == s.properties && r.store.roles == s.roles
    ensures dto in r.store.users
    ensures (Valid(s) && (forall u :: u in s.users ==> u.id != dto.id && u.login != dto.login))
            ==> Valid(r.store) && SelectByLogin(r.store, dto.login) == Some(dto)
  {
    var t := s.(users := s.users + [dto]);
    InsertedRowIsFound(s.users, dto);
    Step(t, dto)
  }

  lemma InsertedRowIsFound(us: seq<UserDto>, dto: UserDto)
    ensures dto in us + [dto]
    ensures (UniqueKeys(us) && (forall u :: u in us ==> u.id != dto.id && u.login != dto.login))
            ==> UniqueKeys(us + [dto]) && FindByLogin(us + [dto], dto.login, false) == Some(dto)
  {
    var t := us + [dto];
    assert t[|us|] == dto;
    if UniqueKeys(us) && (forall u :: u in us ==> u.id != dto.id && u.login != dto.login) {
      assert forall i :: 0 <= i < |us| ==> t[i] in us;
      LoginLookupIsUnique(t, dto.login, false, dto);
    }
  }

  /** The rows after a full-record update by id. */
  function Replaced(us: seq<UserDto>, dto: UserDto): (r: seq<UserDto>)
    ensures |r| == |us|
    ensures forall i :: 0 <= i < |us| && us[i].id != dto.id ==> r[i] == us[i]
    ensures forall i :: 0 <= i < |us| && us[i].id == dto.id ==> r[i] == dto
  {
    seq(|us|, i requires 0 <= i < |us| => if us[i].id == dto.id then dto else us[i])
  }

  /** `update`: the row with the argument's id now reads as the argument,
      other rows are untouched, and the argument itself is returned. The
      unique constraints survive as long as the login is not changed. */
  function Update(s: Store, dto: UserDto): (r: Step<UserDto>)
    ensures r.value == dto
    ensures |r.store.users| == |s.users|
    ensures forall i :: 0 <= i < |s.users| && s.users[i].id != dto.id ==> r.store.users[i] == s.users[i]
    ensures r.store.memberships == s.memberships && r.store.properties == s.properties && r.store.roles == s.roles
    ensures SelectUserById(s, dto.id).Some? ==> SelectUserById(r.store, dto.id) == Some(dto)
    ensures SelectUserById(s, dto.id).None? ==> r.store == s
    ensures (Valid(s) && forall u :: u in s.users && u.id == dto.id ==> u.login == dto.login) ==> Valid(r.store)
  {
    var t := s.(users := Replaced(s.users, dto));
    ReplacedRowIsFound(s.users, dto);
    Step(t, dto)
  }

  lemma ReplacedRowIsFound(us: seq<UserDto>, dto: UserDto)
    ensures FindById(us, dto.id).Some? ==> FindById(Replaced(us, dto), dto.id) == Some(dto)
    ensures FindById(us, dto.id).None? ==> Replaced(us, dto) == us
    ensures (UniqueKeys(us) && forall u :: u in us && u.id == dto.id ==> u.login == dto.login)
            ==> UniqueKeys(Replaced(us, dto))
  {
    var t := Replaced(us, dto);
    if FindById(us, dto.id).None? {
      assert forall i :: 0 <= i < |us| ==> us[i] in us;
      assert t == us;
    } else {
      var i :| 0 <= i < |us| && us[i].id == dto.id;
      assert t[i] == dto;
      assert forall v :: v in t && v.id == dto.id ==> v == dto;
    }
    if UniqueKeys(us) && forall u :: u in us && u.id == dto.id ==> u.login == dto.login {
      forall i, j | 0 <= i < j < |t|
        ensures t[i].id != t[j].id && t[i].login != t[j].login
      {
        assert us[i] in us && us[j] in us;
      }
    }
  }

  /** The rows after `setRoot`: the rows with the login get the flag and the
      clock value. */
  function WithRoot(us: seq<UserDto>, login: string, root: bool, now: int): (r: seq<UserDto>)
    ensures |r| == |us|
    ensures forall i :: 0 <= i < |us| ==> r[i].id == us[i].id && r[i].login == us[i].login
    ensures forall i :: 0 <= i < |us| && us[i].login != login ==> r[i] == us[i]
    ensures forall i :: 0 <= i < |us| && us[i].login == login ==> r[i] == us[i].(root := root, updatedAt := now)
  {
    seq(|us|, i requires 0 <= i < |us| =>
      if us[i].login == login then us[i].(root := root, updatedAt := now) else us[i])
  }

  /** `setRoot`, with `now` the value read from the clock. */
  function SetRoot(s: Store, login: string, root: bool, now: int): (r: Store)
    ensures r.memberships == s.memberships && r.properties == s.properties && r.roles == s.roles
    ensures Valid(s) ==> Valid(r)
  {
    s.(users := WithRoot(s.users, login, root, now))
  }

  /** After `setRoot` the user carries the flag and the clock value, and every
      other login reads as before. */
  lemma SetRootStampsUser(s: Store, login: string, root: bool, now: int, other: string)
    requires Valid(s)
    ensures SelectByLogin(SetRoot(s, login, root, now), login)
            == (match SelectByLogin(s, login)
                case Some(u) => Some(u.(root := root, updatedAt := now))
                case None => None)
    ensures other != login ==> SelectByLogin(SetRoot(s, login, root, now), other) == SelectByLogin(s, other)
  {
    var t := SetRoot(s, login, root, now);
    LookupFollowsRewrite(s.users, t.users, login);
    LookupFollowsRewrite(s.users, t.users, other);
  }
}
