# User DAO model

A Dafny model of SonarQube's `UserDao`, the data-access object for user
records. The model replaces the MyBatis mapper with an abstract in-memory
store: a users table, kept in row order, and the group-membership,
property and user-role tables. Each mapper statement becomes a pure
function on that store. The clock (`System2.now()`) becomes an integer
parameter `now`. The bind-parameter ceiling that `executeLargeInputs` cuts
its input by becomes a parameter `partitionSize`. The SCM-accounts
separator becomes a parameter `sep`.

What is modelled and proved:

- **Bulk lookups** (`selectByIds`, `selectByLogins`). The keys are cut into
  partitions of at most `partitionSize`. Each partition costs one lookup
  call, and the results are concatenated. An empty input returns an empty
  list and makes zero calls. The result holds exactly the rows whose key is
  in the input, inactive ones included.
- **Order-preserving resolver** (`selectByOrderedLogins` with `LoginToUser`).
  The unordered result is indexed once by login, and a later row replaces an
  earlier one. The caller's logins are then replayed in order. Each login
  that resolves gives one entry, and the others are dropped. Under the
  unique-login constraint this equals one plain `selectByLogin` per input
  login, nulls dropped.
- **Deactivation cascade** (`deactivateUserByLogin`). This is one atomic
  store-to-store step. The lookup is the active-only one.
- **Small rules.** `selectOrFailByLogin` fails with a message naming the
  login. For a value free of the separator and of `%`/`_`, the SCM-account
  LIKE pattern matches exactly the whole entries.
  The email check ignores letter case. `insert` and `update` return their
  argument. `setRoot` stamps the clock value.

Files: `maybe.dfy` (Option, Result), `text.dfy` (prefix, infix, ASCII
case folding), `rows.dfy` (records and store), `large_inputs.dfy`
(partitioning), `sql_like.dfy` (the LIKE operator), `scm_accounts.dfy`
(account-list format and pattern), `user_dao.dfy` (lookups and writes),
`ordered_logins.dfy` (the resolver), `deactivation.dfy` (the cascade).

Two places where the code and its description part ways; the model follows
the code:

- The deactivation lookup could be read as unfiltered, so that a second
  call would return `true` again and re-run the cascade. The code calls
  `mapper.selectUserByLogin` (line 117). That is the statement behind
  `selectActiveUserByLogin` (line 67), not the unfiltered `selectByLogin`
  (line 133). The model therefore uses the active-only lookup, and
  `DeactivatingTwiceIsNoop` proves that a second call returns `false`.
- The doc comment of `selectByOrderedLogins` (line 81) says a repeated
  login yields a single user. The code (line 86) yields one entry per
  occurrence. The model follows line 86. `ResolveOnce` is the
  single-user reading, and `DistinctInputReadingsAgree` proves the two agree
  on input without repeats. `RepeatedLoginIsRepeated` shows where they
  differ.

One property of the code as written: the searched value goes into the LIKE
pattern unescaped. A `%` or `_` in the value therefore acts as a wildcard.
`WildcardInValueMatchesOtherEntry` shows that `a_c` matches the account list
holding only `abc`. A value holding the separator can also span two
entries: `SeparatorInValueSpansEntries` shows that `a` SEP `b` matches the
list of entries `a` and `b`, though it is neither. The whole-entry property
is therefore proved for values free of the separator and of `%`/`_`.

The deactivation cascade is built from five store functions, one per
mapper statement of lines 122-126: `RemoveUserFromGroups`,
`DeleteUserProperties`, `DeleteUserRoles`, `DeletePropertiesMatchingLogin`
and `DeactivateUser`. Their combined effect is stated by
`DeactivateUserByLogin` and the lemmas after it. Some other functions are
helpers whose properties are stated elsewhere: `Replaced` (line 103) by
`Update`, `NotFoundMessage` (line 139) by `NotFoundMessageNamesLogin`,
`WithRoot` (line 108) by `SetRootStampsUser`, and `Transform` (lines
173-176) together with `Maybe.Get` by `Resolve`.

## Model

| member | source | states |
|---|---|---|
| UserDao.SelectUserById | server/sonar-db-dao/src/main/java/org/sonar/db/user/UserDao.java:50-52 | finds a row exactly when some row has the id, and the row found has that id |
| UserDao.SelectByIds | server/sonar-db-dao/src/main/java/org/sonar/db/user/UserDao.java:54-62 | returns exactly the rows whose id is in the input, inactive ones included; makes one call per started partition; an empty input gives an empty list with zero calls |
| UserDao.SelectActiveUserByLogin | server/sonar-db-dao/src/main/java/org/sonar/db/user/UserDao.java:64-68 | finds a row exactly when an active row has the login; the row found is active and has that login |
| UserDao.SelectByLogins | server/sonar-db-dao/src/main/java/org/sonar/db/user/UserDao.java:70-76 | returns exactly the rows whose login is in the input, inactive ones included; an empty input gives an empty list with zero calls |
| UserDao.ActiveLookupFiltersPlainLookup | server/sonar-db-dao/src/main/java/org/sonar/db/user/UserDao.java:64-68 | under unique logins, the active lookup is the plain lookup with inactive users turned into null |
| LargeInputs.ExecuteLargeInputs | server/sonar-db-dao/src/main/java/org/sonar/db/user/UserDao.java:54-61 | an empty input makes no lookup call; otherwise one call per started block of `partitionSize` keys; a result is present exactly when some partition's lookup returned it |
| LargeInputs.Partitions | server/sonar-db-dao/src/main/java/org/sonar/db/user/UserDao.java:61 | partitions are non-empty, at most `partitionSize` long, full except possibly the last, ceil(n / size) in number, and concatenate back to the input |
| LargeInputs.KeyedLookupCoversInput | server/sonar-db-dao/src/main/java/org/sonar/db/user/UserDao.java:74-75 | if each partition's lookup returns exactly the rows keyed in that partition, the batch returns exactly the rows keyed anywhere in the input |
| OrderedLogins.LoginToUser | server/sonar-db-dao/src/main/java/org/sonar/db/user/UserDao.java:164-171 | the index's keys are the result's logins; each entry has its key as login, comes from the result, and is the last result row with that login |
| OrderedLogins.Present | server/sonar-db-dao/src/main/java/org/sonar/db/user/UserDao.java:86 | keeps exactly the non-null values: a value is in the result exactly when the input holds it, and never more entries than the input held |
| OrderedLogins.PresentCounts | server/sonar-db-dao/src/main/java/org/sonar/db/user/UserDao.java:86 | each value occurs in the result exactly as often as the input holds it |
| OrderedLogins.Resolve | server/sonar-db-dao/src/main/java/org/sonar/db/user/UserDao.java:84-87 | replaying the logins against the index gives one entry per resolving login, and entry `k` is the index's user for the `k`-th resolving input login |
| OrderedLogins.SelectByOrderedLogins | server/sonar-db-dao/src/main/java/org/sonar/db/user/UserDao.java:78-87 | returns at most one entry per input login; every entry is a stored user whose login occurs in the input; an empty input gives an empty list |
| OrderedLogins.ResolveFollowsInput | server/sonar-db-dao/src/main/java/org/sonar/db/user/UserDao.java:84-87 | the `k`-th entry is the user of the `k`-th input login that resolves: input order is kept, and unresolved logins leave no placeholder |
| OrderedLogins.ResolveRepeats | server/sonar-db-dao/src/main/java/org/sonar/db/user/UserDao.java:86 | a user appears in the output as often as its login occurs in the input |
| OrderedLogins.FirstOccurrences | server/sonar-db-dao/src/main/java/org/sonar/db/user/UserDao.java:81 | the single-user reading's input: no repeats and the same elements as the input |
| OrderedLogins.FirstOccurrencesKeepOrder | server/sonar-db-dao/src/main/java/org/sonar/db/user/UserDao.java:81 | the elements come in the order of their first occurrence in the input: for `i < j`, `r[i]` occurs in the input before `r[j]` first does |
| OrderedLogins.DistinctInputReadingsAgree | server/sonar-db-dao/src/main/java/org/sonar/db/user/UserDao.java:81-86 | without repeated input logins, the code's replay equals the single-user reading and returns no user twice |
| OrderedLogins.RepeatedLoginIsRepeated | server/sonar-db-dao/src/main/java/org/sonar/db/user/UserDao.java:81-86 | for input `[b, a, b]` the code gives `[B, A, B]` and the single-user reading gives `[B, A]` |
| OrderedLogins.OrderedLoginsArePointLookups | server/sonar-db-dao/src/main/java/org/sonar/db/user/UserDao.java:84-87 | under unique logins, the bulk ordered call equals one `selectByLogin` per input login in input order, nulls dropped |
| OrderedLogins.OrderedLoginsExample | server/sonar-db-dao/src/main/java/org/sonar/db/user/UserDao.java:84-87 | input `[b, a, b, c]` against a store holding `a` and `b` gives `[B, A, B]` |
| UserDao.Insert | server/sonar-db-dao/src/main/java/org/sonar/db/user/UserDao.java:97-100 | returns its argument; appends exactly that row and changes no other table; with a fresh id and login the constraints hold and the login finds the new row |
| UserDao.Update | server/sonar-db-dao/src/main/java/org/sonar/db/user/UserDao.java:102-105 | returns its argument; the row with its id now reads as the argument; other rows and tables are untouched; an unknown id changes nothing; an unchanged login keeps the constraints |
| UserDao.SetRoot | server/sonar-db-dao/src/main/java/org/sonar/db/user/UserDao.java:107-109 | touches only the users table and keeps the unique constraints |
| UserDao.SetRootStampsUser | server/sonar-db-dao/src/main/java/org/sonar/db/user/UserDao.java:107-109 | afterwards the login finds its user with the new flag and `updatedAt = now`; every other login reads as before |
| Deactivation.Deactivated | server/sonar-db-dao/src/main/java/org/sonar/db/user/UserDao.java:126 | only the user's row changes: it becomes inactive with `updatedAt = now`, keeping its id and login |
| Deactivation.DeactivateUserByLogin | server/sonar-db-dao/src/main/java/org/sonar/db/user/UserDao.java:115-129 | returns `true` exactly when an active user has the login; on `false` the store is unchanged; on `true` the user's memberships, user properties, roles and default-assignee properties are gone, nothing else in those tables is removed, and the row remains, inactive and stamped |
| Deactivation.DeactivatedUserState | server/sonar-db-dao/src/main/java/org/sonar/db/user/UserDao.java:122-128 | afterwards the active lookup misses the user; the plain lookup finds it with `active = false` and `updatedAt = now`; no dependent row or default-assignee property of it remains; the constraints still hold |
| Deactivation.OtherUsersUntouched | server/sonar-db-dao/src/main/java/org/sonar/db/user/UserDao.java:122-126 | every other login reads exactly as before, through both lookups |
| Deactivation.DeactivatingTwiceIsNoop | server/sonar-db-dao/src/main/java/org/sonar/db/user/UserDao.java:116-120 | a second deactivation of the same login returns `false` and changes nothing |
| UserDao.SelectByLogin | server/sonar-db-dao/src/main/java/org/sonar/db/user/UserDao.java:131-134 | finds a row exactly when some row, active or not, has the login |
| UserDao.SelectOrFailByLogin | server/sonar-db-dao/src/main/java/org/sonar/db/user/UserDao.java:136-142 | succeeds exactly when `selectByLogin` finds a row, and then returns that row; otherwise fails with a message containing the login |
| UserDao.NotFoundMessageNamesLogin | server/sonar-db-dao/src/main/java/org/sonar/db/user/UserDao.java:139 | the not-found message contains the login |
| UserDao.SelectByScmAccountOrLoginOrEmail | server/sonar-db-dao/src/main/java/org/sonar/db/user/UserDao.java:144-149 | returns only stored users, and always returns every stored user whose login or email is the value |
| UserDao.ScmSearchFindsWholeEntries | server/sonar-db-dao/src/main/java/org/sonar/db/user/UserDao.java:144-148 | for a value free of the separator and of `%`/`_`, a user with a separator-format account list is found exactly when the value is its login, its email or one whole entry |
| ScmAccounts.WrappedValueIsWholeEntry | server/sonar-db-dao/src/main/java/org/sonar/db/user/UserDao.java:145-147 | if neither value nor entries contain the separator, separator + value + separator is a substring of the stored list exactly when the value is an entry |
| ScmAccounts.PatternMatchesWholeEntry | server/sonar-db-dao/src/main/java/org/sonar/db/user/UserDao.java:145-147 | for a value free of the separator and of `%`/`_`, the LIKE pattern `%` SEP value SEP `%` matches the stored list exactly when the value is an entry |
| ScmAccounts.LikePattern | server/sonar-db-dao/src/main/java/org/sonar/db/user/UserDao.java:145-147 | with no wildcard in the separator or the value, the pattern matches a string exactly when separator + value + separator is a substring of it |
| ScmAccounts.WildcardInValueMatchesOtherEntry | server/sonar-db-dao/src/main/java/org/sonar/db/user/UserDao.java:145-148 | the unescaped value `a_c` matches the list holding only `abc` |
| ScmAccounts.SeparatorInValueSpansEntries | server/sonar-db-dao/src/main/java/org/sonar/db/user/UserDao.java:145-148 | the value `a` SEP `b` matches the list of entries `a` and `b`, though it is neither entry |
| SqlLike.Contains | server/sonar-db-dao/src/main/java/org/sonar/db/user/UserDao.java:145-148 | a `%`-wrapped literal LIKE pattern is a substring test |
| Text.Lower | server/sonar-db-dao/src/main/java/org/sonar/db/user/UserDao.java:157 | the result has no upper-case letter and differs from the input only in letter case |
| Text.LowerIdempotent | server/sonar-db-dao/src/main/java/org/sonar/db/user/UserDao.java:157 | lower-casing twice is lower-casing once |
| Text.LowerDecidesCase | server/sonar-db-dao/src/main/java/org/sonar/db/user/UserDao.java:154 | two strings lower-case to the same string exactly when they differ only in letter case |
| UserDao.CountByEmail | server/sonar-db-dao/src/main/java/org/sonar/db/user/UserDao.java:157 | the count is positive exactly when an active row's lower-cased email equals the argument |
| UserDao.DoesEmailExist | server/sonar-db-dao/src/main/java/org/sonar/db/user/UserDao.java:151-158 | true exactly when some active user's email equals the argument up to letter case |
| UserDao.EmailCheckIgnoresCase | server/sonar-db-dao/src/main/java/org/sonar/db/user/UserDao.java:154-157 | emails differing only in case get the same answer, and the answer depends only on the lower-cased email |
| Rows.FindByLogin | server/sonar-db-dao/src/main/java/org/sonar/db/user/UserDao.java:67 | finds a row exactly when one has the login (and is active, if asked); the row found qualifies |
| Rows.LoginLookupIsUnique | server/sonar-db-dao/src/main/java/org/sonar/db/user/UserDao.java:131-134 | under unique logins, any row with the login is the one the lookup finds |

## Left out

- `UserMapper` SQL and its MyBatis dispatch (`session.getMapper`, line 160). Those statements are not part of this model. Each mapper call is a store function with the semantics its name and the DAO's comments give.
- `deactivateUser` may clear more columns than `active` and `updated_at`. The mapper statement is not part of this model, so only those two columns change.
- `countByEmail` is assumed to compare the lower-cased stored email with the argument and to count active users only. That is what the doc comment at lines 151-155 promises, but the statement itself is not part of this model.
- `selectNullableByScmAccountOrLoginOrEmail` is assumed to match on login, email, or the account list under LIKE. The statement is not part of this model.
- `DatabaseUtils.executeLargeInputs` is not part of this model. Its input is modelled as a plain partition-and-concatenate in input order, without removing repeated keys. The partition size is a parameter.
- `UserDto` is not part of this model. The SCM-accounts separator is therefore a parameter. The stored account-list format (each entry wrapped in the separator, null for none) is an assumption stated in `ScmAccounts.Encode`.
- `CoreProperties` is not part of this model. `DEFAULT_ISSUE_ASSIGNEE` is written as `sonar.issues.defaultAssigneeLogin`. The proofs do not depend on that value.
- `DbSession.commit`, transactions and rollback. Deactivation is one atomic store-to-store step, so no partial cascade is observable. Concurrency is out of scope.
- Java `null` arguments are not modelled: strings and collections are never null here. In the code, `doesEmailExist(null)` throws at line 157, a null SCM value builds a pattern holding `null` at lines 145-146, and `selectOrFailByLogin(null)` names `'null'` in its message at line 139.
- Store failures (exceptions from the database) are not modelled. Every statement succeeds.
- `selectUsers(UserQuery)` and `countRootUsersButLogin`. Their filters live in mapper statements that are not part of this model.
- Text.Lower: folds only the ASCII letters `A`-`Z`, not the full Unicode mapping of `toLowerCase(Locale.ENGLISH)`.
- SqlLike.Like: models `%` and `_` only. Database-specific escape characters and collation (such as case-insensitive LIKE) are not modelled.
- Guava `FluentIterable` and `Function` plumbing, and the exception class hierarchy. `RowNotFoundException` is a `RowNotFound` error value carrying its message.
