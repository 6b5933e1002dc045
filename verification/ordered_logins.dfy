/** `selectByOrderedLogins` and its `LoginToUser` index: the unordered bulk
    result is indexed once by login, then the caller's logins are replayed in
    order, each one that resolves giving one entry and the others dropped. */
module OrderedLogins {
  import opened Maybe
  import opened Rows
  import opened LargeInputs
  import opened UserDao

  /** `u` is the last row of `us` with login `l`: a later `put` never replaced it. */
  ghost predicate LastWithLogin(us: seq<UserDto>, l: string, u: UserDto) {
    exists i :: 0 <= i < |us| && us[i] == u && forall j :: i < j < |us| ==> us[j].login != l
  }

  function LoginsOf(us: seq<UserDto>): set<string> {
    set u | u in us :: u.login
  }

  /** The `LoginToUser` constructor: one `put` per row in result order, so a
      later row with the same login wins. */
  function LoginToUser(unordered: seq<UserDto>): (m: map<string, UserDto>)
    ensures m.Keys == LoginsOf(unordered)
    ensures forall l :: l in m ==> m[l].login == l && m[l] in unordered
    ensures forall l :: l in m ==> LastWithLogin(unordered, l, m[l])
    decreases |unordered|
  {
    if |unordered| == 0 then map[]
    else
      var init := unordered[..|unordered| - 1];
      var last := unordered[|unordered| - 1];
      var m := LoginToUser(init);
      PutLast(init, last, m);
      assert unordered == init + [last];
      m[last.login := last]
  }

  /** One more `put`: the index of `init` extended by `last` is the index of
      `init + [last]`. */
  lemma PutLast(init: seq<UserDto>, last: UserDto, m: map<string, UserDto>)
    requires m.Keys == LoginsOf(init)
    requires forall l :: l in m ==> m[l].login == l && m[l] in init
    requires forall l :: l in m ==> LastWithLogin(init, l, m[l])
    ensures var us := init + [last];
            var m' := m[last.login := last];
            && m'.Keys == LoginsOf(us)
            && (forall l :: l in m' ==> m'[l].login == l && m'[l] in us)
            && (forall l :: l in m' ==> LastWithLogin(us, l, m'[l]))
  {
    var us := init + [last];
    var m' := m[last.login := last];
    assert forall u :: u in us <==> u in init || u == last;
    assert LastWithLogin(us, last.login, last) by {
      assert us[|init|] == last;
    }
    forall l | l in m && l != last.login
      ensures LastWithLogin(us, l, m[l])
    {
      var i :| 0 <= i < |init| && init[i] == m[l] && forall j :: i < j < |init| ==> init[j].login != l;
      assert us[i] == m[l];
      assert forall j :: i < j < |us| ==> us[j].login != l by {
        forall j | i < j < |us|
          ensures us[j].login != l
        {
          if j < |init| {
            assert us[j] == init[j];
          } else {
            assert us[j] == last;
          }
        }
      }
    }
  }

  /** `transform(new LoginToUser(unordered))`: one lookup per input login. */
  function Transform(m: map<string, UserDto>, logins: seq<string>): (r: seq<Option<UserDto>>)
    ensures |r| == |logins|
    ensures forall i :: 0 <= i < |logins| ==> r[i] == Get(m, logins[i])
  {
    seq(|logins|, i requires 0 <= i < |logins| => Get(m, logins[i]))
  }

  /** `filter(Predicates.notNull())`: the present values, in order. */
  function Present<T(!new)>(xs: seq<Option<T>>): (r: seq<T>)
    ensures |r| <= |xs|
    ensures forall x :: x in r <==> Some(x) in xs
  {
    if |xs| == 0 then []
    else
      assert xs == [xs[0]] + xs[1..];
      (if xs[0].Some? then [xs[0].value] else []) + Present(xs[1..])
  }

  /** Each value is kept exactly as often as it is present. */
  lemma {:induction false} PresentCounts<T(!new)>(xs: seq<Option<T>>, x: T)
    ensures multiset(Present(xs))[x] == multiset(xs)[Some(x)]
    decreases |xs|
  {
    if |xs| > 0 {
      assert xs == [xs[0]] + xs[1..];
      PresentCounts(xs[1..], x);
    }
  }

  /** Replaying `logins` against the index: entry `k` is the user of the
      `k`-th input login that resolves, so input order is kept and logins
      without a user leave no entry. */
  function Resolve(m: map<string, UserDto>, logins: seq<string>): (r: seq<UserDto>)
    ensures |r| == |Kept(logins, m)|
    ensures forall k :: 0 <= k < |Kept(logins, m)| ==> r[k] == m[Kept(logins, m)[k]]
  {
    ResolveFollowsInput(m, logins);
    Present(Transform(m, logins))
  }

  /** `selectByOrderedLogins`: the users of `logins` in input order, without
      entries for logins that have no row. */
  function SelectByOrderedLogins(s: Store, logins: seq<string>, partitionSize: nat): (r: seq<UserDto>)
    requires partitionSize > 0
    ensures |r| <= |logins|
    ensures forall u :: u in r ==> u in s.users && u.login in logins
    ensures |logins| == 0 ==> r == []
  {
    var unordered := SelectByLogins(s, logins, partitionSize).results;
    var m := LoginToUser(unordered);
    Resolve(m, logins)
  }

  // ---- properties of the replay ----

  /** The index is keyed by login. */
  ghost predicate KeyedByLogin(m: map<string, UserDto>) {
    forall l :: l in m ==> m[l].login == l
  }

  /** The input logins that resolve, in input order, repeats kept. */
  function Kept(logins: seq<string>, m: map<string, UserDto>): (r: seq<string>)
    ensures forall l :: l in r <==> l in logins && l in m
  {
    if |logins| == 0 then []
    else (if logins[0] in m then [logins[0]] else []) + Kept(logins[1..], m)
  }

  lemma ResolveUnfold(m: map<string, UserDto>, logins: seq<string>)
    requires |logins| > 0
    ensures Present(Transform(m, logins))
            == (if logins[0] in m then [m[logins[0]]] else []) + Present(Transform(m, logins[1..]))
  {
    var xs := Transform(m, logins);
    assert xs[1..] == Transform(m, logins[1..]);
  }

  /** Entry `k` of the output is the user of the `k`-th input login that
      resolves: input order is kept, unresolved logins leave no entry. */
  lemma {:induction false} ResolveFollowsInput(m: map<string, UserDto>, logins: seq<string>)
    ensures |Present(Transform(m, logins))| == |Kept(logins, m)|
    ensures forall k :: 0 <= k < |Kept(logins, m)| ==> Present(Transform(m, logins))[k] == m[Kept(logins, m)[k]]
    decreases |logins|
  {
    if |logins| > 0 {
      var k := Kept(logins, m);
      var t := Kept(logins[1..], m);
      ResolveUnfold(m, logins);
      ResolveFollowsInput(m, logins[1..]);
      assert k == (if logins[0] in m then [logins[0]] else []) + t;
    }
  }

  /** A user of the index appears in the output once per occurrence of its
      login in the input: repeated logins give repeated entries. */
  lemma {:induction false} ResolveRepeats(m: map<string, UserDto>, logins: seq<string>, u: UserDto)
    requires KeyedByLogin(m)
    requires u.login in m && m[u.login] == u
    ensures multiset(Resolve(m, logins))[u] == multiset(logins)[u.login]
    decreases |logins|
  {
    if |logins| > 0 {
      ResolveUnfold(m, logins);
      ResolveRepeats(m, logins[1..], u);
      assert logins == [logins[0]] + logins[1..];
    }
  }

  predicate NoDuplicates<T(==)>(xs: seq<T>) {
    forall i, j :: 0 <= i < j < |xs| ==> xs[i] != xs[j]
  }

  /** The input with every repeat of an earlier element removed. */
  function FirstOccurrences<T(==,!new)>(xs: seq<T>): (r: seq<T>)
    ensures NoDuplicates(r)
    ensures forall x :: x in r <==> x in xs
  {
    if |xs| == 0 then []
    else
      var init := xs[..|xs| - 1];
      var last := xs[|xs| - 1];
      assert forall x :: x in xs <==> x in init || x == last;
      if last in init then FirstOccurrences(init) else FirstOccurrences(init) + [last]
  }

  /** Elements of `r` appear in the order of their first occurrence in `xs`:
      for an earlier `r[i]` there is an occurrence in `xs` before which the
      later `r[j]` has not yet appeared. */
  ghost predicate InFirstOccurrenceOrder<T>(xs: seq<T>, r: seq<T>) {
    forall i, j :: 0 <= i < j < |r| ==> exists k :: 0 <= k < |xs| && xs[k] == r[i] && r[j] !in xs[..k + 1]
  }

  /** Removing repeats keeps the input order of first occurrences. */
  lemma {:induction false} FirstOccurrencesKeepOrder<T(!new)>(xs: seq<T>)
    ensures InFirstOccurrenceOrder(xs, FirstOccurrences(xs))
    decreases |xs|
  {
    if |xs| > 0 {
      var init := xs[..|xs| - 1];
      var last := xs[|xs| - 1];
      var d := FirstOccurrences(init);
      var r := FirstOccurrences(xs);
      FirstOccurrencesKeepOrder(init);
      assert forall k :: 0 <= k < |init| ==> xs[k] == init[k] && xs[..k + 1] == init[..k + 1];
      if last !in init {
        assert r == d + [last];
        forall i, j | 0 <= i < j < |r|
          ensures exists k :: 0 <= k < |xs| && xs[k] == r[i] && r[j] !in xs[..k + 1]
        {
          if j < |d| {
            var k :| 0 <= k < |init| && init[k] == d[i] && d[j] !in init[..k + 1];
            assert xs[k] == r[i] && r[j] !in xs[..k + 1];
          } else {
            assert d[i] in d;
            var k :| 0 <= k < |init| && init[k] == d[i];
            assert last !in init[..k + 1];
            assert xs[k] == r[i] && r[j] !in xs[..k + 1];
          }
        }
      } else {
        forall i, j | 0 <= i < j < |r|
          ensures exists k :: 0 <= k < |xs| && xs[k] == r[i] && r[j] !in xs[..k + 1]
        {
          var k :| 0 <= k < |init| && init[k] == d[i] && d[j] !in init[..k + 1];
          assert xs[k] == r[i] && r[j] !in xs[..k + 1];
        }
      }
    }
  }

  lemma {:induction false} FirstOccurrencesOfDistinct<T(!new)>(xs: seq<T>)
    requires NoDuplicates(xs)
    ensures FirstOccurrences(xs) == xs
    decreases |xs|
  {
    if |xs| > 0 {
      var init := xs[..|xs| - 1];
      FirstOccurrencesOfDistinct(init);
      assert xs == init + [xs[|xs| - 1]];
    }
  }

  /** The reading in which repeated input logins give a single user. */
  function ResolveOnce(m: map<string, UserDto>, logins: seq<string>): seq<UserDto> {
    Resolve(m, FirstOccurrences(logins))
  }

  /** On input without repeated logins, the replay and the single-user
      reading agree, and no user is returned twice. */
  lemma DistinctInputReadingsAgree(m: map<string, UserDto>, logins: seq<string>)
    requires KeyedByLogin(m)
    requires NoDuplicates(logins)
    ensures Resolve(m, logins) == ResolveOnce(m, logins)
    ensures NoDuplicates(Resolve(m, logins))
  {
    FirstOccurrencesOfDistinct(logins);
    var r := Resolve(m, logins);
    forall i, j | 0 <= i < j < |r|
      ensures r[i] != r[j]
    {
      assert r[i] in r;
      var u := r[i];
      assert Some(u) in Transform(m, logins);
      var k :| 0 <= k < |logins| && Get(m, logins[k]) == Some(u);
      ResolveRepeats(m, logins, u);
      var occ := multiset(logins)[u.login];
      assert occ <= 1 by {
        DistinctCountsOnce(logins, u.login);
      }
      if r[i] == r[j] {
        CountsTwice(r, i, j);
        assert false;
      }
    }
  }

  lemma {:induction false} DistinctCountsOnce<T>(xs: seq<T>, x: T)
    requires NoDuplicates(xs)
    ensures multiset(xs)[x] <= 1
    decreases |xs|
  {
    if |xs| > 0 {
      DistinctCountsOnce(xs[1..], x);
      assert xs == [xs[0]] + xs[1..];
      if xs[0] == x {
        assert x !in xs[1..];
      }
    }
  }

  lemma CountsTwice<T>(xs: seq<T>, i: int, j: int)
    requires 0 <= i < j < |xs| && xs[i] == xs[j]
    ensures multiset(xs)[xs[i]] >= 2
  {
    assert xs == xs[..i] + [xs[i]] + xs[i + 1..j] + [xs[j]] + xs[j + 1..];
  }

  lemma FirstOccurrencesExample()
    ensures FirstOccurrences(["b", "a", "b"]) == ["b", "a"]
  {
    var xs: seq<string> := ["b", "a", "b"];
    assert xs[..2] == ["b", "a"];
    assert ["b", "a"][..1] == ["b"];
    assert ["b"][..0] == [];
    assert FirstOccurrences(["b"]) == ["b"];
    assert FirstOccurrences(["b", "a"]) == ["b", "a"];
  }

  lemma ReplayExample(a: UserDto, b: UserDto)
    requires a.login == "a" && b.login == "b"
    ensures Resolve(map["a" := a, "b" := b], ["b", "a", "b"]) == [b, a, b]
  {
    var m := map["a" := a, "b" := b];
    var ls: seq<string> := ["b", "a", "b"];
    assert ls[1..] == ["a", "b"];
    assert ["a", "b"][1..] == ["b"];
    assert ["b"][1..] == [];
    assert Kept(["b"], m) == ["b"];
    assert Kept(["a", "b"], m) == ["a", "b"];
    assert Kept(ls, m) == ls;
    var r := Resolve(m, ls);
    assert r == [r[0], r[1], r[2]];
  }

  /** The repeat that separates the two readings: `[b, a, b]` gives
      `[B, A, B]` as written and `[B, A]` under the single-user reading. */
  lemma RepeatedLoginIsRepeated(a: UserDto, b: UserDto)
    requires a.login == "a" && b.login == "b"
    ensures Resolve(map["a" := a, "b" := b], ["b", "a", "b"]) == [b, a, b]
    ensures ResolveOnce(map["a" := a, "b" := b], ["b", "a", "b"]) == [b, a]
  {
    var m := map["a" := a, "b" := b];
    ReplayExample(a, b);
    FirstOccurrencesExample();
    assert ["b", "a"][1..] == ["a"];
    assert ["a"][1..] == [];
    assert Kept(["a"], m) == ["a"];
    assert Kept(["b", "a"], m) == ["b", "a"];
    var o := Resolve(m, ["b", "a"]);
    assert o == [o[0], o[1]];
  }

  // ---- the whole DAO call ----

  /** Point lookups, one per input login, nulls dropped: the reference the
      bulk call is measured against. */
  function PointLookups(s: Store, logins: seq<string>): seq<UserDto> {
    Present(seq(|logins|, i requires 0 <= i < |logins| => SelectByLogin(s, logins[i])))
  }

  /** Under the unique-login constraint, the bulk ordered call returns what one
      plain `selectByLogin` per input login would, in the same order. */
  lemma OrderedLoginsArePointLookups(s: Store, logins: seq<string>, partitionSize: nat)
    requires partitionSize > 0
    requires Valid(s)
    ensures SelectByOrderedLogins(s, logins, partitionSize) == PointLookups(s, logins)
  {
    var unordered := SelectByLogins(s, logins, partitionSize).results;
    var m := LoginToUser(unordered);
    var xs := Transform(m, logins);
    var ys := seq(|logins|, i requires 0 <= i < |logins| => SelectByLogin(s, logins[i]));
    forall i | 0 <= i < |logins|
      ensures xs[i] == ys[i]
    {
      var l := logins[i];
      if l in m {
        LoginLookupIsUnique(s.users, l, false, m[l]);
      } else if SelectByLogin(s, l).Some? {
        assert false;
      }
    }
    assert xs == ys;
  }

  lemma PointLookupsExample(a: UserDto, b: UserDto)
    requires a.login == "a" && b.login == "b"
    ensures PointLookups(Store([a, b], {}, {}, {}), ["b", "a", "b", "c"]) == [b, a, b]
  {
    var s := Store([a, b], {}, {}, {});
    var logins := ["b", "a", "b", "c"];
    assert SelectByLogin(s, "a") == Some(a);
    assert SelectByLogin(s, "b") == Some(b);
    assert SelectByLogin(s, "c") == None;
    var ys := seq(|logins|, i requires 0 <= i < |logins| => SelectByLogin(s, logins[i]));
    assert ys == [Some(b), Some(a), Some(b), None];
    var y1, y2, y3 := ys[1..], ys[2..], ys[3..];
    assert y1[1..] == y2 && y2[1..] == y3 && y3[1..] == [];
    assert Present(y3) == [];
    assert Present(y2) == [b];
    assert Present(y1) == [a, b];
  }

  /** The example `[b, a, b, c]` against a store holding only `a` and `b`:
      `c` is dropped, order and the repeat of `b` are kept. */
  lemma OrderedLoginsExample(a: UserDto, b: UserDto, partitionSize: nat)
    requires partitionSize > 0
    requires a.login == "a" && b.login == "b" && a.id != b.id
    ensures SelectByOrderedLogins(Store([a, b], {}, {}, {}), ["b", "a", "b", "c"], partitionSize) == [b, a, b]
  {
    var s := Store([a, b], {}, {}, {});
    assert Valid(s);
    OrderedLoginsArePointLookups(s, ["b", "a", "b", "c"], partitionSize);
    PointLookupsExample(a, b);
  }
}
