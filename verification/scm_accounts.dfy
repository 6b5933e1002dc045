/** The SCM-accounts column and the LIKE pattern the DAO builds to search it.
    The column holds a user's external accounts as one string in which every
    entry is preceded and followed by a separator character, so
    `[a, b]` is stored as `sep a sep b sep`. */
module ScmAccounts {
  import opened Maybe
  import opened Text
  import opened SqlLike

  /** The stored form of a list of entries: each one wrapped in `sep`. */
  function Joined(sep: char, entries: seq<string>): (r: string)
    ensures |r| > 0 && r[0] == sep
  {
    if |entries| == 0 then [sep] else [sep] + entries[0] + Joined(sep, entries[1..])
  }

  /** The column value: null for no accounts, the wrapped list otherwise. */
  function Encode(sep: char, entries: seq<string>): Option<string> {
    if |entries| == 0 then None else Some(Joined(sep, entries))
  }

  /** The pattern `%` SEP value SEP `%` handed to the query. When neither
      the separator nor the value holds a LIKE wildcard, the pattern is a
      substring test for the value wrapped in the separator. */
  function LikePattern(sep: char, value: string): (r: string)
    ensures (sep != '%' && sep != '_' && IsLiteral(value)) ==>
              forall s :: Like(s, r) <==> IsInfix([sep] + value + [sep], s)
  {
    var r := "%" + [sep] + value + [sep] + "%";
    WrappedPatternIsInfixTest(sep, value);
    r
  }

  lemma WrappedPatternIsInfixTest(sep: char, value: string)
    ensures (sep != '%' && sep != '_' && IsLiteral(value)) ==>
              forall s :: Like(s, "%" + [sep] + value + [sep] + "%") <==> IsInfix([sep] + value + [sep], s)
  {
    var inner := [sep] + value + [sep];
    if sep != '%' && sep != '_' && IsLiteral(value) {
      assert forall i :: 0 <= i < |inner| ==> inner[i] == sep || inner[i] == value[i - 1];
      assert "%" + [sep] + value + [sep] + "%" == "%" + inner + "%";
      forall s
        ensures Like(s, "%" + inner + "%") <==> IsInfix(inner, s)
      {
        Contains(inner, s);
      }
    }
  }

  /** At the start of `sep e rest`, the wrapped value fits exactly when it is `e`. */
  lemma WrappedAtStart(sep: char, value: string, e: string, rest: string)
    requires sep !in value && sep !in e
    requires |rest| > 0 && rest[0] == sep
    ensures IsPrefix([sep] + value + [sep], [sep] + e + rest) <==> value == e
  {
    var x := [sep] + value + [sep];
    var s := [sep] + e + rest;
    if value == e {
      assert s[..|x|] == x;
    }
    if IsPrefix(x, s) {
      assert s[..|x|] == x;
      // the first separator after position 0 closes both `e` and `value`
      assert forall k :: 1 <= k < 1 + |e| ==> s[k] == e[k - 1] != sep;
      assert s[1 + |e|] == rest[0] == sep;
      assert forall k :: 1 <= k < 1 + |value| ==> s[k] == value[k - 1] != sep;
      assert s[1 + |value|] == x[1 + |value|] == sep;
      assert value == s[1..1 + |e|] == e;
    }
  }

  /** Past the first separator of `sep e rest`, the wrapped value can only
      start inside `rest`. */
  lemma WrappedStep(sep: char, value: string, e: string, rest: string)
    requires sep !in value && sep !in e
    requires |rest| > 0 && rest[0] == sep
    ensures IsInfix([sep] + value + [sep], [sep] + e + rest)
            <==> value == e || IsInfix([sep] + value + [sep], rest)
  {
    var x := [sep] + value + [sep];
    var s := [sep] + e + rest;
    WrappedAtStart(sep, value, e, rest);
    assert s[0..] == s;
    if IsInfix(x, rest) {
      var i :| 0 <= i <= |rest| && IsPrefix(x, rest[i..]);
      assert s[1 + |e| + i..] == rest[i..];
    }
    if IsInfix(x, s) {
      var i :| 0 <= i <= |s| && IsPrefix(x, s[i..]);
      assert s[i..][0] == sep;
      if i > |e| {
        assert s[i..] == rest[i - 1 - |e|..];
      }
    }
  }

  /** Wrapping the value in the separator on both sides makes a substring hit
      mean a whole-entry hit, provided neither the value nor any entry holds
      the separator. */
  lemma {:induction false} WrappedValueIsWholeEntry(sep: char, value: string, entries: seq<string>)
    requires sep !in value
    requires forall e :: e in entries ==> sep !in e
    ensures IsInfix([sep] + value + [sep], Joined(sep, entries)) <==> value in entries
    decreases |entries|
  {
    if |entries| > 0 {
      var rest := entries[1..];
      assert forall f :: f in entries <==> f == entries[0] || f in rest;
      WrappedValueIsWholeEntry(sep, value, rest);
      WrappedStep(sep, value, entries[0], Joined(sep, rest));
    }
  }

  /** The DAO's LIKE pattern matches a stored account list exactly when the
      searched value is one of its entries, for a value without wildcard
      characters. */
  lemma PatternMatchesWholeEntry(sep: char, value: string, entries: seq<string>)
    requires sep != '%' && sep != '_'
    requires IsLiteral(value) && sep !in value
    requires forall e :: e in entries ==> sep !in e
    ensures Like(Joined(sep, entries), LikePattern(sep, value)) <==> value in entries
  {
    WrappedValueIsWholeEntry(sep, value, entries);
  }

  /** The value is put into the pattern unescaped, so a `_` in it matches any
      character: searching for `a_c` finds the account list holding only `abc`. */
  lemma WildcardInValueMatchesOtherEntry()
    ensures Like(Joined('\n', ["abc"]), LikePattern('\n', "a_c"))
    ensures "a_c" !in ["abc"]
  {
    var s := Joined('\n', ["abc"]);
    assert s == "\nabc\n";
    assert Like("", "");
    assert Like("", "%");
    assert Like("\n", "\n%");
    assert Like("c\n", "c\n%");
    assert Like("bc\n", "_c\n%");
    assert Like("abc\n", "a_c\n%");
    assert Like("\nabc\n", "\na_c\n%");
    assert LikePattern('\n', "a_c") == "%" + "\na_c\n%";
    AnyThen(s, "\na_c\n%");
    assert s[0..] == s;
  }

  /** A value holding the separator can span two entries: `a` SEP `b`
      matches the list of entries `a` and `b`, though it is neither. */
  lemma SeparatorInValueSpansEntries()
    ensures Like(Joined('\n', ["a", "b"]), LikePattern('\n', "a\nb"))
    ensures "a\nb" !in ["a", "b"]
  {
    var s := Joined('\n', ["a", "b"]);
    assert ["a", "b"][1..] == ["b"];
    assert ["b"][1..] == [];
    assert s == "\na\nb\n";
    var inner := "\na\nb\n";
    assert IsLiteral("a\nb");
    assert s[0..][..|inner|] == inner;
    assert IsInfix(inner, s);
  }
}
