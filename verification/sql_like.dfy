/** The SQL `LIKE` operator the SCM-account query relies on: `%` matches any
    run of characters, `_` any single character, every other character only
    itself. No escape character is modelled. */
module SqlLike {
  import opened Text

  predicate Like(s: string, p: string)
    decreases |s| + |p|
  {
    if |p| == 0 then |s| == 0
    else if p[0] == '%' then Like(s, p[1..]) || (|s| > 0 && Like(s[1..], p))
    else |s| > 0 && (p[0] == '_' || p[0] == s[0]) && Like(s[1..], p[1..])
  }

  /** A pattern fragment with no wildcard in it: it matches only itself. */
  predicate IsLiteral(x: string) {
    forall i :: 0 <= i < |x| ==> x[i] != '%' && x[i] != '_'
  }

  /** A lone `%` matches every string. */
  lemma {:induction false} AnyMatchesAll(s: string)
    ensures Like(s, "%")
    decreases |s|
  {
    assert "%"[1..] == "";
    if |s| > 0 {
      AnyMatchesAll(s[1..]);
    }
  }

  /** A literal followed by `%` matches exactly the strings it starts. */
  lemma {:induction false} LiteralThenAny(x: string, s: string)
    requires IsLiteral(x)
    ensures Like(s, x + "%") <==> IsPrefix(x, s)
    decreases |x|
  {
    if |x| == 0 {
      assert x + "%" == "%";
      assert s[..0] == x;
      AnyMatchesAll(s);
    } else {
      var p := x + "%";
      assert p[0] == x[0] && p[1..] == x[1..] + "%";
      if |s| > 0 {
        LiteralThenAny(x[1..], s[1..]);
        if IsPrefix(x, s) {
          assert s[1..][..|x| - 1] == s[..|x|][1..];
        }
        if s[0] == x[0] && IsPrefix(x[1..], s[1..]) {
          assert s[..|x|] == [s[0]] + s[1..][..|x| - 1];
          assert x == [x[0]] + x[1..];
        }
      }
    }
  }

  /** A leading `%` lets the rest of the pattern match any suffix. */
  lemma {:induction false} AnyThen(s: string, t: string)
    ensures Like(s, "%" + t) <==> exists i :: 0 <= i <= |s| && Like(s[i..], t)
    decreases |s|
  {
    var p := "%" + t;
    assert p[0] == '%' && p[1..] == t;
    assert s[0..] == s;
    if |s| > 0 {
      AnyThen(s[1..], t);
      if Like(s[1..], p) {
        var i :| 0 <= i <= |s| - 1 && Like(s[1..][i..], t);
        assert s[1..][i..] == s[i + 1..];
      }
      if exists i :: 0 <= i <= |s| && Like(s[i..], t) {
        var i :| 0 <= i <= |s| && Like(s[i..], t);
        if i > 0 {
          assert s[1..][i - 1..] == s[i..];
        }
      }
    }
  }

  /** `'%' + x + '%'` with a literal `x` is a plain substring test. */
  lemma Contains(x: string, s: string)
    requires IsLiteral(x)
    ensures Like(s, "%" + x + "%") <==> IsInfix(x, s)
  {
    assert "%" + x + "%" == "%" + (x + "%");
    AnyThen(s, x + "%");
    forall i | 0 <= i <= |s|
      ensures Like(s[i..], x + "%") <==> IsPrefix(x, s[i..])
    {
      LiteralThenAny(x, s[i..]);
    }
  }
}
