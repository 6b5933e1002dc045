/** Plain string facts: prefixes, infixes and ASCII case folding. */
module Text {

  /** `x` occurs at the very start of `s`. */
  predicate IsPrefix(x: string, s: string) {
    |x| <= |s| && s[..|x|] == x
  }

  /** `x` occurs somewhere in `s` as one contiguous block. */
  predicate IsInfix(x: string, s: string) {
    exists i :: 0 <= i <= |s| && IsPrefix(x, s[i..])
  }

  predicate IsUpper(c: char) {
    'A' <= c <= 'Z'
  }

  /** English-locale lower-casing, restricted to the ASCII letters. */
  function LowerChar(c: char): char {
    if IsUpper(c) then (c as int + 32) as char else c
  }

  /** The two strings differ at most in the case of their letters. */
  predicate EqualIgnoringCase(a: string, b: string) {
    |a| == |b| && forall i :: 0 <= i < |a| ==> LowerChar(a[i]) == LowerChar(b[i])
  }

  /** `String.toLowerCase(Locale.ENGLISH)`, ASCII letters only. */
  function Lower(s: string): (r: string)
    ensures EqualIgnoringCase(s, r)
    ensures forall i :: 0 <= i < |r| ==> !IsUpper(r[i])
    ensures forall i :: 0 <= i < |s| && !IsUpper(s[i]) ==> r[i] == s[i]
  {
    seq(|s|, i requires 0 <= i < |s| => LowerChar(s[i]))
  }

  /** Lower-casing a lower-cased string changes nothing. */
  lemma LowerIdempotent(s: string)
    ensures Lower(Lower(s)) == Lower(s)
  {
    var r := Lower(s);
    assert forall i :: 0 <= i < |r| ==> Lower(r)[i] == r[i];
  }

  /** Two strings fold to the same lower-case string exactly when they differ
      only in the case of their letters. */
  lemma LowerDecidesCase(a: string, b: string)
    ensures EqualIgnoringCase(a, b) <==> Lower(a) == Lower(b)
  {
    if Lower(a) == Lower(b) {
      assert forall i :: 0 <= i < |a| ==> LowerChar(a[i]) == Lower(a)[i] == Lower(b)[i] == LowerChar(b[i]);
    }
    if EqualIgnoringCase(a, b) {
      assert forall i :: 0 <= i < |a| ==> Lower(a)[i] == Lower(b)[i];
    }
  }
}
