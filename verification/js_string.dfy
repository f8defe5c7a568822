/** The part of JavaScript's string runtime the deliverable editor relies on:
    `String.prototype.trim`, which strips leading and trailing white space. */
module JsString {

  /** ECMAScript WhiteSpace and LineTerminator code points, the set `trim` strips:
      TAB, LF, VT, FF, CR, SPACE, NBSP, the Zs space separators, LS, PS and the BOM. */
  predicate IsWhitespace(c: char) {
    || c == '\t' || c == '\n' || c == '\U{000B}' || c == '\U{000C}' || c == '\r'
    || c == ' ' || c == '\U{00A0}' || c == '\U{1680}'
    || ('\U{2000}' <= c <= '\U{200A}')
    || c == '\U{2028}' || c == '\U{2029}' || c == '\U{202F}' || c == '\U{205F}'
    || c == '\U{3000}' || c == '\U{FEFF}'
  }

  predicate AllWhitespace(s: string) {
    forall i :: 0 <= i < |s| ==> IsWhitespace(s[i])
  }

  /** Drops leading white space: the result is the longest suffix of `s` that does
      not start with white space, and everything dropped is white space. */
  function TrimStart(s: string): (r: string)
    ensures |r| <= |s| && r == s[|s| - |r|..]
    ensures AllWhitespace(s[..|s| - |r|])
    ensures |r| > 0 ==> !IsWhitespace(r[0])
  {
    if |s| > 0 && IsWhitespace(s[0]) then
      var r := TrimStart(s[1..]);
      assert s[1..][..|s[1..]| - |r|] == s[1..|s| - |r|];
      r
    else s
  }

  /** Drops trailing white space: the result is the longest prefix of `s` that does
      not end with white space, and everything dropped is white space. */
  function TrimEnd(s: string): (r: string)
    ensures |r| <= |s| && r == s[..|r|]
    ensures AllWhitespace(s[|r|..])
    ensures |r| > 0 ==> !IsWhitespace(r[|r| - 1])
  {
    if |s| > 0 && IsWhitespace(s[|s| - 1]) then
      var r := TrimEnd(s[..|s| - 1]);
      assert s[..|s| - 1][|r|..] == s[|r|..|s| - 1];
      r
    else s
  }

  /** How many white-space characters `s` starts with. */
  function LeadingWhitespace(s: string): (n: nat)
    ensures n <= |s| && AllWhitespace(s[..n])
    ensures n < |s| ==> !IsWhitespace(s[n])
  {
    var t := TrimStart(s);
    assert |t| > 0 ==> s[|s| - |t|] == t[0];
    |s| - |t|
  }

  /** `s.trim()`: the slice of `s` left after cutting the leading white space and
      then the trailing white space; it neither starts nor ends with white space. */
  function Trim(s: string): (r: string)
    ensures LeadingWhitespace(s) + |r| <= |s|
    ensures r == s[LeadingWhitespace(s)..LeadingWhitespace(s) + |r|]
    ensures AllWhitespace(s[LeadingWhitespace(s) + |r|..])
    ensures |r| > 0 ==> !IsWhitespace(r[0]) && !IsWhitespace(r[|r| - 1])
  {
    var t := TrimStart(s);
    var r := TrimEnd(t);
    SliceOfSuffix(s, t, r, LeadingWhitespace(s));
    r
  }

  /** A prefix `r` of the suffix `t` of `s` that starts at `k` is the slice of `s`
      from `k`, and what follows it in `t` is what follows it in `s`. */
  lemma SliceOfSuffix(s: string, t: string, r: string, k: nat)
    requires k <= |s| && t == s[k..]
    requires |r| <= |t| && r == t[..|r|]
    requires AllWhitespace(t[|r|..])
    ensures k + |r| <= |s| && r == s[k..k + |r|]
    ensures AllWhitespace(s[k + |r|..])
  {
    assert t[|r|..] == s[k + |r|..];
  }

  /** A string trims to nothing exactly when it is all white space: the `!text.trim()`
      test rejects precisely the blank inputs. */
  lemma TrimEmptyIffBlank(s: string)
    ensures Trim(s) == [] <==> AllWhitespace(s)
  {
    var k := LeadingWhitespace(s);
    if Trim(s) == [] {
      if k < |s| {
        assert false;
      }
      assert s[..k] == s;
    } else {
      var r := Trim(s);
      assert s[k] == r[0];
    }
  }
}
