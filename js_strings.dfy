/**
 * `String.prototype.trim`: it strips the characters ECMAScript classes as
 * WhiteSpace or LineTerminator from both ends. Here a string is a sequence of
 * Unicode scalar values, not of UTF-16 code units; every character `trim`
 * strips lies in the Basic Multilingual Plane, so the two readings agree.
 */
module JsStrings {

  /** TAB, VT, FF, SP, NBSP, ZWNBSP, the other Unicode space separators (Zs),
      and LF, CR, LINE SEPARATOR, PARAGRAPH SEPARATOR. */
  predicate IsWhitespace(c: char) {
    c == '\t' || c == '\U{000B}' || c == '\U{000C}' || c == ' ' ||
    c == '\U{00A0}' || c == '\U{FEFF}' ||
    c == '\U{1680}' || '\U{2000}' <= c <= '\U{200A}' ||
    c == '\U{202F}' || c == '\U{205F}' || c == '\U{3000}' ||
    c == '\n' || c == '\r' || c == '\U{2028}' || c == '\U{2029}'
  }

  /** Every character of `s` is whitespace (the empty string included). */
  predicate Blank(s: string) {
    forall i :: 0 <= i < |s| ==> IsWhitespace(s[i])
  }

  /** `s` with its leading whitespace removed: the longest suffix that does
      not start with whitespace, everything cut off being whitespace. */
  function TrimStart(s: string): (r: string)
    ensures |r| <= |s| && r == s[|s| - |r|..]
    ensures r == [] || !IsWhitespace(r[0])
    ensures forall i :: 0 <= i < |s| - |r| ==> IsWhitespace(s[i])
  {
    if s != [] && IsWhitespace(s[0]) then
      var r := TrimStart(s[1..]);
      assert s[1..][|s| - 1 - |r|..] == s[|s| - |r|..];
      assert forall i :: 1 <= i < |s| ==> s[i] == s[1..][i - 1];
      r
    else
      s
  }

  /** `s` with its trailing whitespace removed: the longest prefix that does
      not end with whitespace, everything cut off being whitespace. */
  function TrimEnd(s: string): (r: string)
    ensures |r| <= |s| && r == s[..|r|]
    ensures r == [] || !IsWhitespace(r[|r| - 1])
    ensures forall i :: |r| <= i < |s| ==> IsWhitespace(s[i])
  {
    if s != [] && IsWhitespace(s[|s| - 1]) then
      var r := TrimEnd(s[..|s| - 1]);
      assert s[..|s| - 1][..|r|] == s[..|r|];
      r
    else
      s
  }

  /** `s.trim()` */
  function Trim(s: string): (r: string) {
    TrimEnd(TrimStart(s))
  }

  /** `s.trim()` is empty exactly when `s` consists of whitespace only. */
  lemma {:induction false} TrimEmptyIffBlank(s: string)
    ensures Trim(s) == "" <==> Blank(s)
  {
    var u := TrimStart(s);
    var n := |s| - |u|;
    if Trim(s) == "" {
      assert u == [];
    } else {
      assert u != [];
      assert u[|TrimEnd(u)| - 1] == TrimEnd(u)[|TrimEnd(u)| - 1];
      assert !IsWhitespace(s[n + |TrimEnd(u)| - 1]);
    }
  }
}
