/**
 * JavaScript's `String.prototype.trim`: it removes the leading and trailing
 * code points that ECMA-262 classes as WhiteSpace or LineTerminator
 * (sections 12.2 and 12.3 of the 2024 edition).
 */
module JsString {

  /** WhiteSpace (TAB, VT, FF, ZWNBSP and every Zs space) or LineTerminator (LF, CR, LS, PS). */
  predicate IsWhiteSpace(c: char)
  {
    c == '\t' || c == '\n' || c == '\U{000B}' || c == '\U{000C}' || c == '\r' ||
    c == ' ' || c == '\U{00A0}' || c == '\U{1680}' ||
    ('\U{2000}' <= c <= '\U{200A}') ||
    c == '\U{2028}' || c == '\U{2029}' || c == '\U{202F}' || c == '\U{205F}' ||
    c == '\U{3000}' || c == '\U{FEFF}'
  }

  /** Length of the leading run of white space. */
  function TrimStartIndex(s: string): (k: nat)
    ensures k <= |s|
    ensures forall i :: 0 <= i < k ==> IsWhiteSpace(s[i])
    ensures k < |s| ==> !IsWhiteSpace(s[k])
  {
    if s != [] && IsWhiteSpace(s[0]) then 1 + TrimStartIndex(s[1..]) else 0
  }

  /** Where the trailing run of white space begins. */
  function TrimEndIndex(s: string): (e: nat)
    ensures e <= |s|
    ensures forall i :: e <= i < |s| ==> IsWhiteSpace(s[i])
    ensures 0 < e ==> !IsWhiteSpace(s[e - 1])
  {
    if s != [] && IsWhiteSpace(s[|s| - 1]) then TrimEndIndex(s[..|s| - 1]) else |s|
  }

  /**
   * `s.trim()`: the contiguous part of `s` left after removing white space at
   * both ends (what precedes it is the leading run of `TrimStartIndex`, and
   * all that follows it is white space). It is empty exactly when `s` is all white space (the falsy
   * case of `if (text.trim())`), and otherwise starts and ends with a
   * character that is not white space.
   */
  function Trim(s: string): (r: string)
    ensures |r| <= |s|
    ensures r == [] <==> forall i :: 0 <= i < |s| ==> IsWhiteSpace(s[i])
    ensures r != [] ==> !IsWhiteSpace(r[0]) && !IsWhiteSpace(r[|r| - 1])
    ensures TrimStartIndex(s) + |r| <= |s| && r == s[TrimStartIndex(s)..TrimStartIndex(s) + |r|]
    ensures forall i :: TrimStartIndex(s) + |r| <= i < |s| ==> IsWhiteSpace(s[i])
  {
    var k := TrimStartIndex(s);
    if k == |s| then
      []
    else
      var e := TrimEndIndex(s);
      assert k < e;
      s[k..e]
  }

  /** Trimming a trimmed string changes nothing. */
  lemma TrimIdempotent(s: string)
    ensures Trim(Trim(s)) == Trim(s)
  {
  }
}
