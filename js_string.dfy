/**
 * `String.prototype.trim` as ECMAScript defines it (section 22.1.3.32 of
 * ECMA-262): strip the leading and trailing code points that are WhiteSpace
 * or LineTerminator. The to-do component uses it both to reject blank input
 * and to clean the title it sends.
 */
module JsString {

  /** WhiteSpace (section 12.2) and LineTerminator (section 12.3) of ECMA-262. */
  predicate IsWhiteSpace(c: char) {
    // TAB, VT, FF, SP, NBSP, ZWNBSP
    c == '\U{9}' || c == '\U{B}' || c == '\U{C}' || c == ' ' || c == '\U{A0}' || c == '\U{FEFF}' ||
    // the rest of Unicode category Zs
    c == '\U{1680}' || ('\U{2000}' <= c <= '\U{200A}') || c == '\U{202F}' || c == '\U{205F}' || c == '\U{3000}' ||
    // LF, CR, LS, PS
    c == '\n' || c == '\r' || c == '\U{2028}' || c == '\U{2029}'
  }

  /** A string made of nothing but white space (the empty string included). */
  ghost predicate IsBlank(s: string) {
    forall i :: 0 <= i < |s| ==> IsWhiteSpace(s[i])
  }

  /** Drops the leading white space: the result is the suffix of `s` that
      starts at the first non-white-space character. */
  function TrimStart(s: string): (r: string)
    ensures |r| <= |s| && r == s[|s| - |r|..]
    ensures r == [] || !IsWhiteSpace(r[0])
    ensures forall i :: 0 <= i < |s| - |r| ==> IsWhiteSpace(s[i])
  {
    if s != [] && IsWhiteSpace(s[0]) then TrimStart(s[1..]) else s
  }

  /** Drops the trailing white space: the result is the prefix of `s` that
      ends at the last non-white-space character. */
  function TrimEnd(s: string): (r: string)
    ensures |r| <= |s| && r == s[..|r|]
    ensures r == [] || !IsWhiteSpace(r[|r| - 1])
    ensures forall i :: |r| <= i < |s| ==> IsWhiteSpace(s[i])
  {
    if s != [] && IsWhiteSpace(s[|s| - 1]) then TrimEnd(s[..|s| - 1]) else s
  }

  function Trim(s: string): string {
    TrimEnd(TrimStart(s))
  }

  /** `Trim(s)` is the infix of `s` between a white-space prefix and a
      white-space suffix, and it neither starts nor ends with white space. */
  lemma TrimIsInfix(s: string)
    ensures var k := |s| - |TrimStart(s)|; var r := Trim(s);
      k + |r| <= |s| && s[k..k + |r|] == r &&
      (forall i :: 0 <= i < k ==> IsWhiteSpace(s[i])) &&
      (forall i :: k + |r| <= i < |s| ==> IsWhiteSpace(s[i])) &&
      (r == [] || (!IsWhiteSpace(r[0]) && !IsWhiteSpace(r[|r| - 1])))
  {
  }

  /** The trimmed string is empty exactly when the input is blank. */
  lemma TrimEmptyIffBlank(s: string)
    ensures Trim(s) == [] <==> IsBlank(s)
  {
  }

  /** Trimming twice is trimming once. */
  lemma TrimIdempotent(s: string)
    ensures Trim(Trim(s)) == Trim(s)
  {
  }
}
