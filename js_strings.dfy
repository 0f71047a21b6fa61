/** Stand-ins for the three string helpers of the Closure library that the
    dialog calls: goog.string.isEmpty, goog.string.trimLeft, and the
    `search(/:/)` test of createOkEvent. */
module JsStrings {

  /** A character that the JavaScript regular-expression class `[\s\xa0]`
      matches (ECMAScript 5 white space and line terminators). */
  predicate IsWhitespace(c: char)
  {
    || c == ' ' || c == '\t' || c == '\n' || c == '\r'
    || c == '\U{000B}' || c == '\U{000C}'
    || c == '\U{00A0}' || c == '\U{1680}' || c == '\U{180E}'
    || ('\U{2000}' <= c <= '\U{200A}')
    || c == '\U{2028}' || c == '\U{2029}' || c == '\U{202F}'
    || c == '\U{205F}' || c == '\U{3000}' || c == '\U{FEFF}'
  }

  /** goog.string.isEmpty: true for the empty string and for a string made of
      white space only; one character that is not white space makes it
      false. */
  predicate IsEmpty(s: string): (r: bool)
    ensures s == [] ==> r
    ensures forall i :: 0 <= i < |s| && !IsWhitespace(s[i]) ==> !r
  {
    forall i :: 0 <= i < |s| ==> IsWhitespace(s[i])
  }

  /** goog.string.trimLeft: `s` without its leading white space. The result
      is a suffix of `s`, everything cut off is white space, and the result
      does not begin with white space. */
  function TrimLeft(s: string): (r: string)
    ensures |r| <= |s| && r == s[|s| - |r|..]
    ensures forall i :: 0 <= i < |s| - |r| ==> IsWhitespace(s[i])
    ensures r == [] || !IsWhitespace(r[0])
  {
    if |s| > 0 && IsWhitespace(s[0]) then TrimLeft(s[1..]) else s
  }

  /** `s.search(/:/) >= 0`: the string holds a colon at some position. A
      colon is not white space, so such a string is never empty in the
      isEmpty sense. */
  predicate HasColon(s: string): (r: bool)
    ensures r <==> exists i :: 0 <= i < |s| && s[i] == ':'
    ensures r ==> !IsEmpty(s)
  {
    ':' in s
  }

  /** Trimming twice is trimming once. */
  lemma TrimLeftIdempotent(s: string)
    ensures TrimLeft(TrimLeft(s)) == TrimLeft(s)
  {
    var r := TrimLeft(s);
    if r != [] {
      assert !IsWhitespace(r[0]);
    }
  }

  /** A string is empty in the sense of goog.string.isEmpty exactly when
      trimming its left side leaves nothing. */
  lemma IsEmptyIffTrimLeftEmpty(s: string)
    ensures IsEmpty(s) <==> TrimLeft(s) == []
  {
  }
}
