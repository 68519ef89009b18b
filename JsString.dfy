/** The part of JavaScript's string semantics the task list relies on:
    `String.prototype.trim` and the truthiness of its result. */
module JsString {

  /** The ECMAScript WhiteSpace and LineTerminator code points, which
      `trim` removes: TAB, VT, FF, ZWNBSP, the space separators of
      category Zs, LF, CR, LINE SEPARATOR and PARAGRAPH SEPARATOR. */
  const Whitespace: set<char> :=
    {'\t', '\U{000B}', '\U{000C}', '\U{FEFF}',
     ' ', '\U{00A0}', '\U{1680}',
     '\U{2000}', '\U{2001}', '\U{2002}', '\U{2003}', '\U{2004}', '\U{2005}',
     '\U{2006}', '\U{2007}', '\U{2008}', '\U{2009}', '\U{200A}',
     '\U{202F}', '\U{205F}', '\U{3000}',
     '\n', '\r', '\U{2028}', '\U{2029}'}

  predicate IsWhitespace(c: char)
  {
    c in Whitespace
  }

  /** Every character of `s` is whitespace (vacuously so for ""). */
  predicate IsBlank(s: string)
  {
    forall i :: 0 <= i < |s| ==> IsWhitespace(s[i])
  }

  /** Where the text starts once leading whitespace is skipped from `i`:
      everything from `i` up to the result is whitespace, and the result
      is the end of `s` or a non-whitespace character. */
  function SkipLeading(s: string, i: nat): (n: nat)
    requires i <= |s|
    ensures i <= n <= |s|
    ensures forall j :: i <= j < n ==> IsWhitespace(s[j])
    ensures n == |s| || !IsWhitespace(s[n])
    decreases |s| - i
  {
    if i < |s| && IsWhitespace(s[i]) then SkipLeading(s, i + 1) else i
  }

  /** Where the text ends once trailing whitespace is dropped from `j`,
      not going below `lo`: everything from the result up to `j` is
      whitespace, and the result is `lo` or follows a non-whitespace
      character. */
  function SkipTrailing(s: string, lo: nat, j: nat): (n: nat)
    requires lo <= j <= |s|
    ensures lo <= n <= j
    ensures forall m :: n <= m < j ==> IsWhitespace(s[m])
    ensures n == lo || !IsWhitespace(s[n - 1])
  {
    if lo < j && IsWhitespace(s[j - 1]) then SkipTrailing(s, lo, j - 1) else j
  }

  /** `s.trim()`: leading whitespace is skipped, then trailing whitespace
      is dropped from what remains. The result neither starts nor ends
      with whitespace, and it is empty, i.e. falsy in JavaScript, exactly
      when `s` is empty or all whitespace. */
  function Trim(s: string): (r: string)
    ensures r == [] || (!IsWhitespace(r[0]) && !IsWhitespace(r[|r| - 1]))
    ensures r == [] <==> IsBlank(s)
  {
    var a := SkipLeading(s, 0);
    var b := SkipTrailing(s, a, |s|);
    assert a < |s| ==> !IsBlank(s);
    s[a..b]
  }
}
