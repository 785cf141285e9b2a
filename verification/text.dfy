/** Trimming of comment text: the JavaScript whitespace and line
    terminator characters are removed from both ends. */
module Text {

  /** Whitespace and line terminators as JavaScript's trim understands them:
      tab, line feed, vertical tab, form feed, carriage return, space,
      no-break space, ogham space mark, the spaces U+2000 to U+200A, line
      and paragraph separators, narrow no-break space, medium mathematical
      space, ideographic space and the byte order mark. */
  predicate IsWhiteSpace(c: char) {
    var n := c as int;
    || 0x09 <= n <= 0x0D
    || n == 0x20 || n == 0xA0 || n == 0x1680
    || 0x2000 <= n <= 0x200A
    || n == 0x2028 || n == 0x2029 || n == 0x202F || n == 0x205F
    || n == 0x3000 || n == 0xFEFF
  }

  /** Every character of `s` from index `lo` up to `hi` is whitespace. */
  predicate WhiteSpaceBetween(s: string, lo: int, hi: int) {
    forall k :: lo <= k < hi && 0 <= k < |s| ==> IsWhiteSpace(s[k])
  }

  predicate AllWhiteSpace(s: string) {
    WhiteSpaceBetween(s, 0, |s|)
  }

  /** `r` is the part of `s` starting at `i`, and everything before and
      after it is whitespace. */
  predicate TrimmedAt(s: string, r: string, i: int) {
    && 0 <= i <= |s| - |r|
    && r == s[i..i + |r|]
    && WhiteSpaceBetween(s, 0, i)
    && WhiteSpaceBetween(s, i + |r|, |s|)
  }

  /** Whitespace in a suffix of `s` is whitespace in `s`, shifted by the
      suffix's start. */
  lemma WhiteSpaceInSuffix(s: string, i: int, lo: int, hi: int)
    requires 0 <= i <= |s| && 0 <= lo && WhiteSpaceBetween(s[i..], lo, hi)
    ensures WhiteSpaceBetween(s, i + lo, i + hi)
  {
  }

  /** Whitespace in a prefix of `s` is whitespace in `s`. */
  lemma WhiteSpaceInPrefix(s: string, j: int, lo: int, hi: int)
    requires 0 <= j <= |s| && hi <= j && WhiteSpaceBetween(s[..j], lo, hi)
    ensures WhiteSpaceBetween(s, lo, hi)
  {
  }

  /** Drops the leading whitespace: the result is a suffix of `s`, what was
      dropped is whitespace, and what is left does not start with it. */
  function TrimStart(s: string): (r: string)
    ensures |r| <= |s| && r == s[|s| - |r|..]
    ensures WhiteSpaceBetween(s, 0, |s| - |r|)
    ensures r != [] ==> !IsWhiteSpace(r[0])
    decreases |s|
  {
    if s != [] && IsWhiteSpace(s[0]) then
      var r := TrimStart(s[1..]);
      WhiteSpaceInSuffix(s, 1, 0, |s| - 1 - |r|);
      r
    else s
  }

  /** Drops the trailing whitespace: the result is a prefix of `s`, what was
      dropped is whitespace, and what is left does not end with it. */
  function TrimEnd(s: string): (r: string)
    ensures |r| <= |s| && r == s[..|r|]
    ensures WhiteSpaceBetween(s, |r|, |s|)
    ensures r != [] ==> !IsWhiteSpace(r[|r| - 1])
    decreases |s|
  {
    if s != [] && IsWhiteSpace(s[|s| - 1]) then
      var r := TrimEnd(s[..|s| - 1]);
      WhiteSpaceInPrefix(s, |s| - 1, |r|, |s| - 1);
      r
    else s
  }

  /** Removes whitespace from both ends.  The result is empty exactly when
      the text is all whitespace, and otherwise neither starts nor ends with
      whitespace. */
  function Trim(s: string): (r: string)
    ensures r == [] <==> AllWhiteSpace(s)
    ensures r != [] ==> !IsWhiteSpace(r[0]) && !IsWhiteSpace(r[|r| - 1])
    ensures exists i :: TrimmedAt(s, r, i)
  {
    var t := TrimStart(s);
    var r := TrimEnd(t);
    TrimmedParts(s, t, r);
    r
  }

  /** Stripping a whitespace prefix and then a whitespace suffix leaves a
      slice of the text with only whitespace around it. */
  lemma TrimmedParts(s: string, t: string, r: string)
    requires |t| <= |s| && t == s[|s| - |t|..] && WhiteSpaceBetween(s, 0, |s| - |t|)
    requires t != [] ==> !IsWhiteSpace(t[0])
    requires |r| <= |t| && r == t[..|r|] && WhiteSpaceBetween(t, |r|, |t|)
    ensures TrimmedAt(s, r, |s| - |t|)
    ensures r == [] <==> AllWhiteSpace(s)
    ensures r != [] ==> !IsWhiteSpace(r[0])
  {
  }

  /** Trimming an already trimmed text changes nothing. */
  lemma TrimIdempotent(s: string)
    ensures Trim(Trim(s)) == Trim(s)
  {
  }
}
