/**
 Whitespace stripping of a cell, as done by `str.strip()` with no argument on
 the byte strings that the feature loader reads (the file is opened in binary
 mode, so a cell is a byte string and only ASCII whitespace is stripped).
 */
module Text {

  /** The six whitespace bytes of the C locale: space, tab, line feed,
      vertical tab, form feed and carriage return. */
  predicate IsWhitespace(c: char) {
    c == ' ' || c == '\t' || c == '\n' || c == '\U{B}' || c == '\U{C}' || c == '\r'
  }

  /** A cell is blank when every character of it is whitespace. By the
      contract of Strip, these are exactly the cells for which Python's
      `if cell.strip()` is false. */
  predicate IsBlank(s: string) {
    forall i :: 0 <= i < |s| ==> IsWhitespace(s[i])
  }

  /** How many whitespace characters `s` starts with. */
  function LeadingWhitespace(s: string): (n: nat)
    ensures n <= |s|
    ensures forall i :: 0 <= i < n ==> IsWhitespace(s[i])
    ensures n < |s| ==> !IsWhitespace(s[n])
  {
    if |s| > 0 && IsWhitespace(s[0]) then 1 + LeadingWhitespace(s[1..]) else 0
  }

  /** How many whitespace characters `s` ends with. */
  function TrailingWhitespace(s: string): (n: nat)
    ensures n <= |s|
    ensures forall i :: |s| - n <= i < |s| ==> IsWhitespace(s[i])
    ensures n < |s| ==> !IsWhitespace(s[|s| - n - 1])
  {
    if |s| > 0 && IsWhitespace(s[|s| - 1]) then 1 + TrailingWhitespace(s[..|s| - 1]) else 0
  }

  /** `s.strip()`: the text that remains once the whitespace at both ends is
      removed. It is empty exactly when `s` is blank; otherwise it starts and
      ends with a non-whitespace character. */
  function Strip(s: string): (r: string)
    ensures r == [] <==> IsBlank(s)
    ensures r != [] ==> !IsWhitespace(r[0]) && !IsWhitespace(r[|r| - 1])
  {
    var lo := LeadingWhitespace(s);
    if lo == |s| then []
    else
      var hi := |s| - TrailingWhitespace(s);
      assert lo < hi;
      s[lo..hi]
  }

  /** What Strip removes is whitespace only: its result is the slice of `s`
      that starts after the leading whitespace, and every character of `s`
      before or after that slice is whitespace. */
  lemma StripIsSlice(s: string)
    ensures var r := Strip(s);
            var k := LeadingWhitespace(s);
            && k + |r| <= |s|
            && r == s[k..k + |r|]
            && (forall i :: 0 <= i < k ==> IsWhitespace(s[i]))
            && (forall i :: k + |r| <= i < |s| ==> IsWhitespace(s[i]))
  {
    var k := LeadingWhitespace(s);
    if k < |s| {
      var t := TrailingWhitespace(s);
      assert k + |Strip(s)| == |s| - t;
    }
  }

  /** Stripping is idempotent: a stripped cell has no whitespace left at
      either end. */
  lemma StripIdempotent(s: string)
    ensures Strip(Strip(s)) == Strip(s)
  {
  }
}
