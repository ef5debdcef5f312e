/**
 * The character classes of JavaScript that the statement pattern and the
 * blank-text test use, and `String.prototype.trim`.
 */
module JsChars {

  /**
   * `\s` of a JavaScript regular expression: the ECMAScript WhiteSpace and
   * LineTerminator code points (tab, line feed, vertical tab, form feed,
   * carriage return, space, no-break space, the Unicode space separators,
   * the line and paragraph separators and the byte order mark).
   * `String.prototype.trim` strips exactly the same set.
   */
  predicate IsSpace(c: char) {
    if c <= ' ' then c == ' ' || '\t' <= c <= '\r'
    else if c < '\U{00A0}' then false
    else
      c == '\U{00A0}' || c == '\U{1680}' || ('\U{2000}' <= c <= '\U{200A}') ||
      c == '\U{2028}' || c == '\U{2029}' || c == '\U{202F}' || c == '\U{205F}' ||
      c == '\U{3000}' || c == '\U{FEFF}'
  }

  /**
   * The characters `.` does not match (no `s` flag): the ECMAScript
   * LineTerminator set, which `\s` also matches.
   */
  predicate IsLineTerminator(c: char): (b: bool)
    ensures b ==> IsSpace(c)
  {
    c == '\n' || c == '\r' || c == '\U{2028}' || c == '\U{2029}'
  }

  /** `\d`: ASCII digits only. */
  predicate IsDigit(c: char) {
    '0' <= c <= '9'
  }

  /** `[A-Za-z]` */
  predicate IsAsciiLetter(c: char) {
    'A' <= c <= 'Z' || 'a' <= c <= 'z'
  }

  /** `[\d,]` */
  predicate IsDigitOrComma(c: char) {
    IsDigit(c) || c == ','
  }

  /** Every character of `s` is one that `\s` matches. */
  predicate AllSpace(s: string) {
    forall k :: 0 <= k < |s| ==> IsSpace(s[k])
  }

  /** `s` with its leading white space removed. */
  function TrimStart(s: string): (r: string)
    ensures |r| <= |s| && r == s[|s| - |r|..]
    ensures forall k :: 0 <= k < |s| - |r| ==> IsSpace(s[k])
    ensures r != [] ==> !IsSpace(r[0])
    decreases |s|
  {
    if s != [] && IsSpace(s[0]) then TrimStart(s[1..]) else s
  }

  /** `s` with its trailing white space removed. */
  function TrimEnd(s: string): (r: string)
    ensures |r| <= |s| && r == s[..|r|]
    ensures forall k :: |r| <= k < |s| ==> IsSpace(s[k])
    ensures r != [] ==> !IsSpace(r[|r| - 1])
    decreases |s|
  {
    if s != [] && IsSpace(s[|s| - 1]) then TrimEnd(s[..|s| - 1]) else s
  }

  /** r is s[i..i + |r|], and all that comes before and after it in s is white space. */
  predicate StripsSpace(s: string, i: nat, r: string) {
    i + |r| <= |s| && r == s[i..i + |r|] && AllSpace(s[..i]) && AllSpace(s[i + |r|..])
  }

  /**
   * `String.prototype.trim`: `s` without its leading and trailing white
   * space, that is the slice s[i..i + |r|] with only white space before
   * and after it.
   */
  function Trim(s: string): (r: string)
    ensures |r| <= |s|
    ensures r != [] ==> !IsSpace(r[0]) && !IsSpace(r[|r| - 1])
    ensures StripsSpace(s, |s| - |TrimStart(s)|, r)
  {
    TrimStripsSpace(s);
    TrimEnd(TrimStart(s))
  }

  /** Trimming the start, then the end, leaves a slice of `s` with only white space around it. */
  lemma TrimStripsSpace(s: string)
    ensures StripsSpace(s, |s| - |TrimStart(s)|, TrimEnd(TrimStart(s)))
  {
    SpaceAround(s, TrimStart(s), TrimEnd(TrimStart(s)));
  }

  /** A suffix t of s after white space, and a prefix r of t before white space. */
  lemma SpaceAround(s: string, t: string, r: string)
    requires |t| <= |s| && t == s[|s| - |t|..] && forall k :: 0 <= k < |s| - |t| ==> IsSpace(s[k])
    requires |r| <= |t| && r == t[..|r|] && forall k :: |r| <= k < |t| ==> IsSpace(t[k])
    ensures StripsSpace(s, |s| - |t|, r)
  {
    var i := |s| - |t|;
    assert s[i..i + |r|] == r by {
      assert s[i..i + |r|] == s[i..][..|r|];
    }
    assert AllSpace(s[..i]) by {
      forall k | 0 <= k < i ensures IsSpace(s[..i][k]) {
        assert s[..i][k] == s[k];
      }
    }
    var post := s[i + |r|..];
    assert AllSpace(post) by {
      forall k | 0 <= k < |post| ensures IsSpace(post[k]) {
        assert post[k] == t[|r| + k];
      }
    }
  }

  /** `!s.trim()` holds exactly when every character of `s` is white space. */
  lemma TrimEmptyIffAllSpace(s: string)
    ensures Trim(s) == "" <==> AllSpace(s)
  {
  }
}
