/**
 * Character and string helpers shared by the model: ASCII case folding,
 * the whitespace classes of Python and .NET, stripping and substring search.
 */
module Text {

  /** ASCII lower-casing of one character; every other character is unchanged. */
  function LowerChar(c: char): (r: char)
    ensures 'A' <= c <= 'Z' ==> 'a' <= r <= 'z' && r as int == c as int + 32
    ensures !('A' <= c <= 'Z') ==> r == c
  {
    if 'A' <= c <= 'Z' then (c as int + 32) as char else c
  }

  function Lower(s: string): (r: string)
    ensures |r| == |s|
    ensures forall i :: 0 <= i < |s| ==> r[i] == LowerChar(s[i])
  {
    seq(|s|, i requires 0 <= i < |s| => LowerChar(s[i]))
  }

  predicate IsAsciiDigit(c: char) { '0' <= c <= '9' }

  predicate IsAsciiLetter(c: char) { 'a' <= c <= 'z' || 'A' <= c <= 'Z' }

  /** Whitespace that both Python's `str.isspace` and .NET's `char.IsWhiteSpace` accept. */
  predicate IsUnicodeSpace(c: char) {
    || '\t' <= c <= '\r'
    || c == ' ' || c == '\U{0085}' || c == '\U{00A0}' || c == '\U{1680}'
    || '\U{2000}' <= c <= '\U{200A}'
    || c == '\U{2028}' || c == '\U{2029}' || c == '\U{202F}' || c == '\U{205F}' || c == '\U{3000}'
  }

  /** Python's `str.isspace` on one character (also what `\s` matches in a `str` pattern). */
  predicate IsPySpace(c: char) {
    IsUnicodeSpace(c) || '\U{001C}' <= c <= '\U{001F}'
  }

  /** .NET's `char.IsWhiteSpace`. */
  predicate IsDotNetWhiteSpace(c: char) {
    IsUnicodeSpace(c)
  }

  /** Python's `str.lstrip()` with no argument. */
  function StripStart(s: string): (r: string)
    ensures |r| <= |s|
    decreases |s|
  {
    if s != [] && IsPySpace(s[0]) then StripStart(s[1..]) else s
  }

  /** `lstrip` drops a leading run of whitespace and nothing else. */
  lemma {:induction false} StripStartSpec(s: string)
    ensures StripStart(s) == s[|s| - |StripStart(s)|..]
    ensures StripStart(s) == [] || !IsPySpace(StripStart(s)[0])
    ensures forall i :: 0 <= i < |s| - |StripStart(s)| ==> IsPySpace(s[i])
    decreases |s|
  {
    if s != [] && IsPySpace(s[0]) {
      StripStartSpec(s[1..]);
    }
  }

  /** Python's `str.rstrip()` with no argument. */
  function StripEnd(s: string): (r: string)
    ensures |r| <= |s|
    decreases |s|
  {
    if s != [] && IsPySpace(s[|s| - 1]) then StripEnd(s[..|s| - 1]) else s
  }

  /** `rstrip` drops a trailing run of whitespace and nothing else. */
  lemma {:induction false} StripEndSpec(s: string)
    ensures StripEnd(s) == s[..|StripEnd(s)|]
    ensures StripEnd(s) == [] || !IsPySpace(StripEnd(s)[|StripEnd(s)| - 1])
    ensures forall i :: |StripEnd(s)| <= i < |s| ==> IsPySpace(s[i])
    decreases |s|
  {
    if s != [] && IsPySpace(s[|s| - 1]) {
      StripEndSpec(s[..|s| - 1]);
    }
  }

  /** Python's `str.strip()` with no argument. */
  function Strip(s: string): (r: string)
    ensures |r| <= |s|
  {
    StripEnd(StripStart(s))
  }

  /** A stripped text neither starts nor ends with whitespace. */
  lemma StripTrims(s: string)
    ensures Strip(s) == [] || (!IsPySpace(Strip(s)[0]) && !IsPySpace(Strip(s)[|Strip(s)| - 1]))
  {
    var t := StripStart(s);
    StripStartSpec(s);
    StripEndSpec(t);
    if StripEnd(t) != [] {
      assert StripEnd(t)[0] == t[0];
    }
  }

  /** All characters are Python whitespace: `not s.strip()`. */
  predicate IsBlank(s: string) {
    forall i :: 0 <= i < |s| ==> IsPySpace(s[i])
  }

  lemma StripEmptyIffBlank(s: string)
    ensures Strip(s) == [] <==> IsBlank(s)
  {
    var t := StripStart(s);
    StripStartSpec(s);
    StripEndSpec(t);
    assert t == [] || t[0] == s[|s| - |t|];
  }

  /** `p` occurs in `s` (Python's `p in s`). */
  predicate Contains(s: string, p: string)
    decreases |s|
  {
    p <= s || (s != [] && Contains(s[1..], p))
  }

  /** An occurrence in `a` is still one after text is appended. */
  lemma {:induction false} ContainsAppendRight(a: string, b: string, p: string)
    ensures Contains(a, p) ==> Contains(a + b, p)
    decreases |a|
  {
    if a != [] {
      ContainsAppendRight(a[1..], b, p);
      assert (a + b)[1..] == a[1..] + b;
    }
  }

  /** An occurrence in `b` is still one after text is prepended. */
  lemma {:induction false} ContainsAppendLeft(a: string, b: string, p: string)
    ensures Contains(b, p) ==> Contains(a + b, p)
    decreases |a|
  {
    if a == [] {
      assert a + b == b;
    } else {
      ContainsAppendLeft(a[1..], b, p);
      assert (a + b)[1..] == a[1..] + b;
    }
  }

  /** An occurrence is no longer than the text it occurs in. */
  lemma {:induction false} ContainsIsNoLonger(s: string, p: string)
    ensures Contains(s, p) ==> |p| <= |s|
    decreases |s|
  {
    if s != [] {
      ContainsIsNoLonger(s[1..], p);
    }
  }

  /** A text occurs in anything built around it. */
  lemma ContainsMiddle(x: string, m: string, y: string)
    ensures Contains(x + m + y, m)
  {
    assert m <= m + y;
    ContainsAppendLeft(x, m + y, m);
    assert x + m + y == x + (m + y);
  }

  /** Case-insensitive substring test (ASCII folding). */
  predicate ContainsIgnoreCase(s: string, p: string) {
    Contains(Lower(s), Lower(p))
  }
}
