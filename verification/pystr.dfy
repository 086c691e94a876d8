/** Python's `str.strip()` with no argument, and the whitespace it removes. */
module PyStr {

  /** The characters for which Python's `c.isspace()` holds, which
      `str.strip()` removes from both ends: the ASCII controls 9-13 and 28-31,
      the space, U+0085, and the Unicode space, line and paragraph
      separators. */
  const Whitespace: set<char> := {
    '\t', '\n', '\U{0b}', '\U{0c}', '\r',
    '\U{1c}', '\U{1d}', '\U{1e}', '\U{1f}', ' ',
    '\U{85}', '\U{a0}', '\U{1680}',
    '\U{2000}', '\U{2001}', '\U{2002}', '\U{2003}', '\U{2004}', '\U{2005}',
    '\U{2006}', '\U{2007}', '\U{2008}', '\U{2009}', '\U{200a}',
    '\U{2028}', '\U{2029}', '\U{202f}', '\U{205f}', '\U{3000}'
  }

  predicate IsSpace(c: char)
  {
    c in Whitespace
  }

  /** `s.lstrip()`. */
  function TrimStart(s: string): string
  {
    if s != [] && IsSpace(s[0]) then TrimStart(s[1..]) else s
  }

  /** `s.lstrip()` is a suffix of `s`, missing only leading whitespace. */
  lemma {:induction false} TrimStartSpec(s: string)
    ensures var r := TrimStart(s);
      |r| <= |s| && r == s[|s| - |r|..]
      && (forall k :: 0 <= k < |s| - |r| ==> IsSpace(s[k]))
      && (r == [] || !IsSpace(r[0]))
  {
    if s != [] && IsSpace(s[0]) {
      var tail := s[1..];
      TrimStartSpec(tail);
      var r := TrimStart(tail);
      assert tail[|tail| - |r|..] == s[|s| - |r|..];
      assert forall k :: 1 <= k < |s| - |r| ==> s[k] == tail[k - 1];
    }
  }

  /** `s.rstrip()`. */
  function TrimEnd(s: string): string
  {
    if s != [] && IsSpace(s[|s| - 1]) then TrimEnd(s[..|s| - 1]) else s
  }

  /** `s.rstrip()` is a prefix of `s`, missing only trailing whitespace. */
  lemma {:induction false} TrimEndSpec(s: string)
    ensures var r := TrimEnd(s);
      |r| <= |s| && r == s[..|r|]
      && (forall k :: |r| <= k < |s| ==> IsSpace(s[k]))
      && (r == [] || !IsSpace(r[|r| - 1]))
  {
    if s != [] && IsSpace(s[|s| - 1]) {
      TrimEndSpec(s[..|s| - 1]);
    }
  }

  /** `r` is the infix of `s` that starts at `i`, and everything of `s`
      before and after it is whitespace. */
  ghost predicate InfixBetweenSpaces(r: string, s: string, i: int)
  {
    0 <= i <= |s| - |r| && r == s[i..i + |r|]
    && (forall k :: 0 <= k < i ==> IsSpace(s[k]))
    && (forall k :: i + |r| <= k < |s| ==> IsSpace(s[k]))
  }

  /** `s.strip()`. */
  function Strip(s: string): string
  {
    TrimEnd(TrimStart(s))
  }

  /** What `s.strip()` leaves is `s` with whitespace removed from both ends,
      and it neither begins nor ends with whitespace. */
  lemma StripRemovesOuterSpace(s: string)
    ensures var r := Strip(s);
      (r == [] || (!IsSpace(r[0]) && !IsSpace(r[|r| - 1])))
      && exists i :: InfixBetweenSpaces(r, s, i)
  {
    var t := TrimStart(s);
    TrimStartSpec(s);
    TrimEndSpec(t);
    StripShape(s, t, TrimEnd(t));
  }

  /** A prefix `r` of a suffix `t` of `s`, with only whitespace cut off on
      either side and none left at either end, lies between spaces in `s`. */
  lemma StripShape(s: string, t: string, r: string)
    requires |t| <= |s| && t == s[|s| - |t|..]
    requires |r| <= |t| && r == t[..|r|]
    requires forall k :: 0 <= k < |s| - |t| ==> IsSpace(s[k])
    requires forall k :: |r| <= k < |t| ==> IsSpace(t[k])
    requires t == [] || !IsSpace(t[0])
    requires r == [] || !IsSpace(r[|r| - 1])
    ensures r == [] || (!IsSpace(r[0]) && !IsSpace(r[|r| - 1]))
    ensures exists i :: InfixBetweenSpaces(r, s, i)
  {
    var i := |s| - |t|;
    assert forall k :: i + |r| <= k < |s| ==> s[k] == t[k - i];
    assert InfixBetweenSpaces(r, s, i);
    if r != [] {
      assert r[0] == t[0];
    }
  }

  /** Stripping twice is stripping once. */
  lemma StripIsIdempotent(s: string)
    ensures Strip(Strip(s)) == Strip(s)
  {
    var r := Strip(s);
    StripRemovesOuterSpace(s);
    assert TrimStart(r) == r;
    assert TrimEnd(r) == r;
  }

  /** `s.startswith("#")`. */
  predicate StartsWithHash(s: string)
  {
    |s| > 0 && s[0] == '#'
  }
}
