/** The two string operations the login rule relies on: Python's `str.strip()`
    with no argument and `str.endswith`. */
module Text {

  /** Python's `str.isspace()` for one character: the code points Python
      treats as whitespace (Unicode categories Zs and the bidirectional
      classes WS, B and S). */
  predicate IsSpace(c: char) {
    var n := c as int;
    || (0x09 <= n <= 0x0D)
    || (0x1C <= n <= 0x20)
    || n == 0x85 || n == 0xA0 || n == 0x1680
    || (0x2000 <= n <= 0x200A)
    || n == 0x2028 || n == 0x2029 || n == 0x202F || n == 0x205F || n == 0x3000
  }

  /** True when s neither starts nor ends with whitespace. */
  predicate Trimmed(s: string) {
    s == [] || (!IsSpace(s[0]) && !IsSpace(s[|s| - 1]))
  }

  /** Drops leading whitespace: the result is a suffix of s, everything
      dropped is whitespace, and the result does not start with whitespace. */
  function TrimStart(s: string): (r: string)
    ensures |r| <= |s| && r == s[|s| - |r|..]
    ensures forall i :: 0 <= i < |s| - |r| ==> IsSpace(s[i])
    ensures r != [] ==> !IsSpace(r[0])
  {
    if s != [] && IsSpace(s[0]) then TrimStart(s[1..]) else s
  }

  /** Drops trailing whitespace: the result is a prefix of s, everything
      dropped is whitespace, and the result does not end with whitespace. */
  function TrimEnd(s: string): (r: string)
    ensures |r| <= |s| && r == s[..|r|]
    ensures forall i :: |r| <= i < |s| ==> IsSpace(s[i])
    ensures r != [] ==> !IsSpace(r[|r| - 1])
  {
    if s != [] && IsSpace(s[|s| - 1]) then TrimEnd(s[..|s| - 1]) else s
  }

  /** Python's `s.strip()`. */
  function Strip(s: string): (r: string)
    ensures Trimmed(r)
    ensures |r| <= |s|
  {
    var t := TrimEnd(TrimStart(s));
    assert t != [] ==> t[0] == TrimStart(s)[0];
    t
  }

  /** Python's `s.endswith(suffix)`. */
  predicate EndsWith(s: string, suffix: string) {
    |suffix| <= |s| && s[|s| - |suffix|..] == suffix
  }

  /** Strip removes exactly a whitespace prefix and a whitespace suffix:
      its result is the slice s[i..j], and everything outside is whitespace. */
  lemma StripIsSlice(s: string) returns (i: nat, j: nat)
    ensures i <= j <= |s| && Strip(s) == s[i..j]
    ensures forall k :: 0 <= k < i ==> IsSpace(s[k])
    ensures forall k :: j <= k < |s| ==> IsSpace(s[k])
  {
    var t := TrimStart(s);
    i := |s| - |t|;
    j := i + |TrimEnd(t)|;
    assert TrimEnd(t) == t[..|TrimEnd(t)|];
    assert forall k :: j <= k < |s| ==> s[k] == t[k - i];
  }

  /** A string that is already trimmed is left alone. */
  lemma {:induction false} StripTrimmed(s: string)
    requires Trimmed(s)
    ensures Strip(s) == s
  {
  }

  /** Stripping twice is stripping once. */
  lemma StripIdempotent(s: string)
    ensures Strip(Strip(s)) == Strip(s)
  {
    StripTrimmed(Strip(s));
  }

  /** Strip removes one whitespace character on each side of a trimmed,
      non-empty string. */
  lemma StripPadded(core: string, before: char, after: char)
    requires core != [] && Trimmed(core)
    requires IsSpace(before) && IsSpace(after)
    ensures Strip([before] + core + [after]) == core
  {
    var padded := [before] + core + [after];
    assert padded[1..] == core + [after];
    assert TrimStart(core + [after]) == core + [after];
    assert TrimStart(padded) == core + [after];
    assert (core + [after])[..|core|] == core;
    assert TrimEnd(core) == core;
  }
}
