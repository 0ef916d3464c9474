/** The part of Python's text handling that the proxy relies on:
    `str.isspace()` and `str.strip()` with no argument. */
module PyText {

  /** Python's `str.isspace()` for a single character: the ASCII controls
      TAB..CR, the separators U+001C..U+001F, SPACE, NEL, NO-BREAK SPACE and
      the Unicode space separators. */
  predicate IsSpace(c: char) {
    var n := c as int;
    (0x09 <= n <= 0x0D) || (0x1C <= n <= 0x20) || n == 0x85 || n == 0xA0 ||
    n == 0x1680 || (0x2000 <= n <= 0x200A) || n == 0x2028 || n == 0x2029 ||
    n == 0x202F || n == 0x205F || n == 0x3000
  }

  predicate NoSpace(s: string) {
    forall i :: 0 <= i < |s| ==> !IsSpace(s[i])
  }

  /** `s.lstrip()`: drops the longest all-space prefix. */
  function TrimStart(s: string): (r: string)
    ensures |r| <= |s| && r == s[|s| - |r|..]
    ensures forall i :: 0 <= i < |s| - |r| ==> IsSpace(s[i])
    ensures r == [] || !IsSpace(r[0])
  {
    if s != [] && IsSpace(s[0]) then TrimStart(s[1..]) else s
  }

  /** `s.rstrip()`: drops the longest all-space suffix. */
  function TrimEnd(s: string): (r: string)
    ensures |r| <= |s| && r == s[..|r|]
    ensures forall i :: |r| <= i < |s| ==> IsSpace(s[i])
    ensures r == [] || !IsSpace(r[|r| - 1])
  {
    if s != [] && IsSpace(s[|s| - 1]) then TrimEnd(s[..|s| - 1]) else s
  }

  /** `s.strip()`. */
  function Strip(s: string): (r: string)
    ensures |r| <= |s|
    ensures r == [] || (!IsSpace(r[0]) && !IsSpace(r[|r| - 1]))
  {
    TrimEnd(TrimStart(s))
  }

  /** What strip removes: the result is the slice `s[lo..lo + |r|]` of the
      input for the `lo` that `lstrip` stops at, every character cut off on
      either side is a space, and the result neither starts nor ends with a
      space. */
  lemma StripCharacterization(s: string)
    ensures var r := Strip(s);
      var lo := |s| - |TrimStart(s)|;
      && lo + |r| <= |s|
      && r == s[lo..lo + |r|]
      && (forall i :: 0 <= i < lo ==> IsSpace(s[i]))
      && (forall i :: lo + |r| <= i < |s| ==> IsSpace(s[i]))
      && (r == [] || (!IsSpace(r[0]) && !IsSpace(r[|r| - 1])))
  {
    var a := TrimStart(s);
    var r := TrimEnd(a);
    var lo := |s| - |a|;
    assert a == s[lo..];
    assert r == a[..|r|];
    forall i | lo + |r| <= i < |s| ensures IsSpace(s[i]) {
      assert s[i] == a[i - lo];
    }
  }

  /** A string with no space in it is its own strip. */
  lemma StripNoSpace(s: string)
    requires NoSpace(s)
    ensures Strip(s) == s
  {
    if s != [] {
      assert !IsSpace(s[0]);
      assert TrimStart(s) == s;
      assert !IsSpace(s[|s| - 1]);
    }
  }

  predicate AllSpace(s: string) {
    forall i :: 0 <= i < |s| ==> IsSpace(s[i])
  }

  lemma {:induction false} TrimStartSpaces(pre: string, u: string)
    requires AllSpace(pre)
    ensures TrimStart(pre + u) == TrimStart(u)
    decreases |pre|
  {
    if pre != [] {
      assert (pre + u)[0] == pre[0] && IsSpace(pre[0]);
      assert (pre + u)[1..] == pre[1..] + u;
      assert AllSpace(pre[1..]) by {
        assert forall i :: 0 <= i < |pre| - 1 ==> pre[1..][i] == pre[i + 1];
      }
      TrimStartSpaces(pre[1..], u);
    } else {
      assert pre + u == u;
    }
  }

  lemma {:induction false} TrimEndSpaces(v: string, post: string)
    requires AllSpace(post)
    ensures TrimEnd(v + post) == TrimEnd(v)
    decreases |post|
  {
    if post != [] {
      var n := |post| - 1;
      assert (v + post)[|v + post| - 1] == post[n] && IsSpace(post[n]);
      assert (v + post)[..|v + post| - 1] == v + post[..n];
      assert AllSpace(post[..n]) by {
        assert forall i :: 0 <= i < n ==> post[..n][i] == post[i];
      }
      TrimEndSpaces(v, post[..n]);
    } else {
      assert v + post == v;
    }
  }

  /** White space around a text whose ends are not white space is exactly
      what strip removes. */
  lemma StripSurrounded(pre: string, core: string, post: string)
    requires AllSpace(pre) && AllSpace(post)
    requires core != [] && !IsSpace(core[0]) && !IsSpace(core[|core| - 1])
    ensures Strip(pre + core + post) == core
  {
    assert pre + core + post == pre + (core + post);
    TrimStartSpaces(pre, core + post);
    assert TrimStart(core + post) == core + post;
    TrimEndSpaces(core, post);
  }
}
