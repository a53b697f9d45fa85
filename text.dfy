/** Python's str.strip() with no argument. */
module Text {

  /** The characters for which Python's str.isspace() holds. */
  predicate IsSpace(c: char)
  {
    var n := c as int;
    (9 <= n <= 13) || (28 <= n <= 32) || n == 0x85 || n == 0xA0 || n == 0x1680
    || (0x2000 <= n <= 0x200A) || n == 0x2028 || n == 0x2029 || n == 0x202F
    || n == 0x205F || n == 0x3000
  }

  predicate AllSpace(s: string)
  {
    forall i :: 0 <= i < |s| ==> IsSpace(s[i])
  }

  /** The string without its leading whitespace. */
  function TrimStart(s: string): string
  {
    if s != [] && IsSpace(s[0]) then TrimStart(s[1..]) else s
  }

  /** The string without its trailing whitespace. */
  function TrimEnd(s: string): string
  {
    if s != [] && IsSpace(s[|s| - 1]) then TrimEnd(s[..|s| - 1]) else s
  }

  /** TrimStart keeps a suffix, drops only whitespace, and stops at a non-space character. */
  lemma {:induction false} TrimStartShape(s: string)
    ensures var r := TrimStart(s);
            |r| <= |s| && r == s[|s| - |r|..] && AllSpace(s[..|s| - |r|])
            && (r == [] || !IsSpace(r[0]))
  {
    if s != [] && IsSpace(s[0]) {
      TrimStartShape(s[1..]);
      var r := TrimStart(s);
      assert s[..|s| - |r|] == [s[0]] + s[1..][..|s| - 1 - |r|];
    }
  }

  /** TrimEnd keeps a prefix, drops only whitespace, and stops at a non-space character. */
  lemma {:induction false} TrimEndShape(s: string)
    ensures var r := TrimEnd(s);
            |r| <= |s| && r == s[..|r|] && AllSpace(s[|r|..])
            && (r == [] || !IsSpace(r[|r| - 1]))
  {
    if s != [] && IsSpace(s[|s| - 1]) {
      var n := |s| - 1;
      TrimEndShape(s[..n]);
      var r := TrimEnd(s);
      assert s[|r|..] == s[..n][|r|..] + [s[n]];
    }
  }

  /** str.strip(): whitespace removed at both ends, nothing removed inside. */
  function Strip(s: string): (r: string)
    ensures r == [] || (!IsSpace(r[0]) && !IsSpace(r[|r| - 1]))
  {
    TrimStartShape(s);
    TrimEndShape(TrimStart(s));
    TrimEnd(TrimStart(s))
  }

  /** Leading whitespace padding is exactly what TrimStart removes. */
  lemma {:induction false} TrimStartOfPadded(pre: string, x: string)
    requires AllSpace(pre)
    requires x == [] || !IsSpace(x[0])
    ensures TrimStart(pre + x) == x
  {
    if pre != [] {
      assert (pre + x)[1..] == pre[1..] + x;
      TrimStartOfPadded(pre[1..], x);
    }
  }

  /** Trailing whitespace padding is exactly what TrimEnd removes. */
  lemma {:induction false} TrimEndOfPadded(x: string, post: string)
    requires AllSpace(post)
    requires x == [] || !IsSpace(x[|x| - 1])
    ensures TrimEnd(x + post) == x
  {
    if post != [] {
      var n := |post| - 1;
      assert (x + post)[..|x + post| - 1] == x + post[..n];
      TrimEndOfPadded(x, post[..n]);
    } else {
      assert x + post == x;
    }
  }

  /**
   * Strip is characterised by the split it makes: whatever whitespace
   * padding surrounds a core that neither starts nor ends with whitespace,
   * stripping returns exactly that core.
   */
  lemma StripOfPadded(pre: string, core: string, post: string)
    requires AllSpace(pre) && AllSpace(post)
    requires core == [] || (!IsSpace(core[0]) && !IsSpace(core[|core| - 1]))
    ensures Strip(pre + core + post) == core
  {
    if core == [] {
      assert pre + core + post == (pre + post) + [];
      TrimStartOfPadded(pre + post, []);
    } else {
      assert pre + core + post == pre + (core + post);
      TrimStartOfPadded(pre, core + post);
      TrimEndOfPadded(core, post);
    }
  }

  /** Strip removes whitespace padding only: the input is padding, the result, padding. */
  lemma StripRemovesOnlyPadding(s: string)
    ensures exists pre, post :: AllSpace(pre) && AllSpace(post) && s == pre + Strip(s) + post
  {
    TrimStartShape(s);
    var t := TrimStart(s);
    TrimEndShape(t);
    var r := TrimEnd(t);
    var pre, post := s[..|s| - |t|], t[|r|..];
    assert s == pre + t;
    assert t == r + post;
    assert Strip(s) == r;
    assert s == pre + Strip(s) + post;
    assert AllSpace(pre) && AllSpace(post);
  }

  /** Stripping twice is stripping once. */
  lemma StripIdempotent(s: string)
    ensures Strip(Strip(s)) == Strip(s)
  {
  }
}
