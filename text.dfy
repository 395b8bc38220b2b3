/**
 * The string operations the slot parser uses: Python's `str.strip()` with no
 * argument, `str.lower()` and `str.startswith` (which is Dafny's prefix test `<=`).
 */
module Text {

  /** Python's `str.isspace()` for one character: the characters `strip()` removes. */
  predicate IsSpace(c: char) {
    var n := c as int;
    (0x09 <= n <= 0x0D) || (0x1C <= n <= 0x20) || n == 0x85 || n == 0xA0 || n == 0x1680
    || (0x2000 <= n <= 0x200A) || n == 0x2028 || n == 0x2029 || n == 0x202F || n == 0x205F
    || n == 0x3000
  }

  predicate AllSpace(s: string) {
    forall i :: 0 <= i < |s| ==> IsSpace(s[i])
  }

  /** Drops the leading whitespace: what is removed is whitespace and what is kept does not start with it. */
  function TrimStart(s: string): (r: string)
    ensures |r| <= |s| && r == s[|s| - |r|..]
    ensures AllSpace(s[..|s| - |r|])
    ensures r == [] || !IsSpace(r[0])
  {
    if s != [] && IsSpace(s[0]) then TrimStart(s[1..]) else s
  }

  /** Drops the trailing whitespace: what is removed is whitespace and what is kept does not end with it. */
  function TrimEnd(s: string): (r: string)
    ensures |r| <= |s| && r == s[..|r|]
    ensures AllSpace(s[|r|..])
    ensures r == [] || !IsSpace(r[|r| - 1])
  {
    if s != [] && IsSpace(s[|s| - 1]) then TrimEnd(s[..|s| - 1]) else s
  }

  /** Python's `str.strip()`. */
  function Strip(s: string): string {
    TrimEnd(TrimStart(s))
  }

  /** `str.lower()` on one character, for the ASCII letters. */
  function LowerChar(c: char): char {
    if 'A' <= c <= 'Z' then (c as int + 32) as char else c
  }

  /** `str.lower()`, for the ASCII letters. */
  function Lower(s: string): string {
    seq(|s|, i requires 0 <= i < |s| => LowerChar(s[i]))
  }

  lemma LowerAppend(s: string, t: string)
    ensures Lower(s + t) == Lower(s) + Lower(t)
  {
  }

  /** A string with no upper-case ASCII letter is its own lower case. */
  lemma LowerNoUpper(s: string)
    requires forall i :: 0 <= i < |s| ==> !('A' <= s[i] <= 'Z')
    ensures Lower(s) == s
  {
  }

  /** Lowering a letter never turns it into whitespace or back. */
  lemma LowerCharSpace(c: char)
    ensures IsSpace(LowerChar(c)) == IsSpace(c)
  {
  }

  /** Stripping after lowering or lowering after stripping gives the same string. */
  lemma {:induction false} LowerTrimStart(s: string)
    ensures TrimStart(Lower(s)) == Lower(TrimStart(s))
  {
    if s != [] {
      var l := Lower(s);
      assert l[0] == LowerChar(s[0]);
      LowerCharSpace(s[0]);
      if IsSpace(s[0]) {
        assert l[1..] == Lower(s[1..]);
        LowerTrimStart(s[1..]);
        assert TrimStart(l) == TrimStart(l[1..]);
      } else {
        assert TrimStart(l) == l;
        assert TrimStart(s) == s;
      }
    }
  }

  lemma {:induction false} LowerTrimEnd(s: string)
    ensures TrimEnd(Lower(s)) == Lower(TrimEnd(s))
  {
    if s != [] {
      var n := |s| - 1;
      var l := Lower(s);
      assert l[n] == LowerChar(s[n]);
      LowerCharSpace(s[n]);
      if IsSpace(s[n]) {
        assert l[..n] == Lower(s[..n]);
        LowerTrimEnd(s[..n]);
        assert TrimEnd(l) == TrimEnd(l[..n]);
      } else {
        assert TrimEnd(l) == l;
        assert TrimEnd(s) == s;
      }
    }
  }

  lemma LowerStrip(s: string)
    ensures Strip(Lower(s)) == Lower(Strip(s))
  {
    LowerTrimStart(s);
    LowerTrimEnd(TrimStart(s));
  }

  lemma AllSpaceTail(x: string)
    requires x != [] && IsSpace(x[0])
    ensures AllSpace(x) == AllSpace(x[1..])
  {
    if AllSpace(x[1..]) {
      forall i | 0 <= i < |x| ensures IsSpace(x[i]) {
        if i > 0 { assert x[i] == x[1..][i - 1]; }
      }
    }
  }

  /** Whitespace in front of a string does not survive `TrimStart`. */
  lemma {:induction false} TrimStartAppend(x: string, y: string)
    ensures TrimStart(x + y) == if AllSpace(x) then TrimStart(y) else TrimStart(x) + y
  {
    if x == [] {
      assert x + y == y;
    } else {
      var xy := x + y;
      assert xy[0] == x[0];
      if IsSpace(x[0]) {
        assert xy[1..] == x[1..] + y;
        TrimStartAppend(x[1..], y);
        AllSpaceTail(x);
        assert TrimStart(xy) == TrimStart(x[1..] + y);
        assert TrimStart(x) == TrimStart(x[1..]);
      } else {
        assert TrimStart(xy) == xy && TrimStart(x) == x;
        assert !AllSpace(x);
      }
    }
  }

  /** Whitespace after a string does not survive `TrimEnd`. */
  lemma {:induction false} TrimEndSpaces(y: string, post: string)
    requires AllSpace(post)
    ensures TrimEnd(y + post) == TrimEnd(y)
  {
    if post == [] {
      assert y + post == y;
    } else {
      var n := |post| - 1;
      assert (y + post)[|y + post| - 1] == post[n];
      assert (y + post)[..|y + post| - 1] == y + post[..n];
      TrimEndSpaces(y, post[..n]);
    }
  }

  lemma {:induction false} AllSpaceTrimStart(x: string)
    requires AllSpace(x)
    ensures TrimStart(x) == []
  {
    if x != [] {
      assert IsSpace(x[0]);
      AllSpaceTrimStart(x[1..]);
    }
  }

  /** A string that neither starts nor ends with whitespace is its own `strip()`. */
  lemma StripUnpadded(s: string)
    requires s != [] && !IsSpace(s[0]) && !IsSpace(s[|s| - 1])
    ensures Strip(s) == s
  {
    assert TrimStart(s) == s;
  }

  /** Surrounding whitespace never changes what `strip()` returns. */
  lemma StripPadded(pre: string, s: string, post: string)
    requires AllSpace(pre) && AllSpace(post)
    ensures Strip(pre + s + post) == Strip(s)
  {
    var rest := s + post;
    assert pre + s + post == pre + rest;
    TrimStartAppend(pre, rest);
    assert TrimStart(pre + s + post) == TrimStart(rest);
    TrimStartAppend(s, post);
    if AllSpace(s) {
      AllSpaceTrimStart(post);
      AllSpaceTrimStart(s);
      assert TrimStart(rest) == [] && TrimStart(s) == [];
    } else {
      assert TrimStart(rest) == TrimStart(s) + post;
      TrimEndSpaces(TrimStart(s), post);
    }
  }
}
