/**
 * The string operations the application relies on: Python's `str.strip()`, lower-casing
 * (of ASCII letters), and SQL `LIKE` matching with PostgreSQL's default escape character.
 */
module Text {

  /** Python's `str.isspace()` for one character (the characters `str.strip()` removes). */
  predicate IsSpace(c: char)
  {
    var n := c as int;
    (9 <= n <= 13) || (28 <= n <= 32) || n == 0x85 || n == 0xA0 || n == 0x1680
    || (0x2000 <= n <= 0x200A) || n == 0x2028 || n == 0x2029 || n == 0x202F
    || n == 0x205F || n == 0x3000
  }

  /** Every character of `s` is whitespace (the empty string included). */
  predicate IsBlank(s: string)
  {
    forall i :: 0 <= i < |s| ==> IsSpace(s[i])
  }

  /** `q` occurs in `s` starting at position `i`. */
  predicate OccursAt(s: string, q: string, i: int)
  {
    0 <= i <= |s| - |q| && s[i..i + |q|] == q
  }

  /** `s` without its leading whitespace. */
  function TrimLeft(s: string): string
  {
    if s != [] && IsSpace(s[0]) then TrimLeft(s[1..]) else s
  }

  /** `s` without its trailing whitespace. */
  function TrimRight(s: string): string
  {
    if s != [] && IsSpace(s[|s| - 1]) then TrimRight(s[..|s| - 1]) else s
  }

  /** TrimLeft removes a run of whitespace from the front and stops at a non-space. */
  lemma {:induction false} TrimLeftRemovesSpace(s: string)
    ensures var r := TrimLeft(s);
      && |r| <= |s| && r == s[|s| - |r|..]
      && (forall i :: 0 <= i < |s| - |r| ==> IsSpace(s[i]))
      && (r != [] ==> !IsSpace(r[0]))
  {
    if s != [] && IsSpace(s[0]) {
      var t := s[1..];
      TrimLeftRemovesSpace(t);
      var r := TrimLeft(t);
      assert t[|t| - |r|..] == s[|s| - |r|..];
      forall i | 0 <= i < |s| - |r| ensures IsSpace(s[i]) {
        if i > 0 {
          assert s[i] == t[i - 1];
        }
      }
    }
  }

  /** TrimRight removes a run of whitespace from the back and stops at a non-space. */
  lemma {:induction false} TrimRightRemovesSpace(s: string)
    ensures var r := TrimRight(s);
      && |r| <= |s| && r == s[..|r|]
      && (forall i :: |r| <= i < |s| ==> IsSpace(s[i]))
      && (r != [] ==> !IsSpace(r[|r| - 1]))
  {
    if s != [] && IsSpace(s[|s| - 1]) {
      var t := s[..|s| - 1];
      TrimRightRemovesSpace(t);
      var r := TrimRight(t);
      assert t[..|r|] == s[..|r|];
      forall i | |r| <= i < |s| ensures IsSpace(s[i]) {
        if i < |s| - 1 {
          assert s[i] == t[i];
        }
      }
    }
  }

  /**
   * Python's `s.strip()`: what is left of `s` once the whitespace before and after it is
   * removed; it neither starts nor ends with whitespace, and is empty exactly when `s` is blank.
   */
  function Strip(s: string): (r: string)
    ensures exists lo :: OccursAt(s, r, lo) && IsBlank(s[..lo]) && IsBlank(s[lo + |r|..])
    ensures r != [] ==> !IsSpace(r[0]) && !IsSpace(r[|r| - 1])
    ensures r == [] <==> IsBlank(s)
  {
    var left := TrimLeft(s);
    var r := TrimRight(left);
    TrimBoth(s, left, r);
    TrimBlankEnds(s, left, r);
    r
  }

  /** Trimming both ends leaves an infix of `s` that is empty exactly when `s` is blank. */
  lemma TrimBoth(s: string, left: string, r: string)
    requires left == TrimLeft(s) && r == TrimRight(left)
    ensures OccursAt(s, r, |s| - |left|)
    ensures r != [] ==> !IsSpace(r[0]) && !IsSpace(r[|r| - 1])
    ensures r == [] <==> IsBlank(s)
  {
    TrimLeftRemovesSpace(s);
    TrimRightRemovesSpace(left);
    assert r == s[|s| - |left|..][..|r|];
    assert r == [] ==> left == [];
    assert r != [] ==> left != [] && left[0] == r[0];
  }

  /** What trimming removes from either end of `s` is blank. */
  lemma TrimBlankEnds(s: string, left: string, r: string)
    requires left == TrimLeft(s) && r == TrimRight(left)
    ensures |left| <= |s| && |r| <= |left|
    ensures IsBlank(s[..|s| - |left|]) && IsBlank(s[|s| - |left| + |r|..])
  {
    TrimLeftRemovesSpace(s);
    TrimRightRemovesSpace(left);
    var lo := |s| - |left|;
    BlankBefore(s, lo);
    BlankAfter(left, |r|);
    assert s[lo + |r|..] == left[|r|..];
  }

  /** A run of whitespace at the front of `s` is a blank prefix. */
  lemma BlankBefore(s: string, k: int)
    requires 0 <= k <= |s| && forall i :: 0 <= i < k ==> IsSpace(s[i])
    ensures IsBlank(s[..k])
  {
    assert forall i :: 0 <= i < k ==> s[..k][i] == s[i];
  }

  /** A run of whitespace at the back of `s` is a blank suffix. */
  lemma BlankAfter(s: string, k: int)
    requires 0 <= k <= |s| && forall i :: k <= i < |s| ==> IsSpace(s[i])
    ensures IsBlank(s[k..])
  {
    assert forall i :: 0 <= i < |s| - k ==> s[k..][i] == s[k + i];
  }

  /** Stripping a stripped string changes nothing. */
  lemma StripIdempotent(s: string)
    ensures Strip(Strip(s)) == Strip(s)
  {
    var r := Strip(s);
    assert TrimLeft(r) == r;
    assert TrimRight(r) == r;
  }

  /** Lower-case one character; only the ASCII letters A-Z are changed. */
  function LowerChar(c: char): char
  {
    if 'A' <= c <= 'Z' then (c as int + 32) as char else c
  }

  /** `s` with every ASCII capital replaced by its small letter. */
  function Lower(s: string): (r: string)
    ensures |r| == |s|
    ensures forall i :: 0 <= i < |s| ==> r[i] == LowerChar(s[i])
  {
    if s == [] then [] else [LowerChar(s[0])] + Lower(s[1..])
  }

  /** The characters that are special in a LIKE pattern: the two wildcards and the escape. */
  predicate IsPatternChar(c: char)
  {
    c == '%' || c == '_' || c == '\\'
  }

  /** A pattern that contains no special character matches only itself. */
  predicate IsLiteral(q: string)
  {
    forall i :: 0 <= i < |q| ==> !IsPatternChar(q[i])
  }

  /**
   * `s LIKE p` in PostgreSQL: `%` matches any run of characters, `_` any one character,
   * and a backslash makes the next character literal.
   */
  predicate Like(s: string, p: string)
    decreases |s| + |p|
  {
    if p == [] then s == []
    else if p[0] == '%' then Like(s, p[1..]) || (s != [] && Like(s[1..], p))
    else if p[0] == '_' then s != [] && Like(s[1..], p[1..])
    else if p[0] == '\\' && |p| > 1 then s != [] && s[0] == p[1] && Like(s[1..], p[2..])
    else s != [] && s[0] == p[0] && Like(s[1..], p[1..])
  }

  /** `q` occurs in `s` as a contiguous run of characters. */
  ghost predicate Contains(s: string, q: string)
  {
    exists i :: OccursAt(s, q, i)
  }

  /** A literal prefix of the pattern must match the start of the string character by character. */
  lemma {:induction false} LikeLiteralPrefix(s: string, q: string, rest: string)
    requires IsLiteral(q)
    ensures Like(s, q + rest) <==> |q| <= |s| && s[..|q|] == q && Like(s[|q|..], rest)
  {
    if q == [] {
      assert q + rest == rest;
      assert s[0..] == s;
    } else {
      var p := q + rest;
      assert p[0] == q[0] && !IsPatternChar(q[0]);
      assert p[1..] == q[1..] + rest;
      assert IsLiteral(q[1..]) by {
        forall i | 0 <= i < |q[1..]| ensures !IsPatternChar(q[1..][i]) {
          assert q[1..][i] == q[i + 1];
        }
      }
      if s != [] {
        LikeLiteralPrefix(s[1..], q[1..], rest);
        if |q| <= |s| {
          assert s[1..][|q| - 1..] == s[|q|..];
          assert s[..|q|] == [s[0]] + s[1..][..|q| - 1];
          assert q == [q[0]] + q[1..];
        }
      }
    }
  }

  /** The pattern `%` matches every string. */
  lemma {:induction false} LikePercentMatchesAll(s: string)
    ensures Like(s, "%")
  {
    assert "%"[1..] == "";
    if s != [] {
      LikePercentMatchesAll(s[1..]);
    }
  }

  /** A leading `%` lets the rest of the pattern match any suffix of the string. */
  lemma {:induction false} LikeLeadingPercent(s: string, r: string)
    ensures Like(s, "%" + r) <==> exists i :: 0 <= i <= |s| && Like(s[i..], r)
  {
    var p := "%" + r;
    assert p[0] == '%' && p[1..] == r;
    assert s[0..] == s;
    if s != [] {
      LikeLeadingPercent(s[1..], r);
      if exists i :: 0 <= i <= |s| && Like(s[i..], r) {
        var i :| 0 <= i <= |s| && Like(s[i..], r);
        if i > 0 {
          assert s[1..][i - 1..] == s[i..];
        }
      }
      if exists i :: 0 <= i <= |s[1..]| && Like(s[1..][i..], r) {
        var i :| 0 <= i <= |s[1..]| && Like(s[1..][i..], r);
        assert s[1..][i..] == s[i + 1..];
      }
    }
  }

  /**
   * For a query without special characters, `s LIKE '%' || q || '%'` is exactly a
   * substring search.
   */
  lemma LikeIsSubstringSearch(s: string, q: string)
    requires IsLiteral(q)
    ensures Like(s, "%" + q + "%") <==> Contains(s, q)
  {
    assert "%" + q + "%" == "%" + (q + "%");
    LikeLeadingPercent(s, q + "%");
    if Contains(s, q) {
      var i :| OccursAt(s, q, i);
      LikeLiteralPrefix(s[i..], q, "%");
      assert s[i..][..|q|] == s[i..i + |q|];
      LikePercentMatchesAll(s[i..][|q|..]);
    }
    if exists i :: 0 <= i <= |s| && Like(s[i..], q + "%") {
      var i :| 0 <= i <= |s| && Like(s[i..], q + "%");
      LikeLiteralPrefix(s[i..], q, "%");
      assert s[i..][..|q|] == s[i..i + |q|];
      assert OccursAt(s, q, i);
    }
  }

  /** Lower-casing never introduces a LIKE special character. */
  lemma LowerKeepsLiteral(q: string)
    requires IsLiteral(q)
    ensures IsLiteral(Lower(q))
  {
  }
}
