/**
 * The string operations of Rust's `str` that the input path relies on:
 * `trim`, `ends_with` and `replace`. Strings are sequences of Unicode
 * scalar values, as Rust's `char`s are.
 */
module Text {

  /** Unicode's White_Space property, the test Rust's `char::is_whitespace` applies. */
  predicate IsWhitespace(c: char) {
    var n := c as int;
    (0x09 <= n <= 0x0D) || n == 0x20 || n == 0x85 || n == 0xA0 || n == 0x1680
    || (0x2000 <= n <= 0x200A) || n == 0x2028 || n == 0x2029 || n == 0x202F
    || n == 0x205F || n == 0x3000
  }

  predicate AllWhitespace(s: string) {
    forall i :: 0 <= i < |s| ==> IsWhitespace(s[i])
  }

  /** Neither end of `s` is whitespace. */
  predicate IsTrimmed(s: string) {
    s == [] || (!IsWhitespace(s[0]) && !IsWhitespace(s[|s| - 1]))
  }

  /** `str::trim_start`: drops the longest all-whitespace prefix. */
  function TrimStart(s: string): (r: string)
    ensures |r| <= |s| && r == s[|s| - |r|..]
    ensures forall i :: 0 <= i < |s| - |r| ==> IsWhitespace(s[i])
    ensures r == [] || !IsWhitespace(r[0])
  {
    if |s| > 0 && IsWhitespace(s[0]) then
      var r := TrimStart(s[1..]);
      assert forall i :: 0 < i < |s| - |r| ==> s[i] == s[1..][i - 1];
      r
    else s
  }

  /** `str::trim_end`: drops the longest all-whitespace suffix. */
  function TrimEnd(s: string): (r: string)
    ensures |r| <= |s| && r == s[..|r|]
    ensures forall i :: |r| <= i < |s| ==> IsWhitespace(s[i])
    ensures r == [] || !IsWhitespace(r[|r| - 1])
  {
    if |s| > 0 && IsWhitespace(s[|s| - 1]) then
      var r := TrimEnd(s[..|s| - 1]);
      assert forall i :: |r| <= i < |s| - 1 ==> s[i] == s[..|s| - 1][i];
      r
    else s
  }

  /** `r` is the part of `s` at offset `i`, and all that surrounds it in `s` is whitespace. */
  predicate StripsTo(s: string, i: int, r: string) {
    0 <= i && i + |r| <= |s| && r == s[i..i + |r|]
    && AllWhitespace(s[..i]) && AllWhitespace(s[i + |r|..])
  }

  /** `str::trim`: drops whitespace at both ends. */
  function Trim(s: string): (r: string)
    ensures IsTrimmed(r)
    ensures |r| <= |s|
    ensures r == s <==> IsTrimmed(s)
    ensures exists i :: StripsTo(s, i, r)
  {
    var e := TrimEnd(s);
    var r := TrimStart(e);
    assert IsTrimmed(r) by {
      assert r != [] ==> r[|r| - 1] == e[|e| - 1];
    }
    assert StripsTo(s, |e| - |r|, r) by {
      TrimRemovesOnlyEnds(s, e, r);
    }
    if IsTrimmed(s) then
      TrimEndOfTrimmed(s);
      TrimStartOfTrimmed(s);
      r
    else
      r
  }

  /**
   * Keeping a prefix `e` of `s` and then a suffix `r` of `e`, where everything
   * dropped is whitespace, leaves an infix of `s` between two all-whitespace parts.
   */
  lemma TrimRemovesOnlyEnds(s: string, e: string, r: string)
    requires |e| <= |s| && e == s[..|e|] && forall j :: |e| <= j < |s| ==> IsWhitespace(s[j])
    requires |r| <= |e| && r == e[|e| - |r|..] && forall j :: 0 <= j < |e| - |r| ==> IsWhitespace(e[j])
    ensures StripsTo(s, |e| - |r|, r)
  {
    var i := |e| - |r|;
    assert forall j :: 0 <= j < i ==> s[..i][j] == e[j];
    assert forall j :: 0 <= j < |s| - |e| ==> s[|e|..][j] == s[|e| + j];
  }

  lemma TrimEndOfTrimmed(s: string)
    requires IsTrimmed(s)
    ensures TrimEnd(s) == s
  {
  }

  lemma TrimStartOfTrimmed(s: string)
    requires IsTrimmed(s)
    ensures TrimStart(s) == s
  {
  }

  /** `str::ends_with`. */
  predicate EndsWith(s: string, suffix: string) {
    |suffix| <= |s| && s[|s| - |suffix|..] == suffix
  }

  /** `pattern` occurs in `s` starting at index `i`. */
  predicate OccursAt(s: string, pattern: string, i: int) {
    0 <= i && i + |pattern| <= |s| && s[i..i + |pattern|] == pattern
  }

  /**
   * `str::replace(from, to)` for a non-empty `from`: every leftmost,
   * non-overlapping occurrence of `from`, scanning left to right, becomes `to`.
   */
  function Replace(s: string, from: string, to: string): (r: string)
    requires |from| > 0
    ensures |to| <= |from| ==> |r| <= |s|
    ensures |s| < |from| ==> r == s
    decreases |s|
  {
    if |s| < |from| then s
    else if s[..|from|] == from then to + Replace(s[|from|..], from, to)
    else [s[0]] + Replace(s[1..], from, to)
  }

  /** Removing a pattern leaves the text unchanged exactly when the pattern does not occur. */
  lemma {:induction false} RemoveUnchangedIff(s: string, pattern: string)
    requires |pattern| > 0
    ensures Replace(s, pattern, []) == s <==> forall i :: !OccursAt(s, pattern, i)
  {
    if forall i :: !OccursAt(s, pattern, i) {
      NoOccurrenceUnchanged(s, pattern, []);
    } else {
      var i :| OccursAt(s, pattern, i);
      RemoveShrinks(s, pattern, i);
    }
  }

  lemma {:induction false} NoOccurrenceUnchanged(s: string, pattern: string, to: string)
    requires |pattern| > 0
    requires forall i :: !OccursAt(s, pattern, i)
    ensures Replace(s, pattern, to) == s
    decreases |s|
  {
    if |s| >= |pattern| {
      assert !OccursAt(s, pattern, 0);
      forall i ensures !OccursAt(s[1..], pattern, i) {
        assert !OccursAt(s, pattern, i + 1);
        if 0 <= i && i + |pattern| <= |s| - 1 {
          assert s[1..][i..i + |pattern|] == s[i + 1..i + 1 + |pattern|];
        }
      }
      NoOccurrenceUnchanged(s[1..], pattern, to);
      assert s == [s[0]] + s[1..];
    }
  }

  lemma {:induction false} RemoveShrinks(s: string, pattern: string, i: int)
    requires |pattern| > 0
    requires OccursAt(s, pattern, i)
    ensures |Replace(s, pattern, [])| < |s|
    decreases i
  {
    if i > 0 && s[..|pattern|] != pattern {
      assert s[1..][i - 1..i - 1 + |pattern|] == s[i..i + |pattern|];
      RemoveShrinks(s[1..], pattern, i - 1);
    }
  }

  /** No proper prefix of `p` is also a suffix of it, so two occurrences of `p` cannot overlap. */
  predicate NoSelfOverlap(p: string) {
    forall k :: 0 < k < |p| ==> p[k..] != p[..|p| - k]
  }

  predicate NoWhitespace(s: string) {
    forall i :: 0 <= i < |s| ==> !IsWhitespace(s[i])
  }

  lemma TrimStartAppend(a: string, b: string)
    requires !AllWhitespace(a) || b == [] || !IsWhitespace(b[0])
    ensures TrimStart(a + b) == TrimStart(a) + b
    decreases |a|
  {
    if a != [] && IsWhitespace(a[0]) {
      assert (a + b)[1..] == a[1..] + b;
      assert !AllWhitespace(a) ==> !AllWhitespace(a[1..]) by {
        if !AllWhitespace(a) {
          var i :| 0 <= i < |a| && !IsWhitespace(a[i]);
          assert a[1..][i - 1] == a[i];
        }
      }
      TrimStartAppend(a[1..], b);
    } else if a == [] {
      assert a + b == b;
    }
  }

  lemma {:induction false} TrimEndAppendWhitespace(a: string, w: string)
    requires AllWhitespace(w)
    ensures TrimEnd(a + w) == TrimEnd(a)
    decreases |w|
  {
    if w == [] {
      assert a + w == a;
    } else {
      assert (a + w)[..|a + w| - 1] == a + w[..|w| - 1];
      TrimEndAppendWhitespace(a, w[..|w| - 1]);
    }
  }

  /** A string is its trailing-trimmed part followed by the whitespace removed; returns that whitespace. */
  lemma TrimEndSplit(s: string) returns (w: string)
    ensures s == TrimEnd(s) + w && AllWhitespace(w)
    ensures TrimEnd(s) != [] ==> !AllWhitespace(TrimEnd(s))
  {
    var e := TrimEnd(s);
    w := s[|e|..];
    forall i | 0 <= i < |w| ensures IsWhitespace(w[i]) {
      assert w[i] == s[|e| + i];
    }
    if e != [] {
      assert !IsWhitespace(e[|e| - 1]);
    }
  }

  /** A string that is whitespace throughout trims to nothing from either end. */
  lemma TrimStartOfBlank(s: string)
    requires TrimEnd(s) == []
    ensures TrimStart(s) == []
  {
    TrimStartOfWhitespace(s);
  }

  lemma {:induction false} TrimStartOfWhitespace(s: string)
    requires AllWhitespace(s)
    ensures TrimStart(s) == []
    decreases |s|
  {
    if s != [] {
      assert IsWhitespace(s[0]);
      assert AllWhitespace(s[1..]) by {
        forall i | 0 <= i < |s[1..]| ensures IsWhitespace(s[1..][i]) {
          assert s[1..][i] == s[i + 1];
        }
      }
      TrimStartOfWhitespace(s[1..]);
    }
  }

  lemma TrimAppendWhitespace(a: string, w: string)
    requires AllWhitespace(w)
    ensures Trim(a + w) == Trim(a)
  {
    TrimEndAppendWhitespace(a, w);
  }

  /** Whitespace after the text passes through a replacement of a pattern that holds no whitespace. */
  lemma {:induction false} ReplaceAppendWhitespace(x: string, w: string, from: string, to: string)
    requires |from| > 0 && NoWhitespace(from)
    requires AllWhitespace(w)
    ensures Replace(x + w, from, to) == Replace(x, from, to) + w
    decreases |x|
  {
    if |x| < |from| <= |x + w| {
      assert (x + w)[..|from|][|x|] == w[0];
      assert !IsWhitespace(from[|x|]);
    }
    if x == [] {
      forall i ensures !OccursAt(w, from, i) {
        if 0 <= i < |w| { assert w[i] != from[0]; }
      }
      NoOccurrenceUnchanged(w, from, to);
      assert x + w == w;
    } else if |x + w| >= |from| && (x + w)[..|from|] == from {
      assert x[..|from|] == from;
      assert (x + w)[|from|..] == x[|from|..] + w;
      ReplaceAppendWhitespace(x[|from|..], w, from, to);
    } else {
      assert (x + w)[1..] == x[1..] + w;
      ReplaceAppendWhitespace(x[1..], w, from, to);
      if |x| >= |from| {
        assert x[..|from|] == (x + w)[..|from|];
      } else {
        assert x == [x[0]] + x[1..];
      }
    }
  }

  /**
   * An occurrence of a pattern that cannot overlap itself is always replaced,
   * whatever comes before and after it.
   */
  lemma ReplaceAroundPattern(x: string, from: string, to: string, rest: string)
    requires |from| > 0 && NoSelfOverlap(from)
    ensures Replace(x + from + rest, from, to) == Replace(x, from, to) + to + Replace(rest, from, to)
  {
    var t := from + rest;
    assert x + from + rest == x + t;
    assert t[..|from|] == from && t[|from|..] == rest;
    ReplaceBeforePattern(x, from, to, t);
  }

  /** Text ahead of an occurrence of a self-overlap-free pattern is replaced on its own. */
  lemma {:induction false} ReplaceBeforePattern(x: string, from: string, to: string, t: string)
    requires |from| > 0 && NoSelfOverlap(from)
    requires |t| >= |from| && t[..|from|] == from
    ensures Replace(x + t, from, to) == Replace(x, from, to) + Replace(t, from, to)
    decreases |x|, 1
  {
    if x == [] {
      assert x + t == t;
    } else if |x| < |from| {
      ReplaceBeforePatternShort(x, from, to, t);
    } else if x[..|from|] == from {
      ReplaceBeforePatternMatch(x, from, to, t);
    } else {
      ReplaceBeforePatternSkip(x, from, to, t);
    }
  }

  lemma {:induction false} ReplaceBeforePatternShort(x: string, from: string, to: string, t: string)
    requires |from| > 0 && NoSelfOverlap(from)
    requires |t| >= |from| && t[..|from|] == from
    requires 0 < |x| < |from|
    ensures Replace(x + t, from, to) == Replace(x, from, to) + Replace(t, from, to)
    decreases |x|, 0
  {
    var y := x[1..];
    var r := Replace(t, from, to);
    assert x + t == [x[0]] + (y + t) && x == [x[0]] + y;
    assert Replace(x + t, from, to) == [x[0]] + Replace(y + t, from, to) by {
      NoMatchStraddling(x, from, t);
      ReplaceSkipsFirst(x + t, from, to);
      assert (x + t)[1..] == y + t;
    }
    assert Replace(y + t, from, to) == y + r by {
      ReplaceBeforePattern(y, from, to, t);
    }
  }

  /** Where the pattern does not start, one character is kept as it is. */
  lemma ReplaceSkipsFirst(s: string, from: string, to: string)
    requires |from| > 0 && |s| >= |from| && s[..|from|] != from
    ensures Replace(s, from, to) == [s[0]] + Replace(s[1..], from, to)
  {
  }

  lemma {:induction false} ReplaceBeforePatternMatch(x: string, from: string, to: string, t: string)
    requires |from| > 0 && NoSelfOverlap(from)
    requires |t| >= |from| && t[..|from|] == from
    requires |x| >= |from| && x[..|from|] == from
    ensures Replace(x + t, from, to) == Replace(x, from, to) + Replace(t, from, to)
    decreases |x|, 0
  {
    var s := x + t;
    assert s[..|from|] == x[..|from|];
    assert s[|from|..] == x[|from|..] + t;
    ReplaceBeforePattern(x[|from|..], from, to, t);
  }

  lemma {:induction false} ReplaceBeforePatternSkip(x: string, from: string, to: string, t: string)
    requires |from| > 0 && NoSelfOverlap(from)
    requires |t| >= |from| && t[..|from|] == from
    requires |x| >= |from| && x[..|from|] != from
    ensures Replace(x + t, from, to) == Replace(x, from, to) + Replace(t, from, to)
    decreases |x|, 0
  {
    var s := x + t;
    assert s[..|from|] == x[..|from|];
    assert s[1..] == x[1..] + t;
    ReplaceBeforePattern(x[1..], from, to, t);
  }

  lemma NoMatchStraddling(x: string, from: string, t: string)
    requires |from| > 0 && NoSelfOverlap(from)
    requires 0 < |x| < |from| && |t| >= |from| && t[..|from|] == from
    ensures (x + t)[..|from|] != from
  {
    var y := (x + t)[..|from|];
    assert y[|x|..] == from[..|from| - |x|];
    assert from[|x|..] != from[..|from| - |x|];
  }
}
