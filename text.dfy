/**
 * String helpers with JavaScript semantics: `String.prototype.endsWith`,
 * `startsWith`, `trim` and the first field of `split(' ')`.
 */
module Text {

  predicate StartsWith(s: string, prefix: string) {
    |prefix| <= |s| && s[..|prefix|] == prefix
  }

  predicate EndsWith(s: string, suffix: string) {
    |suffix| <= |s| && s[|s| - |suffix|..] == suffix
  }

  lemma {:induction false} EndsWithConcat(a: string, b: string)
    ensures EndsWith(a + b, b)
  {
    assert (a + b)[|a + b| - |b|..] == b;
  }

  /** Two suffixes of one string: the shorter is a suffix of the longer. */
  lemma EndsWithBoth(s: string, a: string, b: string)
    requires EndsWith(s, a) && EndsWith(s, b) && |b| <= |a|
    ensures EndsWith(a, b)
  {
    assert a[|a| - |b|..] == s[|s| - |b|..];
  }

  lemma StartsWithConcat(a: string, b: string)
    ensures StartsWith(a + b, a)
  {
    assert (a + b)[..|a|] == a;
  }

  /** The characters `String.prototype.trim` removes: WhiteSpace and LineTerminator of ECMA-262. */
  predicate IsJsSpace(c: char) {
    c == '\t' || c == '\n' || c == '\U{000B}' || c == '\U{000C}' || c == '\r' || c == ' '
    || c == '\U{00A0}' || c == '\U{1680}' || ('\U{2000}' <= c <= '\U{200A}')
    || c == '\U{2028}' || c == '\U{2029}' || c == '\U{202F}' || c == '\U{205F}'
    || c == '\U{3000}' || c == '\U{FEFF}'
  }

  function TrimStart(s: string): (r: string)
    ensures |r| <= |s| && r == s[|s| - |r|..]
    ensures r == [] || !IsJsSpace(r[0])
    ensures forall i :: 0 <= i < |s| - |r| ==> IsJsSpace(s[i])
  {
    if s != [] && IsJsSpace(s[0]) then TrimStart(s[1..]) else s
  }

  function TrimEnd(s: string): (r: string)
    ensures |r| <= |s| && r == s[..|r|]
    ensures r == [] || !IsJsSpace(r[|r| - 1])
    ensures forall i :: |r| <= i < |s| ==> IsJsSpace(s[i])
  {
    if s != [] && IsJsSpace(s[|s| - 1]) then TrimEnd(s[..|s| - 1]) else s
  }

  /** `s.trim()`: drops leading and trailing white space, keeps the middle untouched. */
  function Trim(s: string): (r: string)
    ensures Trimmed(s, r)
    ensures Bare(s) ==> r == s
  {
    TrimEndsOfStart(s);
    TrimEnd(TrimStart(s))
  }

  lemma TrimEndsOfStart(s: string)
    ensures Trimmed(s, TrimEnd(TrimStart(s)))
    ensures Bare(s) ==> TrimEnd(TrimStart(s)) == s
  {
    var t := TrimStart(s);
    var r := TrimEnd(t);
    var i := |s| - |t|;
    assert Bare(r) by {
      if r != [] {
        assert r[0] == t[0];
      }
    }
    assert SpaceIn(t, |r|, |t|);
    MiddleSlice(s, t, r);
    if Bare(s) {
      BareKept(s);
    }
  }

  /** The part kept by trimming both ends lies in `s` between two runs of white space. */
  lemma MiddleSlice(s: string, t: string, r: string)
    requires |t| <= |s| && t == s[|s| - |t|..] && SpaceIn(s, 0, |s| - |t|)
    requires |r| <= |t| && r == t[..|r|] && SpaceIn(t, |r|, |t|)
    ensures var i := |s| - |t|; SliceAt(s, r, i) && SpaceIn(s, 0, i) && SpaceIn(s, i + |r|, |s|)
  {
    var i := |s| - |t|;
    assert SliceAt(s, r, i);
    assert SpaceIn(s, i + |r|, |s|) by {
      forall k | i + |r| <= k < |s| ensures IsJsSpace(s[k]) {
        assert s[k] == t[k - i];
      }
    }
  }

  lemma BareKept(s: string)
    requires Bare(s)
    ensures TrimEnd(TrimStart(s)) == s
  {
    assert TrimStart(s) == s;
  }

  /**
   * `r` is `s` with the white space at both ends removed: a slice of `s`
   * with no white space at its ends, and only white space around it.
   */
  predicate Trimmed(s: string, r: string) {
    Bare(r) && exists i | 0 <= i <= |s| - |r| :: SliceAt(s, r, i) && SpaceIn(s, 0, i) && SpaceIn(s, i + |r|, |s|)
  }

  /** Every character of `s` from `lo` up to `hi` is white space. */
  predicate SpaceIn(s: string, lo: int, hi: int) {
    forall k :: lo <= k < hi && 0 <= k < |s| ==> IsJsSpace(s[k])
  }

  /** Only one string is `s` trimmed, so `Trim`'s contract determines its result. */
  lemma TrimmedIsUnique(s: string, r: string, t: string)
    requires Trimmed(s, r) && Trimmed(s, t)
    ensures r == t
  {
    var i :| 0 <= i <= |s| - |r| && SliceAt(s, r, i) && SpaceIn(s, 0, i) && SpaceIn(s, i + |r|, |s|);
    var j :| 0 <= j <= |s| - |t| && SliceAt(s, t, j) && SpaceIn(s, 0, j) && SpaceIn(s, j + |t|, |s|);
    SameSlice(s, r, i, t, j);
  }

  lemma SameSlice(s: string, r: string, i: int, t: string, j: int)
    requires Bare(r) && SliceAt(s, r, i) && SpaceIn(s, 0, i) && SpaceIn(s, i + |r|, |s|)
    requires Bare(t) && SliceAt(s, t, j) && SpaceIn(s, 0, j) && SpaceIn(s, j + |t|, |s|)
    ensures r == t
  {
    if r != [] {
      assert r[0] == s[i] && r[|r| - 1] == s[i + |r| - 1];
      assert !IsJsSpace(s[i]) && !IsJsSpace(s[i + |r| - 1]);
    }
    if t != [] {
      assert t[0] == s[j] && t[|t| - 1] == s[j + |t| - 1];
      assert !IsJsSpace(s[j]) && !IsJsSpace(s[j + |t| - 1]);
    }
    if r != [] && t != [] {
      FirstNonSpace(s, i, j);
      LastNonSpace(s, i + |r| - 1, j + |t| - 1);
    }
  }

  /** Two positions that are not white space and have only white space before them are the same. */
  lemma FirstNonSpace(s: string, i: int, j: int)
    requires 0 <= i < |s| && 0 <= j < |s| && SpaceIn(s, 0, i) && SpaceIn(s, 0, j)
    requires !IsJsSpace(s[i]) && !IsJsSpace(s[j])
    ensures i == j
  {
  }

  /** Two positions that are not white space and have only white space after them are the same. */
  lemma LastNonSpace(s: string, i: int, j: int)
    requires 0 <= i < |s| && 0 <= j < |s| && SpaceIn(s, i + 1, |s|) && SpaceIn(s, j + 1, |s|)
    requires !IsJsSpace(s[i]) && !IsJsSpace(s[j])
    ensures i == j
  {
  }

  /** `r` occurs in `s` starting at index `i`. */
  predicate SliceAt(s: string, r: string, i: int) {
    0 <= i <= |s| - |r| && r == s[i..i + |r|]
  }

  /** Neither end of `s` is white space, so trimming leaves it alone. */
  predicate Bare(s: string) {
    s == [] || (!IsJsSpace(s[0]) && !IsJsSpace(s[|s| - 1]))
  }

  /** `s.split(sep)[0]`: everything before the first occurrence of `sep`, or all of `s`. */
  function FirstField(s: string, sep: char): (r: string)
    ensures sep !in r
    ensures StartsWith(s, r)
    ensures r == s || (|r| < |s| && s[|r|] == sep)
  {
    if s == [] || s[0] == sep then [] else [s[0]] + FirstField(s[1..], sep)
  }
}
