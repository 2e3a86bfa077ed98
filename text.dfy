/**
 * The Python `str` operations the conflict engine is built from:
 * `str.strip()`, the `in` substring test, `str.split(sep)` and `sep.join(parts)`,
 * each defined on `seq<char>` with the semantics of CPython 3.
 */
module Text {
  import opened Wrappers

  /** `c.isspace()` in Python 3: the characters `str.strip()` with no argument removes. */
  predicate IsSpace(c: char) {
    ('\t' <= c <= '\r') || ('\U{1c}' <= c <= ' ') || c == '\U{85}' || c == '\U{a0}'
    || c == '\U{1680}' || ('\U{2000}' <= c <= '\U{200a}') || c == '\U{2028}' || c == '\U{2029}'
    || c == '\U{202f}' || c == '\U{205f}' || c == '\U{3000}'
  }

  predicate AllSpace(s: string) {
    forall k :: 0 <= k < |s| ==> IsSpace(s[k])
  }

  /** The index of the first non-whitespace character of `s` at or after `i` (or `|s|`). */
  function SkipSpace(s: string, i: nat): (r: nat)
    requires i <= |s|
    ensures i <= r <= |s|
    decreases |s| - i
  {
    if i < |s| && IsSpace(s[i]) then SkipSpace(s, i + 1) else i
  }

  /** `SkipSpace` passes over whitespace only, and stops at the end or at a non-whitespace character. */
  lemma {:induction false} SkipSpaceSpec(s: string, i: nat)
    requires i <= |s|
    ensures forall k :: i <= k < SkipSpace(s, i) ==> IsSpace(s[k])
    ensures SkipSpace(s, i) == |s| || !IsSpace(s[SkipSpace(s, i)])
    decreases |s| - i
  {
    if i < |s| && IsSpace(s[i]) {
      SkipSpaceSpec(s, i + 1);
    }
  }

  /** The index just past the last non-whitespace character of `s[lo..j]` (or `lo`). */
  function SkipSpaceBack(s: string, lo: nat, j: nat): (r: nat)
    requires lo <= j <= |s|
    ensures lo <= r <= j
    decreases j
  {
    if lo < j && IsSpace(s[j - 1]) then SkipSpaceBack(s, lo, j - 1) else j
  }

  /** `SkipSpaceBack` passes over whitespace only, and stops at `lo` or after a non-whitespace character. */
  lemma {:induction false} SkipSpaceBackSpec(s: string, lo: nat, j: nat)
    requires lo <= j <= |s|
    ensures forall k :: SkipSpaceBack(s, lo, j) <= k < j ==> IsSpace(s[k])
    ensures SkipSpaceBack(s, lo, j) == lo || !IsSpace(s[SkipSpaceBack(s, lo, j) - 1])
    decreases j
  {
    if lo < j && IsSpace(s[j - 1]) {
      SkipSpaceBackSpec(s, lo, j - 1);
    }
  }

  /** `s.strip()`: the slice of `s` left once the whitespace at both ends is cut away. */
  function Strip(s: string): (r: string)
    ensures |r| <= |s|
  {
    s[SkipSpace(s, 0)..SkipSpaceBack(s, SkipSpace(s, 0), |s|)]
  }

  /**
   * What `strip` keeps starts and ends with a non-whitespace character, and it is empty
   * exactly when `s` is all whitespace, which is when Python's `not s.strip()` holds.
   */
  lemma StripSpec(s: string)
    ensures Strip(s) == [] || (!IsSpace(Strip(s)[0]) && !IsSpace(Strip(s)[|Strip(s)| - 1]))
    ensures Strip(s) == [] <==> AllSpace(s)
  {
    var a := SkipSpace(s, 0);
    SkipSpaceSpec(s, 0);
    SkipSpaceBackSpec(s, a, |s|);
  }

  /** What `strip` removes is whitespace, at the two ends only. */
  lemma StripIsSlice(s: string)
    ensures exists a: nat, b: nat :: a <= b <= |s| && Strip(s) == s[a..b] && AllSpace(s[..a]) && AllSpace(s[b..])
  {
    var a := SkipSpace(s, 0);
    var b := SkipSpaceBack(s, a, |s|);
    SkipSpaceSpec(s, 0);
    SkipSpaceBackSpec(s, a, |s|);
    assert AllSpace(s[..a]) && AllSpace(s[b..]);
  }

  /** `pat` occurs in `s` starting at index `i`. */
  predicate OccursAt(s: string, pat: string, i: nat) {
    i + |pat| <= |s| && s[i..i + |pat|] == pat
  }

  /** `pat in s` in Python. */
  predicate Contains(s: string, pat: string) {
    exists i: nat :: i <= |s| && OccursAt(s, pat, i)
  }

  /** The first occurrence of `pat` in `s` at or after `from`, as `s.find(pat, from)` finds it. */
  function FindFrom(s: string, pat: string, from: nat): (r: Option<nat>)
    requires from <= |s|
    ensures r.Some? ==> from <= r.value && OccursAt(s, pat, r.value)
    ensures r.Some? ==> forall j: nat :: from <= j < r.value ==> !OccursAt(s, pat, j)
    ensures r.None? ==> forall j: nat :: from <= j <= |s| ==> !OccursAt(s, pat, j)
    decreases |s| - from
  {
    if OccursAt(s, pat, from) then Some(from)
    else if from == |s| then None
    else FindFrom(s, pat, from + 1)
  }

  function Find(s: string, pat: string): (r: Option<nat>)
    ensures r.Some? <==> Contains(s, pat)
    ensures r.Some? ==> OccursAt(s, pat, r.value) && forall j: nat :: j < r.value ==> !OccursAt(s, pat, j)
  {
    FindFrom(s, pat, 0)
  }

  /** An occurrence with none before it is the one `Find` returns. */
  lemma FindFirst(s: string, pat: string, i: nat)
    requires OccursAt(s, pat, i)
    requires forall j: nat :: j < i ==> !OccursAt(s, pat, j)
    ensures Find(s, pat) == Some(i)
  {
  }

  /** `sep.join(parts)`. */
  function Join(parts: seq<string>, sep: string): string {
    if |parts| == 0 then ""
    else if |parts| == 1 then parts[0]
    else parts[0] + sep + Join(parts[1..], sep)
  }

  /**
   * `s.split(sep)`: the pieces between the successive non-overlapping occurrences of `sep`,
   * searched from left to right. There is always at least one piece, no piece contains `sep`,
   * joining the pieces with `sep` gives `s` back, and there are two or more exactly when
   * `sep in s`. Python rejects an empty separator.
   */
  function SplitOn(s: string, sep: string): (r: seq<string>)
    requires |sep| > 0
    ensures |r| >= 1
    ensures Join(r, sep) == s
    ensures |r| >= 2 <==> Contains(s, sep)
    decreases |s|
  {
    match Find(s, sep)
    case None => [s]
    case Some(i) =>
      assert s == s[..i] + sep + s[i + |sep|..];
      [s[..i]] + SplitOn(s[i + |sep|..], sep)
  }

  /** No piece of `s.split(sep)` contains `sep`. */
  lemma {:induction false} SplitPiecesLackSep(s: string, sep: string)
    requires |sep| > 0
    ensures forall k :: 0 <= k < |SplitOn(s, sep)| ==> !Contains(SplitOn(s, sep)[k], sep)
    decreases |s|
  {
    match Find(s, sep)
    case None =>
    case Some(i) =>
      var head := s[..i];
      forall j: nat | j <= |head| ensures !OccursAt(head, sep, j) {
        if j + |sep| <= i {
          assert head[j..j + |sep|] == s[j..j + |sep|];
          assert !OccursAt(s, sep, j);
        }
      }
      SplitPiecesLackSep(s[i + |sep|..], sep);
  }

  /** The first piece of `s.split(sep)` is the text before the first `sep`. */
  lemma SplitHead(s: string, sep: string)
    requires |sep| > 0
    ensures Find(s, sep).None? ==> SplitOn(s, sep) == [s]
    ensures Find(s, sep).Some? ==>
      SplitOn(s, sep)[0] == s[..Find(s, sep).value] &&
      SplitOn(s, sep)[1..] == SplitOn(s[Find(s, sep).value + |sep|..], sep)
  {
  }

  /** The first piece of `s.split(sep)` is no longer than `s`. */
  lemma SplitHeadBound(s: string, sep: string)
    requires |sep| > 0
    ensures |SplitOn(s, sep)[0]| <= |s|
  {
    SplitHead(s, sep);
  }

  /**
   * Splitting `a + sep + b`, where `a` holds no `sep`, cuts at the `sep` written after `a`,
   * provided no occurrence can straddle the seam: either `a` does not end with a character
   * of `sep`, or the last character of `sep` appears nowhere else in it.
   */
  lemma SplitAtFirst(a: string, sep: string, b: string)
    requires |sep| > 0 && !Contains(a, sep)
    requires (a != [] ==> a[|a| - 1] !in sep) || sep[|sep| - 1] !in sep[..|sep| - 1]
    ensures SplitOn(a + sep + b, sep) == [a] + SplitOn(b, sep)
  {
    var s := a + sep + b;
    assert s[|a|..|a| + |sep|] == sep;
    NoEarlierOccurrence(a, sep, b);
    FindFirst(s, sep, |a|);
    SplitHead(s, sep);
    assert s[|a| + |sep|..] == b;
  }

  /** Under the conditions of `SplitAtFirst`, `sep` does not occur in `a + sep + b` before `|a|`. */
  lemma NoEarlierOccurrence(a: string, sep: string, b: string)
    requires |sep| > 0 && !Contains(a, sep)
    requires (a != [] ==> a[|a| - 1] !in sep) || sep[|sep| - 1] !in sep[..|sep| - 1]
    ensures forall j: nat :: j < |a| ==> !OccursAt(a + sep + b, sep, j)
  {
    var s := a + sep + b;
    forall j: nat | j < |a| ensures !OccursAt(s, sep, j) {
      if j + |sep| <= |a| {
        assert s[j..j + |sep|] == a[j..j + |sep|];
        assert !OccursAt(a, sep, j);
      } else {
        Straddle(a, sep, b, j);
      }
    }
  }

  /** No occurrence of `sep` starts inside `a` and ends inside the written `sep`. */
  lemma Straddle(a: string, sep: string, b: string, j: nat)
    requires |sep| > 0 && j < |a| < j + |sep|
    requires (a != [] ==> a[|a| - 1] !in sep) || sep[|sep| - 1] !in sep[..|sep| - 1]
    ensures !OccursAt(a + sep + b, sep, j)
  {
    var s := a + sep + b;
    var w := s[j..j + |sep|];
    assert w[|a| - 1 - j] == a[|a| - 1];
    assert w[|sep| - 1] == sep[j + |sep| - 1 - |a|] == sep[..|sep| - 1][j + |sep| - 1 - |a|];
  }

  /** A string without the first character of `pat` cannot contain `pat`. */
  lemma LacksFirstChar(s: string, pat: string)
    requires |pat| > 0 && pat[0] !in s
    ensures !Contains(s, pat)
  {
    forall i: nat | i + |pat| <= |s| ensures !OccursAt(s, pat, i) {
      assert s[i..i + |pat|][0] == s[i];
    }
  }

  /**
   * What a file opened with `open(path, 'r')` reads as: universal newlines, so each `\r\n`
   * and each lone `\r` becomes one `\n`. The result holds no carriage return and is never
   * longer than the stored text.
   */
  function Newlines(s: string): (r: string)
    ensures '\r' !in r && |r| <= |s|
    decreases |s|
  {
    if s == [] then []
    else if s[0] == '\r' then "\n" + Newlines(if |s| > 1 && s[1] == '\n' then s[2..] else s[1..])
    else [s[0]] + Newlines(s[1..])
  }

  /** Text without carriage returns reads back exactly as stored. */
  lemma {:induction false} NewlinesKeepsLineFeeds(s: string)
    requires '\r' !in s
    ensures Newlines(s) == s
    decreases |s|
  {
    if s != [] {
      assert '\r' !in s[1..];
      NewlinesKeepsLineFeeds(s[1..]);
    }
  }

  /** Reading a file back after writing what was read gives the same text. */
  lemma NewlinesIdempotent(s: string)
    ensures Newlines(Newlines(s)) == Newlines(s)
  {
    NewlinesKeepsLineFeeds(Newlines(s));
  }
}
