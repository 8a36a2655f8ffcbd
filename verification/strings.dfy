/**
 * The string and path operations the scripts use on file names:
 * `str.lower`, `str.endswith`, `os.path.basename` and `os.path.splitext`,
 * with `RFind` modelling the backward searches `os.path.splitext` does
 * internally.
 *
 * The scripts target Windows, so a path separator is either `\` or `/`.
 */
module Strings {

  predicate IsUpper(c: char) { 'A' <= c <= 'Z' }

  /** ASCII lowercasing of one character. */
  function LowerChar(c: char): char {
    if IsUpper(c) then (c as int + 32) as char else c
  }

  /** `s.lower()` */
  function Lower(s: string): string
    decreases |s|
  {
    if s == [] then [] else [LowerChar(s[0])] + Lower(s[1..])
  }

  /** Lowercasing maps each character on its own and leaves no upper-case letter. */
  lemma {:induction false} LowerSpec(s: string)
    ensures |Lower(s)| == |s|
    ensures forall i :: 0 <= i < |s| ==> Lower(s)[i] == LowerChar(s[i])
    ensures forall i :: 0 <= i < |s| ==> !IsUpper(Lower(s)[i])
    decreases |s|
  {
    if s != [] {
      LowerSpec(s[1..]);
      assert forall i :: 0 < i < |s| ==> s[1..][i - 1] == s[i];
    }
  }

  /** Lowercasing distributes over concatenation. */
  lemma {:induction false} LowerAppend(a: string, b: string)
    ensures Lower(a + b) == Lower(a) + Lower(b)
    decreases |a|
  {
    if a == [] {
      assert a + b == b;
    } else {
      assert (a + b)[1..] == a[1..] + b;
      LowerAppend(a[1..], b);
    }
  }

  /** Lowercasing a lowercase string changes nothing. */
  lemma LowerIdempotent(s: string)
    ensures Lower(Lower(s)) == Lower(s)
  {
    LowerSpec(s);
    LowerSpec(Lower(s));
  }

  /** `s.endswith(suffix)` */
  predicate EndsWith(s: string, suffix: string) {
    |suffix| <= |s| && s[|s| - |suffix|..] == suffix
  }

  predicate IsSep(c: char) { c == '\\' || c == '/' }

  predicate NoSep(s: string) {
    forall i :: 0 <= i < |s| ==> !IsSep(s[i])
  }

  /** `os.path.basename(p)` */
  function BaseName(p: string): string
    decreases |p|
  {
    if p == [] then []
    else if IsSep(p[|p| - 1]) then []
    else BaseName(p[..|p| - 1]) + [p[|p| - 1]]
  }

  /** The base name is the longest separator-free suffix of the path. */
  lemma {:induction false} BaseNameSpec(p: string)
    ensures NoSep(BaseName(p))
    ensures |BaseName(p)| <= |p| && BaseName(p) == p[|p| - |BaseName(p)|..]
    ensures |BaseName(p)| < |p| ==> IsSep(p[|p| - |BaseName(p)| - 1])
    decreases |p|
  {
    if p != [] && !IsSep(p[|p| - 1]) {
      var q := p[..|p| - 1];
      BaseNameSpec(q);
      assert p[|p| - |BaseName(p)|..] == q[|q| - |BaseName(q)|..] + [p[|p| - 1]];
    }
  }

  /** `s.rfind(c)`: the last position of `c`, or -1. */
  function RFind(s: string, c: char): (i: int)
    ensures -1 <= i < |s|
    decreases |s|
  {
    if s == [] then -1
    else if s[|s| - 1] == c then |s| - 1
    else RFind(s[..|s| - 1], c)
  }

  /** `rfind` finds the last occurrence, or reports that there is none. */
  lemma {:induction false} RFindSpec(s: string, c: char)
    ensures -1 <= RFind(s, c) < |s|
    ensures 0 <= RFind(s, c) ==> s[RFind(s, c)] == c
    ensures forall j :: RFind(s, c) < j < |s| ==> s[j] != c
    decreases |s|
  {
    if s != [] && s[|s| - 1] != c {
      RFindSpec(s[..|s| - 1], c);
    }
  }

  /** The position of the last separator of `p`, or -1. */
  function LastSep(p: string): int {
    var back, slash := RFind(p, '\\'), RFind(p, '/');
    if back < slash then slash else back
  }

  /** Some character in `s[lo..hi]` is not a dot. */
  predicate HasNonDot(s: string, lo: int, hi: int)
    requires 0 <= lo && hi <= |s|
  {
    exists i :: lo <= i < hi && s[i] != '.'
  }

  /**
   * `os.path.splitext(p)`: the extension runs from the last dot of the last
   * path component, unless everything before that dot in the component is dots.
   */
  function SplitExt(p: string): (string, string) {
    var sepIndex := LastSep(p);
    var dotIndex := RFind(p, '.');
    if dotIndex > sepIndex && HasNonDot(p, sepIndex + 1, dotIndex) then (p[..dotIndex], p[dotIndex..])
    else (p, [])
  }

  /** `os.path.splitext(p)[0]` */
  function Root(p: string): string { SplitExt(p).0 }

  /**
   * The last path component of `p` holds a dot with some other character
   * before it: position `i` is a non-dot, `j > i` is a dot, and no separator
   * comes at or after `i`.
   */
  ghost predicate HasExtension(p: string) {
    exists i, j :: 0 <= i < j < |p| && p[i] != '.' && p[j] == '.' && NoSep(p[i..])
  }

  /**
   * The two parts rebuild the path. The extension is non-empty exactly when
   * the last component has a dot after some other character, and it is then
   * one dot followed by neither dots nor separators, so it starts at the
   * last dot.
   */
  lemma SplitExtSpec(p: string)
    ensures SplitExt(p).0 + SplitExt(p).1 == p
    ensures SplitExt(p).1 != [] <==> HasExtension(p)
    ensures SplitExt(p).1 != [] ==>
      && SplitExt(p).1[0] == '.'
      && NoSep(SplitExt(p).1)
      && '.' !in SplitExt(p).1[1..]
  {
    RFindSpec(p, '.');
    if SplitExt(p).1 != [] {
      var dotIndex := RFind(p, '.');
      var ext := p[dotIndex..];
      assert forall j :: 0 < j < |ext| ==> ext[j] == p[dotIndex + j];
      SplitExtFindsExtension(p);
    }
    if HasExtension(p) {
      ExtensionIsSplit(p);
    }
  }

  /** A split-off extension lies in the last component, after some non-dot. */
  lemma SplitExtFindsExtension(p: string)
    requires SplitExt(p).1 != []
    ensures HasExtension(p)
  {
    RFindSpec(p, '.');
    RFindSpec(p, '\\');
    RFindSpec(p, '/');
    var dotIndex, sepIndex := RFind(p, '.'), LastSep(p);
    var i :| sepIndex + 1 <= i < dotIndex && p[i] != '.';
    NoSepFrom(p, i);
    assert p[i] != '.' && p[dotIndex] == '.' && NoSep(p[i..]);
  }

  /** A dot after a non-dot in the last component is split off. */
  lemma ExtensionIsSplit(p: string)
    requires HasExtension(p)
    ensures SplitExt(p).1 != []
  {
    RFindSpec(p, '.');
    RFindSpec(p, '\\');
    RFindSpec(p, '/');
    var dotIndex, sepIndex := RFind(p, '.'), LastSep(p);
    var i, j :| 0 <= i < j < |p| && p[i] != '.' && p[j] == '.' && NoSep(p[i..]);
    var back, slash := RFind(p, '\\'), RFind(p, '/');
    if i <= back {
      NoSepAt(p, i, back);
    }
    if i <= slash {
      NoSepAt(p, i, slash);
    }
    assert sepIndex < i < j <= dotIndex;
    assert HasNonDot(p, sepIndex + 1, dotIndex);
  }

  /** No separator at or after `i` makes the suffix from `i` separator-free. */
  lemma NoSepFrom(p: string, i: int)
    requires 0 <= i <= |p|
    requires forall m :: i <= m < |p| ==> !IsSep(p[m])
    ensures NoSep(p[i..])
  {
    assert forall m :: 0 <= m < |p[i..]| ==> p[i..][m] == p[i + m];
  }

  /** A separator-free suffix holds no separator at any of its positions. */
  lemma NoSepAt(p: string, i: int, m: int)
    requires 0 <= i <= m < |p| && NoSep(p[i..])
    ensures !IsSep(p[m])
  {
    assert p[i..][m - i] == p[m];
  }

  /** `rfind` returns a position holding `c` with no `c` after it. */
  lemma RFindIs(s: string, c: char, d: int)
    requires -1 <= d < |s|
    requires 0 <= d ==> s[d] == c
    requires forall j :: d < j < |s| ==> s[j] != c
    ensures RFind(s, c) == d
  {
    RFindSpec(s, c);
  }

  /** A name without separators that ends in a four-character extension keeps what precedes it. */
  lemma SplitExtOfSuffix(name: string, ext: string)
    requires NoSep(name) && |ext| == 4 && EndsWith(name, ext)
    requires ext[0] == '.' && '.' !in ext[1..]
    requires HasNonDot(name, 0, |name| - 4)
    ensures SplitExt(name) == (name[..|name| - 4], ext)
  {
    var d := |name| - 4;
    assert name[d..] == ext;
    forall j | d < j < |name|
      ensures name[j] != '.'
    {
      assert name[j] == ext[1..][j - d - 1];
    }
    RFindIs(name, '.', d);
    RFindIs(name, '\\', -1);
    RFindIs(name, '/', -1);
  }
}
