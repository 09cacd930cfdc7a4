/** The three pieces of Python's `posixpath` that faceblur.py relies on for file
    names: `splitext`, `basename` and the two-argument `join`. Paths are strings
    (`seq<char>`); the separator is '/' and the extension separator is '.'. */
module PosixPath {

  const Sep: char := '/'
  const ExtSep: char := '.'

  /** Index of the last occurrence of `c` in `s`, or -1 (Python's `str.rfind`). */
  function LastIndex(s: string, c: char): (r: int)
    ensures -1 <= r < |s|
    ensures r >= 0 ==> s[r] == c
    ensures forall k | r < k < |s| :: s[k] != c
    decreases |s|
  {
    if |s| == 0 then -1
    else if s[|s| - 1] == c then |s| - 1
    else LastIndex(s[..|s| - 1], c)
  }

  /** The last occurrence is unique: any position holding `c` with no `c` after it is it. */
  lemma LastIndexAt(s: string, c: char, k: int)
    requires -1 <= k < |s|
    requires k >= 0 ==> s[k] == c
    requires forall j | k < j < |s| :: s[j] != c
    ensures LastIndex(s, c) == k
  {
  }

  /** True when `s[from..to]` holds only dots. */
  predicate OnlyDots(s: string, from: int, to: int)
    requires 0 <= from && to <= |s|
  {
    forall k | from <= k < to :: s[k] == ExtSep
  }

  /** `os.path.splitext(p)`: the extension runs from the last dot of the final
      path component to the end, unless everything before that dot in the
      component is a dot too (leading dots do not start an extension). */
  function SplitExt(p: string): (string, string) {
    var sepIndex := LastIndex(p, Sep);
    var dotIndex := LastIndex(p, ExtSep);
    if dotIndex > sepIndex && !OnlyDots(p, sepIndex + 1, dotIndex)
    then (p[..dotIndex], p[dotIndex..]) else (p, [])
  }

  /** The two parts put back together give the path, and a non-empty
      extension is one dot followed by no dot and no separator. */
  lemma SplitExtParts(p: string)
    ensures SplitExt(p).0 + SplitExt(p).1 == p
    ensures var ext := SplitExt(p).1;
      ext != [] ==> ext[0] == ExtSep && ExtSep !in ext[1..] && Sep !in ext
  {
    var ext := SplitExt(p).1;
    if ext != [] {
      var dotIndex := LastIndex(p, ExtSep);
      forall j | 0 <= j < |ext| ensures ext[j] != Sep && (j > 0 ==> ext[j] != ExtSep) {
        assert ext[j] == p[dotIndex + j];
      }
    }
  }

  /** A name has an extension exactly when its final component has a dot with
      some character other than a dot before it. */
  lemma SplitExtIff(p: string)
    ensures SplitExt(p).1 != [] <==>
      exists k, d :: LastIndex(p, Sep) < k < d < |p| && p[k] != ExtSep && p[d] == ExtSep
  {
    var sepIndex := LastIndex(p, Sep);
    var dotIndex := LastIndex(p, ExtSep);
    var split := dotIndex > sepIndex && !OnlyDots(p, sepIndex + 1, dotIndex);
    if split {
      var k :| sepIndex + 1 <= k < dotIndex && p[k] != ExtSep;
      assert sepIndex < k < dotIndex < |p| && p[k] != ExtSep && p[dotIndex] == ExtSep;
    }
    if exists k, d :: sepIndex < k < d < |p| && p[k] != ExtSep && p[d] == ExtSep {
      var k, d :| sepIndex < k < d < |p| && p[k] != ExtSep && p[d] == ExtSep;
      assert d <= dotIndex;
      assert !OnlyDots(p, sepIndex + 1, dotIndex);
    }
  }

  /** `os.path.basename(p)`: everything after the last separator. */
  function Basename(p: string): string {
    p[LastIndex(p, Sep) + 1..]
  }

  /** The basename is a suffix of the path with no separator in it that
      starts right after the last separator, and a path without a separator
      is its own basename. */
  lemma BasenameParts(p: string)
    ensures Sep !in Basename(p)
    ensures |Basename(p)| <= |p| && p[|p| - |Basename(p)|..] == Basename(p)
    ensures |Basename(p)| < |p| ==> p[|p| - |Basename(p)| - 1] == Sep
    ensures Sep !in p ==> Basename(p) == p
  {
    var k := LastIndex(p, Sep);
    forall j | 0 <= j < |Basename(p)| ensures Basename(p)[j] != Sep {
      assert Basename(p)[j] == p[k + 1 + j];
    }
    if Sep !in p {
      LastIndexAt(p, Sep, -1);
    }
  }

  /** Two-argument `os.path.join(a, b)`: an absolute `b` replaces `a`; otherwise
      `b` is appended, with a separator unless `a` is empty or already ends in one. */
  function Join(a: string, b: string): string {
    if |b| > 0 && b[0] == Sep then b
    else if |a| == 0 || a[|a| - 1] == Sep then a + b
    else a + [Sep] + b
  }

  /** The joined path ends in `b`; it starts with `a` unless `b` is absolute,
      in which case it is `b` alone. Between a relative `b` and `a` there is
      exactly one separator when `a` is non-empty and does not end in one,
      and nothing otherwise. */
  lemma JoinParts(a: string, b: string)
    ensures |b| > 0 && b[0] == Sep ==> Join(a, b) == b
    ensures !(|b| > 0 && b[0] == Sep) ==> |Join(a, b)| >= |a| && Join(a, b)[..|a|] == a
    ensures |Join(a, b)| >= |b| && Join(a, b)[|Join(a, b)| - |b|..] == b
    ensures !(|b| > 0 && b[0] == Sep) ==>
      |Join(a, b)| == |a| + |b| + (if |a| > 0 && a[|a| - 1] != Sep then 1 else 0)
    ensures !(|b| > 0 && b[0] == Sep) && |a| > 0 && a[|a| - 1] != Sep ==> Join(a, b)[|a|] == Sep
  {
  }

  /** Joining a plain name (no separator) onto any directory and taking the
      basename gives the name back. */
  lemma {:induction false} BasenameOfJoin(a: string, b: string)
    requires Sep !in b
    ensures Basename(Join(a, b)) == b
  {
    var s := Join(a, b);
    if |a| == 0 {
      assert s == b;
      LastIndexAt(s, Sep, -1);
    } else {
      var pre := if a[|a| - 1] == Sep then a else a + [Sep];
      assert s == pre + b;
      var k := |pre| - 1;
      assert s[k] == Sep;
      forall j | k < j < |s| ensures s[j] != Sep {
        assert s[j] == b[j - |pre|];
      }
      LastIndexAt(s, Sep, k);
      assert s[k + 1..] == b;
    }
  }
}
