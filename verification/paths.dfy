/** The slice of Node's POSIX `path` module the directory scan uses:
    `path.join` of a directory and one entry name, `path.basename`, and the
    string `slice(0, -k)` that strips the `.git` suffix. */
module Paths {

  const Separator: char := '/'

  /** A directory-entry name as the filesystem reports it: non-empty and
      without a separator. */
  predicate IsEntryName(n: string) {
    n != "" && Separator !in n
  }

  /** `path.join(dir, name)` for an already normalised `dir`. */
  function Join(dir: string, name: string): (p: string)
    ensures |p| >= |name|
    ensures p[|p| - |name|..] == name
  {
    if dir == "" then name
    else if dir[|dir| - 1] == Separator then dir + name
    else dir + [Separator] + name
  }

  /** The joined path is the directory, at most one separator, and the
      name; a non-empty directory is always followed by a separator. */
  lemma JoinShape(dir: string, name: string)
    ensures |Join(dir, name)| >= |dir| && Join(dir, name)[..|dir|] == dir
    ensures dir != "" ==> |Join(dir, name)| > |name| && Join(dir, name)[|Join(dir, name)| - |name| - 1] == Separator
    ensures |Join(dir, name)| <= |dir| + 1 + |name|
  {
  }

  /** `s.slice(0, -k)`: drops the last `k` characters, or everything when
      `s` is shorter. With `k` = 0 the end index is `-0`, which is 0, so the
      result is empty rather than all of `s`. */
  function DropLast(s: string, k: nat): (r: string)
    ensures |r| == if k > 0 && |s| >= k then |s| - k else 0
    ensures r == s[..|r|]
  {
    if k > 0 && |s| >= k then s[..|s| - k] else ""
  }

  function StripTrailingSeparators(p: string): (r: string)
    ensures r == "" || r[|r| - 1] != Separator
    ensures |r| <= |p| && r == p[..|r|]
  {
    if |p| > 0 && p[|p| - 1] == Separator then StripTrailingSeparators(p[..|p| - 1]) else p
  }

  /** The characters after the last separator. */
  function LastSegment(p: string): (r: string)
    ensures Separator !in r
    ensures |r| <= |p| && r == p[|p| - |r|..]
  {
    if |p| == 0 || p[|p| - 1] == Separator then ""
    else
      var r := LastSegment(p[..|p| - 1]) + [p[|p| - 1]];
      assert p[|p| - |r|..] == p[..|p| - 1][|p| - 1 - (|r| - 1)..] + [p[|p| - 1]];
      r
  }

  /** `path.basename(p)`: trailing separators are ignored, then the last
      segment is returned (so `basename("/")` is ""). */
  function Basename(p: string): (b: string)
    ensures Separator !in b
  {
    LastSegment(StripTrailingSeparators(p))
  }

  /** The directory `dir` written with one trailing separator; this is what
      `path.join(dir, ".git").slice(0, -4)` leaves. */
  function WithSeparator(dir: string): string {
    Join(dir, "")
  }

  /** Stripping `.git` from the joined path gives the parent directory with
      a trailing separator. */
  lemma GitParent(dir: string)
    ensures DropLast(Join(dir, ".git"), 4) == WithSeparator(dir)
  {
  }

  lemma {:induction false} LastSegmentAfterSeparator(x: string, n: string)
    requires x == "" || x[|x| - 1] == Separator
    requires Separator !in n
    ensures LastSegment(x + n) == n
    decreases |n|
  {
    if |n| == 0 {
      assert x + n == x;
    } else {
      var m := n[..|n| - 1];
      var last := n[|n| - 1];
      assert Separator !in m && last != Separator by { assert n == m + [last]; }
      assert (x + n)[..|x + n| - 1] == x + m && (x + n)[|x + n| - 1] == last by {
        assert x + n == (x + m) + [last];
      }
      LastSegmentAfterSeparator(x, m);
      assert n == m + [last];
    }
  }

  /** The basename of a child directory written with its trailing separator
      is the child's own entry name. */
  lemma BasenameOfChild(dir: string, name: string)
    requires IsEntryName(name)
    ensures Basename(WithSeparator(Join(dir, name))) == name
  {
    var x := if dir == "" then "" else if dir[|dir| - 1] == Separator then dir else dir + [Separator];
    assert Join(dir, name) == x + name;
    var j := x + name;
    assert j[|j| - 1] == name[|name| - 1];
    assert name[|name| - 1] != Separator;
    assert WithSeparator(j) == j + [Separator];
    assert (j + [Separator])[..|j|] == j;
    assert StripTrailingSeparators(j + [Separator]) == StripTrailingSeparators(j);
    assert StripTrailingSeparators(j) == j;
    LastSegmentAfterSeparator(x, name);
  }

  /** A trailing separator never changes the basename. */
  lemma BasenameWithSeparator(dir: string)
    ensures Basename(WithSeparator(dir)) == Basename(dir)
  {
    if dir != "" && dir[|dir| - 1] != Separator {
      assert WithSeparator(dir) == dir + [Separator];
      assert (dir + [Separator])[..|dir|] == dir;
      assert StripTrailingSeparators(dir + [Separator]) == StripTrailingSeparators(dir);
    } else {
      assert dir + "" == dir;
    }
  }
}
