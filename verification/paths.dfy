/** File-system paths built with `StringBuilder` and `File.separator`, and
    their decomposition into parent and last component. */
module Paths {
  import opened Wrappers

  /** `File.separator`: '/' on Unix-like systems, '\' on Windows. */
  predicate IsSeparator(sep: char) {
    sep == '/' || sep == '\\'
  }

  /** `StringBuilder.append(String)`: a null string is appended as "null". */
  function AppendText(s: Option<string>): (r: string)
    ensures s.Some? ==> r == s.value
    ensures s.None? ==> r == "null"
  {
    match s
    case None => "null"
    case Some(t) => t
  }

  /** `dir + File.separator + leaf`. */
  function Join(dir: string, leaf: string, sep: char): (r: string)
    ensures |r| == |dir| + 1 + |leaf|
    ensures r[..|dir|] == dir && r[|dir|] == sep && r[|dir| + 1..] == leaf
  {
    dir + [sep] + leaf
  }

  /** The index of the last occurrence of `c` below `e`, or -1. */
  function LastIndexOf(s: string, c: char, e: nat): (r: int)
    requires e <= |s|
    ensures -1 <= r < e
    ensures r == -1 <==> forall i :: 0 <= i < e ==> s[i] != c
    ensures r >= 0 ==> s[r] == c && forall i :: r < i < e ==> s[i] != c
  {
    if e == 0 then -1
    else if s[e - 1] == c then e - 1
    else LastIndexOf(s, c, e - 1)
  }

  /** The parent directory and the last component, split at the last
      separator; `None` for a path without a separator. */
  function SplitLast(path: string, sep: char): (r: Option<(string, string)>)
    ensures r.None? <==> sep !in path
    ensures r.Some? ==> path == Join(r.value.0, r.value.1, sep) && sep !in r.value.1
  {
    var k := LastIndexOf(path, sep, |path|);
    if k < 0 then None
    else
      var leaf := path[k + 1..];
      assert path == path[..k] + [sep] + leaf;
      assert forall i :: 0 <= i < |leaf| ==> leaf[i] == path[k + 1 + i] != sep;
      Some((path[..k], leaf))
  }

  /** Joining a separator-free leaf and splitting again gives back the parent
      and the leaf. */
  lemma {:induction false} SplitLastJoin(dir: string, leaf: string, sep: char)
    requires sep !in leaf
    ensures SplitLast(Join(dir, leaf, sep), sep) == Some((dir, leaf))
  {
    var path := Join(dir, leaf, sep);
    var k := LastIndexOf(path, sep, |path|);
    assert path[|dir|] == sep;
    assert forall i :: |dir| < i < |path| ==> path[i] == leaf[i - |dir| - 1];
    assert forall i :: k < i < |path| ==> path[i] == path[k + 1..][i - k - 1];
  }

  /** The parent of a path, when it has one. */
  function Parent(path: string, sep: char): (r: Option<string>)
    ensures r.Some? <==> sep in path
  {
    match SplitLast(path, sep)
    case None => None
    case Some(p) => Some(p.0)
  }

  /** The last component of a path (the whole path when it has no separator). */
  function LastComponent(path: string, sep: char): (r: string)
    ensures sep !in r
  {
    match SplitLast(path, sep)
    case None => path
    case Some(p) => p.1
  }

  /** A separator-free leaf under `dir` has `dir` as its parent and itself as
      its last component. */
  lemma JoinParentAndLast(dir: string, leaf: string, sep: char)
    requires sep !in leaf
    ensures Parent(Join(dir, leaf, sep), sep) == Some(dir)
    ensures LastComponent(Join(dir, leaf, sep), sep) == leaf
  {
    SplitLastJoin(dir, leaf, sep);
  }

  /** A file name made of letters, digits, '_' and '.', which never holds a
      separator. */
  predicate IsLeafName(leaf: string) {
    forall i :: 0 <= i < |leaf| ==> IsLeafChar(leaf[i])
  }

  predicate IsLeafChar(c: char) {
    'a' <= c <= 'z' || 'A' <= c <= 'Z' || '0' <= c <= '9' || c == '_' || c == '.'
  }

  /** The file `leaf` inside `dir`: its parent is `dir` and its name is `leaf`. */
  function FileUnder(dir: string, leaf: string, sep: char): (r: string)
    requires IsSeparator(sep) && IsLeafName(leaf)
    ensures Parent(r, sep) == Some(dir)
    ensures LastComponent(r, sep) == leaf
  {
    assert sep !in leaf by {
      assert forall i :: 0 <= i < |leaf| ==> leaf[i] != sep;
    }
    JoinParentAndLast(dir, leaf, sep);
    Join(dir, leaf, sep)
  }

  /** Paths whose last components are pairwise different are pairwise different. */
  lemma DistinctNamesDistinctPaths(paths: seq<string>, names: seq<string>, sep: char)
    requires |paths| == |names|
    requires forall i :: 0 <= i < |paths| ==> LastComponent(paths[i], sep) == names[i]
    requires forall i, j :: 0 <= i < j < |names| ==> names[i] != names[j]
    ensures forall i, j :: 0 <= i < j < |paths| ==> paths[i] != paths[j]
  {
  }

  /** A file two levels below the root: `root/dir/leaf`. */
  predicate TwoLevelsUnder(path: string, root: string, dir: string, leaf: string, sep: char) {
    && LastComponent(path, sep) == leaf
    && Parent(path, sep).Some?
    && LastComponent(Parent(path, sep).value, sep) == dir
    && Parent(Parent(path, sep).value, sep) == Some(root)
  }

  /** `root + File.separator + dir + File.separator + leaf`, the shape of
      every path two levels below a root. */
  function NestedPath(dir: string, leaf: string, rootDir: Option<string>, sep: char): (r: string)
    requires IsSeparator(sep) && IsLeafName(dir) && IsLeafName(leaf)
    ensures TwoLevelsUnder(r, AppendText(rootDir), dir, leaf, sep)
  {
    FileUnder(FileUnder(AppendText(rootDir), dir, sep), leaf, sep)
  }

  /** Two roots give the same nested path exactly when they are appended as
      the same text. */
  lemma NestedPathInjective(dir: string, leaf: string, r1: Option<string>, r2: Option<string>, sep: char)
    requires IsSeparator(sep) && IsLeafName(dir) && IsLeafName(leaf)
    ensures NestedPath(dir, leaf, r1, sep) == NestedPath(dir, leaf, r2, sep) <==> AppendText(r1) == AppendText(r2)
  {
    if AppendText(r1) == AppendText(r2) {
      assert NestedPath(dir, leaf, r1, sep) == FileUnder(FileUnder(AppendText(r2), dir, sep), leaf, sep);
    }
  }
}
