/** The POSIX `os.path` operations the downloader uses: `isabs`, `join`,
    `basename`, `dirname`, `normpath` and `relpath` (posixpath semantics). */
module Paths {
  import opened Wrappers
  import opened Text

  /** `os.path.isabs` */
  predicate IsAbs(p: string) {
    |p| > 0 && p[0] == '/'
  }

  /** `os.path.join(a, b)`: an absolute `b` replaces `a`; otherwise a
      separator is inserted unless `a` is empty or already ends in one. */
  function PathJoin(a: string, b: string): string {
    if IsAbs(b) then b
    else if a == "" || a[|a| - 1] == '/' then a + b
    else a + "/" + b
  }

  /** A relative part joined on is the tail of the result. */
  lemma PathJoinEndsWith(a: string, b: string)
    ensures |PathJoin(a, b)| >= |b| && PathJoin(a, b)[|PathJoin(a, b)| - |b|..] == b
  {
  }

  /** `os.path.basename`: everything after the last separator. */
  function Basename(p: string): (r: string)
    ensures '/' !in r
    ensures |r| <= |p| && r == p[|p| - |r|..]
  {
    p[RFind(p, '/') + 1..]
  }

  /** `os.path.dirname`: everything up to the last separator, with trailing
      separators removed unless it is made of separators only. */
  function Dirname(p: string): string {
    var head := p[..RFind(p, '/') + 1];
    if exists i | 0 <= i < |head| :: head[i] != '/' then RStrip(head, '/') else head
  }

  /** `RFind` is pinned down by its two properties. */
  lemma RFindUnique(s: string, c: char, k: int)
    requires k == -1 || (0 <= k < |s| && s[k] == c)
    requires forall j :: k < j < |s| ==> s[j] != c
    ensures RFind(s, c) == k
  {
    var r := RFind(s, c);
    if k >= 0 {
      assert s[k] == c;
    }
  }

  /** The last `c` of `x + y` is the last one of `y` when `y` has one. */
  lemma {:induction false} RFindConcat(x: string, y: string, c: char)
    ensures c in y ==> RFind(x + y, c) == |x| + RFind(y, c)
    ensures c !in y ==> RFind(x + y, c) == RFind(x, c)
    decreases |y|
  {
    if y == [] {
      assert x + y == x;
    } else if y[|y| - 1] != c {
      var y' := y[..|y| - 1];
      assert (x + y)[..|x + y| - 1] == x + y';
      assert c in y <==> c in y';
      RFindConcat(x, y', c);
    }
  }

  /** After a directory prefix that ends in a separator, the final
      component is the final component of what follows. */
  lemma BasenameAfterSeparator(d: string, b: string)
    requires d == "" || d[|d| - 1] == '/'
    ensures Basename(d + b) == Basename(b)
  {
    RFindConcat(d, b, '/');
    if '/' in b {
      assert (d + b)[|d| + RFind(b, '/') + 1..] == b[RFind(b, '/') + 1..];
    } else {
      RFindUnique(b, '/', -1);
      if d == "" {
        assert d + b == b;
      } else {
        RFindUnique(d, '/', |d| - 1);
        assert (d + b)[|d|..] == b;
      }
    }
  }

  /** The final component of a joined path is the final component of the
      part that was joined on, whatever the directory was. */
  lemma BasenameJoin(a: string, b: string)
    ensures Basename(PathJoin(a, b)) == Basename(b)
  {
    if !IsAbs(b) {
      var d := if a == "" || a[|a| - 1] == '/' then a else a + "/";
      assert PathJoin(a, b) == d + b;
      BasenameAfterSeparator(d, b);
    }
  }

  // ---------------------------------------------------------------------
  // normpath
  // ---------------------------------------------------------------------

  /** One step of posixpath.normpath's component loop: empty and "."
      components vanish, ".." removes the previous component when there is
      one to remove (and is dropped at the root of an absolute path). */
  function NormStep(acc: seq<string>, rooted: bool, comp: string): seq<string> {
    if comp == "" || comp == "." then acc
    else if comp != ".." || (!rooted && |acc| == 0) || (|acc| > 0 && acc[|acc| - 1] == "..") then acc + [comp]
    else if |acc| > 0 then acc[..|acc| - 1]
    else acc
  }

  function NormFold(acc: seq<string>, rooted: bool, comps: seq<string>): seq<string>
    decreases |comps|
  {
    if comps == [] then acc else NormFold(NormStep(acc, rooted, comps[0]), rooted, comps[1..])
  }

  /** posixpath keeps exactly two leading separators, otherwise one. */
  function LeadingSlashes(p: string): nat {
    if !IsAbs(p) then 0
    else if |p| >= 2 && p[1] == '/' && !(|p| >= 3 && p[2] == '/') then 2
    else 1
  }

  /** The components normpath keeps, in order. */
  function NormComponents(p: string): seq<string> {
    NormFold([], LeadingSlashes(p) > 0, Split(p, '/'))
  }

  /** `os.path.normpath` on POSIX. */
  function NormPath(p: string): string {
    if p == "" then "."
    else
      var r := seq(LeadingSlashes(p), _ => '/') + Join(NormComponents(p), '/');
      if r == "" then "." else r
  }

  /** The components that survive when no ".." is present. */
  function Kept(comps: seq<string>): (r: seq<string>)
    ensures forall x :: x in r ==> x in comps && x != "" && x != "."
    ensures (forall k :: 0 <= k < |comps| ==> comps[k] != "" && comps[k] != ".") ==> r == comps
  {
    if comps == [] then []
    else if comps[0] == "" || comps[0] == "." then Kept(comps[1..])
    else [comps[0]] + Kept(comps[1..])
  }

  /** The fold over a concatenation is the fold over its second half,
      started from the fold over its first. */
  lemma {:induction false} NormFoldAppend(acc: seq<string>, rooted: bool, c1: seq<string>, c2: seq<string>)
    ensures NormFold(acc, rooted, c1 + c2) == NormFold(NormFold(acc, rooted, c1), rooted, c2)
    decreases |c1|
  {
    if c1 != [] {
      assert (c1 + c2)[0] == c1[0];
      assert (c1 + c2)[1..] == c1[1..] + c2;
      NormFoldAppend(NormStep(acc, rooted, c1[0]), rooted, c1[1..], c2);
    } else {
      assert c1 + c2 == c2;
    }
  }

  /** Without "..", normalisation only appends: nothing already kept is
      ever removed. */
  lemma {:induction false} NormFoldNoParent(acc: seq<string>, rooted: bool, comps: seq<string>)
    requires ".." !in comps
    ensures NormFold(acc, rooted, comps) == acc + Kept(comps)
    decreases |comps|
  {
    if comps != [] {
      assert comps[0] != "..";
      assert ".." !in comps[1..];
      NormFoldNoParent(NormStep(acc, rooted, comps[0]), rooted, comps[1..]);
    }
  }

  /** Joining a relative path without ".." components onto `root` gives a
      path whose normal form is the root's normal form followed by the
      kept components of the relative path: the result stays under `root`. */
  lemma JoinStaysUnderRoot(root: string, sub: string)
    requires !IsAbs(sub)
    requires ".." !in Split(sub, '/')
    ensures NormComponents(PathJoin(root, sub)) == NormComponents(root) + Kept(Split(sub, '/'))
  {
    if root == "" {
      assert PathJoin(root, sub) == sub;
      assert Split(root, '/') == [""];
      NormFoldNoParent([], false, Split(sub, '/'));
    } else if root[|root| - 1] == '/' {
      JoinAfterSlash(root, sub);
    } else {
      JoinWithSlash(root, sub);
    }
  }

  /** Joining onto a root that already ends in a separator. */
  lemma JoinAfterSlash(root: string, sub: string)
    requires !IsAbs(sub) && root != "" && root[|root| - 1] == '/'
    requires ".." !in Split(sub, '/')
    ensures NormComponents(PathJoin(root, sub)) == NormComponents(root) + Kept(Split(sub, '/'))
  {
    var rooted := LeadingSlashes(root) > 0;
    var j := PathJoin(root, sub);
    var r' := root[..|root| - 1];
    assert j == r' + ['/'] + sub;
    SameLeadingSlashes(root, j);
    assert root == r' + ['/'] + "";
    assert Split("", '/') == [""];
    assert Kept([""]) == [];
    var f := NormFold([], rooted, Split(r', '/'));
    FoldOverSeparator(r', "", rooted);
    assert NormComponents(root) == f;
    FoldOverSeparator(r', sub, rooted);
  }

  /** Joining onto a root that needs a separator added. */
  lemma JoinWithSlash(root: string, sub: string)
    requires !IsAbs(sub) && root != "" && root[|root| - 1] != '/'
    requires ".." !in Split(sub, '/')
    ensures NormComponents(PathJoin(root, sub)) == NormComponents(root) + Kept(Split(sub, '/'))
  {
    var j := PathJoin(root, sub);
    assert j == root + ['/'] + sub;
    SameLeadingSlashes(root, j);
    FoldOverSeparator(root, sub, LeadingSlashes(root) > 0);
  }

  /** A path extended on the right is rooted exactly when the original is. */
  lemma SameLeadingSlashes(p: string, q: string)
    requires p != "" && |q| >= |p| && q[..|p|] == p
    ensures (LeadingSlashes(q) > 0) == (LeadingSlashes(p) > 0)
  {
    assert q[0] == p[0];
  }

  /** Folding over `x/sub` is folding over `x`, then keeping the
      components of `sub`. */
  lemma FoldOverSeparator(x: string, sub: string, rooted: bool)
    requires ".." !in Split(sub, '/')
    ensures NormFold([], rooted, Split(x + ['/'] + sub, '/')) == NormFold([], rooted, Split(x, '/')) + Kept(Split(sub, '/'))
  {
    SplitConcat(x, '/', sub);
    NormFoldAppend([], rooted, Split(x, '/'), Split(sub, '/'));
    NormFoldNoParent(NormFold([], rooted, Split(x, '/')), rooted, Split(sub, '/'));
  }

  // ---------------------------------------------------------------------
  // relpath
  // ---------------------------------------------------------------------

  /** How many leading components `a` and `b` share. */
  function CommonPrefix(a: seq<string>, b: seq<string>): (n: nat)
    ensures n <= |a| && n <= |b|
    ensures a[..n] == b[..n]
    ensures n < |a| && n < |b| ==> a[n] != b[n]
  {
    if a == [] || b == [] || a[0] != b[0] then 0
    else
      var m := CommonPrefix(a[1..], b[1..]);
      assert a[..m + 1] == [a[0]] + a[1..][..m];
      assert b[..m + 1] == [b[0]] + b[1..][..m];
      m + 1
  }

  /** The non-empty components of `abspath(p)`, with `cwd` the (absolute)
      working directory a relative path is resolved against. */
  function AbsComponents(cwd: string, p: string): seq<string> {
    NormComponents(PathJoin(cwd, p))
  }

  /** `os.path.relpath(path, start)`: up from `start` to the common
      ancestor, then down to `path`; "." when they coincide. An empty `path`
      raises, here `None`. */
  function RelPath(path: string, start: string, cwd: string): Option<string> {
    if path == "" then None
    else
      var a := AbsComponents(cwd, start);
      var b := AbsComponents(cwd, path);
      var i := CommonPrefix(a, b);
      var rel := seq(|a| - i, _ => "..") + b[i..];
      Some(if rel == [] then "." else Join(rel, '/'))
  }

  lemma {:induction false} CommonPrefixOfExtension(a: seq<string>, r: seq<string>)
    ensures CommonPrefix(a, a + r) == |a|
  {
    if a != [] {
      assert (a + r)[0] == a[0];
      assert (a + r)[1..] == a[1..] + r;
      CommonPrefixOfExtension(a[1..], r);
    }
  }

  /** Joining one more part onto a non-empty list of parts. */
  lemma {:induction false} JoinSnoc(parts: seq<string>, x: string, sep: char)
    requires |parts| >= 1
    ensures Join(parts + [x], sep) == Join(parts, sep) + [sep] + x
    decreases |parts|
  {
    if |parts| == 1 {
      assert parts + [x] == [parts[0], x];
      assert [x][1..] == [];
    } else {
      assert (parts + [x])[1..] == parts[1..] + [x];
      JoinSnoc(parts[1..], x, sep);
    }
  }

  /** A relative path whose components are all proper names. */
  predicate PlainRelative(sub: string) {
    !IsAbs(sub) && forall k :: 0 <= k < |Split(sub, '/')| ==> Split(sub, '/')[k] !in {"", ".", ".."}
  }

  /** The file `root/sub/name` lies at `sub/name` relative to an absolute
      root, whatever the working directory. */
  lemma RelPathBelowRoot(root: string, sub: string, name: string, cwd: string)
    requires IsAbs(root)
    requires PlainRelative(sub)
    requires '/' !in name && name !in {"", ".", ".."}
    ensures RelPath(PathJoin(PathJoin(root, sub), name), root, cwd) == Some(sub + "/" + name)
  {
    var y := PathJoin(root, sub);
    var x := PathJoin(y, name);
    assert y[0] == '/';
    assert x[0] == '/';
    assert PathJoin(cwd, x) == x && PathJoin(cwd, root) == root;
    var comps := Split(sub, '/');
    assert ".." !in comps;
    JoinStaysUnderRoot(root, sub);
    assert Kept(comps) == comps;
    assert Split(name, '/') == [name];
    JoinStaysUnderRoot(y, name);
    assert Kept([name]) == [name];
    var a := NormComponents(root);
    assert NormComponents(x) == a + (comps + [name]);
    CommonPrefixOfExtension(a, comps + [name]);
    assert (a + (comps + [name]))[|a|..] == comps + [name];
    assert seq(0, _ => "..") + (comps + [name]) == comps + [name];
    JoinSnoc(comps, name, '/');
    JoinSplit(sub, '/');
  }
}
