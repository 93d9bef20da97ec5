/** `normalize_and_validate_path`: turns the user-supplied subdirectory
    into a slash-separated relative path under the models root, or rejects
    it. Rejections are the `ValueError`s of the source, as `Err` values. */
module Sanitiser {
  import opened Wrappers
  import opened Text
  import opened Paths

  /** Why a subdirectory was rejected. */
  datatype PathError = AbsolutePath | DriveLetter | ParentReference | EmptyComponent

  /** What an empty or blank subdirectory stands for. */
  const DefaultSubdirectory: string := "checkpoints"

  /** The text of the `ValueError` raised for `sub`. */
  function ErrorMessage(sub: string, e: PathError): string {
    "Invalid path: '" + sub + "'. " +
    match e
    case AbsolutePath => "Absolute paths are not allowed. Use relative paths only."
    case DriveLetter => "Absolute paths (including drive letters) are not allowed. Use relative paths only."
    case ParentReference => "Parent directory references (..) are not allowed for security reasons."
    case EmptyComponent => "Empty path components are not allowed."
  }

  /** The drive-letter test: a colon as the second character. */
  predicate HasDriveColon(s: string) {
    |s| >= 2 && s[1] == ':'
  }

  /** normpath, then backslashes to slashes, then leading and trailing
      slashes stripped. */
  function Normalise(s: string): string {
    StripSlashes(ReplaceChar(NormPath(s), '\\', '/'))
  }

  /** Every leading, then every trailing, separator removed. */
  function StripSlashes(x: string): string {
    RStrip(LStrip(x, '/'), '/')
  }

  /** A path that cannot leave the directory it is joined onto: non-empty,
      no "..", no backslash, no separator at either end and no empty
      component. */
  predicate SafeRelative(p: string) {
    && p != ""
    && !Contains(p, "..")
    && '\\' !in p
    && p[0] != '/'
    && p[|p| - 1] != '/'
    && "" !in Split(p, '/')
  }

  /** The safe paths the sanitiser returns unchanged. */
  predicate Canonical(p: string) {
    && SafeRelative(p)
    && !IsBlank(p)
    && !HasDriveColon(p)
    && "." !in Split(p, '/')
  }

  /** A subdirectory none of the checks before normalisation rejects:
      not blank, relative, without a drive colon and without "..". */
  predicate PassesEarlyChecks(sub: string) {
    !IsBlank(sub) && !IsAbs(sub) && !HasDriveColon(sub) && !Contains(sub, "..")
  }

  /** `normalize_and_validate_path`. */
  function Sanitise(sub: string): (r: Result<string, PathError>)
    ensures r.Ok? ==> SafeRelative(r.value)
    ensures r.Ok? && r.value != DefaultSubdirectory ==> r.value == Normalise(sub)
    ensures IsBlank(sub) ==> r == Ok(DefaultSubdirectory)
    ensures !IsBlank(sub) ==> (r == Err(AbsolutePath) <==> IsAbs(sub))
    ensures !IsBlank(sub) && !IsAbs(sub) ==> (r == Err(DriveLetter) <==> HasDriveColon(sub))
    ensures !IsBlank(sub) && !IsAbs(sub) && !HasDriveColon(sub) ==>
              (r == Err(ParentReference) <==> Contains(sub, ".."))
    ensures PassesEarlyChecks(sub) && Normalise(sub) == "" ==> r == Ok(DefaultSubdirectory)
    ensures PassesEarlyChecks(sub) && Normalise(sub) != "" ==>
              (r == Err(EmptyComponent) <==> "" in Split(Normalise(sub), '/'))
    ensures PassesEarlyChecks(sub) && Normalise(sub) != "" && "" !in Split(Normalise(sub), '/') ==>
              r == Ok(Normalise(sub))
  {
    DefaultIsSafe();
    if IsBlank(sub) then Ok(DefaultSubdirectory)
    else if IsAbs(sub) then Err(AbsolutePath)
    else if HasDriveColon(sub) then Err(DriveLetter)
    else if Contains(sub, "..") then Err(ParentReference)
    else
      var n := Normalise(sub);
      NormaliseShape(sub);
      ParentRecheckUnreachable(sub);
      if n == "" then Ok(DefaultSubdirectory)
      else if Contains(n, "..") then Err(ParentReference)
      else if "" in Split(n, '/') then Err(EmptyComponent)
      else Ok(n)
  }

  /** Two backslashes in a row pass every check before normalisation but
      become an empty component once they are turned into slashes. */
  lemma DoubledBackslashIsEmptyComponent()
    ensures Sanitise("a\\\\b") == Err(EmptyComponent)
  {
    var s := "a\\\\b";
    DoubledBackslashPassesEarlyChecks(s);
    DoubledBackslashNormalised(s);
    DoubledSlashSplits();
  }

  lemma DoubledBackslashPassesEarlyChecks(s: string)
    requires s == "a\\\\b"
    ensures PassesEarlyChecks(s)
  {
    assert s[0] == 'a' && s[1] == '\\';
    assert !IsSpace(s[0]);
    if Contains(s, "..") {
      ContainsFirstChar(s, "..");
    }
  }

  lemma DoubledBackslashNormalised(s: string)
    requires s == "a\\\\b"
    ensures Normalise(s) == "a//b"
  {
    assert '/' !in s && s != "." && s != "..";
    NormPathOneComponent(s);
    BackslashesToSlashes(s);
  }

  lemma BackslashesToSlashes(s: string)
    requires s == "a\\\\b"
    ensures StripSlashes(ReplaceChar(s, '\\', '/')) == "a//b"
  {
    var y := ReplaceChar(s, '\\', '/');
    assert y == "a//b";
    assert LStrip(y, '/') == y;
    assert RStrip(y, '/') == y;
  }

  /** A single component other than "." and ".." is its own normal form. */
  lemma NormPathOneComponent(s: string)
    requires s != "" && '/' !in s && s != "." && s != ".."
    ensures NormPath(s) == s
  {
    assert Split(s, '/') == [s];
    assert NormFold([], false, [s]) == [s];
  }

  lemma DoubledSlashSplits()
    ensures "" in Split("a//b", '/')
  {
    SplitAtFirst("a", '/', "/b");
    assert "a//b" == "a" + ['/'] + "/b";
    SplitAtFirst("", '/', "b");
    assert "/b" == "" + ['/'] + "b";
  }

  /** The default is itself a safe path. */
  lemma DefaultIsSafe()
    ensures SafeRelative(DefaultSubdirectory)
  {
    var d := DefaultSubdirectory;
    if Contains(d, "..") {
      ContainsFirstChar(d, "..");
    }
    assert '/' !in d;
    assert Split(d, '/') == [d];
  }

  /** What normalisation guarantees by construction: no backslash and no
      separator at either end. */
  lemma NormaliseShape(s: string)
    ensures var n := Normalise(s);
      '\\' !in n && (n != "" ==> n[0] != '/' && n[|n| - 1] != '/')
  {
    StripShape(ReplaceChar(NormPath(s), '\\', '/'));
  }

  lemma StripShape(x: string)
    requires '\\' !in x
    ensures var n := StripSlashes(x);
      '\\' !in n && (n != "" ==> n[0] != '/' && n[|n| - 1] != '/')
  {
    var l := LStrip(x, '/');
    SuffixAvoids(x, l, '\\');
    var n := RStrip(l, '/');
    PrefixAvoids(l, n, '\\');
    PrefixKeepsHead(l, n, '/');
    assert StripSlashes(x) == n;
    assert '\\' !in n;
    assert n != "" ==> n[0] != '/' && n[|n| - 1] != '/';
  }

  lemma PrefixKeepsHead(s: string, r: string, c: char)
    requires s != "" ==> s[0] != c
    requires |r| <= |s| && r == s[..|r|]
    ensures r != "" ==> r[0] != c
  {
    if r != "" {
      assert r[0] == s[0];
    }
  }

  lemma SuffixAvoids(s: string, r: string, c: char)
    requires c !in s && |r| <= |s| && r == s[|s| - |r|..]
    ensures c !in r
  {
  }

  lemma PrefixAvoids(s: string, r: string, c: char)
    requires c !in s && |r| <= |s| && r == s[..|r|]
    ensures c !in r
  {
  }

  /** Replacing backslashes with slashes cannot create "..". */
  lemma ReplaceKeepsDots(x: string)
    requires Contains(ReplaceChar(x, '\\', '/'), "..")
    ensures Contains(x, "..")
  {
    var y := ReplaceChar(x, '\\', '/');
    var i :| 0 <= i <= |y| && OccursAt(y, "..", i);
    OccursAtSlice(y, "..", i);
    assert y[i] == y[i..i + 2][0] == '.';
    assert y[i + 1] == y[i..i + 2][1] == '.';
    assert x[i..i + 2] == "..";
    ContainsAt(x, "..", i);
  }

  /** normpath of a relative path without ".." has no "..". */
  lemma NormPathNoParent(s: string)
    requires !IsAbs(s) && !Contains(s, "..")
    ensures !Contains(NormPath(s), "..")
  {
    var p := NormPath(s);
    if s == "" {
      OccursAtSlicesShort(p);
    } else {
      var comps := Split(s, '/');
      if ".." in comps {
        var k :| 0 <= k < |comps| && comps[k] == "..";
        ContainsAt(comps[k], "..", 0);
        SplitPartContains(s, '/', k, "..");
      }
      NormFoldNoParent([], false, comps);
      var kept := Kept(comps);
      assert NormComponents(s) == kept;
      var j := Join(kept, '/');
      assert seq(0, _ => '/') + j == j;
      if j == "" {
        OccursAtSlicesShort(p);
      } else if Contains(j, "..") {
        JoinContains(kept, '/', "..");
        var k :| 0 <= k < |kept| && Contains(kept[k], "..");
        assert kept[k] in comps;
        var m :| 0 <= m < |comps| && comps[m] == kept[k];
        SplitPartContains(s, '/', m, "..");
      }
    }
  }

  /** On POSIX the re-check for ".." after normalisation (lines 189-193)
      never fires: normalising a relative path without ".." cannot produce
      one. */
  lemma ParentRecheckUnreachable(s: string)
    requires !IsAbs(s) && !Contains(s, "..")
    ensures !Contains(Normalise(s), "..")
  {
    var p := NormPath(s);
    NormPathNoParent(s);
    if Contains(Normalise(s), "..") {
      StripKeepsDots(ReplaceChar(p, '\\', '/'));
      ReplaceKeepsDots(p);
    }
  }

  /** Stripping slashes cannot create "..". */
  lemma StripKeepsDots(x: string)
    requires Contains(StripSlashes(x), "..")
    ensures Contains(x, "..")
  {
    var l := LStrip(x, '/');
    var n := RStrip(l, '/');
    assert l[0..|n|] == n;
    ContainsInSlice(l, 0, |n|, "..");
    assert x[|x| - |l|..|x|] == l;
    ContainsInSlice(x, |x| - |l|, |x|, "..");
  }

  /** "." is too short to contain "..". */
  lemma OccursAtSlicesShort(p: string)
    requires |p| < 2
    ensures !Contains(p, "..")
  {
    forall i | 0 <= i <= |p|
      ensures !OccursAt(p, "..", i)
    {
      OccursAtSlice(p, "..", i);
    }
  }

  /** Every canonical path is accepted unchanged: the sanitiser rejects
      nothing it should accept and rewrites nothing already in normal form. */
  lemma SanitiseAcceptsCanonical(p: string)
    requires Canonical(p)
    ensures Sanitise(p) == Ok(p)
  {
    NormaliseCanonical(p);
  }

  /** Normalisation leaves a canonical path as it is. */
  lemma NormaliseCanonical(p: string)
    requires Canonical(p)
    ensures Normalise(p) == p
  {
    NormPathCanonical(p);
    assert ReplaceChar(p, '\\', '/') == p;
    assert LStrip(p, '/') == p;
    assert RStrip(p, '/') == p;
  }

  /** normpath leaves a canonical path as it is. */
  lemma NormPathCanonical(p: string)
    requires Canonical(p)
    ensures NormPath(p) == p
  {
    var comps := Split(p, '/');
    if ".." in comps {
      var k :| 0 <= k < |comps| && comps[k] == "..";
      ContainsAt(comps[k], "..", 0);
      SplitPartContains(p, '/', k, "..");
    }
    NormFoldNoParent([], false, comps);
    assert Kept(comps) == comps;
    JoinSplit(p, '/');
    assert LeadingSlashes(p) == 0;
    assert NormComponents(p) == comps;
    assert seq(0, _ => '/') + p == p;
  }

  /** "." is accepted as itself. */
  lemma SanitiseDot()
    ensures Sanitise(".") == Ok(".")
  {
    assert "."[0] == '.' && !IsSpace('.');
    assert !IsBlank(".");
    OccursAtSlicesShort(".");
    assert Split(".", '/') == ["."];
    assert NormComponents(".") == [];
    assert NormPath(".") == ".";
    assert ReplaceChar(".", '\\', '/') == ".";
    assert Normalise(".") == ".";
  }

  /** "./" normalises to "." and is accepted as ".". */
  lemma SanitiseDotSlash()
    ensures Sanitise("./") == Ok(".")
  {
    assert "./"[0] == '.' && !IsSpace('.');
    assert !IsBlank("./");
    assert "./" == "." + ['/'] + "";
    SplitConcat(".", '/', "");
    assert Split("", '/') == [""];
    assert Split("./", '/') == [".", ""];
    assert NormComponents("./") == [];
    assert NormPath("./") == ".";
    assert ReplaceChar(".", '\\', '/') == ".";
    assert Normalise("./") == ".";
    OccursAtSlicesShort(".");
    assert Split(".", '/') == ["."];
  }

  /** "." and "./" are accepted as ".", which names the models root itself
      rather than a directory below it: normpath never returns an empty
      path, so the empty check after normalisation (lines 185-186) does not
      catch them and they do not fall back to the default. */
  lemma DotIsAcceptedAsRoot(root: string)
    ensures Sanitise(".") == Ok(".") && Sanitise("./") == Ok(".")
    ensures NormComponents(PathJoin(root, ".")) == NormComponents(root)
  {
    SanitiseDot();
    SanitiseDotSlash();
    DotJoinIsRoot(root);
  }

  lemma DotJoinIsRoot(root: string)
    ensures NormComponents(PathJoin(root, ".")) == NormComponents(root)
  {
    var comps := Split(".", '/');
    assert comps == ["."];
    assert Kept(comps) == [];
    JoinStaysUnderRoot(root, ".");
  }

  /** An accepted subdirectory joined onto any root stays under it: the
      normal form of the result is the root's normal form followed by the
      subdirectory's components other than ".", none of which is "..". */
  lemma SanitisedStaysUnderRoot(root: string, sub: string)
    requires Sanitise(sub).Ok?
    ensures var p := Sanitise(sub).value;
      && NormComponents(PathJoin(root, p)) == NormComponents(root) + Kept(Split(p, '/'))
      && ".." !in Kept(Split(p, '/'))
  {
    var p := Sanitise(sub).value;
    var comps := Split(p, '/');
    if ".." in comps {
      var k :| 0 <= k < |comps| && comps[k] == "..";
      ContainsAt(comps[k], "..", 0);
      SplitPartContains(p, '/', k, "..");
    }
    JoinStaysUnderRoot(root, p);
  }

  /** A safe path without "." components is a plain relative path: every
      component is a proper name. */
  lemma SafeRelativeIsPlain(p: string)
    requires SafeRelative(p) && "." !in Split(p, '/')
    ensures PlainRelative(p)
  {
    var comps := Split(p, '/');
    forall k | 0 <= k < |comps|
      ensures comps[k] !in {"", ".", ".."}
    {
      if comps[k] == ".." {
        ContainsAt(comps[k], "..", 0);
        SplitPartContains(p, '/', k, "..");
      }
    }
  }
}
