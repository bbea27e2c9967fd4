/** The path shown in the prompt names the current directory. */
module Prompt {
  import opened ZerosFs
  import opened Namespace
  import opened Volume
  import opened Paths
  import opened Operations
  import opened FileSystem
  import opened MountTheorems

  ghost predicate Components(cs: seq<string>) {
    forall k | 0 <= k < |cs| :: ValidName(cs[k]) && Ordinary(cs[k])
  }

  /** "/a/b/c", and "" for no components. */
  function Slashed(cs: seq<string>): string {
    if cs == [] then "" else Slashed(cs[..|cs| - 1]) + "/" + cs[|cs| - 1]
  }

  /** The normal form of an absolute path. */
  function AbsPath(cs: seq<string>): string {
    if cs == [] then "/" else Slashed(cs)
  }

  /** cwd_path is the normal form of the ordinary path from the root to the current directory. */
  ghost predicate NamesCwd(fs: Mounted, cs: seq<string>) {
    Components(cs) && fs.cwdPath == AbsPath(cs) && |fs.cwdPath| < PATH_BUFFER
    && Descend(View(fs.disk), cs) == fs.cwd
  }

  ghost predicate PromptOk(fs: Mounted) {
    exists cs: seq<string> :: NamesCwd(fs, cs)
  }

  lemma {:induction false} TokensOfSlashed(cs: seq<string>)
    requires Components(cs)
    ensures Tokens(Slashed(cs)) == cs
  {
    if cs == [] {
      RootHasNoTokens();
    } else {
      var prefix, last := cs[..|cs| - 1], cs[|cs| - 1];
      TokensOfSlashed(prefix);
      TokensSplit(Slashed(prefix), last);
      assert prefix + [last] == cs;
    }
  }

  lemma {:induction false} DescendIsWalk(ns: Namespace, cs: seq<string>)
    requires KindsAgree(ns) && Components(cs) && Descend(ns, cs) != NONE
    ensures WalkNs(ns, ROOT, cs) == Descend(ns, cs)
  {
    if cs != [] {
      var prefix, last := cs[..|cs| - 1], cs[|cs| - 1];
      DescendIsWalk(ns, prefix);
      WalkNsAppend(ns, ROOT, prefix, last);
      assert prefix + [last] == cs;
    }
  }

  lemma {:induction false} WalkIsDescend(ns: Namespace, cs: seq<string>)
    requires Components(cs) && WalkNs(ns, ROOT, cs) != NONE
    ensures Descend(ns, cs) == WalkNs(ns, ROOT, cs)
  {
    if cs != [] {
      var prefix, last := cs[..|cs| - 1], cs[|cs| - 1];
      assert prefix + [last] == cs;
      WalkPrefix(ns, ROOT, prefix, last);
      WalkIsDescend(ns, prefix);
      WalkNsAppend(ns, ROOT, prefix, last);
    }
  }

  lemma {:induction false} WalkPrefix(ns: Namespace, cur: nat, toks: seq<string>, last: string)
    requires cur != NONE && WalkNs(ns, cur, toks + [last]) != NONE
    ensures WalkNs(ns, cur, toks) != NONE
    decreases toks
  {
    if toks != [] {
      assert (toks + [last])[1..] == toks[1..] + [last];
      WalkPrefix(ns, LookupNs(ns, cur, toks[0]), toks[1..], last);
    }
  }

  lemma AbsPathShape(cs: seq<string>)
    requires Components(cs)
    ensures AbsPath(cs)[0] == '/' && Tokens(AbsPath(cs)) == cs
    ensures '\0' !in AbsPath(cs)
    ensures cs != [] ==> Chop(AbsPath(cs)) == AbsPath(cs)
    decreases cs
  {
    TokensOfSlashed(cs);
    RootHasNoTokens();
    SlashedShape(cs);
  }

  lemma {:induction false} SlashedShape(cs: seq<string>)
    requires Components(cs)
    ensures '\0' !in Slashed(cs)
    ensures cs != [] ==>
      |Slashed(cs)| >= 2 && Slashed(cs)[0] == '/' && Slashed(cs)[|Slashed(cs)| - 1] != '/'
  {
    if cs != [] {
      SlashedShape(cs[..|cs| - 1]);
    }
  }

  /** Resolving the displayed path gives the current directory. */
  lemma PromptResolves(fs: Mounted)
    requires MountOk(fs) && PromptOk(fs)
    ensures Resolve(fs.disk, fs.cwd, fs.cwdPath) == fs.cwd
  {
    var cs :| NamesCwd(fs, cs);
    AbsPathShape(cs);
    DescendIsWalk(View(fs.disk), cs);
    NamedIsSound(fs, fs.cwdPath);
    ResolveAgrees(fs, fs.cwdPath);
  }

  // ---- cd keeps the prompt right ----

  /** "a/b/c" for at least one component. */
  function RelPath(cs: seq<string>): string
    requires cs != []
  {
    Slashed(cs)[1..]
  }

  lemma {:induction false} SlashedConcat(a: seq<string>, b: seq<string>)
    ensures Slashed(a + b) == Slashed(a) + Slashed(b)
  {
    if b == [] {
      assert a + b == a;
    } else {
      assert (a + b)[..|a + b| - 1] == a + b[..|b| - 1];
      SlashedConcat(a, b[..|b| - 1]);
    }
  }

  /** The normal form of an absolute path, or that with one more slash. */
  ghost predicate AbsTarget(path: string, cs: seq<string>) {
    Components(cs) && (path == AbsPath(cs) || path == AbsPath(cs) + "/")
  }

  /** The normal form of a relative path, or that with one more slash. */
  ghost predicate RelTarget(path: string, cs: seq<string>) {
    Components(cs) && cs != [] && (path == RelPath(cs) || path == RelPath(cs) + "/")
  }

  lemma ChopSlash(path: string)
    requires path != ""
    ensures Chop(path + "/") == path
  {
  }

  lemma AbsTargetPath(target: string, cs: seq<string>)
    requires AbsTarget(target, cs)
    ensures target != "" && target[0] == '/' && Tokens(target) == cs && Chop(target) == AbsPath(cs)
    ensures |AbsPath(cs)| <= |target|
  {
    AbsPathShape(cs);
    ChopSlash(AbsPath(cs));
    TokensBeforeSlash(AbsPath(cs));
  }

  lemma CdAbsolute(fs: Mounted, target: string, cs: seq<string>)
    requires MountOk(fs) && fs.cwdPath != "" && AbsTarget(target, cs) && PathSound(fs, target)
    requires Cd(fs, target).ok
    ensures NamesCwd(Cd(fs, target).fs, cs)
  {
    AbsTargetPath(target, cs);
    CdExact(fs, target);
    WalkIsDescend(View(fs.disk), cs);
  }

  lemma RelPathShape(cs: seq<string>)
    requires Components(cs) && cs != []
    ensures "/" + RelPath(cs) == Slashed(cs)
    ensures RelPath(cs) != "" && RelPath(cs)[0] != '/' && Tokens(RelPath(cs)) == cs
    ensures RelPath(cs) != ".." && '\0' !in RelPath(cs)
  {
    SlashedShape(cs);
    TokensOfSlashed(cs);
    assert Slashed(cs)[1..] == RelPath(cs);
    FirstComponentLeads(cs);
    TokensOfComponent("..");
    assert cs[0] != "..";
  }

  lemma {:induction false} FirstComponentLeads(cs: seq<string>)
    requires Components(cs) && cs != []
    ensures |Slashed(cs)| >= 2 && Slashed(cs)[1] == cs[0][0]
  {
    if |cs| > 1 {
      FirstComponentLeads(cs[..|cs| - 1]);
    } else {
      assert Slashed(cs[..0]) == "";
    }
  }

  lemma {:induction false} WalkNsConcat(ns: Namespace, cur: nat, a: seq<string>, b: seq<string>)
    requires WalkNs(ns, cur, a) != NONE
    ensures WalkNs(ns, cur, a + b) == WalkNs(ns, WalkNs(ns, cur, a), b)
    decreases a
  {
    if a == [] {
      assert a + b == b;
    } else {
      assert (a + b)[1..] == a[1..] + b;
      WalkNsConcat(ns, LookupNs(ns, cur, a[0]), a[1..], b);
    }
  }

  lemma JoinPaths(base: seq<string>, cs: seq<string>)
    requires Components(base) && Components(cs) && cs != []
    ensures (if base == [] then "/" else Slashed(base) + "/") + RelPath(cs) == AbsPath(base + cs)
  {
    RelPathShape(cs);
    SlashedConcat(base, cs);
    assert Slashed(base) + "/" + RelPath(cs) == Slashed(base) + ("/" + RelPath(cs));
  }

  /** The current path, ready for a component to be appended. */
  function WithSlash(cwdPath: string): string
    requires cwdPath != ""
  {
    if cwdPath[|cwdPath| - 1] == '/' then cwdPath else cwdPath + "/"
  }

  lemma WithSlashOf(base: seq<string>)
    requires Components(base)
    ensures AbsPath(base) != "" && WithSlash(AbsPath(base)) == if base == [] then "/" else Slashed(base) + "/"
  {
    SlashedShape(base);
  }

  lemma RelTargetShape(target: string, cs: seq<string>)
    requires RelTarget(target, cs)
    ensures target != "" && target[0] != '/' && target != ".." && Tokens(target) == cs
  {
    RelPathShape(cs);
    TokensBeforeSlash(RelPath(cs));
    if target == ".." {
      TokensOfComponent("..");
    }
  }

  /** Appending a relative target, with or without a final slash. */
  lemma CdRelativePath(base: seq<string>, target: string, cs: seq<string>)
    requires Components(base) && RelTarget(target, cs)
    requires |AbsPath(base + cs)| < PATH_BUFFER
    ensures AbsPath(base) != "" && target != "" && NextCwdPath(AbsPath(base), target) == AbsPath(base + cs)
  {
    WithSlashOf(base);
    var before := WithSlash(AbsPath(base));
    JoinPaths(base, cs);
    RelTargetShape(target, cs);
    RelPathShape(cs);
    AbsPathShape(base + cs);
    AppendRelative(before, RelPath(cs), target, AbsPath(base + cs));
    if base != [] {
      AppendFits(Slashed(base), "/");
    }
  }

  lemma AppendRelative(before: string, rel: string, target: string, path: string)
    requires path == before + rel && |path| < PATH_BUFFER && path != "" && Chop(path) == path && rel != ""
    requires target == rel || target == rel + "/"
    ensures Chop(Append(before, target)) == path
  {
    if target == rel + "/" {
      if |before| + |target| < PATH_BUFFER {
        assert before + target == path + "/";
        ChopSlash(path);
      } else {
        assert target[..|rel|] == rel;
      }
    }
  }

  lemma AppendFits(s: string, t: string)
    requires |s| + |t| < PATH_BUFFER
    ensures Append(s, t) == s + t
  {
  }

  lemma RelativeWalk(ns: Namespace, base: seq<string>, cs: seq<string>)
    requires KindsAgree(ns) && Components(base) && Components(cs) && Descend(ns, base) != NONE
    requires WalkNs(ns, Descend(ns, base), cs) != NONE
    ensures Descend(ns, base + cs) == WalkNs(ns, Descend(ns, base), cs)
  {
    DescendIsWalk(ns, base);
    WalkNsConcat(ns, ROOT, base, cs);
    WalkIsDescend(ns, base + cs);
  }

  lemma CdRelativeLands(fs: Mounted, base: seq<string>, target: string, cs: seq<string>)
    requires MountOk(fs) && NamesCwd(fs, base) && RelTarget(target, cs)
    requires |AbsPath(base + cs)| < PATH_BUFFER && PathSound(fs, target) && fs.cwdPath != "" && Cd(fs, target).ok
    ensures Cd(fs, target).fs == Mounted(fs.disk, Descend(View(fs.disk), base + cs), AbsPath(base + cs))
  {
    RelTargetShape(target, cs);
    CdExact(fs, target);
    RelativeWalk(View(fs.disk), base, cs);
    CdLands(fs, target);
    CdRelativePath(base, target, cs);
  }

  lemma CdRelative(fs: Mounted, base: seq<string>, target: string, cs: seq<string>)
    requires MountOk(fs) && NamesCwd(fs, base) && RelTarget(target, cs)
    requires |AbsPath(base + cs)| < PATH_BUFFER && PathSound(fs, target) && fs.cwdPath != "" && Cd(fs, target).ok
    ensures NamesCwd(Cd(fs, target).fs, base + cs)
  {
    CdRelativeLands(fs, base, target, cs);
    ComponentsConcat(base, cs);
  }

  lemma ComponentsConcat(a: seq<string>, b: seq<string>)
    requires Components(a) && Components(b)
    ensures Components(a + b)
  {
  }

  lemma {:induction false} LastSlashOf(a: string, b: string)
    requires '/' !in b
    ensures LastSlash(a + "/" + b) == |a|
  {
    if b == "" {
      assert a + "/" + b == a + "/";
    } else {
      assert (a + "/" + b)[..|a + "/" + b| - 1] == a + "/" + b[..|b| - 1];
      LastSlashOf(a, b[..|b| - 1]);
    }
  }

  lemma CdUpPath(cs: seq<string>)
    requires Components(cs) && cs != []
    ensures NextCwdPath(AbsPath(cs), "..") == AbsPath(cs[..|cs| - 1])
  {
    var prefix, last := cs[..|cs| - 1], cs[|cs| - 1];
    LastSlashOf(Slashed(prefix), last);
    SlashedShape(prefix);
    assert AbsPath(cs)[..|Slashed(prefix)|] == Slashed(prefix);
  }

  lemma CdUpFromRoot(fs: Mounted)
    requires MountOk(fs) && NamesCwd(fs, []) && fs.cwdPath != "" && Cd(fs, "..").ok
    ensures NamesCwd(Cd(fs, "..").fs, [])
  {
    CwdInView(fs);
    DotNames(View(fs.disk), fs.cwd);
    CdLands(fs, "..");
    assert LastSlash("/") == 0;
  }

  lemma CdUpLands(fs: Mounted, cs: seq<string>)
    requires MountOk(fs) && NamesCwd(fs, cs) && cs != [] && fs.cwdPath != "" && Cd(fs, "..").ok
    ensures Cd(fs, "..").fs == Mounted(fs.disk, Descend(View(fs.disk), cs[..|cs| - 1]), AbsPath(cs[..|cs| - 1]))
  {
    UpFromHere(fs);
    UpFromPath(View(fs.disk), cs);
    CdUpPath(cs);
  }

  /** Going up follows "..", which the tree invariant keeps equal to the parent in the path. */
  lemma CdUpFromBelow(fs: Mounted, cs: seq<string>)
    requires MountOk(fs) && NamesCwd(fs, cs) && cs != [] && fs.cwdPath != "" && Cd(fs, "..").ok
    ensures NamesCwd(Cd(fs, "..").fs, cs[..|cs| - 1])
  {
    CdUpLands(fs, cs);
    ShorterPath(cs);
  }

  lemma DotDotNames(ns: Namespace, cwd: nat)
    ensures Names(ns, cwd, "..") == LookupNs(ns, cwd, "..")
  {
    TokensOfComponent("..");
    assert [".."][1..] == [];
  }

  lemma ShorterPath(cs: seq<string>)
    requires Components(cs) && cs != []
    ensures Components(cs[..|cs| - 1]) && |AbsPath(cs[..|cs| - 1])| <= |AbsPath(cs)|
  {
    SlashedShape(cs[..|cs| - 1]);
  }

  lemma UpFromPath(ns: Namespace, cs: seq<string>)
    requires TreeInv(ns) && cs != [] && Descend(ns, cs) in ns.dirs
    ensures LookupNs(ns, Descend(ns, cs), "..") == Descend(ns, cs[..|cs| - 1])
  {
    var p, n := Descend(ns, cs[..|cs| - 1]), cs[|cs| - 1];
    assert DotsOk(ns, Descend(ns, cs));
    assert EntryOk(ns, p, n);
  }

  // ---- "." is not a normal target ----

  lemma DotThenUpPath(cs: seq<string>)
    requires Components(cs) && cs != [] && |AbsPath(cs)| + 2 < PATH_BUFFER
    ensures NextCwdPath(AbsPath(cs), ".") == AbsPath(cs) + "/."
    ensures NextCwdPath(AbsPath(cs) + "/.", "..") == AbsPath(cs)
  {
    SlashedShape(cs);
    assert AbsPath(cs) + "/" + "." == AbsPath(cs) + "/.";
    LastSlashOf(AbsPath(cs), ".");
    assert (AbsPath(cs) + "/.")[..|AbsPath(cs)|] == AbsPath(cs);
  }

  lemma CdLands(fs: Mounted, path: string)
    requires MountOk(fs) && fs.cwdPath != "" && CPath(path) && path != ""
    requires Names(View(fs.disk), fs.cwd, path) in View(fs.disk).dirs
    ensures Cd(fs, path) == Moved(fs.(cwd := Names(View(fs.disk), fs.cwd, path),
                                      cwdPath := NextCwdPath(fs.cwdPath, path)), true)
  {
    NamedIsSound(fs, path);
    CdExact(fs, path);
  }

  lemma DotNames(ns: Namespace, cwd: nat)
    requires TreeInv(ns) && cwd in ns.dirs
    ensures Names(ns, cwd, ".") == cwd
    ensures Names(ns, cwd, "..") == LookupNs(ns, cwd, "..") && LookupNs(ns, cwd, "..") in ns.dirs
  {
    assert DotsOk(ns, cwd);
    DotDotNames(ns, cwd);
    TokensOfComponent(".");
    assert ["."][1..] == [];
  }

  lemma DotIsHere(fs: Mounted)
    requires MountOk(fs) && fs.cwdPath != ""
    ensures Cd(fs, ".") == Moved(fs.(cwdPath := NextCwdPath(fs.cwdPath, ".")), true)
  {
    CwdInView(fs);
    DotNames(View(fs.disk), fs.cwd);
    CdLands(fs, ".");
  }

  lemma UpFromHere(fs: Mounted)
    requires MountOk(fs) && fs.cwdPath != ""
    ensures Cd(fs, "..") == Moved(fs.(cwd := LookupNs(View(fs.disk), fs.cwd, ".."),
                                      cwdPath := NextCwdPath(fs.cwdPath, "..")), true)
  {
    CwdInView(fs);
    DotNames(View(fs.disk), fs.cwd);
    CdLands(fs, "..");
  }

  lemma ParentDiffers(ns: Namespace, cs: seq<string>)
    requires TreeInv(ns) && cs != [] && Descend(ns, cs) in ns.dirs
    ensures Descend(ns, cs[..|cs| - 1]) != Descend(ns, cs)
  {
    var p, n, i := Descend(ns, cs[..|cs| - 1]), cs[|cs| - 1], Descend(ns, cs);
    assert Child(ns, p, n, i);
    if p == i {
      NoSelfChild(ns, cs, n, i);
    }
  }

  /** Below the root, "cd ." followed by "cd .." leaves the prompt naming the old directory. */
  lemma DotThenUpMisleads(fs: Mounted, cs: seq<string>)
    requires MountOk(fs) && NamesCwd(fs, cs) && cs != [] && |fs.cwdPath| + 2 < PATH_BUFFER && fs.cwdPath != ""
    ensures var here := Cd(fs, ".").fs;
            here.cwdPath != "" &&
            var up := Cd(here, "..").fs;
            && Cd(fs, ".").ok && Cd(here, "..").ok
            && up.cwdPath == fs.cwdPath && up.cwd == Descend(View(fs.disk), cs[..|cs| - 1])
            && up.cwd != fs.cwd && Resolve(up.disk, up.cwd, up.cwdPath) == fs.cwd
  {
    DotThenUpPath(cs);
    DotIsHere(fs);
    var here := Cd(fs, ".").fs;
    UpFromHere(here);
    UpFromPath(View(fs.disk), cs);
    PromptResolves(fs);
    AbsPathShape(cs);
    var up := Cd(here, "..").fs;
    ParentDiffers(View(fs.disk), cs);
    assert Start(fs.cwd, fs.cwdPath) == ROOT == Start(up.cwd, up.cwdPath);
    ResolveIsWalk(fs.disk, fs.cwd, fs.cwdPath);
    ResolveIsWalk(fs.disk, up.cwd, fs.cwdPath);
  }
}
