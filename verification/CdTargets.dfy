/** Which cd targets keep the displayed path right. */
module CdTargets {
  import opened ZerosFs
  import opened Namespace
  import opened Paths
  import opened Operations
  import opened FileSystem
  import opened MountTheorems
  import opened Volume
  import opened Prompt

  /** What the prompt buffer has room for of a relative target. */
  function Kept(cwdPath: string, target: string): (kept: string)
    requires cwdPath != ""
    ensures kept <= target
  {
    var room := PATH_BUFFER - 1 - |WithSlash(cwdPath)|;
    if room <= 0 then "" else if |target| <= room then target else target[..room]
  }

  /** What is kept of the target is nothing or a normal form, and leads where the target leads. */
  ghost predicate KeptNormal(fs: Mounted, target: string)
    requires fs.cwdPath != ""
  {
    var kept, ns := Kept(fs.cwdPath, target), View(fs.disk);
    && (kept == "" || exists cs: seq<string> :: RelTarget(kept, cs))
    && Names(ns, fs.cwd, kept) == Names(ns, fs.cwd, target)
  }

  /** "..", an absolute normal form, or a relative target of which what is kept is right. */
  ghost predicate KeepsPrompt(fs: Mounted, target: string)
    requires fs.cwdPath != ""
  {
    || target == ".."
    || (exists cs: seq<string> :: AbsTarget(target, cs))
    || (target != "" && target[0] != '/' && KeptNormal(fs, target))
  }

  lemma WithSlashLength(base: seq<string>, cs: seq<string>)
    requires Components(base) && Components(cs) && cs != []
    ensures AbsPath(base) != "" && |AbsPath(base + cs)| == |WithSlash(AbsPath(base))| + |RelPath(cs)|
    ensures AbsPath(base + cs) == WithSlash(AbsPath(base)) + RelPath(cs)
  {
    WithSlashOf(base);
    JoinPaths(base, cs);
  }

  /** "cd .." and an absolute normal form keep the prompt right. */
  lemma UpOrAbsoluteKeeps(fs: Mounted, target: string)
    requires MountOk(fs) && PromptOk(fs) && fs.cwdPath != "" && PathSound(fs, target) && Cd(fs, target).ok
    requires target == ".." || exists cs: seq<string> :: AbsTarget(target, cs)
    ensures PromptOk(Cd(fs, target).fs)
  {
    var base :| NamesCwd(fs, base);
    if target != ".." {
      var cs: seq<string> :| AbsTarget(target, cs);
      CdAbsolute(fs, target, cs);
    } else if base == [] {
      CdUpFromRoot(fs);
    } else {
      CdUpFromBelow(fs, base);
    }
  }

  // ---- and nothing else does ----

  lemma ChopInverse(path: string)
    requires path != ""
    ensures path == Chop(path) || path == Chop(path) + "/"
  {
  }

  lemma AbsoluteIsNormal(fs: Mounted, target: string)
    requires fs.cwdPath != "" && CPath(target) && target != "" && target[0] == '/' && Cd(fs, target).ok
    requires PromptOk(Cd(fs, target).fs)
    ensures exists cs: seq<string> :: AbsTarget(target, cs)
  {
    var cs :| NamesCwd(Cd(fs, target).fs, cs);
    ChopInverse(target);
    assert AbsTarget(target, cs);
  }

  /** What must be appended to a normal form to get a normal form is one itself. */
  lemma AppendedIsNormal(base: seq<string>, t: string, whole: seq<string>) returns (cs: seq<string>)
    requires Components(base) && Components(whole) && t != "" && t[0] != '/'
    requires AbsPath(base) != "" && WithSlash(AbsPath(base)) + t == AbsPath(whole)
    ensures Components(cs) && cs != [] && t == RelPath(cs)
  {
    cs := Tokens(t);
    TokensAfter(base, t);
    AbsPathShape(whole);
    assert base + cs == whole && cs == whole[|base|..];
    WithSlashLength(base, cs);
    SamePrefix(WithSlash(AbsPath(base)), t, RelPath(cs));
  }

  lemma SamePrefix(a: string, b: string, c: string)
    requires a + b == a + c
    ensures b == c
  {
    assert (a + b)[|a|..] == b && (a + c)[|a|..] == c;
  }

  lemma TokensAfter(base: seq<string>, t: string)
    requires Components(base) && t != "" && t[0] != '/'
    ensures AbsPath(base) != "" && Tokens(WithSlash(AbsPath(base)) + t) == base + Tokens(t) && Tokens(t) != []
  {
    WithSlashOf(base);
    TokensOfSlashed(base);
    if base == [] {
      assert ("/" + t)[1..] == t;
    } else {
      TokensJoin(Slashed(base), t);
    }
  }

  lemma NormalPathStays(cs: seq<string>)
    requires Components(cs)
    ensures Chop(AbsPath(cs)) == AbsPath(cs) && AbsPath(cs) != ""
  {
    if cs != [] {
      AbsPathShape(cs);
    }
  }

  lemma RoomLeft(cwdPath: string, target: string, before: string)
    requires cwdPath != "" && |WithSlash(cwdPath)| < PATH_BUFFER - 1
    requires before == if cwdPath[|cwdPath| - 1] == '/' then cwdPath else Append(cwdPath, "/")
    ensures before == WithSlash(cwdPath) && Append(before, target) == before + Kept(cwdPath, target)
    ensures target != "" ==> Kept(cwdPath, target) != ""
  {
  }

  lemma NoRoomLeft(cwdPath: string, target: string, before: string)
    requires cwdPath != "" && |cwdPath| < PATH_BUFFER && Chop(cwdPath) == cwdPath
    requires |WithSlash(cwdPath)| >= PATH_BUFFER - 1
    requires before == if cwdPath[|cwdPath| - 1] == '/' then cwdPath else Append(cwdPath, "/")
    ensures Chop(Append(before, target)) == cwdPath && Kept(cwdPath, target) == ""
  {
    assert (cwdPath + "/")[..|cwdPath|] == cwdPath;
  }

  /** The prompt after a relative target depends on what is kept of it only. */
  lemma KeptPrompt(base: seq<string>, cwdPath: string, target: string)
    requires Components(base) && cwdPath == AbsPath(base) && cwdPath != "" && |cwdPath| < PATH_BUFFER
    requires target != "" && target[0] != '/' && target != ".."
    ensures var kept := Kept(cwdPath, target);
            NextCwdPath(cwdPath, target) == if kept == "" then cwdPath else Chop(WithSlash(cwdPath) + kept)
  {
    var before := if cwdPath[|cwdPath| - 1] == '/' then cwdPath else Append(cwdPath, "/");
    NormalPathStays(base);
    if |WithSlash(cwdPath)| < PATH_BUFFER - 1 {
      RoomLeft(cwdPath, target, before);
    } else {
      NoRoomLeft(cwdPath, target, before);
    }
  }

  lemma KeptSameNext(base: seq<string>, cwdPath: string, target: string, kept: string)
    requires Components(base) && cwdPath == AbsPath(base) && cwdPath != "" && |cwdPath| < PATH_BUFFER
    requires target != "" && target[0] != '/' && target != ".."
    requires kept == Kept(cwdPath, target) && kept != "" && kept != ".."
    ensures NextCwdPath(cwdPath, kept) == NextCwdPath(cwdPath, target)
    ensures |WithSlash(cwdPath)| + |kept| < PATH_BUFFER
  {
    KeptPrompt(base, cwdPath, target);
    KeptPrompt(base, cwdPath, kept);
  }

  /** Taking the appended part out of the prompt again. */
  lemma ChopAppended(before: string, kept: string) returns (t: string)
    requires before != "" && before[|before| - 1] == '/' && kept != "" && kept[0] != '/'
    ensures t != "" && t[0] != '/' && Chop(before + kept) == before + t && (kept == t || kept == t + "/")
  {
    var s := before + kept;
    t := if kept[|kept| - 1] == '/' then kept[..|kept| - 1] else kept;
    assert s[|s| - 1] == kept[|kept| - 1];
    assert t != kept ==> s[..|s| - 1] == before + t;
  }

  /** What a path of ordinary components names from the current directory. */
  lemma NamesBelow(fs: Mounted, base: seq<string>, path: string, cs: seq<string>)
    requires TreeInv(View(fs.disk)) && Components(base) && Descend(View(fs.disk), base) == fs.cwd && fs.cwd != NONE
    requires RelTarget(path, cs) && Descend(View(fs.disk), base + cs) != NONE
    ensures Names(View(fs.disk), fs.cwd, path) == Descend(View(fs.disk), base + cs)
  {
    RelTargetShape(path, cs);
    ComponentsConcat(base, cs);
    DescendIsWalk(View(fs.disk), base);
    DescendIsWalk(View(fs.disk), base + cs);
    WalkNsConcat(View(fs.disk), ROOT, base, cs);
  }

  /** A prompt that is right after a relative target was kept normal. */
  lemma RelativeIsNormal(fs: Mounted, target: string)
    requires MountOk(fs) && PromptOk(fs) && fs.cwdPath != "" && PathSound(fs, target)
    requires target != "" && target[0] != '/' && target != ".."
    requires Cd(fs, target).ok && PromptOk(Cd(fs, target).fs)
    ensures KeptNormal(fs, target)
  {
    var base :| NamesCwd(fs, base);
    var whole :| NamesCwd(Cd(fs, target).fs, whole);
    var kept, ns := Kept(fs.cwdPath, target), View(fs.disk);
    CdExact(fs, target);
    KeptPrompt(base, fs.cwdPath, target);
    if kept == "" {
      AbsPathShape(base);
      AbsPathShape(whole);
      assert Tokens(kept) == [];
    } else {
      WithSlashEnds(fs.cwdPath);
      var t := ChopAppended(WithSlash(fs.cwdPath), kept);
      var cs := AppendedIsNormal(base, t, whole);
      assert RelTarget(kept, cs);
      AppendedIsBelow(base, cs, whole, t);
      NamesBelow(fs, base, kept, cs);
    }
  }

  lemma WithSlashEnds(cwdPath: string)
    requires cwdPath != ""
    ensures WithSlash(cwdPath) != "" && WithSlash(cwdPath)[|WithSlash(cwdPath)| - 1] == '/'
  {
  }

  lemma AppendedIsBelow(base: seq<string>, cs: seq<string>, whole: seq<string>, t: string)
    requires Components(base) && Components(cs) && cs != [] && Components(whole) && t == RelPath(cs)
    requires AbsPath(base) != "" && WithSlash(AbsPath(base)) + t == AbsPath(whole)
    ensures base + cs == whole
  {
    WithSlashLength(base, cs);
    ComponentsConcat(base, cs);
    AbsPathShape(base + cs);
    AbsPathShape(whole);
  }

  /** What is kept, when it leads to the same directory, is as good a target. */
  lemma KeptIsSound(fs: Mounted, target: string, kept: string)
    requires MountOk(fs) && fs.cwdPath != "" && PathSound(fs, target) && Cd(fs, target).ok
    requires kept <= target && kept != "" && target != ""
    requires Names(View(fs.disk), fs.cwd, kept) == Names(View(fs.disk), fs.cwd, target)
    requires NextCwdPath(fs.cwdPath, kept) == NextCwdPath(fs.cwdPath, target)
    ensures PathSound(fs, kept) && Cd(fs, kept) == Cd(fs, target)
  {
    CdExact(fs, target);
    assert CPath(kept);
    NamedIsSound(fs, kept);
    ResolveAgrees(fs, kept);
    ResolveAgrees(fs, target);
  }

  lemma NothingKept(fs: Mounted, base: seq<string>, target: string)
    requires MountOk(fs) && NamesCwd(fs, base) && fs.cwdPath != "" && PathSound(fs, target)
    requires target != "" && target[0] != '/' && target != ".." && Cd(fs, target).ok
    requires Kept(fs.cwdPath, target) == "" && Names(View(fs.disk), fs.cwd, target) == fs.cwd
    ensures NamesCwd(Cd(fs, target).fs, base)
  {
    CdExact(fs, target);
    KeptPrompt(base, fs.cwdPath, target);
  }

  lemma NormalKept(fs: Mounted, base: seq<string>, target: string, kept: string, cs: seq<string>)
    requires MountOk(fs) && NamesCwd(fs, base) && fs.cwdPath != "" && PathSound(fs, target)
    requires target != "" && target[0] != '/' && target != ".." && Cd(fs, target).ok
    requires kept == Kept(fs.cwdPath, target) && kept != "" && RelTarget(kept, cs)
    requires Names(View(fs.disk), fs.cwd, kept) == Names(View(fs.disk), fs.cwd, target)
    ensures NamesCwd(Cd(fs, target).fs, base + cs)
  {
    RelTargetShape(kept, cs);
    KeptSameNext(base, fs.cwdPath, target, kept);
    KeptIsSound(fs, target, kept);
    WithSlashLength(base, cs);
    CdRelative(fs, base, kept, cs);
  }

  /** ... and the other way round. */
  lemma KeptKeepsPrompt(fs: Mounted, target: string)
    requires MountOk(fs) && PromptOk(fs) && fs.cwdPath != "" && PathSound(fs, target)
    requires target != "" && target[0] != '/' && target != ".." && Cd(fs, target).ok && KeptNormal(fs, target)
    ensures PromptOk(Cd(fs, target).fs)
  {
    var base :| NamesCwd(fs, base);
    var kept := Kept(fs.cwdPath, target);
    if kept == "" {
      assert Tokens(kept) == [];
      NothingKept(fs, base, target);
    } else {
      var cs: seq<string> :| RelTarget(kept, cs);
      NormalKept(fs, base, target, kept, cs);
    }
  }

  /** A successful cd keeps the displayed path right exactly when its target is "..", an absolute normal form,
    * or a relative path of which what the prompt buffer has room for is in normal form and names the same
    * directory; one final slash is allowed. */
  lemma CdKeepsPromptIff(fs: Mounted, path: string)
    requires MountOk(fs) && PromptOk(fs) && fs.cwdPath != "" && PathSound(fs, Target(path)) && Cd(fs, path).ok
    ensures PromptOk(Cd(fs, path).fs) <==> KeepsPrompt(fs, Target(path))
  {
    var target := Target(path);
    assert Cd(fs, path) == Cd(fs, target);
    if target == ".." || target[0] == '/' {
      if PromptOk(Cd(fs, target).fs) && target != ".." {
        AbsoluteIsNormal(fs, target);
      } else if KeepsPrompt(fs, target) {
        UpOrAbsoluteKeeps(fs, target);
      }
    } else {
      NotAbsolute(target);
      if KeptNormal(fs, target) {
        KeptKeepsPrompt(fs, target);
      } else if PromptOk(Cd(fs, target).fs) {
        RelativeIsNormal(fs, target);
      }
    }
  }

  lemma NotAbsolute(target: string)
    requires target != "" && target[0] != '/'
    ensures !exists cs: seq<string> :: AbsTarget(target, cs)
  {
    if cs: seq<string> :| AbsTarget(target, cs) {
      AbsTargetPath(target, cs);
    }
  }
}
