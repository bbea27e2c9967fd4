/** Prompts that lead to the current directory, in normal form or not: when cd keeps them so. */
module TruePrompt {
  import opened ZerosFs
  import opened Namespace
  import opened Volume
  import opened Paths
  import opened Operations
  import opened FileSystem
  import opened MountTheorems
  import opened Prompt
  import opened CdTargets
  import opened Runs

  /** An absolute path through directories. */
  ghost predicate Displayed(fs: Mounted) {
    fs.cwdPath != "" && fs.cwdPath[0] == '/' && PathSound(fs, fs.cwdPath)
  }

  /** Resolving the displayed path gives the current directory. */
  ghost predicate TellsTruth(fs: Mounted) {
    Displayed(fs) && Resolve(fs.disk, fs.cwd, fs.cwdPath) == fs.cwd
  }

  /** A normal form is one way to tell the truth. */
  lemma NormalTellsTruth(fs: Mounted)
    requires MountOk(fs) && PromptOk(fs)
    ensures TellsTruth(fs)
  {
    PromptResolves(fs);
    var cs :| NamesCwd(fs, cs);
    AbsPathShape(cs);
    DescendIsWalk(View(fs.disk), cs);
    NamedIsSound(fs, fs.cwdPath);
  }

  /** What is left of the prompt when its last component is cut off. */
  function UpPath(cwdPath: string): string {
    if LastSlash(cwdPath) > 0 then cwdPath[..LastSlash(cwdPath)] else "/"
  }

  /** An absolute target; ".." where the prompt ends with an ordinary name, or is cut back to the root; a relative
    * path of which what the prompt buffer has room for leads where the path leads. */
  ghost predicate KeepsTruth(fs: Mounted, target: string)
    requires fs.cwdPath != ""
  {
    var last := LastComponent(fs.cwdPath);
    if target != "" && target[0] == '/' then true
    else if target == ".." then (last != "" && Ordinary(last)) || Resolve(fs.disk, fs.cwd, UpPath(fs.cwdPath)) == ROOT
    else Resolve(fs.disk, fs.cwd, Kept(fs.cwdPath, target)) == Resolve(fs.disk, fs.cwd, target)
  }

  // ---- the tokens of the next prompt ----

  lemma ChopTokens(path: string)
    ensures Tokens(Chop(path)) == Tokens(path)
  {
    if Chop(path) != path {
      assert path == Chop(path) + "/";
      TokensBeforeSlash(Chop(path));
    }
  }

  lemma AppendTokens(before: string, t: string)
    requires before != "" && before[|before| - 1] == '/'
    ensures Tokens(before + t) == Tokens(before) + Tokens(t)
  {
    var a := before[..|before| - 1];
    assert before == a + "/";
    TokensJoin(a, t);
    TokensBeforeSlash(a);
  }

  lemma AppendKept(cwdPath: string, before: string, target: string)
    requires cwdPath != "" && before == WithSlash(cwdPath) && |before| < PATH_BUFFER
    ensures Append(before, target) == before + Kept(cwdPath, target)
    ensures |before| + |Kept(cwdPath, target)| < PATH_BUFFER
  {
  }

  lemma FullPrompt(cwdPath: string, target: string)
    requires |cwdPath| == PATH_BUFFER - 1 && cwdPath[|cwdPath| - 1] != '/'
    ensures Append(cwdPath, "/") == cwdPath && Append(cwdPath, target) == cwdPath && Kept(cwdPath, target) == ""
  {
  }

  /** The prompt before anything is appended to it. */
  lemma BeforeAppending(cwdPath: string, before: string, target: string)
    requires cwdPath != "" && |cwdPath| < PATH_BUFFER
    requires before == if cwdPath[|cwdPath| - 1] == '/' then cwdPath else Append(cwdPath, "/")
    ensures Append(before, target) == before + Kept(cwdPath, target) && Tokens(before) == Tokens(cwdPath)
    ensures Kept(cwdPath, target) != "" ==> before[|before| - 1] == '/'
    ensures |before| + |Kept(cwdPath, target)| < PATH_BUFFER && cwdPath <= before
  {
    TokensBeforeSlash(cwdPath);
    if cwdPath[|cwdPath| - 1] != '/' && |cwdPath| == PATH_BUFFER - 1 {
      FullPrompt(cwdPath, target);
      assert before + "" == before;
    } else {
      assert before == WithSlash(cwdPath);
      AppendKept(cwdPath, before, target);
    }
  }

  lemma NextTokens(cwdPath: string, target: string)
    requires cwdPath != "" && |cwdPath| < PATH_BUFFER && target != "" && target[0] != '/' && target != ".."
    ensures Tokens(NextCwdPath(cwdPath, target)) == Tokens(cwdPath) + Tokens(Kept(cwdPath, target))
    ensures |NextCwdPath(cwdPath, target)| < PATH_BUFFER && NextCwdPath(cwdPath, target)[0] == cwdPath[0]
  {
    var before := if cwdPath[|cwdPath| - 1] == '/' then cwdPath else Append(cwdPath, "/");
    var kept := Kept(cwdPath, target);
    BeforeAppending(cwdPath, before, target);
    ChopTokens(before + kept);
    if kept == "" {
      assert before + kept == before && Tokens(kept) == [];
    } else {
      AppendTokens(before, kept);
    }
  }

  lemma UpTokens(cwdPath: string)
    requires cwdPath != "" && cwdPath[0] == '/'
    ensures NextCwdPath(cwdPath, "..") == Chop(UpPath(cwdPath))
    ensures Tokens(Chop(UpPath(cwdPath))) == Tokens(Front(cwdPath))
    ensures Tokens(UpPath(cwdPath)) == Tokens(Front(cwdPath)) && UpPath(cwdPath)[0] == '/'
    ensures |UpPath(cwdPath)| <= |cwdPath|
  {
    ChopTokens(UpPath(cwdPath));
    RootHasNoTokens();
    assert LastSlash(cwdPath) >= 0;
    assert LastSlash(cwdPath) == 0 ==> Front(cwdPath) == "";
  }

  // ---- soundness is kept ----

  lemma {:induction false} EntersConcat(ns: Namespace, cur: nat, a: seq<string>, b: seq<string>)
    requires Enters(ns, cur, a) && WalkNs(ns, cur, a) != NONE && Enters(ns, WalkNs(ns, cur, a), b)
    ensures Enters(ns, cur, a + b)
    decreases a
  {
    if a == [] {
      assert a + b == b;
    } else {
      assert (a + b)[0] == a[0] && (a + b)[1..] == a[1..] + b;
      EntersConcat(ns, LookupNs(ns, cur, a[0]), a[1..], b);
    }
  }

  /** Cutting a path short makes no name be looked up anywhere else. */
  lemma {:induction false} CutEnters(ns: Namespace, cur: nat, path: string, cut: string)
    requires cut <= path && Enters(ns, cur, Tokens(path))
    ensures Enters(ns, cur, Tokens(cut))
    decreases |path|
  {
    if cut != "" {
      if path[0] == '/' {
        CutEnters(ns, cur, path[1..], cut[1..]);
      } else {
        CutWord(ns, cur, path, cut, Span(path));
      }
    }
  }

  lemma CutWord(ns: Namespace, cur: nat, path: string, cut: string, n: nat)
    requires cut != "" && cut <= path && path[0] != '/' && n == Span(path) && Enters(ns, cur, Tokens(path))
    ensures Enters(ns, cur, Tokens(cut))
    decreases |path|, 0
  {
    var toks := Tokens(path);
    assert toks == [path[..n]] + Tokens(path[n..]) && toks[1..] == Tokens(path[n..]);
    if |cut| <= n {
      assert forall j | 0 <= j < |cut| :: cut[j] == path[j];
      TokensOfComponent(cut);
      assert [cut][1..] == [];
    } else {
      SpanCut(path, cut);
      assert cut[..n] == path[..n] && cut[n..] <= path[n..];
      var rest := Tokens(cut[n..]);
      assert Tokens(cut) == [cut[..n]] + rest && ([cut[..n]] + rest)[1..] == rest;
      var next := LookupNs(ns, cur, toks[0]);
      if next != NONE {
        SpanIsPositive(path);
        CutEnters(ns, next, path[n..], cut[n..]);
      }
    }
  }

  lemma SpanIsPositive(s: string)
    requires s != "" && s[0] != '/'
    ensures Span(s) > 0
  {
  }

  lemma {:induction false} SpanCut(path: string, cut: string)
    requires cut <= path && |cut| > Span(path)
    ensures Span(cut) == Span(path)
  {
    if path[0] != '/' {
      SpanCut(path[1..], cut[1..]);
    }
  }

  // ---- going up ----

  /** Only the root is its own parent or its parent's parent. */
  lemma NoShortCycle(ns: Namespace, q: nat)
    requires TreeInv(ns) && q in ns.dirs
    ensures LookupNs(ns, q, "..") in ns.dirs
    ensures LookupNs(ns, q, "..") == q <==> q == ROOT
    ensures LookupNs(ns, LookupNs(ns, q, ".."), "..") == q <==> q == ROOT
  {
    assert DotsOk(ns, q) && DotsOk(ns, ROOT);
    if q != ROOT {
      assert Reachable(ns, q);
      var cs :| Descend(ns, cs) == q;
      var up := cs[..|cs| - 1];
      UpFromPath(ns, cs);
      DescendInjectiveAt(ns, cs, up);
      if up != [] {
        UpFromPath(ns, up);
        DescendInjectiveAt(ns, cs, up[..|up| - 1]);
      }
    }
  }

  lemma DescendInjectiveAt(ns: Namespace, a: seq<string>, b: seq<string>)
    requires TreeInv(ns) && Descend(ns, a) != NONE && |a| != |b|
    ensures Descend(ns, a) != Descend(ns, b)
  {
    if Descend(ns, a) == Descend(ns, b) {
      DescendInjective(ns, a, b);
    }
  }

  /** The walk to the current directory without its last name, and where ".." leads from there. */
  lemma UpFromWalk(ns: Namespace, front: seq<string>, last: string, cwd: nat)
    requires TreeInv(ns) && cwd in ns.dirs
    requires WalkNs(ns, ROOT, if last == "" then front else front + [last]) == cwd
    ensures var q := WalkNs(ns, ROOT, front);
            && q in ns.dirs && Enters(ns, ROOT, front)
            && (LookupNs(ns, cwd, "..") == q <==> (last != "" && Ordinary(last)) || q == ROOT)
  {
    var q := WalkNs(ns, ROOT, front);
    if last == "" {
      NoShortCycle(ns, cwd);
    } else {
      WalkNsPrefix(ns, ROOT, front, last);
      WalkNsAppend(ns, ROOT, front, last);
      NoShortCycle(ns, q);
      LastStep(ns, q, last, cwd);
    }
    EntersOrNone(ns, ROOT, front);
  }

  lemma LastStep(ns: Namespace, q: nat, last: string, cwd: nat)
    requires TreeInv(ns) && q in ns.dirs && cwd in ns.dirs && LookupNs(ns, q, last) == cwd
    ensures Ordinary(last) ==> LookupNs(ns, cwd, "..") == q
    ensures last == "." ==> cwd == q
    ensures last == ".." ==> LookupNs(ns, q, "..") == cwd
  {
    assert DotsOk(ns, q);
    assert Ordinary(last) ==> EntryOk(ns, q, last);
  }

  // ---- the theorem ----

  lemma AbsoluteTells(fs: Mounted, target: string)
    requires MountOk(fs) && fs.cwdPath != "" && PathSound(fs, target) && target != "" && target[0] == '/'
    requires Cd(fs, target).ok
    ensures TellsTruth(Cd(fs, target).fs)
  {
    var next := Cd(fs, target).fs;
    CdExact(fs, target);
    ChopTokens(target);
    assert next.cwdPath == Chop(target);
    NamedIsSound(next, next.cwdPath);
    ResolveAgrees(next, next.cwdPath);
  }

  /** Where the prompt leads, as a walk in the tree. */
  lemma DisplayedWalk(fs: Mounted, toks: seq<string>)
    requires MountOk(fs) && fs.cwdPath != "" && fs.cwdPath[0] == '/' && CPath(fs.cwdPath)
    requires Tokens(fs.cwdPath) == toks && Enters(View(fs.disk), ROOT, toks)
    ensures Displayed(fs) && Resolve(fs.disk, fs.cwd, fs.cwdPath) == WalkNs(View(fs.disk), ROOT, toks)
  {
    ResolveAgrees(fs, fs.cwdPath);
  }

  lemma TruthIsWalk(fs: Mounted)
    requires MountOk(fs) && TellsTruth(fs)
    ensures WalkNs(View(fs.disk), ROOT, Tokens(fs.cwdPath)) == fs.cwd && fs.cwd != NONE
    ensures Enters(View(fs.disk), ROOT, Tokens(fs.cwdPath))
  {
    CwdInView(fs);
    ResolveAgrees(fs, fs.cwdPath);
  }

  lemma KeptIsCut(fs: Mounted, target: string)
    requires MountOk(fs) && fs.cwdPath != "" && PathSound(fs, target) && (target != "" ==> target[0] != '/')
    ensures var kept := Kept(fs.cwdPath, target);
            && PathSound(fs, kept) && Enters(View(fs.disk), fs.cwd, Tokens(kept))
            && Resolve(fs.disk, fs.cwd, kept) == WalkNs(View(fs.disk), fs.cwd, Tokens(kept))
  {
    var kept := Kept(fs.cwdPath, target);
    CutEnters(View(fs.disk), fs.cwd, target, kept);
    assert forall j | 0 <= j < |kept| :: kept[j] == target[j];
    ResolveAgrees(fs, kept);
  }

  lemma RelativeTells(fs: Mounted, target: string, next: Mounted)
    requires MountOk(fs) && TellsTruth(fs) && PathSound(fs, target)
    requires target != "" && target[0] != '/' && target != ".." && Cd(fs, target) == Moved(next, true)
    ensures Displayed(next) && (TellsTruth(next) <==> KeepsTruth(fs, target))
  {
    var kept, ns := Kept(fs.cwdPath, target), View(fs.disk);
    CdExact(fs, target);
    TruthIsWalk(fs);
    NextTokens(fs.cwdPath, target);
    NextHasNoNul(fs.cwdPath, target);
    KeptIsCut(fs, target);
    EntersConcat(ns, ROOT, Tokens(fs.cwdPath), Tokens(kept));
    WalkNsConcat(ns, ROOT, Tokens(fs.cwdPath), Tokens(kept));
    DisplayedWalk(next, Tokens(fs.cwdPath) + Tokens(kept));
    ResolveAgrees(fs, target);
  }

  lemma NextHasNoNul(cwdPath: string, target: string)
    requires cwdPath != "" && target != "" && '\0' !in cwdPath && '\0' !in target
    ensures '\0' !in NextCwdPath(cwdPath, target)
  {
  }

  lemma LastToken(path: string)
    ensures Tokens(path) == if LastComponent(path) == "" then Tokens(Front(path))
                            else Tokens(Front(path)) + [LastComponent(path)]
  {
    if LastComponent(path) == "" {
      TokensOfTrailingSlash(path);
    } else {
      TokensOfPath(path);
    }
  }

  /** The prompt without its last component leads to where ".." leads exactly under the condition. */
  lemma UpPathLeads(fs: Mounted, front: seq<string>)
    requires MountOk(fs) && TellsTruth(fs) && front == Tokens(Front(fs.cwdPath))
    ensures Enters(View(fs.disk), ROOT, front)
    ensures LookupNs(View(fs.disk), fs.cwd, "..") == WalkNs(View(fs.disk), ROOT, front) <==> KeepsTruth(fs, "..")
  {
    CwdInView(fs);
    TruthIsWalk(fs);
    LastToken(fs.cwdPath);
    UpFromWalk(View(fs.disk), front, LastComponent(fs.cwdPath), fs.cwd);
    UpPathWalk(fs, front);
  }

  /** The prompt after "cd ..". */
  lemma UpShows(cwdPath: string)
    requires CPath(cwdPath) && cwdPath != "" && cwdPath[0] == '/'
    ensures var next := NextCwdPath(cwdPath, "..");
            next[0] == '/' && CPath(next) && Tokens(next) == Tokens(Front(cwdPath))
  {
    UpTokens(cwdPath);
    NextHasNoNul(cwdPath, "..");
  }

  lemma UpTells(fs: Mounted, next: Mounted)
    requires MountOk(fs) && TellsTruth(fs) && Cd(fs, "..") == Moved(next, true)
    ensures Displayed(next) && (TellsTruth(next) <==> KeepsTruth(fs, ".."))
  {
    UpMoves(fs, next);
    UpShows(fs.cwdPath);
    UpPathLeads(fs, Tokens(Front(fs.cwdPath)));
    DisplayedWalk(next, Tokens(Front(fs.cwdPath)));
  }

  lemma UpMoves(fs: Mounted, next: Mounted)
    requires MountOk(fs) && fs.cwdPath != "" && Cd(fs, "..") == Moved(next, true)
    ensures MountOk(next) && next.disk == fs.disk && next.cwd == LookupNs(View(fs.disk), fs.cwd, "..")
    ensures next.cwdPath == NextCwdPath(fs.cwdPath, "..")
  {
    CwdInView(fs);
    DotNames(View(fs.disk), fs.cwd);
    UpFromHere(fs);
    MovedIsOk(fs, "..", next);
  }

  lemma MovedIsOk(fs: Mounted, path: string, next: Mounted)
    requires MountOk(fs) && fs.cwdPath != "" && Cd(fs, path) == Moved(next, true)
    requires next.cwd in View(fs.disk).dirs
    ensures MountOk(next) && next.disk == fs.disk
  {
  }

  lemma UpPathWalk(fs: Mounted, front: seq<string>)
    requires MountOk(fs) && fs.cwdPath != "" && fs.cwdPath[0] == '/' && CPath(fs.cwdPath)
    requires front == Tokens(Front(fs.cwdPath)) && Enters(View(fs.disk), ROOT, front)
    ensures Resolve(fs.disk, fs.cwd, UpPath(fs.cwdPath)) == WalkNs(View(fs.disk), ROOT, front)
  {
    UpTokens(fs.cwdPath);
    assert CPath(UpPath(fs.cwdPath));
    ResolveAgrees(fs, UpPath(fs.cwdPath));
  }

  /** From any prompt that leads to the current directory, a successful cd leaves one that does exactly under
    * that condition, and always an absolute path through directories. */
  lemma CdKeepsTruthIff(fs: Mounted, path: string)
    requires MountOk(fs) && TellsTruth(fs) && PathSound(fs, Target(path)) && Cd(fs, path).ok
    ensures var next := Cd(fs, path).fs; Displayed(next) && (TellsTruth(next) <==> KeepsTruth(fs, Target(path)))
  {
    var target := Target(path);
    assert Cd(fs, path) == Cd(fs, target);
    if target[0] == '/' {
      AbsoluteTells(fs, target);
    } else if target == ".." {
      UpTells(fs, Cd(fs, target).fs);
    } else {
      RelativeTells(fs, target, Cd(fs, target).fs);
    }
  }

  // ---- the other operations ----

  /** The walk comes past this inode. */
  ghost predicate Visits(ns: Namespace, cur: nat, toks: seq<string>, i: nat)
    decreases toks
  {
    || cur == i
    || (toks != [] && LookupNs(ns, cur, toks[0]) != NONE && Visits(ns, LookupNs(ns, cur, toks[0]), toks[1..], i))
  }

  /** What can be unlinked: an ordinary entry of a file or an empty directory. */
  ghost predicate Unlinks(ns: Namespace, p: nat, n: string, i: nat) {
    && TreeInv(ns) && Child(ns, p, n, i) && (i in ns.files || EmptyDir(ns, i))
  }

  lemma GoneHasNoChild(ns: Namespace, p: nat, n: string, i: nat, cur: nat)
    requires Unlinks(ns, p, n, i) && cur in ns.dirs && cur != ROOT
    ensures LookupNs(ns, cur, "..") != i
  {
    var q, m := HasParent(ns, cur);
    assert EntryOk(ns, q, m);
  }

  /** The only step to the inode that goes is through the entry that goes. */
  lemma OnlyEntry(ns: Namespace, p: nat, n: string, i: nat, cur: nat, tok: string)
    requires Unlinks(ns, p, n, i) && cur in ns.dirs && cur != i && LookupNs(ns, cur, tok) == i
    ensures cur == p && tok == n
  {
    assert DotsOk(ns, cur) && EntryOk(ns, p, n);
    if Ordinary(tok) {
      assert Child(ns, cur, tok, i);
    } else if tok == ".." && cur != ROOT {
      GoneHasNoChild(ns, p, n, i, cur);
    }
  }

  lemma LookupAfterUnlink(ns: Namespace, p: nat, n: string, i: nat, cur: nat, tok: string)
    requires Unlinks(ns, p, n, i) && cur in ns.dirs && cur != i
    ensures cur in Unlink(ns, p, n).dirs
    ensures LookupNs(Unlink(ns, p, n), cur, tok) ==
              if LookupNs(ns, cur, tok) == i then NONE else LookupNs(ns, cur, tok)
  {
    assert EntryOk(ns, p, n);
    if LookupNs(ns, cur, tok) == i {
      OnlyEntry(ns, p, n, i, cur, tok);
    }
  }

  /** After the removal a walk arrives where it did, unless it came past what is gone: then it ends there. */
  lemma {:induction false} WalkAfterUnlink(ns: Namespace, p: nat, n: string, i: nat, cur: nat, toks: seq<string>)
    requires Unlinks(ns, p, n, i) && cur != i && Enters(ns, cur, toks)
    ensures Enters(Unlink(ns, p, n), cur, toks)
    ensures WalkNs(Unlink(ns, p, n), cur, toks) == if Visits(ns, cur, toks, i) then NONE else WalkNs(ns, cur, toks)
    decreases toks
  {
    if toks != [] {
      LookupAfterUnlink(ns, p, n, i, cur, toks[0]);
      var next := LookupNs(ns, cur, toks[0]);
      if next != NONE && next != i {
        WalkAfterUnlink(ns, p, n, i, next, toks[1..]);
      }
    }
  }

  /** An operation other than cd and rm takes nothing from a path. */
  lemma WalkSurvives(ns: Namespace, ns': Namespace, cwd: nat, op: Op, toks: seq<string>)
    requires TreeInv(ns) && !op.CdOp? && !op.RmOp? && AbstractStep(ns, cwd, op, ns', cwd)
    requires WalkNs(ns, ROOT, toks) == cwd && cwd != NONE
    ensures WalkNs(ns', ROOT, toks) == cwd
  {
    match op
    case MkdirOp(path) =>
      var i :| Creates(ns, ns', cwd, path, i, Dir);
      CreationKeepsWalk(ns, ns', cwd, path, i, Dir, toks);
    case TouchOp(path) =>
      if Names(ns, cwd, path) == NONE {
        var i :| Creates(ns, ns', cwd, path, i, Reg);
        CreationKeepsWalk(ns, ns', cwd, path, i, Reg, toks);
      }
    case WriteOp(path, data) =>
      if Names(ns, cwd, path) == NONE {
        var mid, i :| Creates(ns, mid, cwd, path, i, Reg) && ns' == SetFile(mid, i, data);
        CreationKeepsWalk(ns, mid, cwd, path, i, Reg, toks);
        WalkNsFrame(mid, ns', ROOT, toks);
      } else {
        WalkNsFrame(ns, ns', ROOT, toks);
      }
  }

  lemma CreationKeepsWalk(ns: Namespace, ns': Namespace, cwd: nat, path: string, i: nat, t: FileType, toks: seq<string>)
    requires TreeInv(ns) && Creates(ns, ns', cwd, path, i, t) && WalkNs(ns, ROOT, toks) != NONE
    ensures WalkNs(ns', ROOT, toks) == WalkNs(ns, ROOT, toks)
  {
    WalkNsGrows(ns, ns', ROOT, toks);
  }

  /** What keeps the prompt true: for cd the condition above, for rm that the prompt does not come past what is
    * removed; anything else does. */
  ghost predicate StepKeeps(fs: Mounted, op: Op)
    requires fs.cwdPath != ""
  {
    match op
    case CdOp(path) => KeepsTruth(fs, Target(path))
    case RmOp(path) => !Visits(View(fs.disk), ROOT, Tokens(fs.cwdPath), Names(View(fs.disk), fs.cwd, path))
    case _ => true
  }

  lemma RmTells(fs: Mounted, path: string, next: Mounted)
    requires MountOk(fs) && TellsTruth(fs) && Allowed(fs, RmOp(path)) && Rm(fs, path).ok
    requires next == After(fs, Rm(fs, path)) && MountOk(next)
    ensures Displayed(next) && (TellsTruth(next) <==> StepKeeps(fs, RmOp(path)))
  {
    var ns, toks := View(fs.disk), Tokens(fs.cwdPath);
    var p, n, i := RmUnlinked(fs, path);
    TruthIsWalk(fs);
    CwdInView(next);
    WalkAfterUnlink(ns, p, n, i, ROOT, toks);
    DisplayedWalk(next, toks);
  }

  /** The entry a successful rm takes away. */
  lemma RmUnlinked(fs: Mounted, path: string) returns (p: nat, n: string, i: nat)
    requires MountOk(fs) && Allowed(fs, RmOp(path)) && Rm(fs, path).ok
    ensures Unlinks(View(fs.disk), p, n, i) && View(Rm(fs, path).disk) == Unlink(View(fs.disk), p, n)
    ensures i == Names(View(fs.disk), fs.cwd, path) && i != ROOT
  {
    if LastComponent(path) == ".." {
      RmRefusesDotDot(fs, path);
    }
    RmRefines(fs, path);
    RmTarget(fs, path);
    HolderIsDir(fs, path);
    var parent := ResolveParent(fs.disk, fs.cwd, path);
    p, n := parent.ino, parent.name;
    i := View(fs.disk).dirs[p][n].ino;
  }

  lemma OtherTells(fs: Mounted, op: Op, next: Mounted)
    requires MountOk(fs) && TellsTruth(fs) && Allowed(fs, op) && Apply(fs, op) == Moved(next, true)
    requires !op.CdOp? && !op.RmOp? && MountOk(next)
    requires AbstractStep(View(fs.disk), fs.cwd, op, View(next.disk), next.cwd)
    ensures TellsTruth(next)
  {
    TruthIsWalk(fs);
    WalkSurvives(View(fs.disk), View(next.disk), fs.cwd, op, Tokens(fs.cwdPath));
    EntersOrNone(View(next.disk), ROOT, Tokens(fs.cwdPath));
    DisplayedWalk(next, Tokens(fs.cwdPath));
  }

  /** One successful operation, from any prompt that leads to the current directory. */
  lemma StepTellsIff(fs: Mounted, op: Op)
    requires MountOk(fs) && TellsTruth(fs) && Allowed(fs, op) && Apply(fs, op).ok
    ensures var next := Apply(fs, op).fs;
            MountOk(next) && Displayed(next) && (TellsTruth(next) <==> StepKeeps(fs, op))
  {
    StepRefines(fs, op);
    match op
    case CdOp(path) => CdKeepsTruthIff(fs, path);
    case RmOp(path) => RmTells(fs, path, Apply(fs, op).fs);
    case _ => OtherTells(fs, op, Apply(fs, op).fs);
  }

  /** A run of successful operations each of which keeps the prompt true. */
  ghost predicate TrueRun(fs: Mounted, ops: seq<Op>, fs': Mounted)
    decreases ops
  {
    if ops == [] then fs' == fs
    else
      && fs.cwdPath != "" && Allowed(fs, ops[0]) && Apply(fs, ops[0]).ok && StepKeeps(fs, ops[0])
      && TrueRun(Apply(fs, ops[0]).fs, ops[1..], fs')
  }

  /** Along such a run, and no longer, resolve_path(cwd_path) is cwd_ino. */
  lemma {:induction false} RunTells(fs: Mounted, ops: seq<Op>, fs': Mounted)
    requires MountOk(fs) && TellsTruth(fs) && TrueRun(fs, ops, fs')
    ensures MountOk(fs') && TellsTruth(fs')
    decreases ops
  {
    if ops != [] {
      StepTellsIff(fs, ops[0]);
      RunTells(Apply(fs, ops[0]).fs, ops[1..], fs');
    }
  }
}
