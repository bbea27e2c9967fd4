/** The kernel port's operations as functions, which differ from the runtime's in the prompt after "cd ." and in
  * a touch that is led outside the inode table; and when the two programs stay together. */
module KernelSpec {
  import opened ZerosFs
  import opened Namespace
  import opened Volume
  import opened Paths
  import opened Operations
  import opened FileSystem
  import opened MountTheorems
  import opened Prompt
  import opened CdTargets
  import opened Runs
  import opened TruePrompt
  import opened Strays

  /** kzeros_cd leaves the prompt alone for "." (kernel/kzeros.c:329-346). */
  function KNextCwdPath(cwdPath: string, target: string): (next: string)
    requires cwdPath != "" && target != ""
    ensures next != ""
  {
    if target == "." then Chop(cwdPath) else NextCwdPath(cwdPath, target)
  }

  function KCd(fs: Mounted, path: string): Moved
    requires fs.cwdPath != ""
  {
    var target := if path == "" then "/" else path;
    var i := Resolve(fs.disk, fs.cwd, target);
    if i == NONE || i >= |fs.disk.inodes| || fs.disk.inodes[i].ftype != Dir then Moved(fs, false)
    else Moved(fs.(cwd := i, cwdPath := KNextCwdPath(fs.cwdPath, target)), true)
  }

  function KApply(fs: Mounted, op: Op): Moved
    requires fs.cwdPath != ""
  {
    if op.CdOp? then KCd(fs, op.path) else Apply(fs, op)
  }

  // ---- both ports side by side ----

  /** Same volume, same current directory. */
  ghost predicate Alike(u: Mounted, k: Mounted) {
    u.disk == k.disk && u.cwd == k.cwd
  }

  lemma NextPathNotEmpty(fs: Mounted, op: Op)
    requires fs.cwdPath != ""
    ensures Apply(fs, op).fs.cwdPath != "" && KApply(fs, op).fs.cwdPath != ""
    ensures forall stamped :: UserApply(fs, op, stamped).fs.cwdPath != ""
  {
  }

  lemma RmAlike(u: Mounted, k: Mounted, path: string)
    requires Alike(u, k)
    ensures Rm(u, path) == Rm(k, path)
  {
    assert MayRemove(u, Resolve(u.disk, u.cwd, path)) == MayRemove(k, Resolve(k.disk, k.cwd, path));
  }

  lemma CreationAlike(u: Mounted, k: Mounted, path: string)
    requires Alike(u, k)
    ensures Mkdir(u, path) == Mkdir(k, path) && Touch(u, path) == Touch(k, path)
  {
  }

  lemma WriteAlike(u: Mounted, k: Mounted, path: string, data: seq<byte>)
    requires Alike(u, k)
    ensures WriteFile(u, path, data) == WriteFile(k, path, data)
  {
    CreationAlike(u, k, path);
  }

  lemma CdAlike(u: Mounted, k: Mounted, path: string)
    requires Alike(u, k) && u.cwdPath != "" && k.cwdPath != ""
    ensures Cd(u, path).ok == KCd(k, path).ok && Alike(Cd(u, path).fs, KCd(k, path).fs)
    ensures u == k && path != "." ==> Cd(u, path) == KCd(k, path)
  {
  }

  /** One operation, whatever its outcome: equal results, equal volumes, equal directories; the
    * prompts can come apart at "cd ." only. */
  lemma StepsAlike(u: Mounted, k: Mounted, op: Op)
    requires Alike(u, k) && u.cwdPath != "" && k.cwdPath != ""
    ensures Apply(u, op).ok == KApply(k, op).ok && Alike(Apply(u, op).fs, KApply(k, op).fs)
    ensures u == k && op != CdOp(".") ==> Apply(u, op) == KApply(k, op)
  {
    match op
    case CdOp(path) => CdAlike(u, k, path);
    case WriteOp(path, data) => WriteAlike(u, k, path, data);
    case RmOp(path) => RmAlike(u, k, path);
    case _ => CreationAlike(u, k, op.path);
  }

  // ---- the two programs, zeros_touch as it is ----

  lemma MovedExtensional(a: Moved, b: Moved)
    requires a.ok == b.ok && a.fs.disk == b.fs.disk && a.fs.cwd == b.fs.cwd && a.fs.cwdPath == b.fs.cwdPath
    ensures a == b
  {
  }

  lemma TouchKeepsPlace(fs: Mounted, op: Op, stamped: Block)
    requires fs.cwdPath != "" && op.TouchOp?
    ensures UserApply(fs, op, stamped).fs.cwd == fs.cwd && Apply(fs, op).fs.cwd == fs.cwd
    ensures UserApply(fs, op, stamped).fs.cwdPath == fs.cwdPath == Apply(fs, op).fs.cwdPath
  {
  }

  /** One operation on the same volume gives both programs the same result and the same volume exactly
    * when it is not a touch that leads past the device or puts another clock into a block. */
  lemma StepsAgreeIff(u: Mounted, k: Mounted, op: Op, stamped: Block)
    requires Alike(u, k) && u.cwdPath != "" && k.cwdPath != ""
    ensures SameStep(UserApply(u, op, stamped), KApply(k, op)) <==> Agrees(u, op, stamped)
    ensures Agrees(u, op, stamped) ==> UserApply(u, op, stamped) == Apply(u, op)
  {
    StepsAlike(u, k, op);
    AgreesExactly(u, op, stamped);
    if op.TouchOp? && SameStep(UserApply(u, op, stamped), KApply(k, op)) {
      TouchKeepsPlace(u, op, stamped);
      MovedExtensional(UserApply(u, op, stamped), Apply(u, op));
    }
  }

  ghost predicate SameStep(a: Moved, b: Moved) {
    a.ok == b.ok && Alike(a.fs, b.fs)
  }

  /** The outcomes of a sequence of operations, failures included. */
  function Outcomes(fs: Mounted, calls: seq<Call>): seq<bool>
    requires fs.cwdPath != ""
    decreases calls
  {
    if calls == [] then []
    else
      NextPathNotEmpty(fs, calls[0].op);
      var next := UserApply(fs, calls[0].op, calls[0].stamped);
      [next.ok] + Outcomes(next.fs, calls[1..])
  }

  function Final(fs: Mounted, calls: seq<Call>): Mounted
    requires fs.cwdPath != ""
    decreases calls
  {
    if calls == [] then fs
    else
      NextPathNotEmpty(fs, calls[0].op);
      Final(UserApply(fs, calls[0].op, calls[0].stamped).fs, calls[1..])
  }

  /** Along the whole run equal results, equal volumes and equal current directories. */
  ghost predicate InLockstep(u: Mounted, k: Mounted, calls: seq<Call>)
    requires u.cwdPath != "" && k.cwdPath != ""
    decreases calls
  {
    if calls == [] then true
    else
      NextPathNotEmpty(u, calls[0].op);
      NextPathNotEmpty(k, calls[0].op);
      var a, b := UserApply(u, calls[0].op, calls[0].stamped), KApply(k, calls[0].op);
      SameStep(a, b) && InLockstep(a.fs, b.fs, calls[1..])
  }

  /** No operation of the run is a touch on which the programs differ. */
  ghost predicate AllAgree(fs: Mounted, calls: seq<Call>)
    requires fs.cwdPath != ""
    decreases calls
  {
    if calls == [] then true
    else
      NextPathNotEmpty(fs, calls[0].op);
      Agrees(fs, calls[0].op, calls[0].stamped) && AllAgree(Apply(fs, calls[0].op).fs, calls[1..])
  }

  /** From equal volumes the two programs stay in lockstep exactly along the runs without such a touch. */
  lemma {:induction false} PortsAgreeIff(u: Mounted, k: Mounted, calls: seq<Call>)
    requires Alike(u, k) && u.cwdPath != "" && k.cwdPath != ""
    ensures InLockstep(u, k, calls) <==> AllAgree(u, calls)
    decreases calls
  {
    if calls != [] {
      NextPathNotEmpty(u, calls[0].op);
      NextPathNotEmpty(k, calls[0].op);
      StepsAgreeIff(u, k, calls[0].op, calls[0].stamped);
      if Agrees(u, calls[0].op, calls[0].stamped) {
        PortsAgreeIff(Apply(u, calls[0].op).fs, KApply(k, calls[0].op).fs, calls[1..]);
      }
    }
  }

  // ---- the kernel's prompt ----

  /** "cd ." in the kernel port goes where the path leads, and takes one final slash off the prompt at most. */
  lemma KCdDotExact(fs: Mounted)
    requires MountOk(fs) && fs.cwdPath != ""
    ensures var m := KCd(fs, ".");
            && m.ok && m.fs.disk == fs.disk && m.fs.cwd == fs.cwd
            && (m.fs.cwdPath == fs.cwdPath || m.fs.cwdPath + "/" == fs.cwdPath)
            && (m.fs.cwdPath == fs.cwdPath <==> |fs.cwdPath| == 1 || fs.cwdPath[|fs.cwdPath| - 1] != '/')
  {
    DotIsHere(fs);
    KCdDotChops(fs);
    CutSlash(fs.cwdPath);
  }

  lemma KCdDotChops(fs: Mounted)
    requires fs.cwdPath != "" && Cd(fs, ".").ok && Cd(fs, ".").fs.cwd == fs.cwd
    ensures KCd(fs, ".") == Moved(fs.(cwdPath := Chop(fs.cwdPath)), true)
  {
  }

  lemma CutSlash(path: string)
    requires path != ""
    ensures Chop(path) == path <==> |path| == 1 || path[|path| - 1] != '/'
    ensures Chop(path) == path || Chop(path) + "/" == path
  {
  }

  /** "cd ." in the kernel port changes nothing at all when the prompt is in normal form. */
  lemma KCdDotIsNoOp(fs: Mounted)
    requires MountOk(fs) && PromptOk(fs) && fs.cwdPath != ""
    ensures KCd(fs, ".") == Moved(fs, true)
  {
    var cs :| NamesCwd(fs, cs);
    NormalPathStays(cs);
    DotIsHere(fs);
  }

  /** The kernel's cd keeps the prompt right for "." too, and otherwise exactly when the runtime's does. */
  lemma KCdKeepsPromptIff(fs: Mounted, path: string)
    requires MountOk(fs) && PromptOk(fs) && fs.cwdPath != "" && PathSound(fs, Target(path)) && KCd(fs, path).ok
    ensures PromptOk(KCd(fs, path).fs) <==> path == "." || KeepsPrompt(fs, Target(path))
  {
    if path == "." {
      KCdDotIsNoOp(fs);
    } else {
      CdAlike(fs, fs, path);
      CdKeepsPromptIff(fs, path);
    }
  }

  lemma DotIsKept(fs: Mounted)
    requires fs.cwdPath != "" && MountOk(fs)
    ensures KeepsTruth(fs, ".")
  {
    DotResolves(fs);
    KeptDot(fs.cwdPath);
  }

  lemma DotResolves(fs: Mounted)
    requires MountOk(fs)
    ensures Resolve(fs.disk, fs.cwd, ".") == fs.cwd
  {
    CwdInView(fs);
    DotNames(View(fs.disk), fs.cwd);
    NamedIsSound(fs, ".");
    ResolveAgrees(fs, ".");
  }

  lemma KeptDot(cwdPath: string)
    requires cwdPath != ""
    ensures Kept(cwdPath, ".") == "" || Kept(cwdPath, ".") == "."
  {
  }

  /** A prompt that leads to the current directory does so after the kernel's cd exactly when it does after
    * the runtime's, although the two may show different ones. */
  lemma KCdKeepsTruthIff(fs: Mounted, path: string)
    requires MountOk(fs) && TellsTruth(fs) && PathSound(fs, Target(path)) && KCd(fs, path).ok
    ensures TellsTruth(KCd(fs, path).fs) <==> KeepsTruth(fs, Target(path))
  {
    if path == "." {
      DotIsKept(fs);
      DotIsHere(fs);
      TruthIsWalk(fs);
      ChopTokens(fs.cwdPath);
      DisplayedWalk(KCd(fs, path).fs, Tokens(fs.cwdPath));
    } else {
      CdAlike(fs, fs, path);
      CdKeepsTruthIff(fs, path);
    }
  }

  /** A run of the kernel port whose cd targets keep the prompt or are ".". */
  ghost predicate KRun(fs: Mounted, ops: seq<Op>, fs': Mounted)
    decreases ops
  {
    if ops == [] then fs' == fs
    else
      && fs.cwdPath != "" && Allowed(fs, ops[0]) && KApply(fs, ops[0]).ok
      && (ops[0].CdOp? ==> Target(ops[0].path) == "." || KeepsPrompt(fs, Target(ops[0].path)))
      && KRun(KApply(fs, ops[0]).fs, ops[1..], fs')
  }

  lemma KStep(fs: Mounted, op: Op)
    requires MountOk(fs) && PromptOk(fs) && fs.cwdPath != "" && Allowed(fs, op) && KApply(fs, op).ok
    requires op.CdOp? ==> Target(op.path) == "." || KeepsPrompt(fs, Target(op.path))
    ensures MountOk(KApply(fs, op).fs) && PromptOk(KApply(fs, op).fs)
  {
    if op == CdOp(".") {
      KCdDotIsNoOp(fs);
    } else {
      StepsAlike(fs, fs, op);
      StepRefines(fs, op);
      StepKeepsPrompt(fs, op);
    }
  }

  /** Along such a run the kernel's prompt always resolves to its current directory, "cd ." included. */
  lemma {:induction false} KPromptStaysTrue(fs: Mounted, ops: seq<Op>, fs': Mounted)
    requires MountOk(fs) && PromptOk(fs) && KRun(fs, ops, fs')
    ensures MountOk(fs') && PromptOk(fs')
    ensures Resolve(fs'.disk, fs'.cwd, fs'.cwdPath) == fs'.cwd
    decreases ops
  {
    if ops == [] {
      PromptResolves(fs);
    } else {
      KStep(fs, ops[0]);
      KPromptStaysTrue(KApply(fs, ops[0]).fs, ops[1..], fs');
    }
  }
}
