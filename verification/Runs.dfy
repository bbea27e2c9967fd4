/** Whole runs: every sequence of successful operations keeps the invariant and refines
  * a run of the abstract file system; failing operations keep the counters. */
module Runs {
  import opened ZerosFs
  import opened Bitmap
  import opened Namespace
  import opened Volume
  import opened Creation
  import opened Paths
  import opened Operations
  import opened FileSystem
  import opened MountTheorems
  import opened Prompt
  import opened CdTargets

  datatype Op =
    | MkdirOp(path: string)
    | TouchOp(path: string)
    | WriteOp(path: string, data: seq<byte>)
    | RmOp(path: string)
    | CdOp(path: string)

  function Apply(fs: Mounted, op: Op): Moved
    requires fs.cwdPath != ""
  {
    match op
    case MkdirOp(p) => var s := Mkdir(fs, p); Moved(After(fs, s), s.ok)
    case TouchOp(p) => var s := Touch(fs, p); Moved(After(fs, s), s.ok)
    case WriteOp(p, data) => var s := WriteFile(fs, p, data); Moved(After(fs, s), s.ok)
    case RmOp(p) => var s := Rm(fs, p); Moved(After(fs, s), s.ok)
    case CdOp(p) => Cd(fs, p)
  }

  /** What a caller must respect: path buffers, directories along the way, a proper last name. */
  ghost predicate Allowed(fs: Mounted, op: Op) {
    match op
    case MkdirOp(p) => PathOk(fs, p) && LastComponent(p) != ""
    case TouchOp(p) => PathOk(fs, p) && Storable(fs, p)
    case WriteOp(p, data) => PathOk(fs, p) && Storable(fs, p) && |data| < TWO_32
    case RmOp(p) => PathOk(fs, p) && LastComponent(p) != "" && LastComponent(p) != "."
    case CdOp(p) => PathSound(fs, Target(p))
  }

  // ---- the abstract transition system ----

  ghost predicate Creates(ns: Namespace, ns': Namespace, cwd: nat, path: string, i: nat, t: FileType) {
    var p, n := Holder(ns, cwd, path), TruncName(LastComponent(path));
    && p in ns.dirs && n !in ns.dirs[p] && i !in ns.kind
    && ns' == Create(ns, p, n, i, t)
  }

  ghost predicate AbstractStep(ns: Namespace, cwd: nat, op: Op, ns': Namespace, cwd': nat) {
    match op
    case MkdirOp(path) =>
      cwd' == cwd && exists i :: Creates(ns, ns', cwd, path, i, Dir)
    case TouchOp(path) =>
      cwd' == cwd &&
      if Names(ns, cwd, path) != NONE then ns' == ns else exists i :: Creates(ns, ns', cwd, path, i, Reg)
    case WriteOp(path, data) =>
      cwd' == cwd &&
      (if Names(ns, cwd, path) != NONE then
         Names(ns, cwd, path) in ns.files && ns' == SetFile(ns, Names(ns, cwd, path), data)
       else
         exists mid, i :: Creates(ns, mid, cwd, path, i, Reg) && ns' == SetFile(mid, i, data))
    case RmOp(path) =>
      var p, n := Holder(ns, cwd, path), TruncName(LastComponent(path));
      && cwd' == cwd && p in ns.dirs && n in ns.dirs[p]
      && (ns.dirs[p][n].ino in ns.files || EmptyDir(ns, ns.dirs[p][n].ino))
      && ns' == Unlink(ns, p, n)
    case CdOp(path) =>
      ns' == ns && cwd' == Names(ns, cwd, Target(path)) && cwd' in ns.dirs
  }

  lemma MkdirStep(fs: Mounted, path: string)
    requires MountOk(fs) && Allowed(fs, MkdirOp(path)) && Mkdir(fs, path).ok
    ensures MountOk(After(fs, Mkdir(fs, path)))
    ensures exists i :: Creates(View(fs.disk), View(Mkdir(fs, path).disk), fs.cwd, path, i, Dir)
  {
    MkdirRefines(fs, path);
    HolderIsDir(fs, path);
    assert Creates(View(fs.disk), View(Mkdir(fs, path).disk), fs.cwd, path, FirstFreeInode(fs.disk), Dir);
  }

  lemma TouchCreates(fs: Mounted, path: string)
    requires MountOk(fs) && Allowed(fs, TouchOp(path)) && Touch(fs, path).ok
    requires Resolve(fs.disk, fs.cwd, path) == NONE
    ensures FreeFrom(fs.disk.inodeBits, 0) != []
    ensures Creates(View(fs.disk), View(Touch(fs, path).disk), fs.cwd, path, FirstFreeInode(fs.disk), Reg)
  {
    TouchRefines(fs, path);
    HolderIsDir(fs, path);
  }

  lemma WriteCreates(fs: Mounted, path: string, data: seq<byte>)
    requires MountOk(fs) && Allowed(fs, WriteOp(path, data)) && WriteFile(fs, path, data).ok
    requires Resolve(fs.disk, fs.cwd, path) == NONE
    ensures MountOk(After(fs, WriteFile(fs, path, data)))
    ensures FreeFrom(fs.disk.inodeBits, 0) != []
    ensures var mid := View(Touch(fs, path).disk);
            && Creates(View(fs.disk), mid, fs.cwd, path, FirstFreeInode(fs.disk), Reg)
            && View(WriteFile(fs, path, data).disk) == SetFile(mid, FirstFreeInode(fs.disk), data)
  {
    WriteFresh(fs, path, data);
    TouchCreates(fs, path);
    CreatedResolves(fs, path);
    WriteExisting(After(fs, Touch(fs, path)), path, data);
  }

  lemma WriteStep(fs: Mounted, path: string, data: seq<byte>)
    requires MountOk(fs) && Allowed(fs, WriteOp(path, data)) && WriteFile(fs, path, data).ok
    ensures MountOk(After(fs, WriteFile(fs, path, data)))
    ensures AbstractStep(View(fs.disk), fs.cwd, WriteOp(path, data), View(WriteFile(fs, path, data).disk), fs.cwd)
  {
    PathOkIsSound(fs, path);
    ResolveAgrees(fs, path);
    if Resolve(fs.disk, fs.cwd, path) == NONE {
      WriteCreates(fs, path, data);
    } else {
      ResolvesToFile(fs, path, data);
      WriteExisting(fs, path, data);
    }
  }

  lemma ResolvesToFile(fs: Mounted, path: string, data: seq<byte>)
    requires MountOk(fs) && PathSound(fs, path) && WriteFile(fs, path, data).ok
    requires Resolve(fs.disk, fs.cwd, path) != NONE
    ensures Names(View(fs.disk), fs.cwd, path) in View(fs.disk).files
  {
    ResolveAgrees(fs, path);
    var i := Resolve(fs.disk, fs.cwd, path);
    assert i in View(fs.disk).kind;
    if i in View(fs.disk).dirs {
      WriteToDirectoryFails(fs, path, data);
    }
  }

  lemma RmStep(fs: Mounted, path: string)
    requires MountOk(fs) && Allowed(fs, RmOp(path)) && Rm(fs, path).ok
    ensures MountOk(After(fs, Rm(fs, path)))
    ensures AbstractStep(View(fs.disk), fs.cwd, RmOp(path), View(Rm(fs, path).disk), fs.cwd)
  {
    if LastComponent(path) == ".." {
      RmRefusesDotDot(fs, path);
    }
    RmRefines(fs, path);
    RmTarget(fs, path);
    HolderIsDir(fs, path);
  }

  /** One successful operation keeps the invariant and is a step of the abstract system. */
  lemma StepRefines(fs: Mounted, op: Op)
    requires MountOk(fs) && fs.cwdPath != "" && Allowed(fs, op) && Apply(fs, op).ok
    ensures var fs' := Apply(fs, op).fs;
            MountOk(fs') && AbstractStep(View(fs.disk), fs.cwd, op, View(fs'.disk), fs'.cwd)
  {
    match op
    case MkdirOp(path) => MkdirStep(fs, path);
    case TouchOp(path) =>
      TouchRefines(fs, path);
      PathOkIsSound(fs, path);
      ResolveAgrees(fs, path);
      if Resolve(fs.disk, fs.cwd, path) == NONE {
        TouchCreates(fs, path);
      }
    case WriteOp(path, data) => WriteStep(fs, path, data);
    case RmOp(path) => RmStep(fs, path);
    case CdOp(path) => CdExact(fs, path);
  }

  // ---- the prompt along a run ----

  /** Growth of the tree keeps every path; removing a leaf other than the cwd keeps the cwd's. */
  lemma DescendSurvives(ns: Namespace, ns': Namespace, cwd: nat, op: Op, cs: seq<string>)
    requires TreeInv(ns) && !op.CdOp? && AbstractStep(ns, cwd, op, ns', cwd)
    requires cwd in ns.dirs && cwd in ns'.dirs && Descend(ns, cs) == cwd
    ensures Descend(ns', cs) == cwd
  {
    match op
    case MkdirOp(path) =>
      var i :| Creates(ns, ns', cwd, path, i, Dir);
      CreationKeepsPath(ns, ns', cwd, path, i, Dir, cs);
    case TouchOp(path) =>
      if Names(ns, cwd, path) == NONE {
        var i :| Creates(ns, ns', cwd, path, i, Reg);
        CreationKeepsPath(ns, ns', cwd, path, i, Reg, cs);
      }
    case WriteOp(path, data) =>
      if Names(ns, cwd, path) == NONE {
        var mid, i :| Creates(ns, mid, cwd, path, i, Reg) && ns' == SetFile(mid, i, data);
        CreationKeepsPath(ns, mid, cwd, path, i, Reg, cs);
        DescendIgnoresFiles(mid, ns', cs);
      } else {
        DescendIgnoresFiles(ns, ns', cs);
      }
    case RmOp(path) =>
      var p, n := Holder(ns, cwd, path), TruncName(LastComponent(path));
      UnlinkKeepsPath(ns, p, n, cwd, cs);
  }

  lemma CreationKeepsPath(ns: Namespace, ns': Namespace, cwd: nat, path: string, i: nat, t: FileType, cs: seq<string>)
    requires TreeInv(ns) && Creates(ns, ns', cwd, path, i, t) && Descend(ns, cs) != NONE
    ensures Descend(ns', cs) == Descend(ns, cs)
  {
    var p, n := Holder(ns, cwd, path), TruncName(LastComponent(path));
    assert DotsOk(ns, p);
    CreateAdopts(ns, p, n, i, t);
    DescendGrows(ns, ns', cs);
  }

  lemma UnlinkKeepsPath(ns: Namespace, p: nat, n: string, cwd: nat, cs: seq<string>)
    requires TreeInv(ns) && p in ns.dirs && n in ns.dirs[p]
    requires ns.dirs[p][n].ino in ns.files || EmptyDir(ns, ns.dirs[p][n].ino)
    requires cwd in ns.dirs && cwd in Unlink(ns, p, n).dirs && Descend(ns, cs) == cwd
    ensures Descend(Unlink(ns, p, n), cs) == cwd
  {
    var i, ns' := ns.dirs[p][n].ino, Unlink(ns, p, n);
    forall q, m, j | Child(ns, q, m, j) && j != i ensures Child(ns', q, m, j) {
      UnlinkKeepsChild(ns, p, n, q, m, j);
    }
    DescendUnlinked(ns, ns', cs, i);
  }

  lemma UnlinkKeepsChild(ns: Namespace, p: nat, n: string, q: nat, m: string, j: nat)
    requires TreeInv(ns) && p in ns.dirs && n in ns.dirs[p]
    requires ns.dirs[p][n].ino in ns.files || EmptyDir(ns, ns.dirs[p][n].ino)
    requires Child(ns, q, m, j) && j != ns.dirs[p][n].ino
    ensures Child(Unlink(ns, p, n), q, m, j)
  {
  }

  /** One successful operation keeps the prompt naming the cwd, unless it is a cd to a target that does not. */
  lemma StepKeepsPrompt(fs: Mounted, op: Op)
    requires MountOk(fs) && PromptOk(fs) && fs.cwdPath != "" && Allowed(fs, op) && Apply(fs, op).ok
    ensures PromptOk(Apply(fs, op).fs) <==> (op.CdOp? ==> KeepsPrompt(fs, Target(op.path)))
  {
    StepRefines(fs, op);
    if op.CdOp? {
      CdKeepsPromptIff(fs, op.path);
    } else {
      var cs :| NamesCwd(fs, cs);
      var fs' := Apply(fs, op).fs;
      CwdInView(fs);
      CwdInView(fs');
      DescendSurvives(View(fs.disk), View(fs'.disk), fs.cwd, op, cs);
      assert NamesCwd(fs', cs);
    }
  }

  // ---- runs ----

  /** fs' is reached from fs by performing the operations one after the other, all successfully. */
  ghost predicate Run(fs: Mounted, ops: seq<Op>, fs': Mounted)
    decreases ops
  {
    if ops == [] then fs' == fs
    else
      && fs.cwdPath != "" && Allowed(fs, ops[0]) && Apply(fs, ops[0]).ok
      && Run(Apply(fs, ops[0]).fs, ops[1..], fs')
  }

  ghost predicate AbstractRun(ns: Namespace, cwd: nat, ops: seq<Op>, ns': Namespace, cwd': nat)
    decreases ops
  {
    if ops == [] then ns' == ns && cwd' == cwd
    else exists mid, here ::
      AbstractStep(ns, cwd, ops[0], mid, here) && AbstractRun(mid, here, ops[1..], ns', cwd')
  }

  /** Every run of successful operations keeps the invariant and is a run of the abstract system. */
  lemma {:induction false} RunRefines(fs: Mounted, ops: seq<Op>, fs': Mounted)
    requires MountOk(fs) && Run(fs, ops, fs')
    ensures MountOk(fs') && AbstractRun(View(fs.disk), fs.cwd, ops, View(fs'.disk), fs'.cwd)
    decreases ops
  {
    if ops != [] {
      var fs1 := Apply(fs, ops[0]).fs;
      StepRefines(fs, ops[0]);
      RunRefines(fs1, ops[1..], fs');
      assert AbstractStep(View(fs.disk), fs.cwd, ops[0], View(fs1.disk), fs1.cwd);
    }
  }

  /** A run whose cd targets all keep the prompt. */
  ghost predicate NormalRun(fs: Mounted, ops: seq<Op>, fs': Mounted)
    decreases ops
  {
    if ops == [] then fs' == fs
    else
      && fs.cwdPath != "" && Allowed(fs, ops[0]) && Apply(fs, ops[0]).ok
      && (ops[0].CdOp? ==> KeepsPrompt(fs, Target(ops[0].path)))
      && NormalRun(Apply(fs, ops[0]).fs, ops[1..], fs')
  }

  /** Along such a run the displayed path always resolves to the current directory. */
  lemma {:induction false} PromptStaysTrue(fs: Mounted, ops: seq<Op>, fs': Mounted)
    requires MountOk(fs) && PromptOk(fs) && NormalRun(fs, ops, fs')
    ensures MountOk(fs') && PromptOk(fs')
    ensures Resolve(fs'.disk, fs'.cwd, fs'.cwdPath) == fs'.cwd
    decreases ops
  {
    if ops == [] {
      PromptResolves(fs);
    } else {
      StepRefines(fs, ops[0]);
      StepKeepsPrompt(fs, ops[0]);
      PromptStaysTrue(Apply(fs, ops[0]).fs, ops[1..], fs');
    }
  }
}
