/** The runtime and the kernel port, executing the same operations on equal volumes. */
module Lockstep {
  import opened Volume
  import opened Paths
  import opened FileSystem
  import opened Mount
  import opened KernelSpec
  import opened KernelPort
  import opened Runs
  import opened Failures
  import opened Strays
  import opened Directory
  import opened Mapping
  import Ops = Operations

  /** The extents of the inodes whose blocks an operation frees lie on the disk. */
  ghost predicate FreesMapped(fs: Ops.Mounted, op: Op) {
    && (op.WriteOp? ==> TargetMapped(fs, op.path))
    && (op.RmOp? ==> Mapped(fs.disk, Resolve(fs.disk, fs.cwd, op.path)))
  }

  /** The mounts on which both programs have what an operation needs: it keeps to the inode table and to the
    * blocks of the disk. */
  ghost function Ready(op: Op): Ops.Mounted -> bool {
    fs => Inside(fs, op) && FreesMapped(fs, op)
  }

  lemma BothAreReady(fs: Ops.Mounted, op: Op)
    ensures Ready(op)(fs) <==> Inside(fs, op) && FreesMapped(fs, op)
  {
  }

  lemma WellFormedFrees(fs: Ops.Mounted, op: Op)
    requires MountOk(fs) && Allowed(fs, op)
    ensures FreesMapped(fs, op)
  {
    match op
    case WriteOp(path, _) => WellFormedTargets(fs, path);
    case RmOp(path) =>
      PathOkIsSound(fs, path);
      WellFormedIsMapped(fs, path);
    case _ =>
  }

  lemma WellFormedIsReady(fs: Ops.Mounted, op: Op)
    requires MountOk(fs) && Allowed(fs, op)
    ensures Ready(op)(fs)
  {
    AllowedIsInside(fs, op);
    WellFormedFrees(fs, op);
    BothAreReady(fs, op);
  }

  lemma MappedFrees(fs: Ops.Mounted, op: Op)
    requires AllMapped(fs.disk)
    ensures FreesMapped(fs, op)
  {
    TouchMapped(fs, op.path);
    assert Readable(fs.disk.blocks, BlocksOf(fs.disk, Resolve(fs.disk, fs.cwd, op.path)));
    var t := Ops.Touch(fs, op.path).disk;
    assert Readable(t.blocks, BlocksOf(t, Resolve(t, fs.cwd, op.path)));
  }

  lemma FreesAlike(u: Ops.Mounted, k: Ops.Mounted, op: Op)
    requires Alike(u, k) && FreesMapped(u, op)
    ensures FreesMapped(k, op)
  {
    CreationAlike(u, k, op.path);
  }

  method RunUser(m: ZerosMount, call: Call) returns (ok: bool)
    requires m.Valid() && '\0' !in call.op.path && FreesMapped(m.State(), call.op)
    modifies m, m.inodeBits, m.blockBits
    ensures m.Valid() && Ops.Moved(m.State(), ok) == UserApply(old(m.State()), call.op, call.stamped)
  {
    match call.op
    case MkdirOp(path) => ok := m.Mkdir(path);
    case TouchOp(path) => ok := m.Touch(path, call.stamped);
    case WriteOp(path, data) => ok := m.WriteFile(path, data);
    case RmOp(path) => ok := m.Rm(path);
    case CdOp(path) => ok := m.Cd(path);
  }

  method RunKernel(k: KernelMount, op: Op) returns (ok: bool)
    requires k.Valid() && '\0' !in op.path && FreesMapped(k.State(), op)
    modifies k
    ensures k.Valid() && Ops.Moved(k.State(), ok) == KApply(old(k.State()), op)
  {
    match op
    case MkdirOp(path) => ok := k.Mkdir(path);
    case TouchOp(path) => ok := k.Touch(path);
    case WriteOp(path, data) => ok := k.WriteFile(path, data);
    case RmOp(path) => ok := k.Rm(path);
    case CdOp(path) => ok := k.Cd(path);
  }

  /** How the two results of one operation compare. */
  ghost predicate Comparison(u: Ops.Mounted, k: Ops.Mounted, call: Call, a: Ops.Moved, b: Ops.Moved) {
    && (a.ok == b.ok && Alike(a.fs, b.fs) <==> Agrees(u, call.op, call.stamped))
    && (u == k && call.op != CdOp(".") && Agrees(u, call.op, call.stamped) ==> a.fs == b.fs)
  }

  lemma StepsCompared(u: Ops.Mounted, k: Ops.Mounted, call: Call, a: Ops.Moved, b: Ops.Moved)
    requires Alike(u, k) && u.cwdPath != "" && k.cwdPath != ""
    requires a == UserApply(u, call.op, call.stamped) && b == KApply(k, call.op)
    ensures Comparison(u, k, call, a, b)
  {
    StepsAlike(u, k, call.op);
    StepsAgreeIff(u, k, call.op, call.stamped);
  }

  /** From equal volumes both programs return the same result and leave equal volumes, superblock, inodes,
    * blocks and bitmaps, exactly when the operation is not a touch of a number past the device, or of one that
    * puts another clock into a block. */
  method Both(m: ZerosMount, k: KernelMount, call: Call) returns (a: bool, b: bool)
    requires m.Valid() && k.Valid() && Alike(m.State(), k.State()) && Ready(call.op)(m.State())
    modifies m, m.inodeBits, m.blockBits, k
    ensures m.Valid() && k.Valid() && Ops.Moved(m.State(), a) == UserApply(old(m.State()), call.op, call.stamped)
    ensures Comparison(old(m.State()), old(k.State()), call, Ops.Moved(m.State(), a), Ops.Moved(k.State(), b))
  {
    ghost var u, v := m.State(), k.State();
    BothAreReady(u, call.op);
    FreesAlike(u, v, call.op);
    a := RunUser(m, call);
    b := RunKernel(k, call.op);
    StepsCompared(u, v, call, Ops.Moved(m.State(), a), Ops.Moved(k.State(), b));
  }

  // ---- runs ----

  /** Every operation of the run finds what it needs, and none is a touch on which the programs differ. */
  ghost predicate AllReady(fs: Ops.Mounted, calls: seq<Call>)
    requires fs.cwdPath != ""
    decreases calls
  {
    if calls == [] then true
    else
      NextPathNotEmpty(fs, calls[0].op);
      && Ready(calls[0].op)(fs) && Agrees(fs, calls[0].op, calls[0].stamped)
      && AllReady(Apply(fs, calls[0].op).fs, calls[1..])
  }

  ghost predicate AllInside(fs: Ops.Mounted, calls: seq<Call>)
    requires fs.cwdPath != ""
    decreases calls
  {
    if calls == [] then true
    else
      NextPathNotEmpty(fs, calls[0].op);
      Inside(fs, calls[0].op) && AllInside(Apply(fs, calls[0].op).fs, calls[1..])
  }

  /** Where all extents lie on the disk, runs inside the table are ready, whatever fails in them. */
  lemma {:induction false} MappedRunIsReady(fs: Ops.Mounted, calls: seq<Call>)
    requires AllMapped(fs.disk) && fs.cwdPath != "" && AllInside(fs, calls) && AllAgree(fs, calls)
    ensures AllReady(fs, calls)
    decreases calls
  {
    if calls != [] {
      NextPathNotEmpty(fs, calls[0].op);
      MappedFrees(fs, calls[0].op);
      BothAreReady(fs, calls[0].op);
      ApplyKeepsMapped(fs, calls[0].op);
      MappedRunIsReady(Apply(fs, calls[0].op).fs, calls[1..]);
    }
  }

  function OpsOf(calls: seq<Call>): seq<Op> {
    if calls == [] then [] else [calls[0].op] + OpsOf(calls[1..])
  }

  /** From a well-formed mount, operations on paths through directories that succeed or fail harmlessly are
    * ready: the programs cannot come apart on them. */
  lemma {:induction false} MixedRunIsReady(fs: Ops.Mounted, calls: seq<Call>, fs': Ops.Mounted)
    requires MountOk(fs) && fs.cwdPath != "" && MixedRun(fs, OpsOf(calls), fs')
    ensures AllReady(fs, calls)
    decreases calls
  {
    if calls != [] {
      var op, next := calls[0].op, Apply(fs, calls[0].op).fs;
      assert OpsOf(calls)[0] == op && OpsOf(calls)[1..] == OpsOf(calls[1..]);
      NextPathNotEmpty(fs, op);
      WellFormedIsReady(fs, op);
      AllowedAgrees(fs, op, calls[0].stamped);
      MixedStepKeeps(fs, op);
      MixedRunIsReady(next, calls[1..], fs');
    }
  }

  /** After n of the operations: the results so far, and the state from which the rest is run. */
  ghost predicate Ran(u: Ops.Mounted, calls: seq<Call>, n: nat, sofar: seq<bool>, fs: Ops.Mounted) {
    && u.cwdPath != "" && fs.cwdPath != "" && n <= |calls|
    && Outcomes(u, calls) == sofar + Outcomes(fs, calls[n..]) && Final(u, calls) == Final(fs, calls[n..])
    && AllReady(fs, calls[n..])
  }

  lemma RanNext(u: Ops.Mounted, calls: seq<Call>, n: nat, sofar: seq<bool>, fs: Ops.Mounted, next: Ops.Moved)
    requires Ran(u, calls, n, sofar, fs) && n < |calls|
    requires next == UserApply(fs, calls[n].op, calls[n].stamped) == Apply(fs, calls[n].op)
    ensures Ran(u, calls, n + 1, sofar + [next.ok], next.fs)
  {
    NextPathNotEmpty(fs, calls[n].op);
    assert calls[n..][0] == calls[n] && calls[n..][1..] == calls[n + 1..];
  }

  lemma RanHere(u: Ops.Mounted, calls: seq<Call>, n: nat, sofar: seq<bool>, fs: Ops.Mounted)
    requires Ran(u, calls, n, sofar, fs) && n < |calls|
    ensures Ready(calls[n].op)(fs) && Agrees(fs, calls[n].op, calls[n].stamped)
    ensures UserApply(fs, calls[n].op, calls[n].stamped) == Apply(fs, calls[n].op)
  {
    assert calls[n..][0] == calls[n];
    AgreesExactly(fs, calls[n].op, calls[n].stamped);
  }

  lemma RanAll(u: Ops.Mounted, calls: seq<Call>, sofar: seq<bool>, fs: Ops.Mounted)
    requires Ran(u, calls, |calls|, sofar, fs)
    ensures sofar == Outcomes(u, calls) && fs == Final(u, calls)
  {
  }

  lemma RanNone(u: Ops.Mounted, calls: seq<Call>)
    requires u.cwdPath != "" && AllReady(u, calls)
    ensures Ran(u, calls, 0, [], u)
  {
    assert calls[0..] == calls;
  }

  ghost predicate NoCdDot(calls: seq<Call>) {
    forall k | 0 <= k < |calls| :: calls[k].op != CdOp(".")
  }

  /** The next operation of the run, on both. */
  method NextBoth(m: ZerosMount, k: KernelMount, calls: seq<Call>, n: nat, ghost u: Ops.Mounted, sofar: seq<bool>)
    returns (x: bool, y: bool)
    requires m.Valid() && k.Valid() && Alike(m.State(), k.State()) && n < |calls|
    requires Ran(u, calls, n, sofar, m.State())
    modifies m, m.inodeBits, m.blockBits, k
    ensures m.Valid() && k.Valid() && x == y && Alike(m.State(), k.State())
    ensures Ran(u, calls, n + 1, sofar + [x], m.State())
    ensures old(m.State()) == old(k.State()) && calls[n].op != CdOp(".") ==> m.State() == k.State()
  {
    ghost var fs := m.State();
    RanHere(u, calls, n, sofar, fs);
    x, y := Both(m, k, calls[n]);
    RanNext(u, calls, n, sofar, fs, Ops.Moved(m.State(), x));
  }

  /** The two programs never come apart on such runs: the same list of results, equal volumes and current
    * directories; the prompts too are equal unless "cd ." is among the operations. */
  method RunBoth(m: ZerosMount, k: KernelMount, calls: seq<Call>) returns (a: seq<bool>, b: seq<bool>)
    requires m.Valid() && k.Valid() && Alike(m.State(), k.State()) && AllReady(m.State(), calls)
    modifies m, m.inodeBits, m.blockBits, k
    ensures m.Valid() && k.Valid() && Alike(m.State(), k.State())
    ensures a == b == Outcomes(old(m.State()), calls) && m.State() == Final(old(m.State()), calls)
    ensures old(m.State()) == old(k.State()) && NoCdDot(calls) ==> m.State() == k.State()
  {
    a, b := [], [];
    ghost var u, v := m.State(), k.State();
    RanNone(u, calls);
    for i := 0 to |calls|
      invariant m.Valid() && k.Valid() && a == b
      invariant Ran(u, calls, i, a, m.State()) && Alike(m.State(), k.State())
      invariant u == v && NoCdDot(calls) ==> m.State() == k.State()
    {
      var x, y := NextBoth(m, k, calls, i, u, a);
      a, b := a + [x], b + [y];
    }
    RanAll(u, calls, a, m.State());
  }
}
