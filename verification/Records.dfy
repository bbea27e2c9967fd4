/** What the inodes say besides their contents: a directory's size grows with every entry it is given and never
  * shrinks, and link counts are set once. */
module Records {
  import opened ZerosFs
  import opened Bitmap
  import opened Directory
  import opened Namespace
  import opened Volume
  import opened DirectorySteps
  import opened Creation
  import opened Paths
  import opened Operations
  import opened FileSystem
  import opened MountTheorems
  import opened Runs

  // ---- one step ----

  /** Every inode but x is as it was. */
  ghost predicate OtherRecords(d: Disk, d': Disk, x: nat) {
    |d'.inodes| == |d.inodes| && forall j | 0 <= j < |d.inodes| && j != x :: d'.inodes[j] == d.inodes[j]
  }

  lemma AddRecords(d: Disk, dir: nat, name: string, child: nat, t: FileType, s: Step)
    requires dir < |d.inodes| && s == DirAdd(d, dir, name, child, t) && s.ok
    ensures OtherRecords(d, s.disk, dir) && Enlarged(d.inodes[dir], s.disk.inodes[dir])
  {
  }

  /** mkdir: the new directory has two links and 256 bytes, its parent 128 bytes more. */
  lemma MakeDirRecords(d: Disk, p: nat, name: string, s: Step)
    requires p < |d.inodes| && s == MakeDir(d, p, name) && s.ok
    ensures FreeFrom(d.inodeBits, 0) != []
    ensures p != FirstFreeInode(d) ==> Listed(d, s.disk, p, FirstFreeInode(d))
    ensures s.disk.inodes[FirstFreeInode(d)].links == 2
    ensures p != FirstFreeInode(d) ==> s.disk.inodes[FirstFreeInode(d)].size == 256
  {
    var a := AllocInode(d);
    var b := AllocBlock(a.disk);
    var i := a.at;
    var blank := PutInode(PutBlock(b.disk, b.at, Slots(BLANK_SLOTS)), i, NewDirInode(b.at));
    var dot := DirAdd(blank, i, ".", i, Dir);
    var dotdot := DirAdd(dot.disk, i, "..", p, Dir);
    AddRecords(blank, i, ".", i, Dir, dot);
    AddRecords(dot.disk, i, "..", p, Dir, dotdot);
    AddRecords(dotdot.disk, p, name, i, Dir, s);
  }

  /** Directory p is larger by one entry, inode i is new, and the others are as they were. */
  ghost predicate Listed(d: Disk, d': Disk, p: nat, i: nat)
    requires p < |d.inodes|
  {
    && |d'.inodes| == |d.inodes| && Enlarged(d.inodes[p], d'.inodes[p])
    && forall j | 0 <= j < |d.inodes| && j != p && j != i :: d'.inodes[j] == d.inodes[j]
  }

  /** touch: the new file has one link and no bytes, its parent 128 bytes more. */
  lemma MakeFileRecords(d: Disk, p: nat, name: string, s: Step)
    requires p < |d.inodes| && s == MakeFile(d, p, name) && s.ok
    ensures FreeFrom(d.inodeBits, 0) != []
    ensures p != FirstFreeInode(d) ==> Listed(d, s.disk, p, FirstFreeInode(d))
    ensures p != FirstFreeInode(d) ==> s.disk.inodes[FirstFreeInode(d)] == Inode(Reg, 1, 0, [])
  {
    var a := AllocInode(d);
    AddRecords(PutInode(a.disk, a.at, Inode(Reg, 1, 0, [])), p, name, a.at, Reg, s);
  }

  /** rm rewrites no inode's size, links or extents. */
  lemma RmRecords(fs: Mounted, path: string)
    ensures Rm(fs, path).disk.inodes == fs.disk.inodes
  {
  }

  /** A write sets the size of the file it writes. */
  lemma OverwriteRecords(d: Disk, i: nat, data: seq<byte>)
    requires Overwrite(d, i, data).ok
    ensures i < |d.inodes| && OtherRecords(d, Overwrite(d, i, data).disk, i)
    ensures Overwrite(d, i, data).disk.inodeBits == d.inodeBits
    ensures Overwrite(d, i, data).disk.inodes[i].ftype == d.inodes[i].ftype
    ensures var node := Overwrite(d, i, data).disk.inodes[i]; node.size == |data| && node.links == d.inodes[i].links
  {
  }

  // ---- one operation ----

  /** The directory a successful operation lists a new name in, NONE for none. */
  ghost function ListsIn(ns: Namespace, cwd: nat, op: Op): nat {
    match op
    case MkdirOp(path) => Holder(ns, cwd, path)
    case TouchOp(path) => if Names(ns, cwd, path) == NONE then Holder(ns, cwd, path) else NONE
    case WriteOp(path, _) => if Names(ns, cwd, path) == NONE then Holder(ns, cwd, path) else NONE
    case _ => NONE
  }

  /** No link count or type changes, a directory's size changes by 128 when a name is listed in it and not otherwise,
    * and what is new has two links and 256 bytes if it is a directory, one link if it is a file. */
  ghost predicate RecordsStep(d: Disk, d': Disk, into: nat) {
    && |d'.inodes| == |d.inodes|
    && (forall x: nat | Live(d, x) ::
          d'.inodes[x].links == d.inodes[x].links && d'.inodes[x].ftype == d.inodes[x].ftype)
    && (forall x: nat | LiveDir(d, x) :: d'.inodes[x].size == d.inodes[x].size + if x == into then 128 else 0)
    && (forall x: nat | !Live(d, x) && LiveDir(d', x) :: d'.inodes[x].links == 2 && d'.inodes[x].size == 256)
    && (forall x: nat | !Live(d, x) && LiveFile(d', x) :: d'.inodes[x].links == 1)
  }

  /** Creation: p is where the new inode i is listed. */
  lemma CreationRecords(d: Disk, d': Disk, p: nat, i: nat, t: FileType)
    requires LiveDir(d, p) && !Live(d, i) && Listed(d, d', p, i)
    requires forall x: nat | !Live(d, x) && Live(d', x) :: x == i && d'.inodes[x].ftype == t
    requires i < |d'.inodes| && d'.inodes[i].links == (if t == Dir then 2 else 1)
    requires t == Dir ==> d'.inodes[i].size == 256
    ensures RecordsStep(d, d', p)
  {
  }

  /** What creation brings to life is the first free inode. */
  lemma NewIsFirstFree(d: Disk, d': Disk, p: nat, name: string, t: FileType)
    requires FreeFrom(d.inodeBits, 0) != [] && p in View(d).dirs && (t == Dir || t == Reg)
    requires View(d') == Create(View(d), p, name, FirstFreeInode(d), t)
    ensures forall x: nat | !Live(d, x) && Live(d', x) :: x == FirstFreeInode(d) && d'.inodes[x].ftype == t
  {
    forall x: nat | !Live(d, x) && Live(d', x) ensures x == FirstFreeInode(d) && d'.inodes[x].ftype == t {
      assert x !in View(d).kind && x in View(d').kind;
    }
  }

  lemma FreshIsDead(d: Disk)
    requires FreeFrom(d.inodeBits, 0) != []
    ensures !Live(d, FirstFreeInode(d)) && FirstFreeInode(d) < |d.inodes|
  {
    assert FirstFreeInode(d) in FreeFrom(d.inodeBits, 0);
  }

  lemma MkdirRecords(fs: Mounted, path: string, p: nat, name: string, s: Step)
    requires MountOk(fs) && Allowed(fs, MkdirOp(path)) && s == Mkdir(fs, path) && s.ok
    requires p == ResolveParent(fs.disk, fs.cwd, path).ino && name == ResolveParent(fs.disk, fs.cwd, path).name
    ensures RecordsStep(fs.disk, s.disk, p) && p == Holder(View(fs.disk), fs.cwd, path)
  {
    HolderIsDir(fs, path);
    MkdirRefines(fs, path);
    MadeDirRecords(fs.disk, p, name, s);
  }

  lemma MadeDirRecords(d: Disk, p: nat, name: string, s: Step)
    requires LiveDir(d, p) && s == MakeDir(d, p, name) && s.ok && FreeFrom(d.inodeBits, 0) != [] && p in View(d).dirs
    requires View(s.disk) == Create(View(d), p, name, FirstFreeInode(d), Dir)
    ensures RecordsStep(d, s.disk, p)
  {
    FreshIsDead(d);
    MakeDirRecords(d, p, name, s);
    NewIsFirstFree(d, s.disk, p, name, Dir);
    CreationRecords(d, s.disk, p, FirstFreeInode(d), Dir);
  }

  lemma TouchRecords(fs: Mounted, path: string, p: nat, name: string, s: Step)
    requires MountOk(fs) && Allowed(fs, TouchOp(path)) && s == Touch(fs, path) && s.ok
    requires Resolve(fs.disk, fs.cwd, path) == NONE
    requires p == ResolveParent(fs.disk, fs.cwd, path).ino && name == ResolveParent(fs.disk, fs.cwd, path).name
    ensures RecordsStep(fs.disk, s.disk, p) && p == Holder(View(fs.disk), fs.cwd, path)
  {
    HolderIsDir(fs, path);
    TouchRefines(fs, path);
    MadeFileRecords(fs.disk, p, name, s);
  }

  lemma MadeFileRecords(d: Disk, p: nat, name: string, s: Step)
    requires LiveDir(d, p) && s == MakeFile(d, p, name) && s.ok && FreeFrom(d.inodeBits, 0) != [] && p in View(d).dirs
    requires View(s.disk) == Create(View(d), p, name, FirstFreeInode(d), Reg)
    ensures RecordsStep(d, s.disk, p)
  {
    FreshIsDead(d);
    MakeFileRecords(d, p, name, s);
    NewIsFirstFree(d, s.disk, p, name, Reg);
    CreationRecords(d, s.disk, p, FirstFreeInode(d), Reg);
  }

  /** Nothing but bits and blocks changed, and nothing came to life. */
  lemma SameRecords(d: Disk, d': Disk)
    requires d'.inodes == d.inodes && forall x: nat | Live(d', x) :: Live(d, x)
    ensures RecordsStep(d, d', NONE)
  {
    assert forall x: nat | LiveDir(d, x) :: x != NONE;
  }

  /** What a write adds to the records of a touch: nothing a directory or a link count would show. */
  lemma WrittenRecords(d: Disk, mid: Disk, d': Disk, i: nat, into: nat)
    requires RecordsStep(d, mid, into) && i < |mid.inodes| && OtherRecords(mid, d', i) && LiveFile(mid, i)
    requires d'.inodeBits == mid.inodeBits && !LiveDir(d, i)
    requires d'.inodes[i].links == mid.inodes[i].links && d'.inodes[i].ftype == Reg
    ensures RecordsStep(d, d', into)
  {
  }

  lemma StillRecords(d: Disk)
    ensures RecordsStep(d, d, NONE)
  {
    SameRecords(d, d);
  }

  lemma OverwriteStep(d: Disk, i: nat, data: seq<byte>, s: Step)
    requires s == Overwrite(d, i, data) && s.ok && LiveFile(d, i)
    ensures RecordsStep(d, s.disk, NONE)
  {
    StillRecords(d);
    OverwriteRecords(d, i, data);
    WrittenRecords(d, d, s.disk, i, NONE);
  }

  /** Writing to a path that names a file, or nothing yet. */
  lemma WriteRecords(fs: Mounted, path: string, data: seq<byte>, s: Step)
    requires MountOk(fs) && Allowed(fs, WriteOp(path, data)) && s == WriteFile(fs, path, data) && s.ok
    ensures RecordsStep(fs.disk, s.disk, ListsIn(View(fs.disk), fs.cwd, WriteOp(path, data)))
  {
    var i := Resolve(fs.disk, fs.cwd, path);
    PathOkIsSound(fs, path);
    ResolveAgrees(fs, path);
    if i != NONE {
      ResolvesToFile(fs, path, data);
      OverwriteStep(fs.disk, i, data, s);
    } else {
      WriteFresh(fs, path, data);
      TouchRecords(fs, path, ResolveParent(fs.disk, fs.cwd, path).ino, ResolveParent(fs.disk, fs.cwd, path).name,
                   Touch(fs, path));
      WrittenToNew(fs, path, data, After(fs, Touch(fs, path)), s, Holder(View(fs.disk), fs.cwd, path));
    }
  }

  lemma WrittenToNew(fs: Mounted, path: string, data: seq<byte>, t: Mounted, s: Step, into: nat)
    requires MountOk(fs) && Allowed(fs, WriteOp(path, data)) && Resolve(fs.disk, fs.cwd, path) == NONE
    requires t == After(fs, Touch(fs, path)) && Touch(fs, path).ok && |LastComponent(path)| <= NAME_MAX
    requires s == WriteFile(t, path, data) && s.ok && RecordsStep(fs.disk, t.disk, into)
    ensures RecordsStep(fs.disk, s.disk, into)
  {
    CreatedResolves(fs, path);
    TouchRefines(fs, path);
    NamedIsSound(t, path);
    ResolveAgrees(t, path);
    FreshIsDead(fs.disk);
    OverwriteRecords(t.disk, FirstFreeInode(fs.disk), data);
    WrittenRecords(fs.disk, t.disk, s.disk, FirstFreeInode(fs.disk), into);
  }

  /** One successful operation: no link count changes, the directory a name is listed in is 128 bytes larger and
    * no other directory's size changes, a new directory has two links and 256 bytes, a new file one link. */
  lemma StepRecords(fs: Mounted, op: Op)
    requires MountOk(fs) && fs.cwdPath != "" && Allowed(fs, op) && Apply(fs, op).ok
    ensures RecordsStep(fs.disk, Apply(fs, op).fs.disk, ListsIn(View(fs.disk), fs.cwd, op))
  {
    match op
    case MkdirOp(path) =>
      var p := ResolveParent(fs.disk, fs.cwd, path);
      MkdirRecords(fs, path, p.ino, p.name, Mkdir(fs, path));
    case TouchOp(path) =>
      PathOkIsSound(fs, path);
      ResolveAgrees(fs, path);
      if Resolve(fs.disk, fs.cwd, path) == NONE {
        var p := ResolveParent(fs.disk, fs.cwd, path);
        TouchRecords(fs, path, p.ino, p.name, Touch(fs, path));
      } else {
        StillRecords(fs.disk);
      }
    case WriteOp(path, data) => WriteRecords(fs, path, data, WriteFile(fs, path, data));
    case RmOp(path) => RemovedRecords(fs, path, Rm(fs, path).disk);
    case CdOp(path) =>
      CdExact(fs, path);
      StillRecords(fs.disk);
  }

  lemma RemovedRecords(fs: Mounted, path: string, d': Disk)
    requires d' == Rm(fs, path).disk
    ensures RecordsStep(fs.disk, d', NONE)
  {
    RmRecords(fs, path);
    SameRecords(fs.disk, d');
  }

  // ---- runs ----

  /** How many names the run lists in directory x. */
  ghost function Listings(fs: Mounted, ops: seq<Op>, x: nat): nat
    decreases ops
  {
    if ops == [] || fs.cwdPath == "" then 0
    else (if ListsIn(View(fs.disk), fs.cwd, ops[0]) == x then 1 else 0) + Listings(Apply(fs, ops[0]).fs, ops[1..], x)
  }

  /** x is a directory all along the run. */
  ghost predicate StaysDir(fs: Mounted, ops: seq<Op>, x: nat)
    decreases ops
  {
    LiveDir(fs.disk, x) && (ops != [] && fs.cwdPath != "" ==> StaysDir(Apply(fs, ops[0]).fs, ops[1..], x))
  }

  lemma StepSize(fs: Mounted, op: Op, fs': Mounted, x: nat)
    requires MountOk(fs) && fs.cwdPath != "" && Allowed(fs, op) && Apply(fs, op) == Moved(fs', true)
    requires LiveDir(fs.disk, x)
    ensures MountOk(fs') && x < |fs'.disk.inodes| && fs'.disk.inodes[x].links == fs.disk.inodes[x].links
    ensures fs'.disk.inodes[x].size
         == fs.disk.inodes[x].size + if ListsIn(View(fs.disk), fs.cwd, op) == x then 128 else 0
  {
    StepRefines(fs, op);
    StepRecords(fs, op);
  }

  /** Along every run of successful operations a directory's size grows by 128 for each name listed in it, whatever
    * is removed from it, and its link count stays. */
  lemma {:induction false} RunSizes(fs: Mounted, ops: seq<Op>, fs': Mounted, x: nat)
    requires MountOk(fs) && Run(fs, ops, fs') && StaysDir(fs, ops, x)
    ensures LiveDir(fs'.disk, x)
    ensures fs'.disk.inodes[x].size == fs.disk.inodes[x].size + 128 * Listings(fs, ops, x)
    ensures fs'.disk.inodes[x].links == fs.disk.inodes[x].links
    decreases ops
  {
    if ops != [] {
      StepSize(fs, ops[0], Apply(fs, ops[0]).fs, x);
      RunSizes(Apply(fs, ops[0]).fs, ops[1..], fs', x);
    }
  }

  /** Directories have two links, files one. */
  ghost predicate LinksOk(d: Disk) {
    forall x: nat | Live(d, x) :: d.inodes[x].links == if d.inodes[x].ftype == Dir then 2 else 1
  }

  lemma StepLinks(d: Disk, d': Disk, into: nat)
    requires LinksOk(d) && RecordsStep(d, d', into) && Typed(d')
    ensures LinksOk(d')
  {
    forall x: nat | Live(d', x) ensures d'.inodes[x].links == if d'.inodes[x].ftype == Dir then 2 else 1 {
      assert NodeOk(d'.blocks, d'.inodes[x]);
    }
  }

  /** That too holds along every run. */
  lemma {:induction false} RunLinks(fs: Mounted, ops: seq<Op>, fs': Mounted)
    requires MountOk(fs) && Run(fs, ops, fs') && LinksOk(fs.disk)
    ensures LinksOk(fs'.disk)
    decreases ops
  {
    if ops != [] {
      var next := Apply(fs, ops[0]).fs;
      StepRefines(fs, ops[0]);
      StepRecords(fs, ops[0]);
      StepLinks(fs.disk, next.disk, ListsIn(View(fs.disk), fs.cwd, ops[0]));
      RunLinks(next, ops[1..], fs');
    }
  }
}
