/** The superblock counters match the bitmaps after every operation, failed ones included. */
module Counters {
  import opened ZerosFs
  import opened Bitmap
  import opened Extents
  import opened Volume
  import opened VolumeSteps
  import opened Paths
  import opened Operations
  import opened FileSystem
  import opened MountTheorems
  import opened FileContents
  import opened Runs

  lemma AllocInodeCounts(d: Disk)
    requires Counted(d)
    ensures Counted(AllocInode(d).disk)
  {
    if FreeFrom(d.inodeBits, 0) != [] {
      FreeAfterAlloc(d.inodeBits, 0);
    }
  }

  lemma AllocBlockCounts(d: Disk)
    requires Counted(d)
    ensures Counted(AllocBlock(d).disk)
  {
    if FreeBlockList(d) != [] {
      FreeAfterAlloc(d.blockBits, d.sb.dataStart);
    }
  }

  lemma DirAddCounts(d: Disk, dir: nat, name: string, child: nat, t: FileType)
    requires Counted(d)
    ensures Counted(DirAdd(d, dir, name, child, t).disk)
  {
    AllocBlockCounts(d);
  }

  lemma MakeDirCounts(d: Disk, p: nat, name: string)
    requires Counted(d)
    ensures Counted(MakeDir(d, p, name).disk)
  {
    var a := AllocInode(d);
    AllocInodeCounts(d);
    if a.at != NONE {
      var b := AllocBlock(a.disk);
      AllocBlockCounts(a.disk);
      if b.at != NONE {
        var blank := PutInode(PutBlock(b.disk, b.at, Slots(BLANK_SLOTS)), a.at, NewDirInode(b.at));
        var dot := DirAdd(blank, a.at, ".", a.at, Dir);
        var dotdot := DirAdd(dot.disk, a.at, "..", p, Dir);
        DirAddCounts(blank, a.at, ".", a.at, Dir);
        DirAddCounts(dot.disk, a.at, "..", p, Dir);
        DirAddCounts(dotdot.disk, p, name, a.at, Dir);
      }
    }
  }

  lemma MkdirCounts(fs: Mounted, path: string)
    requires Counted(fs.disk)
    ensures Counted(Mkdir(fs, path).disk)
  {
    var p := ResolveParent(fs.disk, fs.cwd, path);
    MakeDirCounts(fs.disk, p.ino, p.name);
  }

  lemma MakeFileCounts(d: Disk, p: nat, name: string)
    requires Counted(d)
    ensures Counted(MakeFile(d, p, name).disk)
  {
    var a := AllocInode(d);
    AllocInodeCounts(d);
    if a.at != NONE {
      DirAddCounts(PutInode(a.disk, a.at, Inode(Reg, 1, 0, [])), p, name, a.at, Reg);
    }
  }

  lemma TouchCounts(fs: Mounted, path: string)
    requires Counted(fs.disk)
    ensures Counted(Touch(fs, path).disk)
  {
    var p := ResolveParent(fs.disk, fs.cwd, path);
    MakeFileCounts(fs.disk, p.ino, p.name);
  }

  lemma {:induction false} WriteLoopCounts(d: Disk, exts: seq<Extent>, data: seq<byte>)
    requires Counted(d)
    ensures Counted(WriteLoop(d, exts, data).disk)
    decreases |data|
  {
    if data != [] && |exts| < MAX_EXTENTS && FreeBlockList(d) != [] {
      AllocBlockCounts(d);
      WriteLoopStep(d, exts, data);
      WriteLoopCounts(AfterChunk(d, data), AddBlock(exts, FreeBlockList(d)[0]), data[|FirstChunk(data)|..]);
    }
  }

  lemma OverwriteCounts(d: Disk, i: nat, data: seq<byte>)
    requires Physical(d) && Live(d, i)
    ensures Counted(Overwrite(d, i, data).disk)
  {
    OwnedBlocksCount(d, i);
    WriteLoopCounts(FreeBlocks(d, BlocksOf(d, i)), [], data);
  }

  lemma WriteCounts(fs: Mounted, path: string, data: seq<byte>)
    requires MountOk(fs) && Allowed(fs, WriteOp(path, data))
    ensures Counted(WriteFile(fs, path, data).disk)
  {
    PathOkIsSound(fs, path);
    ResolveAgrees(fs, path);
    TouchCounts(fs, path);
    if Resolve(fs.disk, fs.cwd, path) != NONE {
      OverwriteCounts(fs.disk, Resolve(fs.disk, fs.cwd, path), data);
    } else if Touch(fs, path).ok {
      var t := After(fs, Touch(fs, path));
      TouchedIsSound(fs, path);
      ResolveAgrees(t, path);
      if Resolve(t.disk, t.cwd, path) != NONE {
        OverwriteCounts(t.disk, Resolve(t.disk, t.cwd, path), data);
      }
    }
  }

  lemma RmCounts(fs: Mounted, path: string)
    requires MountOk(fs) && Allowed(fs, RmOp(path))
    ensures Counted(Rm(fs, path).disk)
  {
    if Rm(fs, path).ok {
      RmStep(fs, path);
    }
  }

  /** One step, successful or not, leaves both counters equal to the number of clear bits. */
  lemma StepKeepsCounts(fs: Mounted, op: Op)
    requires MountOk(fs) && fs.cwdPath != "" && Allowed(fs, op)
    ensures Counted(Apply(fs, op).fs.disk)
  {
    match op
    case MkdirOp(path) => MkdirCounts(fs, path);
    case TouchOp(path) => TouchCounts(fs, path);
    case WriteOp(path, data) => WriteCounts(fs, path, data);
    case RmOp(path) => RmCounts(fs, path);
    case CdOp(path) =>
  }
}
