/** Volumes on which every inode, in use or not, has its extents on the disk: operations that free blocks ask
  * it of the inode they empty, and no operation loses it, however it ends. */
module Mapping {
  import opened ZerosFs
  import opened Extents
  import opened Directory
  import opened Volume
  import opened FileContents
  import opened Paths
  import opened Operations
  import opened Runs
  import opened Layout
  import opened Formatting

  ghost predicate AllMapped(d: Disk) {
    forall i: nat {:trigger BlocksOf(d, i)} :: Readable(d.blocks, BlocksOf(d, i))
  }

  /** Storing one inode whose extents lie on the disk. */
  ghost predicate PutsMapped(d: Disk, d': Disk, i: nat, node: Inode) {
    && |d'.blocks| == |d.blocks| && i < |d.inodes| && d'.inodes == d.inodes[i := node]
    && Readable(d.blocks, Blocks(node.extents))
  }

  lemma PutKeepsMapped(d: Disk, d': Disk, i: nat, node: Inode)
    requires AllMapped(d) && PutsMapped(d, d', i, node)
    ensures AllMapped(d')
  {
    forall j: nat ensures Readable(d'.blocks, BlocksOf(d', j)) {
      assert j != i ==> BlocksOf(d', j) == BlocksOf(d, j);
    }
  }

  lemma SameInodesMapped(d: Disk, d': Disk)
    requires AllMapped(d) && d'.inodes == d.inodes && |d'.blocks| == |d.blocks|
    ensures AllMapped(d')
  {
    forall j: nat ensures Readable(d'.blocks, BlocksOf(d', j)) {
      assert BlocksOf(d', j) == BlocksOf(d, j);
    }
  }

  lemma OneBlockMapped(d: Disk, exts: seq<Extent>, b: nat)
    requires Readable(d.blocks, Blocks(exts)) && b < |d.blocks|
    ensures Readable(d.blocks, Blocks(exts + [Extent(b, 1)])) && Readable(d.blocks, Blocks(AddBlock(exts, b)))
  {
    AddBlockAppends(exts, b);
    BlocksAppend(exts, Extent(b, 1));
    assert Range(b, 1) == [b];
  }

  lemma GrownMapped(d: Disk, dir: nat, e: Dirent)
    requires AllMapped(d) && dir < |d.inodes|
    ensures AllMapped(Grown(d, dir, e).disk)
  {
    if Grown(d, dir, e).ok {
      var d' := Grown(d, dir, e).disk;
      assert Readable(d.blocks, BlocksOf(d, dir));
      OneBlockMapped(d, d.inodes[dir].extents, AllocBlock(d).at);
      PutKeepsMapped(d, d', dir, d'.inodes[dir]);
    }
  }

  lemma PutSlotMapped(d: Disk, dir: nat, k: nat, e: Dirent, size: nat)
    requires AllMapped(d) && dir < |d.inodes| && k < |SlotsIn(d, dir)|
    ensures AllMapped(PutSlot(d, dir, k, e, size))
  {
    PutKeepsMapped(d, PutSlot(d, dir, k, e, size), dir, d.inodes[dir].(size := size));
  }

  /** dir_add_entry rewrites a slot, or grows the directory, or does nothing. */
  lemma DirAddCases(d: Disk, dir: nat, name: string, child: nat, t: FileType)
    returns (k: nat, e: Dirent, size: nat)
    ensures var d' := DirAdd(d, dir, name, child, t).disk;
            || d' == d
            || (dir < |d.inodes| && k < |SlotsIn(d, dir)| && d' == PutSlot(d, dir, k, e, size))
            || (dir < |d.inodes| && d' == Grown(d, dir, e).disk)
  {
    k, e, size := Find(SlotsIn(d, dir), FreeSlot), Dirent(child, t, TruncName(name)), 0;
    if dir < |d.inodes| {
      size := d.inodes[dir].size + DIRENT_SIZE;
    }
  }

  lemma DirAddMapped(d: Disk, dir: nat, name: string, child: nat, t: FileType)
    requires AllMapped(d)
    ensures AllMapped(DirAdd(d, dir, name, child, t).disk)
  {
    var k, e, size := DirAddCases(d, dir, name, child, t);
    if dir < |d.inodes| {
      GrownMapped(d, dir, e);
      if k < |SlotsIn(d, dir)| {
        PutSlotMapped(d, dir, k, e, size);
      }
    }
  }

  lemma DirRemoveMapped(d: Disk, dir: nat, name: string)
    requires AllMapped(d)
    ensures AllMapped(DirRemove(d, dir, name).disk)
  {
    var k := Find(SlotsIn(d, dir), Named(name));
    if k < |SlotsIn(d, dir)| {
      PutSlotMapped(d, dir, k, SlotsIn(d, dir)[k].(ino := NONE), d.inodes[dir].size);
    }
  }

  /** The new directory's inode, before its two dots. */
  lemma NewDirMapped(d: Disk, i: nat, b: nat)
    requires AllMapped(d) && i < |d.inodes| && b < |d.blocks|
    ensures AllMapped(PutInode(PutBlock(d, b, Slots(BLANK_SLOTS)), i, NewDirInode(b)))
  {
    assert Blocks([]) == [];
    OneBlockMapped(d, [], b);
    assert [] + [Extent(b, 1)] == [Extent(b, 1)];
    PutKeepsMapped(d, PutInode(PutBlock(d, b, Slots(BLANK_SLOTS)), i, NewDirInode(b)), i, NewDirInode(b));
  }

  lemma FillNewDirMapped(d: Disk, parent: nat, name: string, i: nat, b: nat)
    requires AllMapped(d) && i < |d.inodes| && b < |d.blocks|
    ensures AllMapped(FillNewDir(d, parent, name, i, b).disk)
  {
    var blank := PutInode(PutBlock(d, b, Slots(BLANK_SLOTS)), i, NewDirInode(b));
    var dot := DirAdd(blank, i, ".", i, Dir);
    NewDirMapped(d, i, b);
    DirAddMapped(blank, i, ".", i, Dir);
    DirAddMapped(dot.disk, i, "..", parent, Dir);
    DirAddMapped(DirAdd(dot.disk, i, "..", parent, Dir).disk, parent, name, i, Dir);
  }

  lemma MakeDirMapped(d: Disk, parent: nat, name: string)
    requires AllMapped(d)
    ensures AllMapped(MakeDir(d, parent, name).disk)
  {
    var a := AllocInode(d);
    SameInodesMapped(d, a.disk);
    var b := AllocBlock(a.disk);
    SameInodesMapped(d, b.disk);
    if a.at != NONE && b.at != NONE {
      FillNewDirMapped(b.disk, parent, name, a.at, b.at);
    }
  }

  lemma MakeFileMapped(d: Disk, parent: nat, name: string)
    requires AllMapped(d)
    ensures AllMapped(MakeFile(d, parent, name).disk)
  {
    var a, node := AllocInode(d), Inode(Reg, 1, 0, []);
    if a.at != NONE {
      var e := PutInode(a.disk, a.at, node);
      assert Blocks(node.extents) == [];
      PutKeepsMapped(d, e, a.at, node);
      DirAddMapped(e, parent, name, a.at, Reg);
    }
  }

  lemma TouchCases(fs: Mounted, path: string) returns (p: Parent)
    ensures Touch(fs, path).disk == fs.disk || Touch(fs, path) == MakeFile(fs.disk, p.ino, p.name)
  {
    p := ResolveParent(fs.disk, fs.cwd, path);
  }

  lemma TouchMapped(fs: Mounted, path: string)
    requires AllMapped(fs.disk)
    ensures AllMapped(Touch(fs, path).disk)
  {
    var p := TouchCases(fs, path);
    MakeFileMapped(fs.disk, p.ino, p.name);
  }

  lemma {:induction false} WriteLoopMapped(d: Disk, exts: seq<Extent>, data: seq<byte>)
    requires Readable(d.blocks, Blocks(exts))
    ensures |WriteLoop(d, exts, data).disk.blocks| == |d.blocks|
    ensures Readable(d.blocks, Blocks(WriteLoop(d, exts, data).extents))
    decreases |data|
  {
    if data != [] && |exts| < MAX_EXTENTS && FreeBlockList(d) != [] {
      OneBlockMapped(d, exts, FreeBlockList(d)[0]);
      WriteLoopStep(d, exts, data);
      WriteLoopMapped(AfterChunk(d, data), AddBlock(exts, FreeBlockList(d)[0]), data[|FirstChunk(data)|..]);
    }
  }

  lemma OverwriteMapped(d: Disk, i: nat, data: seq<byte>)
    requires AllMapped(d)
    ensures AllMapped(Overwrite(d, i, data).disk)
  {
    if i < |d.inodes| && d.inodes[i].ftype != Dir {
      assert Readable(d.blocks, BlocksOf(d, i));
      var freed := FreeBlocks(d, BlocksOf(d, i));
      var w, d' := WriteLoop(freed, [], data), Overwrite(d, i, data).disk;
      WriteLoopMapped(freed, [], data);
      if w.ok {
        PutKeepsMapped(d, d', i, d'.inodes[i]);
      } else {
        SameInodesMapped(d, d');
      }
    }
  }

  lemma WriteMapped(fs: Mounted, path: string, data: seq<byte>)
    requires AllMapped(fs.disk)
    ensures AllMapped(WriteFile(fs, path, data).disk)
  {
    TouchMapped(fs, path);
    var i, t := Resolve(fs.disk, fs.cwd, path), Touch(fs, path).disk;
    if i != NONE {
      OverwriteMapped(fs.disk, i, data);
    } else {
      OverwriteMapped(t, Resolve(t, fs.cwd, path), data);
    }
  }

  lemma RmMapped(fs: Mounted, path: string)
    requires AllMapped(fs.disk)
    ensures AllMapped(Rm(fs, path).disk)
  {
    if Rm(fs, path).ok {
      var i := Resolve(fs.disk, fs.cwd, path);
      var d := FreeInode(FreeBlocks(fs.disk, BlocksOf(fs.disk, i)), i);
      var p := ResolveParent(d, fs.cwd, path);
      SameInodesMapped(fs.disk, d);
      DirRemoveMapped(d, p.ino, p.name);
    }
  }

  /** No operation, successful or not, puts an extent outside the disk. */
  lemma ApplyKeepsMapped(fs: Mounted, op: Op)
    requires AllMapped(fs.disk) && fs.cwdPath != ""
    ensures AllMapped(Apply(fs, op).fs.disk)
  {
    match op
    case MkdirOp(path) =>
      var p := ResolveParent(fs.disk, fs.cwd, path);
      MakeDirMapped(fs.disk, p.ino, p.name);
    case TouchOp(path) => TouchMapped(fs, path);
    case WriteOp(path, data) => WriteMapped(fs, path, data);
    case RmOp(path) => RmMapped(fs, path);
    case CdOp(path) =>
  }

  // ---- the formatter leaves such a volume, unless it found another ----

  lemma FillDirMapped(d: Disk, parent: nat, name: string, i: nat, b: nat)
    requires AllMapped(d) && i < |d.inodes| && b < |d.blocks|
    ensures AllMapped(FillDir(d, parent, name, i, b).disk)
  {
    var blank := PutInode(PutBlock(d, b, Slots(BLANK_SLOTS)), i, NewDirInode(b));
    var dot := DirAdd(blank, i, ".", i, Dir);
    NewDirMapped(d, i, b);
    DirAddMapped(blank, i, ".", i, Dir);
    DirAddMapped(dot.disk, i, "..", parent, Dir);
    DirAddMapped(DirAdd(dot.disk, i, "..", parent, Dir).disk, parent, name, i, Dir);
  }

  lemma CreateDirMapped(d: Disk, parent: nat, name: string)
    requires AllMapped(d)
    ensures AllMapped(CreateDir(d, parent, name).disk)
  {
    var a := AllocInode(d);
    SameInodesMapped(d, a.disk);
    var b := AllocBlock(a.disk);
    SameInodesMapped(d, b.disk);
    if a.at != NONE && b.at != NONE {
      FillDirMapped(b.disk, parent, name, a.at, b.at);
    }
  }

  lemma {:induction false} PlantMapped(d: Disk, cur: nat, toks: seq<string>)
    requires AllMapped(d)
    ensures AllMapped(Plant(d, cur, toks).disk)
    decreases toks
  {
    if toks != [] {
      if Lookup(d, cur, toks[0]) != NONE {
        PlantMapped(d, Lookup(d, cur, toks[0]), toks[1..]);
      } else {
        var m := CreateDir(d, cur, toks[0]);
        CreateDirMapped(d, cur, toks[0]);
        if m.ino != NONE {
          PlantMapped(m.disk, m.ino, toks[1..]);
        }
      }
    }
  }

  lemma {:induction false} PlantAllMapped(d: Disk, paths: seq<string>)
    requires AllMapped(d)
    ensures AllMapped(PlantAll(d, paths).disk)
  {
    if paths != [] {
      var before := PlantAll(d, paths[..|paths| - 1]);
      PlantAllMapped(d, paths[..|paths| - 1]);
      PlantMapped(before.disk, ROOT, Tokens(TruncCopy(paths[|paths| - 1])));
    }
  }

  /** On a device whose old inode table, blank or not, names blocks of the device only. */
  lemma FormatMapped(size: nat, inodes: seq<Inode>, blocks: seq<Block>)
    requires Device(size, inodes, blocks) && Format(size, inodes, blocks).Done?
    requires forall i | 0 <= i < |inodes| :: Readable(blocks, Blocks(inodes[i].extents))
    ensures AllMapped(Format(size, inodes, blocks).img)
  {
    var blank := Blank(LayoutOf(size), inodes, blocks);
    forall j: nat ensures Readable(blank.blocks, BlocksOf(blank, j)) {
    }
    CreateDirMapped(blank, ROOT, "/");
    PlantAllMapped(CreateDir(blank, ROOT, "/").disk, INITIAL_DIRS);
  }
}
