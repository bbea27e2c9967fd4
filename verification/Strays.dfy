/** Inode numbers outside the inode table. read_inode takes any number: past the table it reads whatever block
  * of the device is there, or fails at the end of it. Only bytes of a regular file that are read as a directory
  * entry lead there. */
module Strays {
  import opened ZerosFs
  import opened Directory
  import opened Namespace
  import opened Volume
  import opened VolumeSteps
  import opened DirectorySteps
  import opened FileContents
  import opened Paths
  import opened Operations
  import opened FileSystem
  import opened MountTheorems
  import opened Runs
  import opened Failures
  import Dirents

  // ---- operations that keep to the table ----

  /** What read_inode finds is an inode of the table, with no more extents than it has room for and none of
    * them in the metadata, or nothing at all. */
  ghost predicate Proper(d: Disk, i: nat) {
    && !Astray(d, i)
    && (i < |d.inodes| ==>
          |d.inodes[i].extents| <= MAX_EXTENTS && forall b | b in BlocksOf(d, i) :: d.sb.dataStart <= b)
  }

  lemma LiveIsProper(d: Disk, i: nat)
    requires Physical(d) && Live(d, i)
    ensures Proper(d, i)
  {
    assert NodeOk(d.blocks, d.inodes[i]);
    forall b | b in BlocksOf(d, i) ensures d.sb.dataStart <= b {
      assert Owns(d, i, b);
    }
  }

  /** Nothing else is searched for a name on the way. */
  ghost predicate WalkInside(d: Disk, cur: nat, toks: seq<string>)
    decreases toks
  {
    toks != [] ==>
      && Proper(d, cur)
      && (Lookup(d, cur, toks[0]) == NONE || WalkInside(d, Lookup(d, cur, toks[0]), toks[1..]))
  }

  ghost predicate PathInside(fs: Mounted, path: string) {
    path == "" || path == "/" || WalkInside(fs.disk, Start(fs.cwd, path), Tokens(TruncPath(path)))
  }

  /** ... nor found at the end of the path. */
  ghost predicate FoundInside(fs: Mounted, path: string) {
    PathInside(fs, path) && Proper(fs.disk, Resolve(fs.disk, fs.cwd, path))
  }

  ghost predicate ParentInside(fs: Mounted, path: string) {
    && (LastSlash(path) > 0 ==> PathInside(fs, path[..LastSlash(path)]))
    && Proper(fs.disk, ResolveParent(fs.disk, fs.cwd, path).ino)
  }

  /** What the programs can be asked to do: a C string whose directory part fits its buffer, a 32-bit length,
    * and no block outside the inode table taken for an inode, except by touch, which reads no extent of it. */
  ghost predicate Inside(fs: Mounted, op: Op) {
    && '\0' !in op.path && (op.CdOp? || LastSlash(op.path) < PATH_BUFFER)
    && match op
       case MkdirOp(path) => ParentInside(fs, path)
       case TouchOp(path) =>
         PathInside(fs, path) && (Resolve(fs.disk, fs.cwd, path) == NONE ==> ParentInside(fs, path))
       case WriteOp(path, data) =>
         && |data| < TWO_32 && FoundInside(fs, path)
         && (Resolve(fs.disk, fs.cwd, path) == NONE ==>
               ParentInside(fs, path) && (Touch(fs, path).ok ==> FoundInside(After(fs, Touch(fs, path)), path)))
       case RmOp(path) =>
         FoundInside(fs, path) && (MayRemove(fs, Resolve(fs.disk, fs.cwd, path)) ==> ParentInside(fs, path))
       case CdOp(path) => FoundInside(fs, Target(path))
  }

  // ---- paths through directories do ----

  lemma {:induction false} EntersInside(d: Disk, cur: nat, toks: seq<string>)
    requires WellFormed(d) && Live(d, cur) && Enters(View(d), cur, toks)
    ensures WalkInside(d, cur, toks)
    decreases toks
  {
    if toks != [] {
      LiveIsProper(d, cur);
      LookupAgrees(d, cur, toks[0]);
      LookupLive(View(d), cur, toks[0]);
      if Lookup(d, cur, toks[0]) != NONE {
        EntersInside(d, Lookup(d, cur, toks[0]), toks[1..]);
      }
    }
  }

  lemma SoundIsInside(fs: Mounted, path: string)
    requires MountOk(fs) && PathSound(fs, path)
    ensures FoundInside(fs, path)
  {
    RootIsLive(fs.disk);
    ResolveAgrees(fs, path);
    EntersInside(fs.disk, Start(fs.cwd, path), Tokens(path));
    ProperOrNone(fs.disk, Resolve(fs.disk, fs.cwd, path));
  }

  lemma ProperOrNone(d: Disk, i: nat)
    requires WellFormed(d) && (i == NONE || Live(d, i))
    ensures Proper(d, i)
  {
    if i != NONE {
      LiveIsProper(d, i);
    }
  }

  lemma FrontIsInside(fs: Mounted, path: string)
    requires MountOk(fs) && PathOk(fs, path)
    ensures ParentInside(fs, path)
  {
    RootIsLive(fs.disk);
    HolderIsDir(fs, path);
    PathOkIsSound(fs, path);
    ProperOrNone(fs.disk, ResolveParent(fs.disk, fs.cwd, path).ino);
    if LastSlash(path) > 0 {
      var front := path[..LastSlash(path)];
      EntersInside(fs.disk, Start(fs.cwd, path), Tokens(Front(path)));
      assert front == Front(path) && Start(fs.cwd, front) == Start(fs.cwd, path);
    }
  }

  /** On a well-formed mount, operations on paths through directories keep to the table. */
  lemma AllowedIsInside(fs: Mounted, op: Op)
    requires MountOk(fs) && Allowed(fs, op)
    ensures Inside(fs, op)
    ensures op.TouchOp? ==> FoundInside(fs, op.path)
  {
    match op
    case CdOp(path) => SoundIsInside(fs, Target(path));
    case _ =>
      PathOkIsSound(fs, op.path);
      SoundIsInside(fs, op.path);
      FrontIsInside(fs, op.path);
      if op.WriteOp? && Touch(fs, op.path).ok {
        TouchedIsSound(fs, op.path);
        SoundIsInside(After(fs, Touch(fs, op.path)), op.path);
      }
  }

  // ---- touch outside the table ----

  /** An operation, and what the block would hold after the clock is written into it. */
  datatype Call = Call(op: Op, stamped: Block)

  /** The runtime: the operations as specified, but for touch outside the table. */
  function UserApply(fs: Mounted, op: Op, stamped: Block): Moved
    requires fs.cwdPath != ""
  {
    if op.TouchOp? then
      var s := TouchAnywhere(fs, op.path, stamped);
      Moved(After(fs, s), s.ok)
    else Apply(fs, op)
  }

  /** The operation leaves what the kernel's would: no touch past the end of the device, and none into a
    * block that does not already hold the clock there. */
  ghost predicate Agrees(fs: Mounted, op: Op, stamped: Block) {
    op.TouchOp? ==>
      var i := Resolve(fs.disk, fs.cwd, op.path);
      && !PastEnd(fs.disk, i)
      && (Astray(fs.disk, i) ==> stamped == fs.disk.blocks[NumberBlock(fs.disk, i)])
  }

  lemma AgreesExactly(fs: Mounted, op: Op, stamped: Block)
    requires fs.cwdPath != ""
    ensures UserApply(fs, op, stamped) == Apply(fs, op) <==> Agrees(fs, op, stamped)
  {
    if op.TouchOp? {
      var i := Resolve(fs.disk, fs.cwd, op.path);
      if Astray(fs.disk, i) {
        var b := NumberBlock(fs.disk, i);
        assert PutBlock(fs.disk, b, stamped).blocks[b] == stamped;
        assert fs.disk.blocks[b := fs.disk.blocks[b]] == fs.disk.blocks;
      }
    }
  }

  lemma AllowedAgrees(fs: Mounted, op: Op, stamped: Block)
    requires MountOk(fs) && Allowed(fs, op)
    ensures Agrees(fs, op, stamped)
  {
    if op.TouchOp? {
      PathOkIsSound(fs, op.path);
      ResolveAgrees(fs, op.path);
    }
  }

  type Clock = s: seq<byte> | |s| == 8
    witness [0, 0, 0, 0, 0, 0, 0, 0]

  /** Where the access time of slot i % 8 of a block of inodes is. */
  function ClockAt(i: nat): (at: nat)
    ensures at + 8 <= BLOCK_SIZE
  {
    i % INODES_PER_BLOCK * DIRENT_SIZE + 24
  }

  /** A block of file bytes with the clock written there. */
  function Stamp(data: Sector, i: nat, now: Clock): Sector {
    data[..ClockAt(i)] + now + data[ClockAt(i) + 8..]
  }

  lemma StampIsIdle(data: Sector, i: nat, now: Clock)
    ensures Stamp(data, i, now) == data <==> data[ClockAt(i)..ClockAt(i) + 8] == now
  {
    var at := ClockAt(i);
    assert data == data[..at] + data[at..at + 8] + data[at + 8..];
    assert Stamp(data, i, now)[at..at + 8] == now;
  }

  /** The first number that is not an inode is found in the first data block, and on disks below 128 MB number
    * 2^20 is past the end. */
  lemma NumbersOutside(d: Disk)
    requires LayoutOk(d.sb)
    ensures Astray(d, |d.inodes|) && NumberBlock(d, |d.inodes|) == d.sb.dataStart
    ensures |d.blocks| <= 0x2_0000 ==> PastEnd(d, 0x10_0000)
  {
    assert |d.inodes| / INODES_PER_BLOCK == d.sb.inodeTableBlocks;
  }

  // ---- a file that leads there ----

  lemma NameAfter(path: string, long: string, name: string)
    requires name == "x" && long == path + "/x"
    ensures long == path + "/" + name && name != "" && '/' !in name
  {
    assert path + "/x" == path + "/" + "x";
  }

  lemma ForgedPath(fs: Mounted, path: string, long: string, f: nat, ino: Dirents.Four, name: string)
    requires MountOk(fs) && path != "" && name == "x" && long == path + "/x" && CPath(long)
    requires f == Names(View(fs.disk), fs.cwd, path) && f in View(fs.disk).files
    requires Forged(fs.disk, f, ino) && Dirents.Number(ino) != NONE
    ensures Resolve(fs.disk, fs.cwd, long) == Dirents.Number(ino)
  {
    ForgedLookup(fs.disk, f, ino);
    NameAfter(path, long, name);
    FileIsWalkedThrough(fs, path, long, name, f);
  }

  lemma OneBlockHolds(d: Disk, f: nat, data: Sector)
    requires Typed(d) && LiveFile(d, f) && Content(d, f) == data
    ensures BlocksOf(d, f) != [] && (BlocksOf(d, f)[0] < |d.blocks| ==> d.blocks[BlocksOf(d, f)[0]] == Bytes(data))
  {
    var node, bs := d.inodes[f], BlocksOf(d, f);
    assert NodeOk(d.blocks, node);
    if bs != [] && bs[0] < |d.blocks| {
      var raw := Gather(d.blocks, bs);
      assert raw[..BLOCK_SIZE] == BytesOf(d.blocks[bs[0]]);
      assert d.blocks[bs[0]].Bytes?;
      assert data[..BLOCK_SIZE] == data;
    }
  }

  lemma FileIsForged(fs: Mounted, f: nat, ino: Dirents.Four)
    requires MountOk(fs) && f in View(fs.disk).files && View(fs.disk).files[f] == Dirents.ForgedSector(ino)
    ensures Forged(fs.disk, f, ino)
  {
    OneBlockHolds(fs.disk, f, Dirents.ForgedSector(ino));
    OwnedIsReadable(fs.disk, f);
  }

  /** The mount after these bytes are written to a file. */
  ghost predicate WroteForged(fs: Mounted, path: string, ino: Dirents.Four, fs': Mounted) {
    && fs' == After(fs, WriteFile(fs, path, Dirents.ForgedSector(ino)))
    && WriteFile(fs, path, Dirents.ForgedSector(ino)).ok
  }

  ghost predicate LeadsTo(fs: Mounted, path: string, ino: Dirents.Four) {
    var f := Names(View(fs.disk), fs.cwd, path);
    MountOk(fs) && f in View(fs.disk).files && Forged(fs.disk, f, ino)
  }

  lemma WriteForgesHere(fs: Mounted, path: string, ino: Dirents.Four, fs': Mounted)
    requires MountOk(fs) && CPath(path) && Names(View(fs.disk), fs.cwd, path) in View(fs.disk).files
    requires WroteForged(fs, path, ino, fs')
    ensures LeadsTo(fs', path, ino)
  {
    WriteExisting(fs, path, Dirents.ForgedSector(ino));
    NamedIsSound(fs, path);
    NamesFrame(fs, fs', path);
    FileIsForged(fs', Names(View(fs.disk), fs.cwd, path), ino);
  }

  /** Writing such bytes to a file is all it takes. */
  lemma WriteForges(fs: Mounted, path: string, ino: Dirents.Four, fs': Mounted)
    requires MountOk(fs) && PathOk(fs, path) && Storable(fs, path) && WroteForged(fs, path, ino, fs')
    ensures LeadsTo(fs', path, ino)
  {
    PathOkIsSound(fs, path);
    ResolveAgrees(fs, path);
    if Resolve(fs.disk, fs.cwd, path) == NONE {
      WriteFresh(fs, path, Dirents.ForgedSector(ino));
      WriteForgesHere(After(fs, Touch(fs, path)), path, ino, fs');
    } else {
      ResolvesToFile(fs, path, Dirents.ForgedSector(ino));
      WriteForgesHere(fs, path, ino, fs');
    }
  }

  /** Touching a path that leads to a number outside the inode table. */
  lemma TouchOutside(fs: Mounted, long: string, i: nat, stamped: Block)
    requires fs.cwdPath != "" && i == Resolve(fs.disk, fs.cwd, long) && |fs.disk.inodes| <= i != NONE
    ensures Apply(fs, TouchOp(long)) == Moved(fs, true)
    ensures UserApply(fs, TouchOp(long), stamped) ==
              if NumberBlock(fs.disk, i) >= |fs.disk.blocks| then Moved(fs, false)
              else Moved(fs.(disk := PutBlock(fs.disk, NumberBlock(fs.disk, i), stamped)), true)
  {
  }

  /** Write such a file, then touch the entry it spells: the kernel's touch succeeds and changes nothing. The
    * runtime's fails when the number lies past the end of the device, and otherwise puts the clock into
    * whatever block is there, a file's or a directory's. */
  lemma ForgedTouch(fs: Mounted, path: string, long: string, ino: Dirents.Four, stamped: Block)
    requires LeadsTo(fs, path, ino) && path != "" && long == path + "/x" && CPath(long)
    requires |fs.disk.inodes| <= Dirents.Number(ino) != NONE && fs.cwdPath != ""
    ensures Apply(fs, TouchOp(long)) == Moved(fs, true)
    ensures var b := NumberBlock(fs.disk, Dirents.Number(ino));
            UserApply(fs, TouchOp(long), stamped) ==
              if b >= |fs.disk.blocks| then Moved(fs, false)
              else Moved(fs.(disk := PutBlock(fs.disk, b, stamped)), true)
  {
    ForgedPath(fs, path, long, Names(View(fs.disk), fs.cwd, path), ino, "x");
    TouchOutside(fs, long, Dirents.Number(ino), stamped);
  }
}
