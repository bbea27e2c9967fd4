/** fs/zeros_format.c as functions of the image: blank bitmaps, the root directory and the
  * initial tree. */
module Formatting {
  import opened ZerosFs
  import opened Volume
  import opened Paths
  import opened Layout
  import Ops = Operations

  const INITIAL_DIRS := [
    "/sys", "/sys/kernel", "/sys/boot", "/sys/model", "/sys/model/weights", "/sys/model/cache",
    "/bin", "/etc", "/home", "/dock",
    "/operator", "/operator/learned", "/operator/history",
    "/log", "/log/system", "/log/dock",
    "/tmp", "/doc",
    "/sys/src", "/sys/src/shell", "/sys/src/fs", "/sys/src/vm"]

  /** The formatter's path copy holds this many characters. */
  const COPY_MAX := NAME_MAX * 4 - 1

  function TruncCopy(path: string): (cut: string)
    ensures cut <= path && |cut| == if |path| < 475 then |path| else 475
  {
    if |path| > COPY_MAX then path[..COPY_MAX] else path
  }

  /** A disk together with the inode that was made or found, NONE on failure. */
  datatype Made = Made(disk: Disk, ino: nat)

  function CreateDir(d: Disk, parent: nat, name: string): Made {
    var a := AllocInode(d);
    if a.at == NONE then Made(d, NONE)
    else
      var b := AllocBlock(a.disk);
      if b.at == NONE then Made(a.disk, NONE) else FillDir(b.disk, parent, name, a.at, b.at)
  }

  /** create_dir after its two allocations; the root is not listed in a parent. */
  function FillDir(d: Disk, parent: nat, name: string, i: nat, b: nat): Made
    requires i < |d.inodes| && b < |d.blocks|
  {
    var blank := PutInode(PutBlock(d, b, Slots(BLANK_SLOTS)), i, Ops.NewDirInode(b));
    var dot := DirAdd(blank, i, ".", i, Dir);
    if !dot.ok then Made(dot.disk, NONE)
    else
      var dotdot := DirAdd(dot.disk, i, "..", parent, Dir);
      if !dotdot.ok then Made(dotdot.disk, NONE)
      else if parent == i then Made(dotdot.disk, i)
      else
        var s := DirAdd(dotdot.disk, parent, name, i, Dir);
        Made(s.disk, if s.ok then i else NONE)
  }

  /** Walk the components of a path, creating those that are missing. */
  function Plant(d: Disk, cur: nat, toks: seq<string>): Made
    decreases toks
  {
    if toks == [] then Made(d, cur)
    else
      var next := Lookup(d, cur, toks[0]);
      if next != NONE then Plant(d, next, toks[1..])
      else
        var m := CreateDir(d, cur, toks[0]);
        if m.ino == NONE then m else Plant(m.disk, m.ino, toks[1..])
  }

  function PlantAll(d: Disk, paths: seq<string>): Step {
    if paths == [] then Step(d, true) else PlantOne(PlantAll(d, paths[..|paths| - 1]), paths[|paths| - 1])
  }

  /** One more path, unless an earlier one failed. */
  function PlantOne(before: Step, path: string): Step {
    if !before.ok then before
    else
      var m := Plant(before.disk, ROOT, Tokens(TruncCopy(path)));
      Step(m.disk, m.ino != NONE)
  }

  lemma PlantAllNext(d: Disk, paths: seq<string>, k: nat)
    requires k < |paths|
    ensures PlantAll(d, paths[..k + 1]) == PlantOne(PlantAll(d, paths[..k]), paths[k])
  {
    assert paths[..k + 1][..k] == paths[..k];
  }

  /** No inode in use, no block in use but the metadata. */
  function Blank(sb: Superblock, inodes: seq<Inode>, blocks: seq<Block>): Disk
    requires |inodes| == sb.totalInodes <= NONE && |blocks| == sb.totalBlocks <= NONE
  {
    Image(sb, seq(|inodes|, _ => false), seq(|blocks|, b => b < sb.dataStart), inodes, blocks)
  }

  datatype Formatted = Failed | Done(img: Disk)

  /** What the device held before: as many inodes and blocks as the layout asks for. */
  predicate Device(size: nat, inodes: seq<Inode>, blocks: seq<Block>) {
    |inodes| == LayoutOf(size).totalInodes && |blocks| == LayoutOf(size).totalBlocks
  }

  function Format(size: nat, inodes: seq<Inode>, blocks: seq<Block>): Formatted
    requires Device(size, inodes, blocks)
  {
    var sb := LayoutOf(size);
    if size < MIN_DISK_SIZE || sb.dataStart >= sb.totalBlocks then Failed
    else
      var root := CreateDir(Blank(sb, inodes, blocks), ROOT, "/");
      if root.ino != ROOT then Failed
      else
        var s := PlantAll(root.disk, INITIAL_DIRS);
        if s.ok then Done(s.disk) else Failed
  }
}
