/** What fs/zeros_fsck.c decides, as functions of the image: the four passes and the
  * depth-first walk. An image is clean when no pass reports an error. */
module Checker {
  import opened ZerosFs
  import opened Extents
  import opened Directory
  import opened Volume

  // ---- pass 1: superblock ----

  predicate SuperblockClean(sb: Superblock) {
    && sb.magic == MAGIC
    && sb.blockSize == BLOCK_SIZE
    && sb.totalBlocks != 0 && sb.totalInodes != 0
    && OffsetsClean(sb)
  }

  /** The regions are in order and inside the disk, the free counters not larger than the totals. */
  predicate OffsetsClean(sb: Superblock) {
    && sb.inodeBitmapStart != 0 && sb.inodeBitmapStart < sb.totalBlocks
    && sb.inodeBitmapStart < sb.blockBitmapStart < sb.inodeTableStart < sb.dataStart < sb.totalBlocks
    && sb.freeBlocks <= sb.totalBlocks && sb.freeInodes <= sb.totalInodes
  }

  // ---- pass 2: inodes ----

  /** The extents the checker looks at: at most eight. */
  function CheckedExtents(node: Inode): seq<Extent> {
    if |node.extents| < MAX_EXTENTS then node.extents else node.extents[..MAX_EXTENTS]
  }

  /** start + length in 32-bit arithmetic. */
  function End32(e: Extent): nat {
    (e.start + e.len) % TWO_32
  }

  predicate ExtentClean(d: Disk, e: Extent) {
    d.sb.dataStart <= e.start && End32(e) <= d.sb.totalBlocks
  }

  predicate NodeClean(d: Disk, node: Inode) {
    && (node.ftype == Reg || node.ftype == Dir)
    && |node.extents| <= MAX_EXTENTS
    && forall k | 0 <= k < |CheckedExtents(node)| :: ExtentClean(d, CheckedExtents(node)[k])
  }

  predicate InodesClean(d: Disk) {
    forall i: nat | i < |d.inodes| && Live(d, i) :: NodeClean(d, d.inodes[i])
  }

  /** Pass 2 marks b for this extent. */
  predicate Marks(d: Disk, e: Extent, b: nat) {
    ExtentClean(d, e) && e.start <= b < End32(e)
  }

  ghost predicate NodeMarks(d: Disk, node: Inode, b: nat) {
    exists k :: 0 <= k < |CheckedExtents(node)| && Marks(d, CheckedExtents(node)[k], b)
  }

  ghost predicate Referenced(d: Disk, b: nat) {
    exists i: nat :: i < |d.inodes| && Live(d, i) && NodeMarks(d, d.inodes[i], b)
  }

  // ---- pass 3: bitmaps ----

  ghost predicate BitmapsClean(d: Disk) {
    forall b: nat | b < |d.blockBits| ::
      if b < d.sb.dataStart then d.blockBits[b] else d.blockBits[b] <==> Referenced(d, b)
  }

  // ---- pass 4: the depth-first walk ----

  /** The inodes marked reachable, and whether the walk reported nothing. */
  datatype Visit = Visit(reach: set<nat>, clean: bool)

  predicate InTable(d: Disk, i: nat) {
    i < |d.inodes|
  }

  function InodeSet(d: Disk): set<nat> {
    set i: nat | i < |d.inodes| && InTable(d, i)
  }

  /** The slots the walk reads in directory x, up to the first unreadable block. */
  function WalkedSlots(d: Disk, x: nat): seq<Dirent>
    requires x < |d.inodes|
  {
    DirSlots(d.blocks, Blocks(CheckedExtents(d.inodes[x])))
  }

  /** A used slot whose inode exists and is in use. */
  predicate ValidSlot(d: Disk, e: Dirent) {
    !e.Free() && e.ino < |d.inodes| && d.inodeBits[e.ino]
  }

  predicate GoodName(name: string) {
    name != "" && '/' !in name
  }

  predicate HasSlot(d: Disk, slots: seq<Dirent>, name: string) {
    exists k :: 0 <= k < |slots| && ValidSlot(d, slots[k]) && slots[k].name == name
  }

  function CheckDir(d: Disk, reach: set<nat>, dir: nat, parent: nat): (v: Visit)
    requires reach <= InodeSet(d) && dir < |d.inodes| && dir !in reach
    ensures reach <= v.reach <= InodeSet(d)
    decreases |InodeSet(d) - reach|, 0, 0
  {
    if d.inodes[dir].ftype != Dir then Visit(reach, false)
    else
      var slots := WalkedSlots(d, dir);
      Shrinks(d, reach, dir);
      var v := CheckSlots(d, reach + {dir}, slots, dir, parent);
      Visit(v.reach, v.clean && Readable(d.blocks, Blocks(CheckedExtents(d.inodes[dir])))
                     && HasSlot(d, slots, ".") && HasSlot(d, slots, ".."))
  }

  function CheckSlots(d: Disk, reach: set<nat>, slots: seq<Dirent>, dir: nat, parent: nat): (v: Visit)
    requires reach <= InodeSet(d)
    ensures reach <= v.reach <= InodeSet(d)
    decreases |InodeSet(d) - reach|, |slots|, 1
  {
    if slots == [] then Visit(reach, true)
    else
      var first := CheckSlot(d, reach, slots[0], dir, parent);
      ShrinksTo(d, reach, first.reach);
      var rest := CheckSlots(d, first.reach, slots[1..], dir, parent);
      Visit(rest.reach, first.clean && rest.clean)
  }

  function CheckSlot(d: Disk, reach: set<nat>, e: Dirent, dir: nat, parent: nat): (v: Visit)
    requires reach <= InodeSet(d)
    ensures reach <= v.reach <= InodeSet(d)
    decreases |InodeSet(d) - reach|, 0, 1
  {
    if e.Free() then Visit(reach, true)
    else if !ValidSlot(d, e) then Visit(reach, false)
    else if e.name == "." then Visit(reach, e.ino == dir)
    else if e.name == ".." then Visit(reach, e.ino == parent)
    else if e.ftype == Dir then
      if e.ino in reach then Visit(reach, GoodName(e.name))
      else
        var v := CheckDir(d, reach, e.ino, dir);
        Visit(v.reach, GoodName(e.name) && v.clean)
    else Visit(reach + {e.ino}, GoodName(e.name))
  }

  lemma ShrinksTo(d: Disk, reach: set<nat>, reach': set<nat>)
    requires reach <= reach' <= InodeSet(d)
    ensures |InodeSet(d) - reach'| <= |InodeSet(d) - reach|
  {
    CardinalityMono(InodeSet(d) - reach', InodeSet(d) - reach);
  }

  lemma Shrinks(d: Disk, reach: set<nat>, dir: nat)
    requires reach <= InodeSet(d) && dir < |d.inodes| && dir !in reach
    ensures |InodeSet(d) - (reach + {dir})| < |InodeSet(d) - reach|
  {
    var a := InodeSet(d) - reach;
    assert InodeSet(d) - (reach + {dir}) == a - {dir};
    assert dir in a;
  }

  lemma {:induction false} CardinalityMono(a: set<nat>, b: set<nat>)
    requires a <= b
    ensures |a| <= |b|
    decreases b
  {
    if a != {} {
      var x :| x in a;
      CardinalityMono(a - {x}, b - {x});
    }
  }

  /** The whole walk from the root, with nothing marked. */
  function RootWalk(d: Disk): Visit
    requires 0 < |d.inodes|
  {
    CheckDir(d, {}, ROOT, ROOT)
  }

  ghost predicate TreeClean(d: Disk) {
    && 0 < |d.inodes| && d.inodeBits[ROOT]
    && RootWalk(d).clean
    && forall i: nat | i < |d.inodes| && Live(d, i) :: i in RootWalk(d).reach
  }

  /** No pass reports an error. */
  ghost predicate Clean(d: Disk) {
    SuperblockClean(d.sb) && InodesClean(d) && BitmapsClean(d) && TreeClean(d)
  }
}
