/** Exactly what the checker leaves unchecked. */
module CheckerExact {
  import opened ZerosFs
  import opened Bitmap
  import opened Extents
  import opened Directory
  import opened Namespace
  import opened Volume
  import opened DirectorySteps
  import opened FileSystem
  import opened Checker
  import opened CheckerProofs
  import opened CheckerCompleteness

  // ---- what no pass looks at ----

  /** The version, and the exact place and size of every region. Pass 1 looks at the magic number, the block
    * size, the totals, the order of the regions and the counters only. */
  ghost predicate RegionsExact(sb: Superblock) {
    && sb.version == FS_VERSION
    && sb.inodeBitmapStart == 1
    && sb.blockBitmapStart == sb.inodeBitmapStart + sb.inodeBitmapBlocks
    && sb.inodeTableStart == sb.blockBitmapStart + sb.blockBitmapBlocks
    && sb.dataStart == sb.inodeTableStart + sb.inodeTableBlocks
    && sb.totalInodes == sb.inodeTableBlocks * INODES_PER_BLOCK
    && (sb.inodeBitmapBlocks - 1) * BITS_PER_BLOCK < sb.totalInodes <= sb.inodeBitmapBlocks * BITS_PER_BLOCK
    && sb.totalBlocks <= sb.blockBitmapBlocks * BITS_PER_BLOCK
  }

  /** The free counters are the numbers of clear bits. */
  ghost predicate CountersExact(d: Disk) {
    d.sb.freeInodes == |FreeFrom(d.inodeBits, 0)| && d.sb.freeBlocks == |FreeBlockList(d)|
  }

  /** No block is used twice. */
  ghost predicate NotShared(d: Disk) {
    && (forall i: nat {:trigger NoDup(BlocksOf(d, i))} | Live(d, i) :: NoDup(BlocksOf(d, i)))
    && (forall i: nat, j: nat, b: nat :: Owns(d, i, b) && Owns(d, j, b) ==> i == j)
  }

  /** Link counts are positive, directories are built of one-block extents with distinct names, files of
    * as many blocks as their size asks for. */
  ghost predicate Shape(blocks: seq<Block>, node: Inode) {
    && node.links > 0
    && (node.ftype == Dir ==> DirNodeOk(blocks, node))
    && (node.ftype == Reg ==> FileNodeOk(blocks, node))
  }

  ghost predicate ShapesOk(d: Disk) {
    forall i: nat {:trigger Shape(d.blocks, d.inodes[i])} | Live(d, i) :: Shape(d.blocks, d.inodes[i])
  }

  /** Names fit and hold no NUL, the stored type is the inode's, and no ordinary entry leads to the root. */
  ghost predicate EntryShape(d: Disk, e: Dirent) {
    ValidSlot(d, e) ==>
      && e.ftype == d.inodes[e.ino].ftype
      && (Ordinary(e.name) ==> |e.name| <= NAME_MAX && '\0' !in e.name && e.ino != ROOT)
  }

  ghost predicate EntriesShaped(d: Disk) {
    forall x: nat, e {:trigger e in WalkedSlots(d, x)} | LiveDir(d, x) && e in WalkedSlots(d, x) :: EntryShape(d, e)
  }

  ghost predicate Unchecked(d: Disk) {
    && RegionsExact(d.sb) && CountersExact(d) && NoWrap(d) && NotShared(d) && ShapesOk(d)
    && EntriesShaped(d) && UniqueParents(View(d))
  }

  // ---- a well-formed volume meets all of it ----

  lemma WellFormedIsUnchecked(d: Disk)
    requires WellFormed(d)
    ensures Unchecked(d)
  {
    forall i: nat, k | Live(d, i) && 0 <= k < |d.inodes[i].extents|
      ensures d.inodes[i].extents[k].start + d.inodes[i].extents[k].len < TWO_32
    {
      ExtentsInData(d, i, k);
    }
    forall i: nat | Live(d, i) ensures Shape(d.blocks, d.inodes[i]) {
      assert NodeOk(d.blocks, d.inodes[i]);
    }
    forall x: nat, e | LiveDir(d, x) && e in WalkedSlots(d, x) ensures EntryShape(d, e) {
      if ValidSlot(d, e) {
        EntryIsShaped(d, x, e);
      }
    }
  }

  lemma EntryIsShaped(d: Disk, x: nat, e: Dirent)
    requires WellFormed(d) && LiveDir(d, x) && e in WalkedSlots(d, x) && ValidSlot(d, e)
    ensures EntryShape(d, e)
  {
    WalkedIsSlotsIn(d, x);
    var k :| 0 <= k < |SlotsIn(d, x)| && SlotsIn(d, x)[k] == e;
    SlotIsEntry(d, x, k);
    EntryKnown(View(d), x, e.name, Entry(e.ino, e.ftype));
  }

  /** What the tree says of any entry, the dots included. */
  lemma EntryKnown(ns: Namespace, x: nat, n: string, e: Entry)
    requires TreeInv(ns) && x in ns.dirs && n in ns.dirs[x] && ns.dirs[x][n] == e
    ensures e.ino in ns.kind && ns.kind[e.ino] == e.ftype
    ensures Ordinary(n) ==> ValidName(n) && e.ino != ROOT
  {
    assert DotsOk(ns, x);
    if Ordinary(n) {
      assert EntryOk(ns, x, n);
    }
  }

  // ---- and nothing else is missing ----

  lemma CleanIsOwned(d: Disk)
    requires Clean(d) && NoWrap(d) && NotShared(d)
    ensures Owned(d)
  {
    CleanIsSound(d);
    forall i: nat, b: nat | Owns(d, i, b) ensures d.sb.dataStart <= b < |d.blockBits| && d.blockBits[b] {
      OwnedIsMarked(d, i, b);
    }
    forall b | d.sb.dataStart <= b < |d.blockBits| && d.blockBits[b] ensures HasOwner(d, b) {
      var i: nat :| i < |d.inodes| && Live(d, i) && NodeCovers(d.inodes[i], b);
      BlocksAreCovered(d.inodes[i].extents, b);
      assert Owns(d, i, b);
    }
  }

  lemma ExtentInside(d: Disk, i: nat, k: nat)
    requires InodesClean(d) && NoWrap(d) && Live(d, i) && k < |d.inodes[i].extents|
    ensures var e := d.inodes[i].extents[k]; d.sb.dataStart <= e.start && e.start + e.len <= |d.blockBits|
  {
    assert NodeClean(d, d.inodes[i]);
    assert CheckedExtents(d.inodes[i]) == d.inodes[i].extents;
    assert ExtentClean(d, CheckedExtents(d.inodes[i])[k]);
  }

  lemma OwnedIsMarked(d: Disk, i: nat, b: nat)
    requires Clean(d) && NoWrap(d) && Owns(d, i, b)
    ensures d.sb.dataStart <= b < |d.blockBits| && d.blockBits[b]
  {
    var exts := d.inodes[i].extents;
    BlocksAreCovered(exts, b);
    var k :| 0 <= k < |exts| && Covers(exts[k], b);
    ExtentInside(d, i, k);
    assert NodeCovers(d.inodes[i], b) && Covered(d, b);
    CleanIsSound(d);
  }

  lemma CleanIsPhysical(d: Disk)
    requires Clean(d) && Unchecked(d)
    ensures Physical(d)
  {
    CleanIsOwned(d);
    forall i: nat | Live(d, i) ensures NodeOk(d.blocks, d.inodes[i]) {
      assert NodeClean(d, d.inodes[i]) && Shape(d.blocks, d.inodes[i]);
    }
  }

  lemma ShapedTypesAgree(d: Disk)
    requires EntriesShaped(d)
    ensures TypesAgree(d)
  {
    forall x: nat, k | LiveDir(d, x) && 0 <= k < |WalkedSlots(d, x)|
      ensures SlotTypeAgrees(d, WalkedSlots(d, x)[k])
    {
      assert WalkedSlots(d, x)[k] in WalkedSlots(d, x);
      assert EntryShape(d, WalkedSlots(d, x)[k]);
    }
  }

  /** An entry of a live directory is a used slot of it. */
  lemma EntryIsSlot(d: Disk, x: nat, n: string) returns (e: Dirent)
    requires Physical(d) && LiveDir(d, x) && n in Entries(SlotsIn(d, x))
    ensures e in WalkedSlots(d, x) && !e.Free() && e.name == n && Entries(SlotsIn(d, x))[n] == Entry(e.ino, e.ftype)
  {
    WalkedIsSlotsIn(d, x);
    FindIsLookup(SlotsIn(d, x), n);
    e := SlotsIn(d, x)[Find(SlotsIn(d, x), Named(n))];
  }

  /** A valid slot is an entry. */
  lemma SlotGivesEntry(d: Disk, x: nat, e: Dirent)
    requires Physical(d) && LiveDir(d, x) && e in WalkedSlots(d, x) && !e.Free()
    ensures e.name in Entries(SlotsIn(d, x)) && Entries(SlotsIn(d, x))[e.name] == Entry(e.ino, e.ftype)
  {
    WalkedIsSlotsIn(d, x);
    var k :| 0 <= k < |SlotsIn(d, x)| && SlotsIn(d, x)[k] == e;
    SlotIsEntry(d, x, k);
  }

  /** A dot entry of a clean directory. */
  lemma CleanDot(d: Disk, x: nat, p: nat, name: string, target: nat)
    requires Physical(d) && EntriesShaped(d) && LiveDir(d, x) && DotsClean(d, x, p)
    requires (name == "." && target == x) || (name == ".." && target == p)
    requires target < |d.inodes| && d.inodes[target].ftype == Dir
    ensures name in Entries(SlotsIn(d, x)) && Entries(SlotsIn(d, x))[name] == Entry(target, Dir) && LiveDir(d, target)
  {
    var slots := WalkedSlots(d, x);
    var i :| 0 <= i < |slots| && ValidSlot(d, slots[i]) && slots[i].name == name;
    var e := slots[i];
    assert e in WalkedSlots(d, x);
    assert SlotPassed(d, e, x, p) && EntryShape(d, e);
    SlotGivesEntry(d, x, e);
  }

  /** What a clean report says of directory x, whose parent is p. */
  lemma CleanDots(d: Disk, x: nat, p: nat)
    requires Physical(d) && EntriesShaped(d) && LiveDir(d, x) && DotsClean(d, x, p)
    requires p < |d.inodes| && d.inodes[p].ftype == Dir
    ensures x in View(d).dirs && DotsOk(View(d), x) && View(d).dirs[x][".."].ino == p && LiveDir(d, p)
  {
    CleanDot(d, x, p, ".", x);
    CleanDot(d, x, p, "..", p);
  }

  /** An edge is a parent-child pair. */
  lemma EdgeIsChild(d: Disk, x: nat, y: nat) returns (n: string)
    requires Physical(d) && Live(d, x) && Edge(d, x, y)
    ensures Child(View(d), x, n, y) && Live(d, y)
  {
    var slots := WalkedSlots(d, x);
    var k :| 0 <= k < |slots| && Leads(d, slots[k], y);
    assert slots[k] in WalkedSlots(d, x);
    SlotGivesEntry(d, x, slots[k]);
    n := slots[k].name;
  }

  lemma {:induction false} TrailDescends(d: Disk, path: seq<nat>, y: nat) returns (names: seq<string>)
    requires Physical(d) && LiveDir(d, ROOT) && Trail(d, path, ROOT, y)
    ensures Descend(View(d), names) == y && Live(d, y)
    decreases |path|
  {
    if |path| == 1 {
      names := [];
    } else {
      var x := path[|path| - 2];
      assert Edge(d, path[|path| - 2], path[|path| - 2 + 1]);
      var front := path[..|path| - 1];
      assert Trail(d, front, ROOT, x) by {
        forall k | 0 <= k < |front| - 1 ensures Edge(d, front[k], front[k + 1]) {
          assert Edge(d, path[k], path[k + 1]);
        }
      }
      var before := TrailDescends(d, front, x);
      var n := EdgeIsChild(d, x, y);
      DescendStep(View(d), before, n, y);
      names := before + [n];
    }
  }

  /** What a clean report says of every live directory. */
  ghost predicate DirsClean(d: Disk) {
    && d.inodes != [] && LiveDir(d, ROOT) && DotsClean(d, ROOT, ROOT)
    && forall x: nat {:trigger ListedClean(d, x)} | LiveDir(d, x) && x != ROOT :: ListedClean(d, x)
  }

  lemma CleanDirs(d: Disk)
    requires Clean(d) && EntriesShaped(d)
    ensures DirsClean(d)
  {
    ShapedTypesAgree(d);
    CleanHasDots(d);
  }

  /** Every live directory is clean with some parent, which is itself a live directory. */
  lemma ParentOf(d: Disk, x: nat) returns (p: nat)
    requires Physical(d) && EntriesShaped(d) && DirsClean(d) && LiveDir(d, x)
    ensures DotsClean(d, x, p) && p < |d.inodes| && d.inodes[p].ftype == Dir
    ensures x in View(d).dirs && DotsOk(View(d), x) && View(d).dirs[x][".."].ino == p && LiveDir(d, p)
    ensures x != ROOT ==> Edge(d, p, x)
    ensures x == ROOT ==> p == ROOT
  {
    if x == ROOT {
      p := ROOT;
    } else {
      assert ListedClean(d, x);
      p :| Edge(d, p, x) && DotsClean(d, x, p);
    }
    CleanDots(d, x, p);
  }

  /** Every ordinary entry is as the tree invariant asks. */
  lemma CleanEntry(d: Disk, x: nat, n: string)
    requires Physical(d) && EntriesShaped(d) && DirsClean(d) && UniqueParents(View(d)) && InodesClean(d)
    requires x in View(d).dirs && n in View(d).dirs[x] && Ordinary(n)
    ensures EntryOk(View(d), x, n)
  {
    var p := ParentOf(d, x);
    var e := EntryIsSlot(d, x, n);
    assert SlotPassed(d, e, x, p);
    assert EntryShape(d, e);
    assert Child(View(d), x, n, e.ino);
    if LiveDir(d, e.ino) {
      var q := ParentOf(d, e.ino);
      var m := EdgeIsChild(d, q, e.ino);
      assert Child(View(d), q, m, e.ino);
    }
  }

  lemma CleanIsTree(d: Disk)
    requires Clean(d) && Unchecked(d)
    ensures TreeInv(View(d))
  {
    CleanIsPhysical(d);
    CleanDirs(d);
    var ns := View(d);
    forall i | i in ns.kind ensures i < NONE && (ns.kind[i] == Reg || ns.kind[i] == Dir) {
      assert NodeClean(d, d.inodes[i]);
    }
    forall x | x in ns.dirs ensures DotsOk(ns, x) {
      var p := ParentOf(d, x);
    }
    var r := ParentOf(d, ROOT);
    forall x, n | x in ns.dirs && n in ns.dirs[x] && Ordinary(n) ensures EntryOk(ns, x, n) {
      CleanEntry(d, x, n);
    }
    CleanIsSound(d);
    forall i | i in ns.kind ensures Reachable(ns, i) {
      assert Connected(d, ROOT, i);
      var path :| Trail(d, path, ROOT, i);
      var names := TrailDescends(d, path, i);
    }
  }

  /** What pass 1 tests is the rest of the layout. */
  lemma CleanLayout(sb: Superblock)
    requires SuperblockClean(sb) && RegionsExact(sb)
    ensures LayoutOk(sb)
  {
  }

  /** A volume is well-formed exactly when the checker reports nothing and what it does not look at is in
    * order too. */
  lemma WellFormedExactly(d: Disk)
    ensures WellFormed(d) <==> Clean(d) && Unchecked(d)
  {
    if WellFormed(d) {
      WellFormedIsClean(d);
      WellFormedIsUnchecked(d);
    }
    if Clean(d) && Unchecked(d) {
      CleanIsPhysical(d);
      CleanIsTree(d);
      CleanLayout(d.sb);
    }
  }
}
