/** Directories no larger than their entries need: what a new directory costs then, to the block. */
module TightDirs {
  import opened ZerosFs
  import opened Bitmap
  import opened Extents
  import opened Directory
  import opened Namespace
  import opened Volume
  import opened VolumeSteps
  import opened DirectorySteps
  import opened Creation
  import Operations

  /** As many blocks as the entries fill, the last one perhaps in part; a size of 128 bytes an entry; two links. */
  ghost predicate TightDir(d: Disk, x: nat) {
    var names, blocks := |Entries(SlotsIn(d, x))|, |BlocksOf(d, x)|;
    && names <= DIRENTS_PER_BLOCK * blocks < names + DIRENTS_PER_BLOCK
    && x < |d.inodes| && d.inodes[x].size == 128 * names && d.inodes[x].links == 2
  }

  ghost predicate Tight(d: Disk) {
    forall x: nat {:trigger TightDir(d, x)} | LiveDir(d, x) :: TightDir(d, x)
  }

  /** The blocks one more entry costs. */
  function Growth(names: nat): nat {
    if names % DIRENTS_PER_BLOCK == 0 then 1 else 0
  }

  lemma SlotCount(d: Disk, x: nat)
    requires Physical(d) && LiveDir(d, x)
    ensures |SlotsIn(d, x)| == DIRENTS_PER_BLOCK * |BlocksOf(d, x)| && |BlocksOf(d, x)| == |d.inodes[x].extents|
    ensures |d.inodes[x].extents| <= MAX_EXTENTS
    ensures Find(SlotsIn(d, x), FreeSlot) == |SlotsIn(d, x)| <==> |Entries(SlotsIn(d, x))| == |SlotsIn(d, x)|
    ensures |Entries(SlotsIn(d, x))| <= |SlotsIn(d, x)|
  {
    var slots := SlotsIn(d, x);
    assert NodeOk(d.blocks, d.inodes[x]);
    OwnedIsReadable(d, x);
    DirSlotsAt(d.blocks, BlocksOf(d, x));
    UnitExtents(d.inodes[x].extents);
    EntriesBound(slots);
    if Find(slots, FreeSlot) == |slots| {
      EntriesFull(slots);
    } else {
      EntriesNotFull(slots, Find(slots, FreeSlot));
    }
  }

  lemma WholeBlocks(names: nat, blocks: nat)
    requires names <= DIRENTS_PER_BLOCK * blocks < names + DIRENTS_PER_BLOCK
    ensures names == DIRENTS_PER_BLOCK * blocks <==> Growth(names) == 1
    ensures Growth(names) == 1 ==> (blocks < MAX_EXTENTS <==> names < 64)
  {
  }

  /** A tight directory is full exactly when its entries fill whole blocks. */
  lemma FullIff(d: Disk, x: nat)
    requires Physical(d) && LiveDir(d, x) && TightDir(d, x)
    ensures Find(SlotsIn(d, x), FreeSlot) == |SlotsIn(d, x)| <==> Growth(|Entries(SlotsIn(d, x))|) == 1
    ensures Growth(|Entries(SlotsIn(d, x))|) == 1 ==>
              (|d.inodes[x].extents| < MAX_EXTENTS <==> |Entries(SlotsIn(d, x))| < 64)
  {
    SlotCount(d, x);
    WholeBlocks(|Entries(SlotsIn(d, x))|, |BlocksOf(d, x)|);
  }

  lemma OthersStayTight(d: Disk, d': Disk, x: nat)
    requires Tight(d) && OnlyNode(d, d', x) && (LiveDir(d', x) ==> TightDir(d', x))
    ensures Tight(d')
  {
    forall y: nat | LiveDir(d', y) ensures TightDir(d', y) {
      if y != x {
        SameNodeFrame(d, d', y);
        assert TightDir(d, y);
      }
    }
  }

  /** One more entry in a tight directory, and what it costs. */
  lemma TightAdd(d: Disk, dir: nat, name: string, child: nat, t: FileType, s: Step)
    requires Physical(d) && Tight(d) && LiveDir(d, dir) && child != NONE && s == DirAdd(d, dir, name, child, t) && s.ok
    requires TruncName(name) !in Entries(SlotsIn(d, dir))
    ensures Tight(s.disk) && s.disk.inodeBits == d.inodeBits
    ensures |FreeBlockList(s.disk)| == |FreeBlockList(d)| - Growth(|Entries(SlotsIn(d, dir))|)
  {
    assert TightDir(d, dir);
    FullIff(d, dir);
    DirAddInserts(d, dir, name, child, t);
    DirAddEffect(d, dir, name, child, t);
    SlotCount(d, dir);
    SlotCount(s.disk, dir);
    if Find(SlotsIn(d, dir), FreeSlot) == |SlotsIn(d, dir)| {
      FreeAfterAlloc(d.blockBits, d.sb.dataStart);
    }
    OthersStayTight(d, s.disk, dir);
  }

  /** The new directory, not yet listed: one block with two entries. */
  lemma DottedIsTight(d: Disk, p: nat)
    requires Physical(d) && Tight(d) && p < |d.inodes|
    requires FreeFrom(d.inodeBits, 0) != [] && FreeBlockList(d) != []
    ensures Tight(DottedDir(d, p))
  {
    var i, e := FirstFreeInode(d), DottedDir(d, p);
    DottedEntries(d, p, i, e);
    OneBlock(d, p, BlankDir(d));
    SlotCount(e, i);
    OthersStayTight(d, e, i);
  }

  lemma DottedEntries(d: Disk, p: nat, i: nat, e: Disk)
    requires Physical(d) && p < |d.inodes| && FreeFrom(d.inodeBits, 0) != [] && FreeBlockList(d) != []
    requires i == FirstFreeInode(d) && e == DottedDir(d, p)
    ensures Physical(e) && LiveDir(e, i) && OnlyNode(d, e, i) && |Entries(SlotsIn(e, i))| == 2
  {
    BlankDirStep(d);
    DotsStep(d, p);
    OnlyNodeTrans(d, BlankDir(d), e, i);
  }

  /** Filling a free slot leaves bitmaps and extents alone and raises the size. */
  lemma ReuseKeeps(d: Disk, dir: nat, name: string, child: nat, t: FileType, e: Disk)
    requires dir < |d.inodes| && Find(SlotsIn(d, dir), FreeSlot) < |SlotsIn(d, dir)|
    requires e == DirAdd(d, dir, name, child, t).disk
    ensures |e.inodes| == |d.inodes| && e.inodes[dir].extents == d.inodes[dir].extents
    ensures e.inodeBits == d.inodeBits && Enlarged(d.inodes[dir], e.inodes[dir])
  {
    DirAddReuses(d, dir, name, child, t);
  }

  /** The two dots fit into the new directory's block. */
  lemma DotsKeep(d: Disk, p: nat, i: nat, e: Disk, e1: Disk)
    requires Physical(d) && p < |d.inodes| && FreeFrom(d.inodeBits, 0) != [] && FreeBlockList(d) != []
    requires i == FirstFreeInode(d) && e == BlankDir(d) && e1 == DirAdd(e, i, ".", i, Dir).disk
    ensures |DottedDir(d, p).inodes| == |e.inodes| && i < |e.inodes|
    ensures DottedDir(d, p).inodes[i].extents == e.inodes[i].extents && DottedDir(d, p).inodeBits == e.inodeBits
    ensures DottedDir(d, p).inodes[i].size == 256 && DottedDir(d, p).inodes[i].links == 2
  {
    BlankDirStep(d);
    DotsStep(d, p);
    assert Find(BLANK_SLOTS, FreeSlot) == 0;
    ReuseKeeps(e, i, ".", i, Dir, e1);
    DotSlotFree(d, p, i, e, e1);
    ReuseKeeps(e1, i, "..", p, Dir, DottedDir(d, p));
  }

  lemma DotSlotFree(d: Disk, p: nat, i: nat, e: Disk, e1: Disk)
    requires Physical(d) && p < |d.inodes| && FreeFrom(d.inodeBits, 0) != [] && FreeBlockList(d) != []
    requires i == FirstFreeInode(d) && e == BlankDir(d) && e1 == DirAdd(e, i, ".", i, Dir).disk
    ensures i < |e1.inodes| && Find(SlotsIn(e1, i), FreeSlot) < |SlotsIn(e1, i)|
  {
    BlankDirStep(d);
    BlankHasNoEntries();
    assert Find(BLANK_SLOTS, FreeSlot) == 0;
    DirAddReuses(e, i, ".", i, Dir);
    ReusedInserts(e, i, Dirent(i, Dir, "."), 0, e.inodes[i].size + DIRENT_SIZE, map["." := Entry(i, Dir)]);
    OneDirBlockHasRoom(e, e1, i);
  }

  lemma OneBlock(d: Disk, p: nat, e: Disk)
    requires Physical(d) && p < |d.inodes| && FreeFrom(d.inodeBits, 0) != [] && FreeBlockList(d) != []
    requires e == BlankDir(d)
    ensures FirstFreeInode(d) < |DottedDir(d, p).inodes| && |DottedDir(d, p).inodes[FirstFreeInode(d)].extents| == 1
    ensures DottedDir(d, p).inodes[FirstFreeInode(d)].size == 256
    ensures DottedDir(d, p).inodes[FirstFreeInode(d)].links == 2
    ensures FreeFrom(DottedDir(d, p).inodeBits, 0) == FreeFrom(d.inodeBits, 0)[1..]
  {
    var i := FirstFreeInode(d);
    DotsKeep(d, p, i, e, DirAdd(e, i, ".", i, Dir).disk);
    FreeAfterAlloc(d.inodeBits, 0);
  }

  /** Creating a directory under a fresh name in a tight volume: it costs one block and what its entry costs, and
    * succeeds exactly when there is an inode, that many blocks, and room for a name. */
  lemma MakeDirCosts(d: Disk, p: nat, name: string, s: Step, cost: nat)
    requires Physical(d) && Tight(d) && LiveDir(d, p) && |name| <= NAME_MAX && name !in Entries(SlotsIn(d, p))
    requires s == Operations.MakeDir(d, p, name) && cost == 1 + Growth(|Entries(SlotsIn(d, p))|)
    ensures s.ok <==> && FreeFrom(d.inodeBits, 0) != [] && |FreeBlockList(d)| >= cost
                      && |Entries(SlotsIn(d, p))| < 64
    ensures s.ok ==> Tight(s.disk) && |FreeBlockList(s.disk)| == |FreeBlockList(d)| - cost
    ensures s.ok ==> FreeFrom(s.disk.inodeBits, 0) == FreeFrom(d.inodeBits, 0)[1..]
  {
    assert TightDir(d, p);
    FullIff(d, p);
    SlotCount(d, p);
    MakeDirRefines(d, p, name);
    if s.ok {
      var i, e := FirstFreeInode(d), DottedDir(d, p);
      MakeDirIsFill(d, p, name);
      DotsStep(d, p);
      DottedDirStep(d, p);
      DottedIsTight(d, p);
      OneBlock(d, p, BlankDir(d));
      TightAdd(e, p, name, i, Dir, s);
    }
  }
}
