/** mkdir and touch refine the creation of an entry in the abstract tree. */
module Creation {
  import opened ZerosFs
  import opened Bitmap
  import opened Extents
  import opened Directory
  import opened Namespace
  import opened Volume
  import opened VolumeSteps
  import opened DirectorySteps
  import Operations

  function FirstFreeInode(d: Disk): nat
    requires FreeFrom(d.inodeBits, 0) != []
  {
    FreeFrom(d.inodeBits, 0)[0]
  }

  /** The volume after mkdir has written the new directory's blank block. */
  function BlankDir(d: Disk): Disk
    requires FreeFrom(d.inodeBits, 0) != [] && FreeBlockList(d) != []
  {
    var i, b := FirstFreeInode(d), FreeBlockList(d)[0];
    Attach(NewNode(d, Inode(Dir, 2, 0, [])), i, Operations.NewDirInode(b), Slots(BLANK_SLOTS))
  }

  lemma AttachBlank(d: Disk, i: nat)
    requires Physical(d) && LiveDir(d, i) && d.inodes[i].extents == [] && FreeBlockList(d) != []
    ensures var e := Attach(d, i, Operations.NewDirInode(FreeBlockList(d)[0]), Slots(BLANK_SLOTS));
            && Physical(e) && OnlyNode(d, e, i) && LiveDir(e, i)
            && SlotsIn(e, i) == BLANK_SLOTS && FreeBlockList(e) == FreeBlockList(d)[1..]
  {
    var b := FreeBlockList(d)[0];
    var node := Operations.NewDirInode(b);
    var e := Attach(d, i, node, Slots(BLANK_SLOTS));
    BlankDirBlocks(b);
    BlankDirSlots(e.blocks, b);
    BlankDirInode(e.blocks, b);
    AttachKeepsPhysical(d, i, node, Slots(BLANK_SLOTS));
  }

  lemma BlankDirBlocks(b: nat)
    requires b < NONE
    ensures Blocks(Operations.NewDirInode(b).extents) == [b]
  {
    BlocksAppend([], Extent(b, 1));
    assert [] + [Extent(b, 1)] == [Extent(b, 1)] && Range(b, 1) == [b];
  }

  lemma BlankDirSlots(blocks: seq<Block>, b: nat)
    requires b < |blocks| && blocks[b] == Slots(BLANK_SLOTS)
    ensures DirSlots(blocks, [b]) == BLANK_SLOTS
  {
    assert DirSlots(blocks, [b]) == SlotsOf(blocks[b]) + DirSlots(blocks, [b][1..]);
  }

  lemma BlankDirInode(blocks: seq<Block>, b: nat)
    requires b < |blocks| && b < NONE && blocks[b] == Slots(BLANK_SLOTS)
    requires Blocks(Operations.NewDirInode(b).extents) == [b]
    requires DirSlots(blocks, [b]) == BLANK_SLOTS
    ensures NodeOk(blocks, Operations.NewDirInode(b))
  {
  }

  lemma BlankDirStep(d: Disk)
    requires Physical(d) && FreeFrom(d.inodeBits, 0) != [] && FreeBlockList(d) != []
    ensures var i, e := FirstFreeInode(d), BlankDir(d);
            && Physical(e) && OnlyNode(d, e, i) && !Live(d, i) && LiveDir(e, i)
            && SlotsIn(e, i) == BLANK_SLOTS
            && FreeBlockList(e) == FreeBlockList(d)[1..] && SameLayout(d.sb, e.sb)
  {
    var i, empty := FirstFreeInode(d), Inode(Dir, 2, 0, []);
    assert NodeOk(d.blocks, empty);
    NewNodeKeepsPhysical(d, empty);
    AttachBlank(NewNode(d, empty), i);
    OnlyNodeTrans(d, NewNode(d, empty), BlankDir(d), i);
  }

  lemma MakeDirIsFill(d: Disk, parent: nat, name: string)
    ensures var s := Operations.MakeDir(d, parent, name);
            if FreeFrom(d.inodeBits, 0) == [] || FreeBlockList(d) == [] then !s.ok
            else
              var i, e := FirstFreeInode(d), BlankDir(d);
              var dot := DirAdd(e, i, ".", i, Dir);
              dot.ok ==>
                var dotdot := DirAdd(dot.disk, i, "..", parent, Dir);
                dotdot.ok ==> s == DirAdd(dotdot.disk, parent, name, i, Dir)
  {
    if FreeFrom(d.inodeBits, 0) != [] && FreeBlockList(d) != [] {
      var i, b := FirstFreeInode(d), FreeBlockList(d)[0];
      var a := AllocInode(d);
      assert a.disk.inodes[i := Inode(Dir, 2, 0, [])][i := Operations.NewDirInode(b)]
          == a.disk.inodes[i := Operations.NewDirInode(b)];
      assert PutInode(PutBlock(AllocBlock(a.disk).disk, b, Slots(BLANK_SLOTS)), i, Operations.NewDirInode(b))
          == BlankDir(d);
    }
  }

  /** Writing "." and ".." into the blank directory. */
  lemma DotsStep(d: Disk, parent: nat)
    requires Physical(d) && FreeFrom(d.inodeBits, 0) != [] && FreeBlockList(d) != []
    requires parent < |d.inodes|
    ensures var i, e := FirstFreeInode(d), BlankDir(d);
            var dot := DirAdd(e, i, ".", i, Dir);
            var dotdot := DirAdd(dot.disk, i, "..", parent, Dir);
            && dot.ok && dotdot.ok
            && DirBecomes(e, dotdot.disk, i, map["." := Entry(i, Dir), ".." := Entry(parent, Dir)])
            && dotdot.disk.blockBits == e.blockBits && dotdot.disk.sb == e.sb
  {
    var i, e := FirstFreeInode(d), BlankDir(d);
    BlankDirStep(d);
    BlankHasNoEntries();
    assert Find(BLANK_SLOTS, FreeSlot) == 0;
    DirAddReuses(e, i, ".", i, Dir);
    ReusedInserts(e, i, Dirent(i, Dir, "."), 0, e.inodes[i].size + DIRENT_SIZE, map["." := Entry(i, Dir)]);
    var e1 := DirAdd(e, i, ".", i, Dir).disk;
    OneDirBlockHasRoom(e, e1, i);
    DirAddReuses(e1, i, "..", parent, Dir);
    ReusedInserts(e1, i, Dirent(parent, Dir, ".."), Find(SlotsIn(e1, i), FreeSlot),
                  e1.inodes[i].size + DIRENT_SIZE, map["." := Entry(i, Dir), ".." := Entry(parent, Dir)]);
    OnlyNodeTrans(e, e1, DirAdd(e1, i, "..", parent, Dir).disk, i);
  }

  lemma BlankHasNoEntries()
    ensures Entries(BLANK_SLOTS) == map[]
  {
    EntriesPadding([], BLANK_SLOTS);
    assert [] + BLANK_SLOTS == BLANK_SLOTS;
  }

  lemma OneDirBlockHasRoom(e: Disk, e1: Disk, i: nat)
    requires SlotsIn(e, i) == BLANK_SLOTS && e1 == DirAdd(e, i, ".", i, Dir).disk && i < |e.inodes|
    requires Physical(e1) && LiveDir(e1, i) && e1.inodes[i].extents == e.inodes[i].extents
    requires |Entries(SlotsIn(e1, i))| == 1
    ensures Find(SlotsIn(e1, i), FreeSlot) < |SlotsIn(e1, i)|
  {
    DirNamesUnique(e1, i);
    OwnedIsReadable(e1, i);
    DirSlotsAt(e1.blocks, BlocksOf(e1, i));
    assert BlocksOf(e, i) != [];
    if Find(SlotsIn(e1, i), FreeSlot) == |SlotsIn(e1, i)| {
      EntriesFull(SlotsIn(e1, i));
    }
  }

  /** A directory that did not exist before appears in the view. */
  lemma BornDirView(d: Disk, e: Disk, i: nat, m: map<string, Entry>)
    requires OnlyNode(d, e, i) && !Live(d, i) && LiveDir(e, i) && Entries(SlotsIn(e, i)) == m
    ensures View(e) == Namespace(KindMap(d)[i := Dir], DirMap(d)[i := m], FileMap(d))
  {
    ViewChange(d, e, i);
    assert FileMap(d) - {i} == FileMap(d);
  }

  lemma BornFileView(d: Disk, e: Disk, i: nat, data: seq<byte>)
    requires OnlyNode(d, e, i) && !Live(d, i) && LiveFile(e, i) && Content(e, i) == data
    ensures View(e) == Namespace(KindMap(d)[i := Reg], DirMap(d), FileMap(d)[i := data])
  {
    ViewChange(d, e, i);
    assert DirMap(d) - {i} == DirMap(d);
  }

  /** A free slot in p, or a block for p besides the one the new directory takes. */
  ghost predicate RoomForDir(d: Disk, p: nat)
    requires p < |d.inodes|
  {
    && FreeFrom(d.inodeBits, 0) != [] && FreeBlockList(d) != []
    && (|| Find(SlotsIn(d, p), FreeSlot) < |SlotsIn(d, p)|
        || (|d.inodes[p].extents| < MAX_EXTENTS && |FreeBlockList(d)| >= 2))
  }

  ghost predicate RoomForFile(d: Disk, p: nat)
    requires p < |d.inodes|
  {
    FreeFrom(d.inodeBits, 0) != [] && HasRoom(d, p)
  }

  /** The volume with the new, filled but not yet listed, directory. */
  function DottedDir(d: Disk, p: nat): Disk
    requires FreeFrom(d.inodeBits, 0) != [] && FreeBlockList(d) != []
  {
    var i := FirstFreeInode(d);
    DirAdd(DirAdd(BlankDir(d), i, ".", i, Dir).disk, i, "..", p, Dir).disk
  }

  lemma DottedDirStep(d: Disk, p: nat)
    requires Physical(d) && LiveDir(d, p)
    requires FreeFrom(d.inodeBits, 0) != [] && FreeBlockList(d) != []
    ensures var i, e := FirstFreeInode(d), DottedDir(d, p);
            && Physical(e) && LiveDir(e, p) && !Live(d, i) && LiveDir(e, i) && SameLayout(d.sb, e.sb)
            && SlotsIn(e, p) == SlotsIn(d, p) && e.inodes[p] == d.inodes[p]
            && FreeBlockList(e) == FreeBlockList(d)[1..]
            && View(e) == Namespace(KindMap(d)[i := Dir],
                                    DirMap(d)[i := map["." := Entry(i, Dir), ".." := Entry(p, Dir)]],
                                    FileMap(d))
  {
    var i, e := FirstFreeInode(d), DottedDir(d, p);
    BlankDirStep(d);
    DotsStep(d, p);
    OnlyNodeTrans(d, BlankDir(d), e, i);
    BornDirView(d, e, i, map["." := Entry(i, Dir), ".." := Entry(p, Dir)]);
    SameNodeFrame(d, e, p);
  }

  /** Listing the finished directory in its parent. */
  lemma ListDir(d: Disk, p: nat, name: string, i: nat, e: Disk, s: Step)
    requires Physical(d) && LiveDir(d, p) && |name| <= NAME_MAX
    requires name !in Entries(SlotsIn(d, p))
    requires FreeFrom(d.inodeBits, 0) != [] && FreeBlockList(d) != []
    requires i == FirstFreeInode(d) && e == DottedDir(d, p) && s == DirAdd(e, p, name, i, Dir)
    ensures s.ok <==> RoomForDir(d, p)
    ensures s.ok ==> Physical(s.disk) && SameLayout(d.sb, s.disk.sb)
    ensures s.ok ==> Live(s.disk, i) && !Live(d, i) && p in View(d).dirs
    ensures s.ok ==> View(s.disk) == Create(View(d), p, name, i, Dir)
  {
    DottedDirStep(d, p);
    DirAddInserts(e, p, name, i, Dir);
    if HasRoom(e, p) {
      DirBecomesView(e, s.disk, p, Entries(SlotsIn(d, p))[name := Entry(i, Dir)]);
    }
  }

  /** mkdir with a fresh name succeeds iff there is room, and then creates exactly that directory. */
  lemma MakeDirRefines(d: Disk, p: nat, name: string)
    requires Physical(d) && LiveDir(d, p) && |name| <= NAME_MAX
    requires name !in Entries(SlotsIn(d, p))
    ensures var s := Operations.MakeDir(d, p, name);
            && (s.ok <==> RoomForDir(d, p))
            && (s.ok ==> && Physical(s.disk) && SameLayout(d.sb, s.disk.sb)
                         && Live(s.disk, FirstFreeInode(d)) && !Live(d, FirstFreeInode(d))
                         && p in View(d).dirs
                         && View(s.disk) == Create(View(d), p, name, FirstFreeInode(d), Dir))
  {
    MakeDirIsFill(d, p, name);
    if FreeFrom(d.inodeBits, 0) != [] && FreeBlockList(d) != [] {
      DotsStep(d, p);
      ListDir(d, p, name, FirstFreeInode(d), DottedDir(d, p),
              DirAdd(DottedDir(d, p), p, name, FirstFreeInode(d), Dir));
    }
  }

  /** The volume with the new, still unlisted, empty file. */
  function WithEmptyFile(d: Disk): Disk
    requires FreeFrom(d.inodeBits, 0) != []
  {
    NewNode(d, Inode(Reg, 1, 0, []))
  }

  lemma EmptyFileStep(d: Disk, p: nat)
    requires Physical(d) && LiveDir(d, p) && FreeFrom(d.inodeBits, 0) != []
    ensures var i, e := FirstFreeInode(d), WithEmptyFile(d);
            && Physical(e) && OnlyNode(d, e, i) && !Live(d, i) && LiveFile(e, i) && LiveDir(e, p) && i != NONE
            && SlotsIn(e, p) == SlotsIn(d, p) && e.inodes[p] == d.inodes[p]
            && FreeBlockList(e) == FreeBlockList(d) && SameLayout(d.sb, e.sb)
            && View(e) == Namespace(KindMap(d)[i := Reg], DirMap(d), FileMap(d)[i := []])
  {
    var i, node := FirstFreeInode(d), Inode(Reg, 1, 0, []);
    assert NodeOk(d.blocks, node);
    NewNodeKeepsPhysical(d, node);
    BornFileView(d, WithEmptyFile(d), i, []);
    SameNodeFrame(d, WithEmptyFile(d), p);
  }

  /** touch of a fresh name succeeds iff there is room, and then creates exactly that empty file. */
  lemma MakeFileRefines(d: Disk, p: nat, name: string)
    requires Physical(d) && LiveDir(d, p)
    requires TruncName(name) !in Entries(SlotsIn(d, p))
    ensures var s := Operations.MakeFile(d, p, name);
            && (s.ok <==> RoomForFile(d, p))
            && (s.ok ==> && Physical(s.disk) && SameLayout(d.sb, s.disk.sb)
                         && Live(s.disk, FirstFreeInode(d)) && !Live(d, FirstFreeInode(d))
                         && p in View(d).dirs
                         && View(s.disk) == Create(View(d), p, TruncName(name), FirstFreeInode(d), Reg))
  {
    if FreeFrom(d.inodeBits, 0) != [] {
      var i, e := FirstFreeInode(d), WithEmptyFile(d);
      EmptyFileStep(d, p);
      DirAddInserts(e, p, name, i, Reg);
      if HasRoom(e, p) {
        DirBecomesView(e, DirAdd(e, p, name, i, Reg).disk, p, Entries(SlotsIn(d, p))[TruncName(name) := Entry(i, Reg)]);
      }
    }
  }
}
