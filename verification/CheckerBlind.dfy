/** Images the checker passes although they are not well-formed: one kind for each condition it does not
  * look at. */
module CheckerBlind {
  import opened ZerosFs
  import opened Extents
  import opened Directory
  import opened Namespace
  import opened Volume
  import opened VolumeSteps
  import opened DirectorySteps
  import opened FileSystem
  import opened Checker
  import opened CheckerProofs
  import opened CheckerCompleteness
  import opened CheckerExact

  // ---- what the walk does not notice ----

  ghost predicate EdgesKept(d: Disk, d': Disk) {
    && d'.inodeBits == d.inodeBits
    && forall x: nat, y: nat {:trigger Edge(d, x, y)} | Live(d, x) && Edge(d, x, y) :: Edge(d', x, y)
  }

  lemma {:induction false} TrailKept(d: Disk, d': Disk, path: seq<nat>, x: nat, y: nat)
    requires EdgesKept(d, d') && Live(d, x) && Trail(d, path, x, y)
    ensures Connected(d', x, y)
  {
    if |path| == 1 {
      ConnectedSelf(d', x);
    } else {
      assert Edge(d, path[0], path[0 + 1]);
      assert Trail(d, path[1..], path[1], y) by {
        forall k | 0 <= k < |path[1..]| - 1 ensures Edge(d, path[1..][k], path[1..][k + 1]) {
          assert Edge(d, path[k + 1], path[k + 1 + 1]);
        }
      }
      TrailKept(d, d', path[1..], path[1], y);
      ConnectedVia(d', x, path[1], y);
    }
  }

  lemma ConnectionsKept(d: Disk, d': Disk)
    requires AllConnected(d) && Live(d, ROOT) && EdgesKept(d, d')
    ensures AllConnected(d')
  {
    forall i: nat | Live(d', i) ensures Connected(d', ROOT, i) {
      assert Connected(d, ROOT, i);
      var path :| Trail(d, path, ROOT, i);
      TrailKept(d, d', path, ROOT, i);
    }
  }

  /** Same types, same directories, slot for slot. */
  ghost predicate SameDirs(d: Disk, d': Disk) {
    && d'.inodeBits == d.inodeBits && |d'.inodes| == |d.inodes|
    && (forall x: nat | x < |d.inodes| :: d'.inodes[x].ftype == d.inodes[x].ftype)
    && forall x: nat {:trigger WalkedSlots(d', x)} | LiveDir(d, x) ::
         && WalkedSlots(d', x) == WalkedSlots(d, x)
         && Readable(d'.blocks, Blocks(CheckedExtents(d'.inodes[x])))
  }

  lemma EdgeKept(d: Disk, d': Disk, x: nat, y: nat)
    requires SameDirs(d, d') && Live(d, x) && Edge(d, x, y)
    ensures Edge(d', x, y)
  {
    var k :| 0 <= k < |WalkedSlots(d, x)| && Leads(d, WalkedSlots(d, x)[k], y);
    assert Leads(d', WalkedSlots(d', x)[k], y);
  }

  lemma SlotKept(d: Disk, d': Disk, x: nat, name: string)
    requires SameDirs(d, d') && LiveDir(d, x) && HasSlot(d, WalkedSlots(d, x), name)
    ensures HasSlot(d', WalkedSlots(d', x), name)
  {
    var k :| 0 <= k < |WalkedSlots(d, x)| && ValidSlot(d, WalkedSlots(d, x)[k]) && WalkedSlots(d, x)[k].name == name;
    assert ValidSlot(d', WalkedSlots(d', x)[k]);
  }

  lemma SameDirFits(d: Disk, d': Disk, up: map<nat, nat>, x: nat)
    requires SameDirs(d, d') && LiveDir(d, x) && DirFits(d, up, x)
    ensures DirFits(d', up, x)
  {
    SlotKept(d, d', x, ".");
    SlotKept(d, d', x, "..");
    assert Readable(d'.blocks, Blocks(CheckedExtents(d'.inodes[x])));
    forall e | e in WalkedSlots(d', x) ensures SlotFits(d', up, x, e) {
      assert SlotFits(d, up, x, e);
    }
  }

  /** The walk of a well-formed volume stays clean as long as the directories stay the same. */
  lemma SameDirsStayClean(d: Disk, d': Disk)
    requires WellFormed(d) && SameDirs(d, d')
    ensures TreeClean(d')
  {
    WellFormedFits(d);
    SameDirsKeepFit(d, d', Parents(View(d)));
  }

  lemma SameDirsKeepFit(d: Disk, d': Disk, up: map<nat, nat>)
    requires SameDirs(d, d') && AllFit(d, up) && AllConnected(d)
    ensures TreeClean(d')
  {
    forall x: nat | LiveDir(d', x) ensures DirFits(d', up, x) {
      assert DirFits(d, up, x);
      SameDirFits(d, d', up, x);
    }
    forall x: nat, y: nat | Live(d, x) && Edge(d, x, y) ensures Edge(d', x, y) {
      EdgeKept(d, d', x, y);
    }
    ConnectionsKept(d, d');
    FittingIsClean(d', up);
  }

  // ---- the superblock ----

  /** Any superblock that pass 1 accepts will do, if the totals and the data area are the same. */
  lemma SuperblockUnseen(d: Disk, sb': Superblock)
    requires WellFormed(d) && SuperblockClean(sb')
    requires sb'.totalBlocks == d.sb.totalBlocks && sb'.totalInodes == d.sb.totalInodes
    requires sb'.dataStart == d.sb.dataStart
    ensures Clean(d.(sb := sb'))
  {
    var d': Disk := d.(sb := sb');
    WellFormedIsClean(d);
    SameReferences(d, d');
    forall x: nat | LiveDir(d, x)
      ensures WalkedSlots(d', x) == WalkedSlots(d, x)
      ensures Readable(d'.blocks, Blocks(CheckedExtents(d'.inodes[x])))
    {
      WalkedIsSlotsIn(d, x);
    }
    SameDirsStayClean(d, d');
  }

  /** Every inode has its type and extents in both. */
  ghost predicate SameExtents(d: Disk, d': Disk) {
    && |d'.inodes| == |d.inodes| && d'.inodeBits == d.inodeBits
    && d'.sb.dataStart == d.sb.dataStart && d'.sb.totalBlocks == d.sb.totalBlocks
    && forall i: nat | i < |d.inodes| ::
         d'.inodes[i].ftype == d.inodes[i].ftype && d'.inodes[i].extents == d.inodes[i].extents
  }

  /** Cleanness of a node and its marks depend on two numbers of the superblock, its type and its extents. */
  lemma NodesAlike(d: Disk, d': Disk, node: Inode, node': Inode)
    requires d'.sb.dataStart == d.sb.dataStart && d'.sb.totalBlocks == d.sb.totalBlocks
    requires node'.ftype == node.ftype && node'.extents == node.extents
    ensures NodeClean(d', node') <==> NodeClean(d, node)
    ensures forall b: nat :: NodeMarks(d', node', b) <==> NodeMarks(d, node, b)
  {
    var exts := CheckedExtents(node);
    assert CheckedExtents(node') == exts;
    forall k | 0 <= k < |exts| ensures ExtentClean(d', exts[k]) <==> ExtentClean(d, exts[k]) {
    }
    forall b: nat ensures NodeMarks(d', node', b) <==> NodeMarks(d, node, b) {
      assert forall k | 0 <= k < |exts| :: Marks(d', exts[k], b) <==> Marks(d, exts[k], b);
    }
  }

  lemma SameReferences(d: Disk, d': Disk)
    requires InodesClean(d) && SameExtents(d, d')
    ensures InodesClean(d') && forall b: nat :: Referenced(d', b) <==> Referenced(d, b)
  {
    forall i: nat | i < |d.inodes|
      ensures NodeClean(d', d'.inodes[i]) <==> NodeClean(d, d.inodes[i])
      ensures forall b: nat :: NodeMarks(d', d'.inodes[i], b) <==> NodeMarks(d, d.inodes[i], b)
    {
      NodesAlike(d, d', d.inodes[i], d'.inodes[i]);
    }
  }

  /** A free-block counter that is wrong. */
  lemma WrongCounterPasses(d: Disk, n: nat)
    requires WellFormed(d) && n <= d.sb.totalBlocks && n != d.sb.freeBlocks
    ensures var d' := d.(sb := d.sb.(freeBlocks := n)); Clean(d') && !CountersExact(d') && !WellFormed(d')
  {
    WellFormedIsClean(d);
    SuperblockUnseen(d, d.sb.(freeBlocks := n));
  }

  /** A region size that is wrong. */
  lemma WrongRegionPasses(d: Disk, n: nat)
    requires WellFormed(d) && n != d.sb.inodeBitmapBlocks
    ensures var d' := d.(sb := d.sb.(inodeBitmapBlocks := n)); Clean(d') && !RegionsExact(d'.sb) && !WellFormed(d')
  {
    WellFormedIsClean(d);
    SuperblockUnseen(d, d.sb.(inodeBitmapBlocks := n));
  }

  // ---- an inode ----

  /** What node' marks is marked already, and it marks what inode i marks. */
  ghost predicate MarksNoMore(d: Disk, i: nat, node': Inode)
    requires i < |d.inodes|
  {
    && (forall b: nat :: NodeMarks(d, node', b) ==> Referenced(d, b))
    && (forall b: nat :: NodeMarks(d, d.inodes[i], b) ==> NodeMarks(d, node', b))
  }

  lemma ReferencesKept(d: Disk, i: nat, node': Inode, b: nat)
    requires Live(d, i) && MarksNoMore(d, i, node')
    ensures Referenced(PutInode(d, i, node'), b) <==> Referenced(d, b)
  {
    var d' := PutInode(d, i, node');
    if Referenced(d, b) {
      var j: nat :| j < |d.inodes| && Live(d, j) && NodeMarks(d, d.inodes[j], b);
      NodesAlike(d, d', d'.inodes[j], d'.inodes[j]);
      assert NodeMarks(d', d'.inodes[j], b);
    }
    if Referenced(d', b) {
      var j: nat :| j < |d'.inodes| && Live(d', j) && NodeMarks(d', d'.inodes[j], b);
      NodesAlike(d, d', d'.inodes[j], d'.inodes[j]);
    }
  }

  /** An inode of the same type and with the same blocks marked; a directory with the same extents. */
  lemma InodeUnseen(d: Disk, i: nat, node': Inode)
    requires WellFormed(d) && Live(d, i) && node'.ftype == d.inodes[i].ftype && NodeClean(d, node')
    requires node'.ftype == Dir ==> node'.extents == d.inodes[i].extents
    requires MarksNoMore(d, i, node')
    ensures Clean(PutInode(d, i, node'))
  {
    WellFormedIsClean(d);
    NodesStayClean(d, i, node');
    forall b: nat ensures Referenced(PutInode(d, i, node'), b) <==> Referenced(d, b) {
      ReferencesKept(d, i, node', b);
    }
    InodeKeepsDirs(d, i, node');
    SameDirsStayClean(d, PutInode(d, i, node'));
  }

  lemma NodesStayClean(d: Disk, i: nat, node': Inode)
    requires InodesClean(d) && Live(d, i) && NodeClean(d, node')
    ensures InodesClean(PutInode(d, i, node'))
  {
    var d' := PutInode(d, i, node');
    forall j: nat | j < |d'.inodes| && Live(d', j) ensures NodeClean(d', d'.inodes[j]) {
      assert NodeClean(d, d'.inodes[j]);
      NodesAlike(d, d', d'.inodes[j], d'.inodes[j]);
    }
  }

  lemma InodeKeepsDirs(d: Disk, i: nat, node': Inode)
    requires WellFormed(d) && Live(d, i) && node'.ftype == d.inodes[i].ftype
    requires node'.ftype == Dir ==> node'.extents == d.inodes[i].extents
    ensures SameDirs(d, PutInode(d, i, node'))
  {
    var d' := PutInode(d, i, node');
    forall x: nat | LiveDir(d, x)
      ensures WalkedSlots(d', x) == WalkedSlots(d, x)
      ensures Readable(d'.blocks, Blocks(CheckedExtents(d'.inodes[x])))
    {
      WalkedIsSlotsIn(d, x);
      assert CheckedExtents(d'.inodes[x]) == CheckedExtents(d.inodes[x]);
    }
  }

  /** A file size that does not match the blocks. */
  lemma WrongSizePasses(d: Disk, i: nat, size: nat)
    requires WellFormed(d) && LiveFile(d, i) && BlocksFor(size) != |BlocksOf(d, i)|
    ensures var d' := PutInode(d, i, d.inodes[i].(size := size)); Clean(d') && !ShapesOk(d') && !WellFormed(d')
  {
    var node' := d.inodes[i].(size := size);
    var d' := PutInode(d, i, node');
    InodesAreClean(d);
    NodesAlike(d, d, d.inodes[i], node');
    InodeUnseen(d, i, node');
    assert !Shape(d'.blocks, d'.inodes[i]);
    WellFormedExactly(d');
  }

  /** A link count of zero: only a warning. */
  lemma NoLinksPass(d: Disk, i: nat)
    requires WellFormed(d) && Live(d, i)
    ensures var d' := PutInode(d, i, d.inodes[i].(links := 0)); Clean(d') && !ShapesOk(d') && !WellFormed(d')
  {
    var node' := d.inodes[i].(links := 0);
    var d' := PutInode(d, i, node');
    InodesAreClean(d);
    SameMarksAs(d, i, node');
    NodesAlike(d, d, d.inodes[i], node');
    InodeUnseen(d, i, node');
    assert !Shape(d'.blocks, d'.inodes[i]);
    WellFormedExactly(d');
  }

  lemma EmptyMarksNothing(d: Disk, node: Inode)
    requires node.extents == []
    ensures forall b: nat :: !NodeMarks(d, node, b)
  {
  }

  /** An extent that starts with the data area and ends at 2^32. */
  predicate WrapsFrom(node: Inode, start: nat) {
    |node.extents| == 1 && node.extents[0].start == start && start + node.extents[0].len == TWO_32
  }

  lemma WrappingMarksNothing(d: Disk, node: Inode)
    requires node.ftype == Reg && WrapsFrom(node, d.sb.dataStart)
    ensures NodeClean(d, node) && forall b: nat :: !NodeMarks(d, node, b)
  {
    assert CheckedExtents(node) == node.extents && End32(node.extents[0]) == 0;
  }

  lemma WrapsAround(d: Disk, i: nat)
    requires Live(d, i) && WrapsFrom(d.inodes[i], d.sb.dataStart)
    ensures !NoWrap(d)
  {
    assert d.inodes[i].extents[0].start + d.inodes[i].extents[0].len == TWO_32;
  }

  /** Such an extent covers the whole data area, and marks nothing. */
  lemma WrappingPasses(d: Disk, i: nat, node': Inode)
    requires WellFormed(d) && LiveFile(d, i) && d.inodes[i].extents == []
    requires node' == d.inodes[i].(extents := node'.extents) && WrapsFrom(node', d.sb.dataStart)
    ensures Clean(PutInode(d, i, node')) && !NoWrap(PutInode(d, i, node')) && !WellFormed(PutInode(d, i, node'))
  {
    EmptyMarksNothing(d, d.inodes[i]);
    WrappingMarksNothing(d, node');
    InodeUnseen(d, i, node');
    WrapsAround(PutInode(d, i, node'), i);
    WellFormedExactly(PutInode(d, i, node'));
  }

  lemma SameMarksAs(d: Disk, i: nat, node': Inode)
    requires InodesClean(d) && Live(d, i) && node'.ftype == d.inodes[i].ftype
    requires node'.extents == d.inodes[i].extents
    ensures NodeClean(d, node') && forall b: nat :: NodeMarks(d, node', b) ==> Referenced(d, b)
  {
    assert NodeClean(d, d.inodes[i]);
    NodesAlike(d, d, d.inodes[i], node');
  }

  /** Two files with the same blocks. */
  lemma SharedPasses(d: Disk, i: nat, j: nat, node': Inode)
    requires WellFormed(d) && LiveFile(d, i) && LiveFile(d, j) && i != j
    requires d.inodes[j].extents == [] && BlocksOf(d, i) != []
    requires node' == d.inodes[j].(extents := d.inodes[i].extents)
    ensures Clean(PutInode(d, j, node')) && !NotShared(PutInode(d, j, node')) && !WellFormed(PutInode(d, j, node'))
  {
    InodesAreClean(d);
    SameMarksAs(d, i, node');
    EmptyMarksNothing(d, d.inodes[j]);
    InodeUnseen(d, j, node');
    BothOwn(PutInode(d, j, node'), i, j);
    WellFormedExactly(PutInode(d, j, node'));
  }

  lemma BothOwn(d: Disk, i: nat, j: nat)
    requires Live(d, i) && Live(d, j) && i != j && BlocksOf(d, i) == BlocksOf(d, j) != []
    ensures !NotShared(d)
  {
    assert Owns(d, i, BlocksOf(d, i)[0]) && Owns(d, j, BlocksOf(d, i)[0]);
  }

  // ---- a directory entry ----

  /** e' may replace e: e is free, or both have the same name and inode. */
  predicate Replaces(e: Dirent, e': Dirent) {
    !e'.Free() && (e.Free() || (e.ino == e'.ino && e.name == e'.name))
  }

  /** d' is d with slot k of directory p rewritten. */
  ghost predicate SlotChanged(d: Disk, d': Disk, p: nat, k: nat, e: Dirent) {
    && SameExtents(d, d') && d'.blockBits == d.blockBits && d'.sb == d.sb
    && LiveDir(d, p) && k < |WalkedSlots(d, p)| && WalkedSlots(d', p) == WalkedSlots(d, p)[k := e]
    && (forall x: nat {:trigger WalkedSlots(d', x)} | LiveDir(d, x) && x != p ::
          WalkedSlots(d', x) == WalkedSlots(d, x))
    && (forall x: nat {:trigger d'.inodes[x]} | LiveDir(d, x) ::
          Readable(d'.blocks, Blocks(CheckedExtents(d'.inodes[x]))))
  }

  lemma OtherDirStays(d: Disk, d': Disk, p: nat, x: nat)
    requires WellFormed(d) && OnlyNode(d, d', p) && LiveDir(d, x) && x != p
    ensures x < |d'.inodes| && WalkedSlots(d', x) == WalkedSlots(d, x)
  {
    WalkedIsSlotsIn(d, x);
    SameNodeFrame(d, d', x);
    assert NodeOk(d.blocks, d.inodes[x]);
    assert CheckedExtents(d.inodes[x]) == d.inodes[x].extents;
  }

  lemma ThatDirChanges(d: Disk, p: nat, k: nat, e: Dirent, size: nat)
    requires WellFormed(d) && LiveDir(d, p) && k < |SlotsIn(d, p)|
    ensures WalkedSlots(d, p) == SlotsIn(d, p)
    ensures WalkedSlots(PutSlot(d, p, k, e, size), p) == SlotsIn(d, p)[k := e]
  {
    WalkedIsSlotsIn(d, p);
    PutSlotWrites(d, p, k, e, size);
    assert NodeOk(d.blocks, d.inodes[p]);
    assert CheckedExtents(d.inodes[p]) == d.inodes[p].extents;
  }

  lemma PutSlotSameExtents(d: Disk, p: nat, k: nat, e: Dirent, size: nat)
    requires p < |d.inodes| && k < |SlotsIn(d, p)|
    ensures var d' := PutSlot(d, p, k, e, size);
            && SameExtents(d, d') && d'.blockBits == d.blockBits && d'.sb == d.sb && |d'.blocks| == |d.blocks|
  {
  }

  lemma DirStays(d: Disk, d': Disk, p: nat, x: nat)
    requires WellFormed(d) && OnlyNode(d, d', p) && LiveDir(d, x) && SameExtents(d, d') && |d'.blocks| == |d.blocks|
    ensures x != p ==> WalkedSlots(d', x) == WalkedSlots(d, x)
    ensures Readable(d'.blocks, Blocks(CheckedExtents(d'.inodes[x])))
  {
    WalkedIsSlotsIn(d, x);
    assert CheckedExtents(d'.inodes[x]) == CheckedExtents(d.inodes[x]);
    if x != p {
      OtherDirStays(d, d', p, x);
    }
  }

  lemma RewriteChangesSlot(d: Disk, p: nat, k: nat, e: Dirent, size: nat, d': Disk)
    requires WellFormed(d) && LiveDir(d, p) && k < |SlotsIn(d, p)| && d' == PutSlot(d, p, k, e, size)
    ensures SlotChanged(d, d', p, k, e)
  {
    ThatDirChanges(d, p, k, e, size);
    PutSlotWrites(d, p, k, e, size);
    PutSlotSameExtents(d, p, k, e, size);
    forall x: nat | LiveDir(d, x)
      ensures x != p ==> WalkedSlots(d', x) == WalkedSlots(d, x)
      ensures Readable(d'.blocks, Blocks(CheckedExtents(d'.inodes[x])))
    {
      DirStays(d, d', p, x);
    }
  }

  lemma ChangedEdge(d: Disk, d': Disk, p: nat, k: nat, e: Dirent, x: nat, y: nat)
    requires SlotChanged(d, d', p, k, e) && Replaces(WalkedSlots(d, p)[k], e)
    requires Live(d, x) && Edge(d, x, y)
    ensures Edge(d', x, y)
  {
    var j :| 0 <= j < |WalkedSlots(d, x)| && Leads(d, WalkedSlots(d, x)[j], y);
    assert Leads(d', WalkedSlots(d', x)[j], y);
  }

  lemma ChangedHasSlot(d: Disk, d': Disk, p: nat, k: nat, e: Dirent, x: nat, name: string)
    requires SlotChanged(d, d', p, k, e) && Replaces(WalkedSlots(d, p)[k], e)
    requires LiveDir(d, x) && HasSlot(d, WalkedSlots(d, x), name)
    ensures HasSlot(d', WalkedSlots(d', x), name)
  {
    var j :| 0 <= j < |WalkedSlots(d, x)| && ValidSlot(d, WalkedSlots(d, x)[j]) && WalkedSlots(d, x)[j].name == name;
    assert ValidSlot(d', WalkedSlots(d', x)[j]) && WalkedSlots(d', x)[j].name == name;
  }

  lemma ChangedDirFits(d: Disk, d': Disk, up: map<nat, nat>, p: nat, k: nat, e: Dirent, x: nat)
    requires SlotChanged(d, d', p, k, e) && Replaces(WalkedSlots(d, p)[k], e) && p in up && SlotFits(d, up, p, e)
    requires LiveDir(d, x) && DirFits(d, up, x)
    ensures DirFits(d', up, x)
  {
    ChangedHasSlot(d, d', p, k, e, x, ".");
    ChangedHasSlot(d, d', p, k, e, x, "..");
    forall f | f in WalkedSlots(d', x) ensures SlotFits(d', up, x, f) {
      assert f in WalkedSlots(d, x) || (x == p && f == e);
      assert SlotFits(d, up, x, f);
    }
  }

  lemma ChangedTreeClean(d: Disk, d': Disk, up: map<nat, nat>, p: nat, k: nat, e: Dirent)
    requires SlotChanged(d, d', p, k, e) && Replaces(WalkedSlots(d, p)[k], e) && p in up && SlotFits(d, up, p, e)
    requires AllFit(d, up) && AllConnected(d)
    ensures TreeClean(d')
  {
    forall x: nat | LiveDir(d', x) ensures DirFits(d', up, x) {
      assert DirFits(d, up, x);
      ChangedDirFits(d, d', up, p, k, e, x);
    }
    forall x: nat, y: nat | Live(d, x) && Edge(d, x, y) ensures Edge(d', x, y) {
      ChangedEdge(d, d', p, k, e, x, y);
    }
    ConnectionsKept(d, d');
    FittingIsClean(d', up);
  }

  /** A slot rewritten to something that fits. */
  lemma SlotUnseen(d: Disk, p: nat, k: nat, e: Dirent, size: nat)
    requires WellFormed(d) && LiveDir(d, p) && k < |SlotsIn(d, p)| && Replaces(SlotsIn(d, p)[k], e)
    requires p in Parents(View(d)) && SlotFits(d, Parents(View(d)), p, e)
    ensures Clean(PutSlot(d, p, k, e, size))
  {
    WellFormedIsClean(d);
    WellFormedFits(d);
    RewriteUnseen(d, PutSlot(d, p, k, e, size), p, k, e, size);
  }

  lemma RewriteUnseen(d: Disk, d': Disk, p: nat, k: nat, e: Dirent, size: nat)
    requires WellFormed(d) && LiveDir(d, p) && k < |SlotsIn(d, p)| && d' == PutSlot(d, p, k, e, size)
    requires Replaces(SlotsIn(d, p)[k], e) && p in Parents(View(d)) && SlotFits(d, Parents(View(d)), p, e)
    requires Clean(d) && AllFit(d, Parents(View(d))) && AllConnected(d)
    ensures Clean(d')
  {
    WalkedIsSlotsIn(d, p);
    RewriteChangesSlot(d, p, k, e, size, d');
    ChangedTreeClean(d, d', Parents(View(d)), p, k, e);
    SameReferences(d, d');
  }

  /** What an ordinary entry of a file is. */
  lemma FileSlot(d: Disk, p: nat, e: Dirent)
    requires WellFormed(d) && LiveDir(d, p) && e in WalkedSlots(d, p) && !e.Free()
    requires Ordinary(e.name) && e.ftype != Dir
    ensures LiveFile(d, e.ino) && GoodName(e.name) && p in Parents(View(d))
  {
    SlotPasses(d, p, e);
    assert NodeOk(d.blocks, d.inodes[e.ino]);
  }

  lemma NonDirFits(d: Disk, up: map<nat, nat>, p: nat, e: Dirent)
    requires p in up && LiveFile(d, e.ino) && e.ftype != Dir && Ordinary(e.name) && GoodName(e.name)
    ensures SlotFits(d, up, p, e)
  {
  }

  lemma TypeDiffers(d: Disk, p: nat, e: Dirent)
    requires LiveDir(d, p) && e in WalkedSlots(d, p) && LiveFile(d, e.ino) && e.ino < NONE && e.ftype != Reg
    ensures !EntriesShaped(d)
  {
    assert !EntryShape(d, e);
  }

  /** An entry of a file that says it is neither a file nor a directory. */
  lemma WrongTypePasses(d: Disk, p: nat, k: nat, e: Dirent, size: nat)
    requires WellFormed(d) && LiveDir(d, p) && k < |SlotsIn(d, p)|
    requires var f := SlotsIn(d, p)[k]; !f.Free() && Ordinary(f.name) && f.ftype != Dir
    requires e == SlotsIn(d, p)[k].(ftype := e.ftype) && e.ftype.OtherType?
    ensures var d' := PutSlot(d, p, k, e, size); Clean(d') && !EntriesShaped(d') && !WellFormed(d')
  {
    var d', before := PutSlot(d, p, k, e, size), SlotsIn(d, p)[k];
    ThatDirChanges(d, p, k, e, size);
    assert before in WalkedSlots(d, p);
    FileSlot(d, p, before);
    NonDirFits(d, Parents(View(d)), p, e);
    SlotUnseen(d, p, k, e, size);
    assert WalkedSlots(d', p)[k] == e;
    TypeDiffers(d', p, e);
    WellFormedExactly(d');
  }

  lemma TwiceListed(ns: Namespace, p: nat, name: string, i: nat)
    requires TreeInv(ns) && p in ns.dirs && name !in ns.dirs[p] && Ordinary(name) && i in ns.files
    ensures !UniqueParents(ns.(dirs := ns.dirs[p := ns.dirs[p][name := Entry(i, Reg)]]))
  {
    var ns' := ns.(dirs := ns.dirs[p := ns.dirs[p][name := Entry(i, Reg)]]);
    assert Reachable(ns, i);
    var path :| Descend(ns, path) == i;
    var q, m := Descend(ns, path[..|path| - 1]), path[|path| - 1];
    assert Child(ns, q, m, i);
    assert Child(ns', q, m, i) && Child(ns', p, name, i);
  }

  lemma LinkPasses(d: Disk, p: nat, k: nat, e: Dirent, size: nat, d': Disk)
    requires WellFormed(d) && LiveDir(d, p) && k < |SlotsIn(d, p)| && SlotsIn(d, p)[k].Free()
    requires LiveFile(d, e.ino) && e.ino != NONE && e.ftype != Dir && Ordinary(e.name) && GoodName(e.name)
    requires d' == PutSlot(d, p, k, e, size)
    ensures Clean(d')
  {
    NonDirFits(d, Parents(View(d)), p, e);
    SlotUnseen(d, p, k, e, size);
  }

  /** A second name for a file. */
  lemma HardLinkPasses(d: Disk, p: nat, k: nat, e: Dirent, size: nat, d': Disk)
    requires WellFormed(d) && LiveDir(d, p) && k == Find(SlotsIn(d, p), FreeSlot) < |SlotsIn(d, p)|
    requires LiveFile(d, e.ino) && e.ino != NONE && e.ftype == Reg && Ordinary(e.name) && GoodName(e.name)
    requires e.name !in Entries(SlotsIn(d, p)) && d' == PutSlot(d, p, k, e, size)
    ensures Clean(d') && !UniqueParents(View(d')) && !WellFormed(d')
  {
    LinkPasses(d, p, k, e, size, d');
    LinkedTwice(d, p, k, e, size, d');
  }

  lemma LinkedTwice(d: Disk, p: nat, k: nat, e: Dirent, size: nat, d': Disk)
    requires WellFormed(d) && LiveDir(d, p) && k == Find(SlotsIn(d, p), FreeSlot) < |SlotsIn(d, p)|
    requires LiveFile(d, e.ino) && e.ino != NONE && e.ftype == Reg && Ordinary(e.name)
    requires e.name !in Entries(SlotsIn(d, p)) && d' == PutSlot(d, p, k, e, size)
    ensures !UniqueParents(View(d'))
  {
    var name, i := e.name, e.ino;
    ReusedInserts(d, p, e, k, size, Entries(SlotsIn(d, p))[name := Entry(i, Reg)]);
    DirBecomesView(d, d', p, Entries(SlotsIn(d, p))[name := Entry(i, Reg)]);
    TwiceListed(View(d), p, name, i);
  }

  /** A name a directory has already, in another slot. */
  lemma DuplicatePasses(d: Disk, p: nat, k: nat, j: nat, e: Dirent, size: nat, d': Disk)
    requires WellFormed(d) && LiveDir(d, p) && k < |SlotsIn(d, p)| && SlotsIn(d, p)[k].Free()
    requires LiveFile(d, e.ino) && e.ino != NONE && e.ftype == Reg && Ordinary(e.name) && GoodName(e.name)
    requires j < |SlotsIn(d, p)| && !SlotsIn(d, p)[j].Free() && SlotsIn(d, p)[j].name == e.name
    requires d' == PutSlot(d, p, k, e, size)
    ensures Clean(d') && !ShapesOk(d') && !WellFormed(d')
  {
    LinkPasses(d, p, k, e, size, d');
    PutSlotWrites(d, p, k, e, size);
    var slots := SlotsIn(d', p);
    assert slots[j].name == slots[k].name && !slots[j].Free() && !slots[k].Free() && j != k;
    assert !UniqueNames(slots);
    assert !Shape(d'.blocks, d'.inodes[p]);
    WellFormedExactly(d');
  }
}
