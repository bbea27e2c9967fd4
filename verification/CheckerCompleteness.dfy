/** Every well-formed volume gets a clean report. */
module CheckerCompleteness {
  import opened ZerosFs
  import opened Bitmap
  import opened Extents
  import opened Directory
  import opened Namespace
  import opened Volume
  import opened VolumeSteps
  import opened DirectorySteps
  import opened FileSystem
  import opened Checker
  import opened CheckerProofs

  // ---- extents and the blocks they cover ----

  lemma RangeIsCovered(e: Extent, b: nat)
    requires e.start + e.len <= NONE
    ensures b in Range(e.start, e.len) <==> Covers(e, b)
  {
    if Covers(e, b) {
      assert Range(e.start, e.len)[b - e.start] == b;
    }
  }

  lemma CoveredByLast(exts: seq<Extent>, n: nat, b: nat)
    requires n + 1 == |exts|
    ensures (exists k :: 0 <= k < |exts| && Covers(exts[k], b)) <==>
              (exists k :: 0 <= k < n && Covers(exts[..n][k], b)) || Covers(exts[n], b)
  {
    if k :| 0 <= k < n && Covers(exts[..n][k], b) {
      assert Covers(exts[k], b);
    }
    if k :| 0 <= k < |exts| && Covers(exts[k], b) {
      assert k < n ==> Covers(exts[..n][k], b);
    }
  }

  lemma {:induction false} BlocksAreCovered(exts: seq<Extent>, b: nat)
    requires Unwrapped(exts)
    ensures b in Blocks(exts) <==> exists k :: 0 <= k < |exts| && Covers(exts[k], b)
  {
    if exts != [] {
      var n := |exts| - 1;
      BlocksAreCovered(exts[..n], b);
      RangeIsCovered(exts[n], b);
      CoveredByLast(exts, n, b);
    }
  }

  lemma ExtentsInData(d: Disk, i: nat, k: nat)
    requires Physical(d) && Live(d, i) && k < |d.inodes[i].extents|
    ensures var e := d.inodes[i].extents[k];
            e.len >= 1 && d.sb.dataStart <= e.start && e.start + e.len <= |d.blockBits|
  {
    var e := d.inodes[i].extents[k];
    ExtentsNotEmpty(d.blocks, d.inodes[i], k) by {
      assert NodeOk(d.blocks, d.inodes[i]);
    }
    CoveredIsOwned(d, i, k, e.start);
    CoveredIsOwned(d, i, k, e.start + e.len - 1);
  }

  lemma ExtentsNotEmpty(blocks: seq<Block>, node: Inode, k: nat)
    requires NodeOk(blocks, node) && k < |node.extents|
    ensures node.extents[k].len >= 1 && Unwrapped(node.extents)
  {
  }

  lemma CoveredIsOwned(d: Disk, i: nat, k: nat, b: nat)
    requires Owned(d) && Live(d, i) && Unwrapped(d.inodes[i].extents)
    requires k < |d.inodes[i].extents| && Covers(d.inodes[i].extents[k], b)
    ensures d.sb.dataStart <= b < |d.blockBits|
  {
    BlocksAreCovered(d.inodes[i].extents, b);
    assert Owns(d, i, b);
  }

  lemma InodesAreClean(d: Disk)
    requires Physical(d)
    ensures InodesClean(d)
  {
    forall i: nat | i < |d.inodes| && Live(d, i) ensures NodeClean(d, d.inodes[i]) {
      assert NodeOk(d.blocks, d.inodes[i]);
      forall k | 0 <= k < |CheckedExtents(d.inodes[i])| ensures ExtentClean(d, CheckedExtents(d.inodes[i])[k]) {
        ExtentsInData(d, i, k);
      }
    }
  }

  lemma NodeMarksItsBlocks(d: Disk, i: nat, b: nat)
    requires Physical(d) && Live(d, i)
    ensures NodeMarks(d, d.inodes[i], b) <==> b in BlocksOf(d, i)
  {
    var exts := d.inodes[i].extents;
    WellShapedExtents(d, i);
    forall k | 0 <= k < |exts| ensures Marks(d, exts[k], b) <==> Covers(exts[k], b) {
      ExtentsInData(d, i, k);
    }
    MarksAreBlocks(d, exts, b);
  }

  lemma WellShapedExtents(d: Disk, i: nat)
    requires Physical(d) && Live(d, i)
    ensures CheckedExtents(d.inodes[i]) == d.inodes[i].extents && Unwrapped(d.inodes[i].extents)
  {
    assert NodeOk(d.blocks, d.inodes[i]);
  }

  lemma MarksAreBlocks(d: Disk, exts: seq<Extent>, b: nat)
    requires Unwrapped(exts) && forall k | 0 <= k < |exts| :: Marks(d, exts[k], b) <==> Covers(exts[k], b)
    ensures (exists k :: 0 <= k < |exts| && Marks(d, exts[k], b)) <==> b in Blocks(exts)
  {
    BlocksAreCovered(exts, b);
  }

  lemma OwnedIsReferenced(d: Disk, b: nat)
    requires Physical(d)
    ensures Referenced(d, b) <==> HasOwner(d, b)
  {
    if Referenced(d, b) {
      var i: nat :| i < |d.inodes| && Live(d, i) && NodeMarks(d, d.inodes[i], b);
      NodeMarksItsBlocks(d, i, b);
      assert Owns(d, i, b);
    }
    if HasOwner(d, b) {
      var i: nat :| Owns(d, i, b);
      NodeMarksItsBlocks(d, i, b);
    }
  }

  lemma BitmapsAreClean(d: Disk)
    requires Physical(d)
    ensures BitmapsClean(d)
  {
    forall b: nat | b < |d.blockBits|
      ensures if b < d.sb.dataStart then d.blockBits[b] else d.blockBits[b] <==> Referenced(d, b)
    {
      OwnedIsReferenced(d, b);
      if HasOwner(d, b) {
        var i: nat :| Owns(d, i, b);
      }
    }
  }

  lemma SuperblockIsClean(d: Disk)
    requires Counted(d) && LayoutOk(d.sb)
    ensures SuperblockClean(d.sb)
  {
    FreeCountBound(d.inodeBits, 0);
    FreeCountBound(d.blockBits, d.sb.dataStart);
  }

  // ---- the walk over a well-formed tree ----

  /** The slots of a live directory, as the walk sees them. */
  lemma WalkedIsSlotsIn(d: Disk, x: nat)
    requires Physical(d) && LiveDir(d, x)
    ensures WalkedSlots(d, x) == SlotsIn(d, x) && Readable(d.blocks, Blocks(CheckedExtents(d.inodes[x])))
    ensures UniqueNames(SlotsIn(d, x))
  {
    assert NodeOk(d.blocks, d.inodes[x]);
    OwnedIsReadable(d, x);
    assert d.inodes[x].extents[..|d.inodes[x].extents|] == d.inodes[x].extents;
  }

  /** A used slot of a live directory is exactly an entry of its map. */
  lemma SlotIsEntry(d: Disk, x: nat, k: nat)
    requires Physical(d) && LiveDir(d, x) && k < |SlotsIn(d, x)| && !SlotsIn(d, x)[k].Free()
    ensures var e := SlotsIn(d, x)[k];
            e.name in Entries(SlotsIn(d, x)) && Entries(SlotsIn(d, x))[e.name] == Entry(e.ino, e.ftype)
  {
    var slots := SlotsIn(d, x);
    WalkedIsSlotsIn(d, x);
    FindIsLookup(slots, slots[k].name);
    var j := Find(slots, Named(slots[k].name));
    assert Matches(slots[k], Named(slots[k].name));
    assert j == k;
  }

  /** What the tree invariant says of one entry of directory x. */
  lemma EntryPasses(ns: Namespace, x: nat, n: string)
    requires TreeInv(ns) && x in ns.dirs && n in ns.dirs[x]
    ensures DotsOk(ns, x) && ns.dirs[x][n].ino in ns.kind && GoodName(n)
    ensures n == "." ==> ns.dirs[x][n].ino == x
    ensures Ordinary(n) ==> (ns.dirs[x][n].ftype == Dir <==> ns.dirs[x][n].ino in ns.dirs)
    ensures Ordinary(n) && ns.dirs[x][n].ino in ns.dirs ==>
              DotsOk(ns, ns.dirs[x][n].ino) && ns.dirs[ns.dirs[x][n].ino][".."].ino == x
  {
    assert DotsOk(ns, x);
    if Ordinary(n) {
      assert EntryOk(ns, x, n);
      if ns.dirs[x][n].ino in ns.dirs {
        assert DotsOk(ns, ns.dirs[x][n].ino);
      }
    }
  }

  /** What the checker asks of each slot of directory x. */
  lemma SlotPasses(d: Disk, x: nat, e: Dirent)
    requires WellFormed(d) && LiveDir(d, x) && e in WalkedSlots(d, x) && !e.Free()
    ensures ValidSlot(d, e) && GoodName(e.name)
    ensures x in View(d).dirs && DotsOk(View(d), x)
    ensures e.name == "." ==> e.ino == x
    ensures e.name == ".." ==> e.ino == View(d).dirs[x][".."].ino
    ensures Ordinary(e.name) ==> (e.ftype == Dir <==> LiveDir(d, e.ino))
    ensures Ordinary(e.name) && e.ftype == Dir ==> e.ino in View(d).dirs && DotsOk(View(d), e.ino)
                                                   && View(d).dirs[e.ino][".."].ino == x
  {
    WalkedIsSlotsIn(d, x);
    var k :| 0 <= k < |SlotsIn(d, x)| && SlotsIn(d, x)[k] == e;
    SlotIsEntry(d, x, k);
    EntryPasses(View(d), x, e.name);
  }

  // ---- when the walk reports nothing ----

  /** What the walk asks of a used slot of directory x, `up` naming the parent of each directory. */
  ghost predicate SlotFits(d: Disk, up: map<nat, nat>, x: nat, e: Dirent)
    requires x in up
  {
    !e.Free() ==>
      && ValidSlot(d, e) && GoodName(e.name)
      && (e.name == "." ==> e.ino == x) && (e.name == ".." ==> e.ino == up[x])
      && (Ordinary(e.name) ==> (e.ftype == Dir <==> d.inodes[e.ino].ftype == Dir))
      && (Ordinary(e.name) && e.ftype == Dir ==> e.ino in up && up[e.ino] == x)
  }

  ghost predicate DirFits(d: Disk, up: map<nat, nat>, x: nat)
    requires x < |d.inodes|
  {
    && x in up && Readable(d.blocks, Blocks(CheckedExtents(d.inodes[x])))
    && HasSlot(d, WalkedSlots(d, x), ".") && HasSlot(d, WalkedSlots(d, x), "..")
    && forall e | e in WalkedSlots(d, x) :: SlotFits(d, up, x, e)
  }

  ghost predicate AllFit(d: Disk, up: map<nat, nat>) {
    && LiveDir(d, ROOT) && ROOT in up && up[ROOT] == ROOT
    && forall x: nat {:trigger DirFits(d, up, x)} | LiveDir(d, x) :: DirFits(d, up, x)
  }

  ghost predicate AllConnected(d: Disk) {
    forall i: nat {:trigger Connected(d, ROOT, i)} | Live(d, i) :: Connected(d, ROOT, i)
  }

  lemma {:induction false} FittingWalk(d: Disk, up: map<nat, nat>, reach: set<nat>, x: nat)
    requires AllFit(d, up) && LiveDir(d, x) && reach <= InodeSet(d) && x !in reach
    ensures x in up && CheckDir(d, reach, x, up[x]).clean
    decreases |InodeSet(d) - reach|, 0, 0
  {
    assert DirFits(d, up, x);
    Shrinks(d, reach, x);
    FittingSlots(d, up, reach + {x}, WalkedSlots(d, x), x);
  }

  lemma {:induction false} FittingSlots(d: Disk, up: map<nat, nat>, reach: set<nat>, slots: seq<Dirent>, x: nat)
    requires AllFit(d, up) && LiveDir(d, x) && x in up && reach <= InodeSet(d)
    requires forall e | e in slots :: SlotFits(d, up, x, e)
    ensures CheckSlots(d, reach, slots, x, up[x]).clean
    decreases |InodeSet(d) - reach|, |slots|, 1
  {
    if slots != [] {
      assert slots[0] in slots;
      var first := CheckSlot(d, reach, slots[0], x, up[x]);
      FittingSlot(d, up, reach, slots[0], x);
      ShrinksTo(d, reach, first.reach);
      FittingSlots(d, up, first.reach, slots[1..], x);
    }
  }

  lemma FittingSlot(d: Disk, up: map<nat, nat>, reach: set<nat>, e: Dirent, x: nat)
    requires AllFit(d, up) && LiveDir(d, x) && x in up && reach <= InodeSet(d) && SlotFits(d, up, x, e)
    ensures CheckSlot(d, reach, e, x, up[x]).clean
    decreases |InodeSet(d) - reach|, 0, 1
  {
    if !e.Free() && Ordinary(e.name) && e.ftype == Dir && e.ino !in reach {
      FittingWalk(d, up, reach, e.ino);
    }
  }

  lemma FittingTypesAgree(d: Disk, up: map<nat, nat>)
    requires AllFit(d, up)
    ensures TypesAgree(d)
  {
    forall x: nat, k | LiveDir(d, x) && 0 <= k < |WalkedSlots(d, x)|
      ensures SlotTypeAgrees(d, WalkedSlots(d, x)[k])
    {
      assert DirFits(d, up, x);
      assert SlotFits(d, up, x, WalkedSlots(d, x)[k]);
    }
  }

  /** Pass 4 reports nothing when all slots fit and everything in use is connected to the root. */
  lemma FittingIsClean(d: Disk, up: map<nat, nat>)
    requires AllFit(d, up) && AllConnected(d)
    ensures TreeClean(d)
  {
    FittingWalk(d, up, {}, ROOT);
    FittingTypesAgree(d, up);
    forall i: nat | i < |d.inodes| && Live(d, i) ensures i in RootWalk(d).reach {
      assert Connected(d, ROOT, i);
      WalkIsClosure(d, i);
    }
  }

  // ---- a well-formed tree is such a one ----

  ghost function Parents(ns: Namespace): map<nat, nat> {
    map x | x in ns.dirs :: if ".." in ns.dirs[x] then ns.dirs[x][".."].ino else ROOT
  }

  lemma DotPresent(d: Disk, x: nat, name: string)
    requires WellFormed(d) && LiveDir(d, x) && WalkedSlots(d, x) == SlotsIn(d, x)
    requires name in Entries(SlotsIn(d, x))
    ensures HasSlot(d, WalkedSlots(d, x), name)
  {
    var slots := SlotsIn(d, x);
    FindIsLookup(slots, name);
    var k := Find(slots, Named(name));
    assert slots[k] in WalkedSlots(d, x);
    SlotPasses(d, x, slots[k]);
  }

  lemma DirDoesFit(d: Disk, x: nat)
    requires WellFormed(d) && LiveDir(d, x)
    ensures DirFits(d, Parents(View(d)), x)
  {
    WalkedIsSlotsIn(d, x);
    assert DotsOk(View(d), x);
    DotPresent(d, x, ".");
    DotPresent(d, x, "..");
    forall e | e in WalkedSlots(d, x) ensures SlotFits(d, Parents(View(d)), x, e) {
      if !e.Free() {
        SlotPasses(d, x, e);
      }
    }
  }

  // ---- every live inode is reached ----

  lemma ChildIsEdge(d: Disk, p: nat, n: string, i: nat)
    requires WellFormed(d) && Child(View(d), p, n, i)
    ensures Edge(d, p, i)
  {
    var slots := SlotsIn(d, p);
    WalkedIsSlotsIn(d, p);
    FindIsLookup(slots, n);
    var k := Find(slots, Named(n));
    assert slots[k] in WalkedSlots(d, p);
    SlotPasses(d, p, slots[k]);
    assert Leads(d, WalkedSlots(d, p)[k], i);
  }

  lemma ConnectedThen(d: Disk, x: nat, y: nat, z: nat)
    requires Connected(d, x, y) && Edge(d, y, z)
    ensures Connected(d, x, z)
  {
    var path :| Trail(d, path, x, y);
    forall k | 0 <= k < |path + [z]| - 1 ensures Edge(d, (path + [z])[k], (path + [z])[k + 1]) {
      assert k < |path| - 1 ==> Edge(d, path[k], path[k + 1]);
    }
    assert Trail(d, path + [z], x, z);
  }

  lemma {:induction false} DescentIsConnected(d: Disk, path: seq<string>)
    requires WellFormed(d) && Descend(View(d), path) != NONE
    ensures Connected(d, ROOT, Descend(View(d), path))
  {
    if path == [] {
      ConnectedSelf(d, ROOT);
    } else {
      var prefix, n := path[..|path| - 1], path[|path| - 1];
      DescentIsConnected(d, prefix);
      ChildIsEdge(d, Descend(View(d), prefix), n, Descend(View(d), path));
      ConnectedThen(d, ROOT, Descend(View(d), prefix), Descend(View(d), path));
    }
  }

  lemma WellFormedFits(d: Disk)
    requires WellFormed(d)
    ensures AllFit(d, Parents(View(d))) && AllConnected(d)
  {
    RootIsLive(d);
    forall x: nat | LiveDir(d, x) ensures DirFits(d, Parents(View(d)), x) {
      DirDoesFit(d, x);
    }
    forall i: nat | Live(d, i) ensures Connected(d, ROOT, i) {
      assert i in View(d).kind && Reachable(View(d), i);
      var path :| Descend(View(d), path) == i;
      DescentIsConnected(d, path);
    }
  }

  /** Every well-formed volume, hence every formatted one and every one reached from it by
    * successful operations, is reported clean. */
  lemma WellFormedIsClean(d: Disk)
    requires WellFormed(d)
    ensures Clean(d)
  {
    SuperblockIsClean(d);
    InodesAreClean(d);
    BitmapsAreClean(d);
    WellFormedFits(d);
    FittingIsClean(d, Parents(View(d)));
  }
}
