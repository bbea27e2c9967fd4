/** dir_add_entry and dir_remove_entry refine insertion into and deletion from a finite map. */
module DirectorySteps {
  import opened ZerosFs
  import opened Extents
  import opened Directory
  import opened Volume
  import opened VolumeSteps

  ghost predicate LiveDir(d: Disk, i: nat) {
    Live(d, i) && d.inodes[i].ftype == Dir
  }

  ghost predicate LiveFile(d: Disk, i: nat) {
    Live(d, i) && d.inodes[i].ftype == Reg
  }

  /** The superblocks agree on everything but the two counters. */
  ghost predicate SameLayout(sb: Superblock, sb': Superblock) {
    sb' == sb.(freeBlocks := sb'.freeBlocks, freeInodes := sb'.freeInodes)
  }

  /** A slot is free, or the directory can grow by one block. */
  ghost predicate HasRoom(d: Disk, dir: nat)
    requires dir < |d.inodes|
  {
    || Find(SlotsIn(d, dir), FreeSlot) < |SlotsIn(d, dir)|
    || (|d.inodes[dir].extents| < MAX_EXTENTS && FreeBlockList(d) != [])
  }

  /** The two volumes agree on everything but directory dir, whose map is now m. */
  ghost predicate DirBecomes(d: Disk, d': Disk, dir: nat, m: map<string, Entry>) {
    && OnlyNode(d, d', dir) && LiveDir(d', dir)
    && d'.inodeBits == d.inodeBits
    && Entries(SlotsIn(d', dir)) == m
    && Physical(d')
  }

  /** Maps that agree away from k differ by k's value only. */
  lemma SameAwayFrom<T>(m: map<nat, T>, m': map<nat, T>, k: nat)
    requires m - {k} == m' - {k}
    ensures m' == if k in m' then m[k := m'[k]] else m - {k}
  {
    var r := if k in m' then m[k := m'[k]] else m - {k};
    forall i ensures i in r <==> i in m' {
      assert i in m - {k} <==> i in m' - {k};
    }
    forall i | i in r ensures r[i] == m'[i] {
      if i != k {
        assert (m - {k})[i] == (m' - {k})[i];
      }
    }
  }

  /** What the view of d' is, when only inode x differs from d. */
  lemma ViewChange(d: Disk, d': Disk, x: nat)
    requires OnlyNode(d, d', x)
    ensures KindMap(d') == if Live(d', x) then KindMap(d)[x := d'.inodes[x].ftype] else KindMap(d) - {x}
    ensures DirMap(d') == if LiveDir(d', x) then DirMap(d)[x := Entries(SlotsIn(d', x))] else DirMap(d) - {x}
    ensures FileMap(d') == if LiveFile(d', x) then FileMap(d)[x := Content(d', x)] else FileMap(d) - {x}
  {
    KindsAwayFrom(d, d', x);
    DirsAwayFrom(d, d', x);
    FilesAwayFrom(d, d', x);
    SameAwayFrom(KindMap(d), KindMap(d'), x);
    SameAwayFrom(DirMap(d), DirMap(d'), x);
    SameAwayFrom(FileMap(d), FileMap(d'), x);
  }

  lemma DirBecomesView(d: Disk, d': Disk, dir: nat, m: map<string, Entry>)
    requires LiveDir(d, dir) && DirBecomes(d, d', dir, m)
    ensures View(d') == View(d).(dirs := View(d).dirs[dir := m])
  {
    ViewChange(d, d', dir);
    KnownDir(d, dir);
  }

  lemma KnownDir(d: Disk, dir: nat)
    requires LiveDir(d, dir)
    ensures KindMap(d)[dir := Dir] == KindMap(d)
    ensures FileMap(d) - {dir} == FileMap(d)
  {
  }

  lemma UniqueAfterInsert(slots: seq<Dirent>, k: nat, e: Dirent)
    requires k < |slots| && UniqueNames(slots) && e.name !in Entries(slots)
    ensures UniqueNames(slots[k := e])
  {
    EntriesAbsent(slots, e.name);
  }

  lemma PutSlotWrites(d: Disk, dir: nat, k: nat, e: Dirent, size: nat)
    requires Counted(d) && Owned(d) && Live(d, dir) && k < |SlotsIn(d, dir)|
    ensures var d' := PutSlot(d, dir, k, e, size);
            && Counted(d') && Owned(d') && OnlyNode(d, d', dir)
            && SlotsIn(d', dir) == SlotsIn(d, dir)[k := e]
  {
    var bs, d' := BlocksOf(d, dir), PutSlot(d, dir, k, e, size);
    SlotBlockReadable(d.blocks, bs, k);
    OwnedIsReadable(d, dir);
    DirSlotsAt(d.blocks, bs);
    DirSlotsPut(d.blocks, bs, k, e);
    assert Owns(d, dir, bs[k / 8]);
    RewriteIsPrivate(d, dir, d'.inodes[dir], bs[k / 8], d'.blocks[bs[k / 8]]);
    RewriteKeepsOwners(d, d');
  }

  lemma PutSlotKeepsPhysical(d: Disk, dir: nat, k: nat, e: Dirent, size: nat, m: map<string, Entry>)
    requires Physical(d) && LiveDir(d, dir) && k < |SlotsIn(d, dir)|
    requires UniqueNames(SlotsIn(d, dir)[k := e]) && Entries(SlotsIn(d, dir)[k := e]) == m
    ensures DirBecomes(d, PutSlot(d, dir, k, e, size), dir, m)
  {
    var d' := PutSlot(d, dir, k, e, size);
    PutSlotWrites(d, dir, k, e, size);
    assert NodeOk(d.blocks, d.inodes[dir]);
    TypedAwayFrom(d, d', dir);
  }

  lemma FillFreeSlot(slots: seq<Dirent>, e: Dirent)
    requires UniqueNames(slots) && Find(slots, FreeSlot) < |slots|
    requires !e.Free() && e.name !in Entries(slots)
    ensures var filled := slots[Find(slots, FreeSlot) := e];
            UniqueNames(filled) && Entries(filled) == Entries(slots)[e.name := Entry(e.ino, e.ftype)]
  {
    EntriesInsert(slots, Find(slots, FreeSlot), e);
    UniqueAfterInsert(slots, Find(slots, FreeSlot), e);
  }

  lemma DirNamesUnique(d: Disk, dir: nat)
    requires Typed(d) && LiveDir(d, dir)
    ensures UniqueNames(SlotsIn(d, dir))
  {
    assert NodeOk(d.blocks, d.inodes[dir]);
  }

  lemma DirAddReuses(d: Disk, dir: nat, name: string, child: nat, t: FileType)
    requires dir < |d.inodes| && Find(SlotsIn(d, dir), FreeSlot) < |SlotsIn(d, dir)|
    ensures DirAdd(d, dir, name, child, t)
         == Step(PutSlot(d, dir, Find(SlotsIn(d, dir), FreeSlot), Dirent(child, t, TruncName(name)),
                         d.inodes[dir].size + DIRENT_SIZE), true)
  {
  }

  lemma ReusedInserts(d: Disk, dir: nat, e: Dirent, k: nat, size: nat, m: map<string, Entry>)
    requires Physical(d) && LiveDir(d, dir) && k == Find(SlotsIn(d, dir), FreeSlot) < |SlotsIn(d, dir)|
    requires !e.Free() && e.name !in Entries(SlotsIn(d, dir))
    requires m == Entries(SlotsIn(d, dir))[e.name := Entry(e.ino, e.ftype)]
    ensures DirBecomes(d, PutSlot(d, dir, k, e, size), dir, m)
  {
    FilledSlots(d, dir, e);
    PutSlotKeepsPhysical(d, dir, k, e, size, m);
  }

  lemma FilledSlots(d: Disk, dir: nat, e: Dirent)
    requires Typed(d) && LiveDir(d, dir) && Find(SlotsIn(d, dir), FreeSlot) < |SlotsIn(d, dir)|
    requires !e.Free() && e.name !in Entries(SlotsIn(d, dir))
    ensures var filled := SlotsIn(d, dir)[Find(SlotsIn(d, dir), FreeSlot) := e];
            UniqueNames(filled) && Entries(filled) == Entries(SlotsIn(d, dir))[e.name := Entry(e.ino, e.ftype)]
  {
    DirNamesUnique(d, dir);
    FillFreeSlot(SlotsIn(d, dir), e);
  }

  lemma DirAddGrows(d: Disk, dir: nat, name: string, child: nat, t: FileType)
    requires Physical(d) && LiveDir(d, dir) && child != NONE
    requires TruncName(name) !in Entries(SlotsIn(d, dir))
    requires Find(SlotsIn(d, dir), FreeSlot) == |SlotsIn(d, dir)|
    requires |d.inodes[dir].extents| < MAX_EXTENTS && FreeBlockList(d) != []
    ensures var s := DirAdd(d, dir, name, child, t);
            s.ok && DirBecomes(d, s.disk, dir, Entries(SlotsIn(d, dir))[TruncName(name) := Entry(child, t)])
  {
    var node, e := d.inodes[dir], Dirent(child, t, TruncName(name));
    var node' := node.(extents := node.extents + [Extent(FreeBlockList(d)[0], 1)], size := node.size + DIRENT_SIZE);
    OwnedIsReadable(d, dir);
    assert DirAdd(d, dir, name, child, t).disk == Attach(d, dir, node', Slots(BLANK_SLOTS[0 := e]));
    GrownDirOwners(d, dir, node', Slots(BLANK_SLOTS[0 := e]));
    GrownDirContents(d, dir, node', e);
  }

  lemma GrownDirOwners(d: Disk, dir: nat, node': Inode, block: Block)
    requires Physical(d) && LiveDir(d, dir) && FreeBlockList(d) != []
    requires node'.extents == d.inodes[dir].extents + [Extent(FreeBlockList(d)[0], 1)]
    ensures var d' := Attach(d, dir, node', block);
            && Counted(d') && Owned(d') && OnlyNode(d, d', dir)
            && BlocksOf(d', dir) == BlocksOf(d, dir) + [FreeBlockList(d)[0]]
  {
    BlocksAppend(d.inodes[dir].extents, Extent(FreeBlockList(d)[0], 1));
    assert Range(FreeBlockList(d)[0], 1) == [FreeBlockList(d)[0]];
    AttachIsPrivate(d, dir, node', block);
    AttachKeepsCounts(d, dir, node', block);
    AttachKeepsOwners(d, dir, node', block);
  }

  lemma GrownDirContents(d: Disk, dir: nat, node': Inode, e: Dirent)
    requires Physical(d) && LiveDir(d, dir) && FreeBlockList(d) != []
    requires |d.inodes[dir].extents| < MAX_EXTENTS
    requires node' == d.inodes[dir].(extents := d.inodes[dir].extents + [Extent(FreeBlockList(d)[0], 1)],
                                     size := node'.size)
    requires !e.Free() && e.name !in Entries(SlotsIn(d, dir))
    ensures var d' := Attach(d, dir, node', Slots(BLANK_SLOTS[0 := e]));
            && Typed(d')
            && Entries(SlotsIn(d', dir)) == Entries(SlotsIn(d, dir))[e.name := Entry(e.ino, e.ftype)]
  {
    var d' := Attach(d, dir, node', Slots(BLANK_SLOTS[0 := e]));
    GrownDirOwners(d, dir, node', Slots(BLANK_SLOTS[0 := e]));
    assert NodeOk(d.blocks, d.inodes[dir]);
    GrownSlots(d, d', dir, FreeBlockList(d)[0], BLANK_SLOTS[0 := e]);
    GrownEntries(SlotsIn(d, dir), e);
    assert NodeOk(d'.blocks, node');
    TypedAwayFrom(d, d', dir);
  }

  lemma GrownEntries(slots: seq<Dirent>, e: Dirent)
    requires UniqueNames(slots) && !e.Free() && e.name !in Entries(slots)
    ensures Entries(slots + BLANK_SLOTS[0 := e]) == Entries(slots)[e.name := Entry(e.ino, e.ftype)]
    ensures UniqueNames(slots + BLANK_SLOTS[0 := e])
  {
    assert slots + BLANK_SLOTS[0 := e] == (slots + BLANK_SLOTS)[|slots| := e];
    EntriesPadding(slots, BLANK_SLOTS);
    EntriesInsert(slots + BLANK_SLOTS, |slots|, e);
    UniqueAfterInsert(slots + BLANK_SLOTS, |slots|, e);
  }

  lemma GrownSlots(d: Disk, d': Disk, dir: nat, b: nat, table: SlotTable)
    requires Owned(d) && Live(d, dir) && b < |d.blocks| && !d.blockBits[b]
    requires d'.blocks == d.blocks[b := Slots(table)]
    requires BlocksOf(d', dir) == BlocksOf(d, dir) + [b]
    ensures SlotsIn(d', dir) == SlotsIn(d, dir) + table
  {
    var bs := BlocksOf(d, dir);
    OwnedIsReadable(d, dir);
    assert forall i | 0 <= i < |bs| :: Owns(d, dir, bs[i]);
    DirSlotsFrame(d.blocks, d'.blocks, bs);
    DirSlotsConcat(d'.blocks, bs, [b]);
    assert DirSlots(d'.blocks, [b]) == table + DirSlots(d'.blocks, []);
  }

  lemma DirAddByReuse(d: Disk, dir: nat, name: string, child: nat, t: FileType, s: Step)
    requires Physical(d) && LiveDir(d, dir) && child != NONE && s == DirAdd(d, dir, name, child, t)
    requires TruncName(name) !in Entries(SlotsIn(d, dir))
    requires Find(SlotsIn(d, dir), FreeSlot) < |SlotsIn(d, dir)|
    ensures s.ok && s.disk.sb == d.sb
    ensures DirBecomes(d, s.disk, dir, Entries(SlotsIn(d, dir))[TruncName(name) := Entry(child, t)])
  {
    DirAddReuses(d, dir, name, child, t);
    ReusedInserts(d, dir, Dirent(child, t, TruncName(name)), Find(SlotsIn(d, dir), FreeSlot),
                  d.inodes[dir].size + DIRENT_SIZE, Entries(SlotsIn(d, dir))[TruncName(name) := Entry(child, t)]);
  }

  /** A fresh name is added iff there is room; otherwise nothing changes. */
  lemma DirAddInserts(d: Disk, dir: nat, name: string, child: nat, t: FileType)
    requires Physical(d) && LiveDir(d, dir) && child != NONE
    requires TruncName(name) !in Entries(SlotsIn(d, dir))
    ensures var s := DirAdd(d, dir, name, child, t);
            && (s.ok <==> HasRoom(d, dir))
            && (!s.ok ==> s.disk == d)
            && (s.ok ==> DirBecomes(d, s.disk, dir, Entries(SlotsIn(d, dir))[TruncName(name) := Entry(child, t)]))
            && SameLayout(d.sb, s.disk.sb)
  {
    OwnedIsReadable(d, dir);
    if Find(SlotsIn(d, dir), FreeSlot) < |SlotsIn(d, dir)| {
      DirAddByReuse(d, dir, name, child, t, DirAdd(d, dir, name, child, t));
    } else if |d.inodes[dir].extents| < MAX_EXTENTS && FreeBlockList(d) != [] {
      DirAddGrows(d, dir, name, child, t);
    }
  }

  /** One entry more: the directory's size is raised by 128, its links and type stay. */
  ghost predicate Enlarged(node: Inode, node': Inode) {
    node'.size == node.size + 128 && node'.links == node.links && node'.ftype == node.ftype
  }

  /** What filling slot k of a directory changes: that slot and the size, and nothing in the bitmaps, the counters
    * or the extents. */
  ghost predicate Filled(d: Disk, d': Disk, dir: nat, k: nat, e: Dirent)
    requires dir < |d.inodes| && k < |SlotsIn(d, dir)|
  {
    && OnlyNode(d, d', dir) && SlotsIn(d', dir) == SlotsIn(d, dir)[k := e]
    && d'.sb == d.sb && d'.inodeBits == d.inodeBits && d'.blockBits == d.blockBits
    && |d'.inodes| == |d.inodes| && d'.inodes[dir].extents == d.inodes[dir].extents
    && Enlarged(d.inodes[dir], d'.inodes[dir])
  }

  /** What growing a directory changes: the lowest free block joins it, the entry in its first slot. */
  ghost predicate Extended(d: Disk, d': Disk, dir: nat, e: Dirent)
    requires dir < |d.inodes| && FreeBlockList(d) != []
  {
    var b := FreeBlockList(d)[0];
    && OnlyNode(d, d', dir) && SlotsIn(d', dir) == SlotsIn(d, dir) + BLANK_SLOTS[0 := e]
    && d'.inodeBits == d.inodeBits && d'.blockBits == d.blockBits[b := true]
    && d'.sb.freeBlocks == Dec32(d.sb.freeBlocks)
    && |d'.inodes| == |d.inodes| && d'.inodes[dir].extents == d.inodes[dir].extents + [Extent(b, 1)]
    && Enlarged(d.inodes[dir], d'.inodes[dir])
  }

  lemma DirAddFills(d: Disk, dir: nat, name: string, child: nat, t: FileType, s: Step)
    requires Physical(d) && LiveDir(d, dir) && s == DirAdd(d, dir, name, child, t)
    requires Find(SlotsIn(d, dir), FreeSlot) < |SlotsIn(d, dir)|
    ensures s.ok && Filled(d, s.disk, dir, Find(SlotsIn(d, dir), FreeSlot), Dirent(child, t, TruncName(name)))
  {
    DirAddReuses(d, dir, name, child, t);
    PutSlotWrites(d, dir, Find(SlotsIn(d, dir), FreeSlot), Dirent(child, t, TruncName(name)),
                  d.inodes[dir].size + DIRENT_SIZE);
  }

  lemma DirAddExtends(d: Disk, dir: nat, name: string, child: nat, t: FileType, s: Step)
    requires Physical(d) && LiveDir(d, dir) && s == DirAdd(d, dir, name, child, t)
    requires Find(SlotsIn(d, dir), FreeSlot) == |SlotsIn(d, dir)| && HasRoom(d, dir)
    ensures s.ok && FreeBlockList(d) != [] && Extended(d, s.disk, dir, Dirent(child, t, TruncName(name)))
  {
    var node, e := d.inodes[dir], Dirent(child, t, TruncName(name));
    var node' := node.(extents := node.extents + [Extent(FreeBlockList(d)[0], 1)], size := node.size + DIRENT_SIZE);
    OwnedIsReadable(d, dir);
    assert s.disk == Attach(d, dir, node', Slots(BLANK_SLOTS[0 := e]));
    GrownDirOwners(d, dir, node', Slots(BLANK_SLOTS[0 := e]));
    GrownSlots(d, s.disk, dir, FreeBlockList(d)[0], BLANK_SLOTS[0 := e]);
  }

  /** dir_add_entry of any name, fresh or not. The lowest free slot is filled and no block touched; only when
    * every slot is used does the directory grow, by the lowest free block; and when it cannot, nothing
    * happens. */
  lemma DirAddEffect(d: Disk, dir: nat, name: string, child: nat, t: FileType)
    requires Physical(d) && LiveDir(d, dir)
    ensures var s, slots, e := DirAdd(d, dir, name, child, t), SlotsIn(d, dir), Dirent(child, t, TruncName(name));
            var k := Find(slots, FreeSlot);
            && (s.ok <==> HasRoom(d, dir))
            && (!s.ok ==> s.disk == d)
            && (s.ok && k < |slots| ==> Filled(d, s.disk, dir, k, e))
            && (s.ok && k == |slots| ==> FreeBlockList(d) != [] && Extended(d, s.disk, dir, e))
  {
    var s := DirAdd(d, dir, name, child, t);
    OwnedIsReadable(d, dir);
    if Find(SlotsIn(d, dir), FreeSlot) < |SlotsIn(d, dir)| {
      DirAddFills(d, dir, name, child, t, s);
    } else if HasRoom(d, dir) {
      DirAddExtends(d, dir, name, child, t, s);
    }
  }

  /** Adding a name that is there already leaves two slots with it. */
  lemma DirAddDuplicates(d: Disk, dir: nat, name: string, child: nat, t: FileType)
    requires Physical(d) && LiveDir(d, dir) && child != NONE
    requires TruncName(name) in Entries(SlotsIn(d, dir)) && DirAdd(d, dir, name, child, t).ok
    ensures !Physical(DirAdd(d, dir, name, child, t).disk)
  {
    var s, slots := DirAdd(d, dir, name, child, t), SlotsIn(d, dir);
    DirAddEffect(d, dir, name, child, t);
    FindIsLookup(slots, TruncName(name));
    var j, k := Find(slots, Named(TruncName(name))), Find(slots, FreeSlot);
    var after := SlotsIn(s.disk, dir);
    assert j != k && after[j] == slots[j] && after[k] == Dirent(child, t, TruncName(name));
    TwiceNamed(after, j, k);
    SharedName(s.disk, dir);
  }

  lemma TwiceNamed(slots: seq<Dirent>, j: nat, k: nat)
    requires j < |slots| && k < |slots| && j != k && !slots[j].Free() && !slots[k].Free()
    requires slots[j].name == slots[k].name
    ensures !UniqueNames(slots)
  {
    if j < k {
      assert !(slots[j].name != slots[k].name);
    } else {
      assert !(slots[k].name != slots[j].name);
    }
  }

  lemma SharedName(d: Disk, dir: nat)
    requires Live(d, dir) && dir < |d.inodes| && d.inodes[dir].ftype == Dir && !UniqueNames(SlotsIn(d, dir))
    ensures !Physical(d)
  {
    if Physical(d) {
      DirNamesUnique(d, dir);
    }
  }

  /** In slot k, which held the name, the inode number is overwritten; type and name stay. */
  ghost predicate Cleared(slots: seq<Dirent>, after: seq<Dirent>, k: nat, name: string) {
    && k < |slots| && !slots[k].Free() && slots[k].name == name
    && after == slots[k := Dirent(0xFFFF_FFFF, slots[k].ftype, name)]
  }

  /** Removing a name that is present deletes it from the map, and lowers no size; otherwise nothing changes. */
  lemma DirRemoveDeletes(d: Disk, dir: nat, name: string)
    requires Physical(d) && LiveDir(d, dir)
    ensures var s := DirRemove(d, dir, name);
            && (s.ok <==> name in Entries(SlotsIn(d, dir)))
            && (!s.ok ==> s.disk == d)
            && (s.ok ==> DirBecomes(d, s.disk, dir, Entries(SlotsIn(d, dir)) - {name}))
            && SameLayout(d.sb, s.disk.sb) && s.disk.inodes == d.inodes
            && (s.ok ==> exists k :: Cleared(SlotsIn(d, dir), SlotsIn(s.disk, dir), k, name))
  {
    var slots := SlotsIn(d, dir);
    var k := Find(slots, Named(name));
    FindIsLookup(slots, name);
    if k < |slots| {
      DirNamesUnique(d, dir);
      EntriesRemove(slots, k);
      PutSlotKeepsPhysical(d, dir, k, slots[k].(ino := NONE), d.inodes[dir].size, Entries(slots) - {name});
      PutSlotWrites(d, dir, k, slots[k].(ino := NONE), d.inodes[dir].size);
      assert Cleared(slots, SlotsIn(DirRemove(d, dir, name).disk, dir), k, name);
    }
  }

  /** dir_lookup reads the map. */
  lemma LookupReads(d: Disk, dir: nat, name: string)
    ensures var m := Entries(SlotsIn(d, dir));
            Lookup(d, dir, name) == if name in m then m[name].ino else NONE
    ensures forall n | n in Entries(SlotsIn(d, dir)) :: Entries(SlotsIn(d, dir))[n].ino != NONE
  {
    var slots := SlotsIn(d, dir);
    FindIsLookup(slots, name);
    forall n | n in Entries(slots) ensures Entries(slots)[n].ino != NONE {
      FindIsLookup(slots, n);
    }
  }

  /** A directory holds at most 64 names, and exactly 64 when it can neither reuse nor grow. */
  lemma DirCapacity(d: Disk, dir: nat)
    requires Physical(d) && LiveDir(d, dir)
    ensures |Entries(SlotsIn(d, dir))| <= 64
    ensures FreeBlockList(d) != [] ==> (HasRoom(d, dir) <==> |Entries(SlotsIn(d, dir))| < 64)
  {
    var node, slots := d.inodes[dir], SlotsIn(d, dir);
    assert NodeOk(d.blocks, node);
    OwnedIsReadable(d, dir);
    DirSlotsAt(d.blocks, BlocksOf(d, dir));
    UnitExtents(node.extents);
    EntriesBound(slots);
    if Find(slots, FreeSlot) == |slots| {
      EntriesFull(slots);
    } else {
      EntriesNotFull(slots, Find(slots, FreeSlot));
    }
  }

  lemma {:induction false} UnitExtents(exts: seq<Extent>)
    requires forall k | 0 <= k < |exts| :: exts[k].len == 1
    ensures |Blocks(exts)| == |exts|
  {
    if exts != [] {
      UnitExtents(exts[..|exts| - 1]);
    }
  }

  lemma {:induction false} EntriesNotFull(slots: seq<Dirent>, k: nat)
    requires k < |slots| && slots[k].Free()
    ensures |Entries(slots)| < |slots|
  {
    if k == 0 {
      EntriesBound(slots[1..]);
    } else {
      EntriesNotFull(slots[1..], k - 1);
    }
  }
}
