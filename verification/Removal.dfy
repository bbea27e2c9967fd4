/** rm refines unlinking a leaf of the abstract tree. */
module Removal {
  import opened ZerosFs
  import opened Directory
  import opened Namespace
  import opened Volume
  import opened VolumeSteps
  import opened DirectorySteps
  import opened Paths
  import opened Operations

  /** The view after the inode and its blocks are given back. */
  lemma DroppedView(d: Disk, x: nat)
    requires Physical(d) && Live(d, x)
    ensures Readable(d.blocks, BlocksOf(d, x))
    ensures View(Dropped(d, x)) == Namespace(KindMap(d) - {x}, DirMap(d) - {x}, FileMap(d) - {x})
  {
    DroppedKeepsPhysical(d, x);
    ViewChange(d, Dropped(d, x), x);
  }

  lemma DropLeavesDir(d: Disk, x: nat, p: nat)
    requires Physical(d) && Live(d, x) && LiveDir(d, p) && p != x
    ensures Readable(d.blocks, BlocksOf(d, x))
    ensures LiveDir(Dropped(d, x), p) && SlotsIn(Dropped(d, x), p) == SlotsIn(d, p)
  {
    DroppedKeepsPhysical(d, x);
    SameNodeFrame(d, Dropped(d, x), p);
  }

  /** dir_remove_entry of a present name, in terms of the view. */
  lemma RemoveEntryView(d: Disk, p: nat, name: string)
    requires Physical(d) && LiveDir(d, p) && name in Entries(SlotsIn(d, p))
    ensures var s := DirRemove(d, p, name);
            && s.ok && Physical(s.disk) && SameLayout(d.sb, s.disk.sb) && s.disk.inodeBits == d.inodeBits
            && View(s.disk) == View(d).(dirs := View(d).dirs[p := Entries(SlotsIn(d, p)) - {name}])
  {
    DirRemoveDeletes(d, p, name);
    DirBecomesView(d, DirRemove(d, p, name).disk, p, Entries(SlotsIn(d, p)) - {name});
  }

  /** Dropping x and then removing its entry from another directory is abstract unlinking. */
  lemma DropThenRemove(d: Disk, x: nat, p: nat, name: string)
    requires Physical(d) && Live(d, x) && LiveDir(d, p) && p != x
    requires name in Entries(SlotsIn(d, p)) && Entries(SlotsIn(d, p))[name].ino == x
    ensures Readable(d.blocks, BlocksOf(d, x))
    ensures var s := DirRemove(Dropped(d, x), p, name);
            && s.ok && Physical(s.disk) && SameLayout(d.sb, s.disk.sb)
            && s.disk.inodeBits == d.inodeBits[x := false]
            && View(s.disk) == Unlink(View(d), p, name)
  {
    DroppedKeepsPhysical(d, x);
    DroppedView(d, x);
    DropLeavesDir(d, x, p);
    RemoveEntryView(Dropped(d, x), p, name);
    RemoveThenUpdate(DirMap(d), x, p, Entries(SlotsIn(d, p)) - {name});
  }

  lemma RemoveThenUpdate<T>(m: map<nat, T>, x: nat, p: nat, t: T)
    requires p != x
    ensures (m - {x})[p := t] == m[p := t] - {x}
  {
  }

  /** Walks depend on the inode table and the blocks only, not on the bitmaps. */
  lemma {:induction false} WalkFrame(d: Disk, d': Disk, cur: nat, toks: seq<string>)
    requires d'.inodes == d.inodes && d'.blocks == d.blocks
    ensures Walk(d', cur, toks) == Walk(d, cur, toks)
    decreases toks
  {
    if toks != [] {
      assert Lookup(d', cur, toks[0]) == Lookup(d, cur, toks[0]);
      if Lookup(d, cur, toks[0]) != NONE {
        WalkFrame(d, d', Lookup(d, cur, toks[0]), toks[1..]);
      }
    }
  }

  lemma ParentFrame(d: Disk, d': Disk, cwd: nat, path: string)
    requires CPath(path) && d'.inodes == d.inodes && d'.blocks == d.blocks
    ensures ResolveParent(d', cwd, path) == ResolveParent(d, cwd, path)
  {
    ResolveIsWalk(d, cwd, path);
    ResolveIsWalk(d', cwd, path);
    WalkFrame(d, d', Start(cwd, path), Tokens(Front(path)));
  }

  /** dir_is_empty sees exactly the directories without ordinary entries. */
  lemma OnlyDotsIsEmpty(d: Disk, x: nat)
    requires LiveDir(d, x)
    ensures OnlyDots(SlotsIn(d, x)) <==> EmptyDir(View(d), x)
  {
    var slots := SlotsIn(d, x);
    if OnlyDots(slots) {
      forall n | n in Entries(slots) ensures !Ordinary(n) {
        FindIsLookup(slots, n);
      }
    } else {
      var k :| 0 <= k < |slots| && !slots[k].Free() && !DotName(slots[k].name);
      EntriesAbsent(slots, slots[k].name);
      assert slots[k].name in Entries(slots);
    }
  }
}
