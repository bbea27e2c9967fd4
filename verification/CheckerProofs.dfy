/** What a clean report means, and which images get one. */
module CheckerProofs {
  import opened ZerosFs
  import opened Extents
  import opened Directory
  import opened Namespace
  import opened Volume
  import opened DirectorySteps
  import opened Checker

  // ---- the entry graph ----

  /** Directory x holds a valid ordinary entry for y. */
  ghost predicate Edge(d: Disk, x: nat, y: nat) {
    && x < |d.inodes| && d.inodes[x].ftype == Dir
    && exists k :: 0 <= k < |WalkedSlots(d, x)| && Leads(d, WalkedSlots(d, x)[k], y)
  }

  ghost predicate Leads(d: Disk, e: Dirent, y: nat) {
    ValidSlot(d, e) && Ordinary(e.name) && e.ino == y
  }

  /** A chain of entries from x to y. */
  ghost predicate Trail(d: Disk, path: seq<nat>, x: nat, y: nat) {
    && path != [] && path[0] == x && path[|path| - 1] == y
    && forall k | 0 <= k < |path| - 1 :: Edge(d, path[k], path[k + 1])
  }

  ghost predicate Connected(d: Disk, x: nat, y: nat) {
    exists path :: Trail(d, path, x, y)
  }

  lemma ConnectedSelf(d: Disk, x: nat)
    ensures Connected(d, x, x)
  {
    assert Trail(d, [x], x, x);
  }

  lemma ConnectedVia(d: Disk, x: nat, y: nat, z: nat)
    requires Edge(d, x, y) && Connected(d, y, z)
    ensures Connected(d, x, z)
  {
    var path :| Trail(d, path, y, z);
    assert Trail(d, [x] + path, x, z);
  }

  // ---- everything marked is connected ----

  lemma {:induction false} CheckDirFollowsEdges(d: Disk, reach: set<nat>, dir: nat, parent: nat)
    requires reach <= InodeSet(d) && dir < |d.inodes| && dir !in reach
    ensures forall y {:trigger Connected(d, dir, y)} | y in CheckDir(d, reach, dir, parent).reach - reach ::
              Connected(d, dir, y)
    decreases |InodeSet(d) - reach|, 0, 0
  {
    ConnectedSelf(d, dir);
    if d.inodes[dir].ftype == Dir {
      Shrinks(d, reach, dir);
      CheckSlotsFollowEdges(d, reach + {dir}, WalkedSlots(d, dir), dir, parent);
    }
  }

  lemma {:induction false} CheckSlotsFollowEdges(d: Disk, reach: set<nat>, slots: seq<Dirent>, dir: nat, parent: nat)
    requires reach <= InodeSet(d) && dir < |d.inodes| && d.inodes[dir].ftype == Dir
    requires forall e | e in slots :: e in WalkedSlots(d, dir)
    ensures forall y {:trigger Connected(d, dir, y)} | y in CheckSlots(d, reach, slots, dir, parent).reach - reach ::
              Connected(d, dir, y)
    decreases |InodeSet(d) - reach|, |slots|, 1
  {
    if slots != [] {
      var e := slots[0];
      assert e in slots;
      var first := CheckSlot(d, reach, e, dir, parent);
      if ValidSlot(d, e) && Ordinary(e.name) {
        assert Leads(d, e, e.ino) && Edge(d, dir, e.ino);
        ConnectedSelf(d, e.ino);
        if e.ftype == Dir && e.ino !in reach {
          CheckDirFollowsEdges(d, reach, e.ino, dir);
        }
        forall y | y in first.reach - reach ensures Connected(d, dir, y) {
          ConnectedVia(d, dir, e.ino, y);
        }
      }
      ShrinksTo(d, reach, first.reach);
      CheckSlotsFollowEdges(d, first.reach, slots[1..], dir, parent);
    }
  }

  // ---- everything connected is marked, when types agree ----

  /** The type stored in an entry is the type of its inode. */
  ghost predicate TypesAgree(d: Disk) {
    forall x: nat, k | LiveDir(d, x) && 0 <= k < |WalkedSlots(d, x)| ::
      SlotTypeAgrees(d, WalkedSlots(d, x)[k])
  }

  ghost predicate SlotTypeAgrees(d: Disk, e: Dirent) {
    ValidSlot(d, e) && Ordinary(e.name) ==> (e.ftype == Dir <==> d.inodes[e.ino].ftype == Dir)
  }

  /** Every entry of a newly marked inode leads to a marked inode. */
  ghost predicate Closes(d: Disk, before: set<nat>, after: set<nat>) {
    forall x, y {:trigger Edge(d, x, y)} | x in after - before && Edge(d, x, y) :: y in after
  }

  lemma ClosesTrans(d: Disk, a: set<nat>, b: set<nat>, c: set<nat>)
    requires a <= b <= c && Closes(d, a, b) && Closes(d, b, c)
    ensures Closes(d, a, c)
  {
    forall x, y | x in c - a && Edge(d, x, y) ensures y in c {
      assert x in b - a || x in c - b;
    }
  }

  lemma {:induction false} CheckDirCloses(d: Disk, reach: set<nat>, dir: nat, parent: nat)
    requires TypesAgree(d) && reach <= InodeSet(d) && Live(d, dir) && dir !in reach
    ensures Closes(d, reach, CheckDir(d, reach, dir, parent).reach)
    ensures d.inodes[dir].ftype == Dir ==> dir in CheckDir(d, reach, dir, parent).reach
    decreases |InodeSet(d) - reach|, 0, 0
  {
    if d.inodes[dir].ftype == Dir {
      var slots := WalkedSlots(d, dir);
      Shrinks(d, reach, dir);
      var after := CheckSlots(d, reach + {dir}, slots, dir, parent).reach;
      CheckSlotsClose(d, reach + {dir}, slots, dir, parent);
      forall x, y | x in after - reach && Edge(d, x, y) ensures y in after {
        if x == dir {
          var k :| 0 <= k < |slots| && Leads(d, slots[k], y);
          assert slots[k] in slots;
        }
      }
    }
  }

  lemma {:induction false} CheckSlotsClose(d: Disk, reach: set<nat>, slots: seq<Dirent>, dir: nat, parent: nat)
    requires TypesAgree(d) && reach <= InodeSet(d)
    requires forall e | e in slots :: SlotTypeAgrees(d, e)
    ensures var after := CheckSlots(d, reach, slots, dir, parent).reach;
            Closes(d, reach, after) && forall e, y | e in slots && Leads(d, e, y) :: y in after
    decreases |InodeSet(d) - reach|, |slots|, 1
  {
    if slots != [] {
      var e := slots[0];
      assert e in slots && SlotTypeAgrees(d, e);
      var first := CheckSlot(d, reach, e, dir, parent).reach;
      CheckSlotCloses(d, reach, e, dir, parent);
      ShrinksTo(d, reach, first);
      CheckSlotsClose(d, first, slots[1..], dir, parent);
      var after := CheckSlots(d, reach, slots, dir, parent).reach;
      ClosesTrans(d, reach, first, after);
      forall f, y | f in slots && Leads(d, f, y) ensures y in after {
        assert f == e || f in slots[1..];
      }
    }
  }

  lemma CheckSlotCloses(d: Disk, reach: set<nat>, e: Dirent, dir: nat, parent: nat)
    requires TypesAgree(d) && reach <= InodeSet(d) && SlotTypeAgrees(d, e)
    ensures var after := CheckSlot(d, reach, e, dir, parent).reach;
            Closes(d, reach, after) && forall y | Leads(d, e, y) :: y in after
    decreases |InodeSet(d) - reach|, 0, 1
  {
    if ValidSlot(d, e) && Ordinary(e.name) && e.ftype == Dir && e.ino !in reach {
      CheckDirCloses(d, reach, e.ino, dir);
    }
  }

  lemma {:induction false} ClosedContainsTrails(d: Disk, s: set<nat>, path: seq<nat>, x: nat, y: nat)
    requires Closes(d, {}, s) && x in s && Trail(d, path, x, y)
    ensures y in s
  {
    if |path| > 1 {
      assert Edge(d, path[0], path[1]);
      assert Trail(d, path[1..], path[1], y);
      ClosedContainsTrails(d, s, path[1..], path[1], y);
    }
  }

  /** When entry types agree with inode types, the walk marks exactly what is connected to the root. */
  lemma WalkIsClosure(d: Disk, y: nat)
    requires LiveDir(d, ROOT) && TypesAgree(d)
    ensures y in RootWalk(d).reach <==> Connected(d, ROOT, y)
  {
    CheckDirFollowsEdges(d, {}, ROOT, ROOT);
    CheckDirCloses(d, {}, ROOT, ROOT);
    if y in RootWalk(d).reach {
      assert y in RootWalk(d).reach - {};
    }
    if Connected(d, ROOT, y) {
      var path :| Trail(d, path, ROOT, y);
      ClosedContainsTrails(d, RootWalk(d).reach, path, ROOT, y);
    }
  }

  // ---- a clean walk has checked "." and ".." of every directory it marked ----

  /** A used slot of directory x passed: its inode is in use, its name is good, "." names x and ".." p. */
  ghost predicate SlotPassed(d: Disk, e: Dirent, x: nat, p: nat) {
    || e.Free()
    || (ValidSlot(d, e) && GoodName(e.name) && (e.name == "." ==> e.ino == x) && (e.name == ".." ==> e.ino == p))
  }

  /** Every block of x could be read, x has "." and "..", and every slot passed. */
  ghost predicate DotsClean(d: Disk, x: nat, p: nat)
    requires x < |d.inodes|
  {
    var slots := WalkedSlots(d, x);
    && Readable(d.blocks, Blocks(CheckedExtents(d.inodes[x])))
    && HasSlot(d, slots, ".") && HasSlot(d, slots, "..")
    && forall e | e in slots :: SlotPassed(d, e, x, p)
  }

  /** Every newly marked directory has clean dots; its ".." is a directory that lists it. */
  ghost predicate NewDirsClean(d: Disk, before: set<nat>, after: set<nat>) {
    forall x | x in after - before && x < |d.inodes| && d.inodes[x].ftype == Dir :: ListedClean(d, x)
  }

  ghost predicate ListedClean(d: Disk, x: nat)
    requires x < |d.inodes|
  {
    exists p {:trigger Edge(d, p, x)} :: Edge(d, p, x) && DotsClean(d, x, p)
  }

  lemma {:induction false} CleanDirHasDots(d: Disk, reach: set<nat>, dir: nat, parent: nat)
    requires TypesAgree(d) && reach <= InodeSet(d) && Live(d, dir) && dir !in reach
    requires CheckDir(d, reach, dir, parent).clean
    ensures d.inodes[dir].ftype == Dir && DotsClean(d, dir, parent)
    ensures NewDirsClean(d, reach + {dir}, CheckDir(d, reach, dir, parent).reach)
    decreases |InodeSet(d) - reach|, 0, 0
  {
    var slots := WalkedSlots(d, dir);
    Shrinks(d, reach, dir);
    forall e | e in slots ensures SlotTypeAgrees(d, e) {
      var k :| 0 <= k < |slots| && slots[k] == e;
    }
    CleanSlotsHaveDots(d, reach + {dir}, slots, dir, parent);
  }

  lemma {:induction false} CleanSlotsHaveDots(d: Disk, reach: set<nat>, slots: seq<Dirent>, dir: nat, parent: nat)
    requires TypesAgree(d) && reach <= InodeSet(d) && dir < |d.inodes| && d.inodes[dir].ftype == Dir
    requires forall e | e in slots :: e in WalkedSlots(d, dir) && SlotTypeAgrees(d, e)
    requires CheckSlots(d, reach, slots, dir, parent).clean
    ensures forall e | e in slots :: SlotPassed(d, e, dir, parent)
    ensures NewDirsClean(d, reach, CheckSlots(d, reach, slots, dir, parent).reach)
    decreases |InodeSet(d) - reach|, |slots|, 1
  {
    if slots != [] {
      var e := slots[0];
      assert e in slots;
      var first := CheckSlot(d, reach, e, dir, parent);
      CleanSlotHasDots(d, reach, e, dir, parent);
      ShrinksTo(d, reach, first.reach);
      CleanSlotsHaveDots(d, first.reach, slots[1..], dir, parent);
      forall f | f in slots ensures SlotPassed(d, f, dir, parent) {
        assert f == e || f in slots[1..];
      }
    }
  }

  lemma CleanSlotHasDots(d: Disk, reach: set<nat>, e: Dirent, dir: nat, parent: nat)
    requires TypesAgree(d) && reach <= InodeSet(d) && dir < |d.inodes| && d.inodes[dir].ftype == Dir
    requires e in WalkedSlots(d, dir) && SlotTypeAgrees(d, e)
    requires CheckSlot(d, reach, e, dir, parent).clean
    ensures NewDirsClean(d, reach, CheckSlot(d, reach, e, dir, parent).reach) && SlotPassed(d, e, dir, parent)
    decreases |InodeSet(d) - reach|, 0, 1
  {
    if ValidSlot(d, e) && Ordinary(e.name) && e.ftype == Dir && e.ino !in reach {
      CleanDirHasDots(d, reach, e.ino, dir);
      var k :| 0 <= k < |WalkedSlots(d, dir)| && WalkedSlots(d, dir)[k] == e;
      assert Leads(d, WalkedSlots(d, dir)[k], e.ino);
      assert Edge(d, dir, e.ino) && DotsClean(d, e.ino, dir);
      assert ListedClean(d, e.ino);
    }
  }

  // ---- soundness of a clean report ----

  ghost predicate Covers(e: Extent, b: nat) {
    e.start <= b < e.start + e.len
  }

  /** Some extent of a live inode covers block b. */
  ghost predicate Covered(d: Disk, b: nat) {
    exists i: nat :: i < |d.inodes| && Live(d, i) && NodeCovers(d.inodes[i], b)
  }

  /** No extent end wraps around 32 bits. */
  ghost predicate NoWrap(d: Disk) {
    forall i: nat, k | Live(d, i) && 0 <= k < |d.inodes[i].extents| ::
      d.inodes[i].extents[k].start + d.inodes[i].extents[k].len < TWO_32
  }

  ghost predicate NodeCovers(node: Inode, b: nat) {
    exists k :: 0 <= k < |node.extents| && Covers(node.extents[k], b)
  }

  lemma NodeMarksCovered(d: Disk, i: nat, b: nat)
    requires InodesClean(d) && NoWrap(d) && Live(d, i)
    ensures NodeMarks(d, d.inodes[i], b) <==> NodeCovers(d.inodes[i], b)
  {
    var exts := d.inodes[i].extents;
    assert NodeClean(d, d.inodes[i]);
    assert CheckedExtents(d.inodes[i]) == exts;
    forall k | 0 <= k < |exts| ensures Marks(d, exts[k], b) <==> Covers(exts[k], b) {
      assert ExtentClean(d, CheckedExtents(d.inodes[i])[k]);
    }
  }

  lemma ReferencedIsCovered(d: Disk, b: nat)
    requires InodesClean(d) && NoWrap(d)
    ensures Referenced(d, b) <==> Covered(d, b)
  {
    forall i: nat | Live(d, i) ensures NodeMarks(d, d.inodes[i], b) <==> NodeCovers(d.inodes[i], b) {
      NodeMarksCovered(d, i, b);
    }
  }

  /** In a clean image a data block is in use iff a live inode covers it, metadata is in use, and
    * every live inode is connected to the root. */
  lemma CleanIsSound(d: Disk)
    requires Clean(d) && NoWrap(d)
    ensures forall b: nat | b < d.sb.dataStart :: d.blockBits[b]
    ensures forall b: nat | d.sb.dataStart <= b < |d.blockBits| :: d.blockBits[b] <==> Covered(d, b)
    ensures forall i: nat {:trigger Connected(d, ROOT, i)} | Live(d, i) :: Connected(d, ROOT, i)
  {
    forall b: nat | d.sb.dataStart <= b < |d.blockBits| ensures d.blockBits[b] <==> Covered(d, b) {
      ReferencedIsCovered(d, b);
    }
    CheckDirFollowsEdges(d, {}, ROOT, ROOT);
    forall i: nat | Live(d, i) ensures Connected(d, ROOT, i) {
      assert i in RootWalk(d).reach - {};
    }
  }

  /** ... and, when entry types agree with inode types, every live directory has correct dots. */
  lemma CleanHasDots(d: Disk)
    requires Clean(d) && TypesAgree(d)
    ensures d.inodes[ROOT].ftype == Dir && DotsClean(d, ROOT, ROOT)
    ensures forall x: nat | Live(d, x) && d.inodes[x].ftype == Dir && x != ROOT :: ListedClean(d, x)
  {
    CleanDirHasDots(d, {}, ROOT, ROOT);
    assert {} + {ROOT as nat} == {ROOT as nat};
  }
}
