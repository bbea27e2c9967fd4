/** fs/zeros_fsck.c as it runs: an error counter and three bitmaps filled by loops and by a
  * recursive walk, proved against the functions of module Checker. */
module Fsck {
  import opened ZerosFs
  import opened Extents
  import opened Directory
  import opened Volume
  import opened Checker

  /** The blocks end at an unreadable one: no slot is left. */
  lemma StopsHere(blocks: seq<Block>, bs: seq<nat>, n: nat)
    requires n < |bs| && Readable(blocks, bs[..n]) && bs[n] >= |blocks|
    ensures |DirSlots(blocks, bs)| == DIRENTS_PER_BLOCK * n && !Readable(blocks, bs)
  {
    SlotsFromPrefix(blocks, bs, n);
    DirSlotsAt(blocks, bs[..n]);
  }

  /** The n-th block holds the slots from 8n on. */
  lemma BlockSlots(blocks: seq<Block>, bs: seq<nat>, n: nat)
    requires n < |bs| && Readable(blocks, bs[..n]) && bs[n] < |blocks|
    ensures Readable(blocks, bs[..n + 1])
    ensures |DirSlots(blocks, bs)| >= DIRENTS_PER_BLOCK * n + DIRENTS_PER_BLOCK
    ensures forall i | 0 <= i < DIRENTS_PER_BLOCK ::
              DirSlots(blocks, bs)[DIRENTS_PER_BLOCK * n + i] == SlotsOf(blocks[bs[n]])[i]
  {
    assert Readable(blocks, bs[..n + 1]);
    SlotsFromPrefix(blocks, bs, n + 1);
    SlotsOfPrefix(blocks, bs, n);
    DirSlotsAt(blocks, bs[..n]);
  }

  lemma AllRead(blocks: seq<Block>, bs: seq<nat>, n: nat)
    requires n == |bs| && Readable(blocks, bs[..n])
    ensures |DirSlots(blocks, bs)| == DIRENTS_PER_BLOCK * n && Readable(blocks, bs)
  {
    assert bs[..n] == bs;
    DirSlotsAt(blocks, bs);
  }

  class Checking {
    const img: Disk
    var errors: nat
    var warnings: nat
    const realInodes: array<bool>
    const realBlocks: array<bool>
    const reachable: array<bool>

    ghost predicate Valid() {
      && realInodes.Length == reachable.Length == |img.inodes|
      && realBlocks.Length == |img.blocks|
      && realInodes != realBlocks && realInodes != reachable && realBlocks != reachable
    }

    /** The inodes marked reachable so far. */
    ghost function Marked(): set<nat>
      requires Valid()
      reads reachable
    {
      set i: nat | i < |img.inodes| && InTable(img, i) && reachable[i]
    }

    /** At most u inodes are unmarked: the measure of the recursion. */
    ghost predicate Bounded(u: nat)
      requires Valid()
      reads reachable
    {
      |InodeSet(img) - Marked()| <= u
    }

    constructor (img: Disk)
      ensures Valid() && this.img == img && errors == 0 && warnings == 0
      ensures fresh(realInodes) && fresh(realBlocks) && fresh(reachable)
      ensures forall i | 0 <= i < realInodes.Length :: !realInodes[i] && !reachable[i]
      ensures forall b | 0 <= b < realBlocks.Length :: !realBlocks[b]
    {
      this.img, errors, warnings := img, 0, 0;
      realInodes := new bool[|img.inodes|](_ => false);
      realBlocks := new bool[|img.blocks|](_ => false);
      reachable := new bool[|img.inodes|](_ => false);
    }

    // ---- pass 1 ----

    method CheckSuperblock() returns (r: int)
      modifies this`errors, this`warnings
      ensures errors >= old(errors)
      ensures r == 0 && errors == old(errors) <==> SuperblockClean(img.sb)
      ensures r == 0 || r == -1
      ensures r == -1 <==> img.sb.magic != 0x5A45_524F
      ensures r == 0 ==> (errors > old(errors) <==>
                || img.sb.blockSize != 1024 || img.sb.totalBlocks == 0 || img.sb.totalInodes == 0
                || img.sb.inodeBitmapStart == 0 || img.sb.inodeBitmapStart >= img.sb.totalBlocks
                || img.sb.blockBitmapStart <= img.sb.inodeBitmapStart
                || img.sb.inodeTableStart <= img.sb.blockBitmapStart
                || img.sb.dataStart <= img.sb.inodeTableStart || img.sb.dataStart >= img.sb.totalBlocks
                || img.sb.freeBlocks > img.sb.totalBlocks || img.sb.freeInodes > img.sb.totalInodes)
      ensures warnings == old(warnings) + (if r == 0 && img.sb.version != FS_VERSION then 1 else 0)
    {
      var sb := img.sb;
      if sb.magic != MAGIC {
        errors := errors + 1;
        return -1;
      }
      if sb.version != FS_VERSION { warnings := warnings + 1; }
      if sb.blockSize != BLOCK_SIZE { errors := errors + 1; }
      if sb.totalBlocks == 0 { errors := errors + 1; }
      if sb.totalInodes == 0 { errors := errors + 1; }
      CheckOffsets();
      r := 0;
    }

    method CheckOffsets()
      modifies this`errors
      ensures errors >= old(errors) && (errors == old(errors) <==> OffsetsClean(img.sb))
    {
      var sb := img.sb;
      if sb.inodeBitmapStart == 0 || sb.inodeBitmapStart >= sb.totalBlocks { errors := errors + 1; }
      if sb.blockBitmapStart <= sb.inodeBitmapStart { errors := errors + 1; }
      if sb.inodeTableStart <= sb.blockBitmapStart { errors := errors + 1; }
      if sb.dataStart <= sb.inodeTableStart { errors := errors + 1; }
      if sb.dataStart >= sb.totalBlocks { errors := errors + 1; }
      if sb.freeBlocks > sb.totalBlocks { errors := errors + 1; }
      if sb.freeInodes > sb.totalInodes { errors := errors + 1; }
    }

    // ---- pass 2 ----

    method CheckExtent(e: Extent)
      requires Valid()
      modifies this`errors, realBlocks
      ensures errors >= old(errors) && (errors == old(errors) <==> ExtentClean(img, e))
      ensures forall b: nat | b < realBlocks.Length :: realBlocks[b] == (old(realBlocks[b]) || Marks(img, e, b))
    {
      if e.start < img.sb.dataStart {
        errors := errors + 1;
      } else if End32(e) > img.sb.totalBlocks {
        errors := errors + 1;
      } else {
        var b := e.start;
        while b < End32(e)
          invariant e.start <= b && errors == old(errors)
          invariant forall c: nat | c < realBlocks.Length ::
                      realBlocks[c] == (old(realBlocks[c]) || (e.start <= c < b && c < End32(e)))
        {
          realBlocks[b] := true;
          b := b + 1;
        }
      }
    }

    method CheckNode(node: Inode)
      requires Valid()
      modifies this`errors, this`warnings, realBlocks
      ensures errors >= old(errors) && (errors == old(errors) <==> NodeClean(img, node))
      ensures warnings == old(warnings) + (if node.links == 0 then 1 else 0)
      ensures forall b: nat | b < realBlocks.Length :: realBlocks[b] == (old(realBlocks[b]) || NodeMarks(img, node, b))
    {
      var typed := node.ftype == Reg || node.ftype == Dir;
      if !typed { errors := errors + 1; }
      if |node.extents| > MAX_EXTENTS { errors := errors + 1; }
      if node.links == 0 { warnings := warnings + 1; }
      ghost var before := errors;
      var exts := CheckedExtents(node);
      for k := 0 to |exts|
        invariant errors >= before && warnings == old(warnings) + (if node.links == 0 then 1 else 0)
        invariant errors == before <==> forall j | 0 <= j < k :: ExtentClean(img, exts[j])
        invariant forall b: nat | b < realBlocks.Length ::
                    realBlocks[b] == (old(realBlocks[b]) || exists j :: 0 <= j < k && Marks(img, exts[j], b))
      {
        CheckExtent(exts[k]);
      }
    }

    method CheckInodes()
      requires Valid()
      modifies this`errors, this`warnings, realInodes, realBlocks
      ensures errors >= old(errors) && (errors == old(errors) <==> InodesClean(img))
      ensures forall i | 0 <= i < realInodes.Length :: realInodes[i] == (old(realInodes[i]) || img.inodeBits[i])
      ensures forall b: nat | b < realBlocks.Length :: realBlocks[b] == (old(realBlocks[b]) || Referenced(img, b))
    {
      for ino := 0 to |img.inodes|
        invariant errors >= old(errors)
        invariant errors == old(errors) <==> forall i: nat | i < ino && Live(img, i) :: NodeClean(img, img.inodes[i])
        invariant forall i | 0 <= i < realInodes.Length ::
                    realInodes[i] == (old(realInodes[i]) || (i < ino && img.inodeBits[i]))
        invariant forall b: nat | b < realBlocks.Length ::
                    realBlocks[b] == (|| old(realBlocks[b])
                                      || exists i: nat :: i < ino && Live(img, i) && NodeMarks(img, img.inodes[i], b))
      {
        if img.inodeBits[ino] {
          realInodes[ino] := true;
          CheckNode(img.inodes[ino]);
        }
      }
    }

    // ---- pass 3 ----

    /** The inode half. What pass 2 rebuilt is copied from the very bitmap it is compared with, so that
      * this half never reports anything. */
    method CheckInodeMap()
      requires Valid()
      modifies this`errors
      ensures errors >= old(errors)
      ensures errors == old(errors) <==> forall i | 0 <= i < realInodes.Length :: img.inodeBits[i] == realInodes[i]
    {
      for i := 0 to |img.inodes|
        invariant errors >= old(errors)
        invariant errors == old(errors) <==> forall j | 0 <= j < i :: img.inodeBits[j] == realInodes[j]
      {
        if img.inodeBits[i] && !realInodes[i] {
          errors := errors + 1;
        } else if !img.inodeBits[i] && realInodes[i] {
          errors := errors + 1;
        }
      }
    }

    method CheckBlockMap()
      requires Valid()
      modifies this`errors
      ensures errors >= old(errors)
      ensures errors == old(errors) <==> forall b: nat | b < realBlocks.Length ::
                if b < img.sb.dataStart then img.blockBits[b] else img.blockBits[b] == realBlocks[b]
    {
      for b := 0 to |img.blocks|
        invariant errors >= old(errors)
        invariant errors == old(errors) <==> forall c: nat | c < b ::
                    if c < img.sb.dataStart then img.blockBits[c] else img.blockBits[c] == realBlocks[c]
      {
        if b < img.sb.dataStart {
          if !img.blockBits[b] {
            errors := errors + 1;
          }
        } else if img.blockBits[b] && !realBlocks[b] {
          errors := errors + 1;
        } else if !img.blockBits[b] && realBlocks[b] {
          errors := errors + 1;
        }
      }
    }

    /** Passes 2 and 3 from empty bitmaps with the metadata blocks marked: `inodeMapErrors` is what the
      * inode half of pass 3 adds. */
    method CheckTables() returns (inodeMapErrors: nat)
      requires Valid() && img.sb.dataStart <= |img.blocks|
      requires forall i | 0 <= i < realInodes.Length :: !realInodes[i]
      requires forall b: nat | b < realBlocks.Length :: realBlocks[b] == (b < img.sb.dataStart)
      modifies this`errors, this`warnings, realInodes, realBlocks
      ensures inodeMapErrors == 0
      ensures errors >= old(errors) && (errors == old(errors) <==> InodesClean(img) && BitmapsClean(img))
    {
      CheckInodes();
      var before := errors;
      CheckInodeMap();
      inodeMapErrors := errors - before;
      CheckBlockMap();
    }

    // ---- pass 4 ----

    /** bitmap_set(reachable, i). */
    method Mark(i: nat, ghost u: nat)
      requires Valid() && Bounded(u) && i < |img.inodes|
      modifies reachable
      ensures Valid() && Bounded(u) && Marked() == old(Marked()) + {i}
    {
      ghost var before := Marked();
      reachable[i] := true;
      assert Marked() == before + {i};
      ShrinksTo(img, before, Marked());
    }

    /** One slot. */
    method CheckDirEntry(e: Dirent, dir: nat, parent: nat, ghost u: nat)
      requires Valid() && Bounded(u)
      modifies this`errors, reachable
      ensures Valid() && errors >= old(errors) && Bounded(u)
      ensures var v := CheckSlot(img, old(Marked()), e, dir, parent);
              Marked() == v.reach && (errors == old(errors) <==> v.clean)
      decreases u, 0, 1
    {
      if e.Free() {
        return;
      }
      if e.ino >= |img.inodes| || !img.inodeBits[e.ino] {
        errors := errors + 1;
        return;
      }
      if e.name == "." {
        if e.ino != dir { errors := errors + 1; }
      } else if e.name == ".." {
        if e.ino != parent { errors := errors + 1; }
      } else {
        if e.name == "" { errors := errors + 1; }
        if '/' in e.name { errors := errors + 1; }
        if e.ftype == Dir {
          if !reachable[e.ino] {
            CheckDirRecursive(e.ino, dir, u);
          }
        } else {
          Mark(e.ino, u);
        }
      }
    }

    /** check_dir_recursive: at most u inodes are left to mark. */
    method CheckDirRecursive(dir: nat, parent: nat, ghost u: nat)
      requires Valid() && Bounded(u) && dir < |img.inodes| && !reachable[dir]
      modifies this`errors, reachable
      ensures Valid() && errors >= old(errors) && Bounded(u)
      ensures var v := CheckDir(img, old(Marked()), dir, parent);
              Marked() == v.reach && (errors == old(errors) <==> v.clean)
      decreases u, 0, 0
    {
      if img.inodes[dir].ftype != Dir {
        errors := errors + 1;
        return;
      }
      ghost var reach0, errors0 := Marked(), errors;
      Shrinks(img, reach0, dir);
      reachable[dir] := true;
      assert Marked() == reach0 + {dir};
      var exts := CheckedExtents(img.inodes[dir]);
      ghost var slots := WalkedSlots(img, dir);
      ghost var whole := CheckSlots(img, Marked(), slots, dir, parent);
      var readable, dot, dotdot := WalkSlots(exts, dir, parent, slots, whole, u - 1);
      if !readable {
        errors := errors + 1;
        return;
      }
      if !dot { errors := errors + 1; }
      if !dotdot { errors := errors + 1; }
    }

    /** The loops over a directory's slots; they end early at an unreadable block. */
    method WalkSlots(exts: seq<Extent>, dir: nat, parent: nat, ghost slots: seq<Dirent>, ghost whole: Visit,
                     ghost u: nat)
      returns (readable: bool, dot: bool, dotdot: bool)
      requires Valid() && Bounded(u) && slots == DirSlots(img.blocks, Blocks(exts))
      requires whole == CheckSlots(img, Marked(), slots, dir, parent)
      modifies this`errors, reachable
      ensures Valid() && errors >= old(errors) && Bounded(u)
      ensures Marked() == whole.reach && (errors == old(errors) <==> whole.clean)
      ensures readable == Readable(img.blocks, Blocks(exts))
      ensures dot == HasSlot(img, slots, ".") && dotdot == HasSlot(img, slots, "..")
      decreases u, |slots|, 3
    {
      dot, dotdot := false, false;
      VisitsAll(exts);
      assert slots[0..] == slots && slots[..0] == [];
      for e := 0 to |exts|
        invariant Passed(exts, e, 0)
        invariant Progress(img, Marked(), slots, 8 * Position(exts, e, 0), dir, parent, whole,
                           errors == old(errors), dot, dotdot)
        invariant errors >= old(errors) && Bounded(u)
      {
        VisitsInOrder(exts, e);
        ghost var k;
        readable, dot, dotdot, k := WalkExtent(exts, e, dir, parent, dot, dotdot, slots, whole,
                                               errors == old(errors), u);
        if !readable {
          Finished(img, Marked(), slots, dir, parent, whole, errors == old(errors), dot, dotdot);
          return;
        }
      }
      AllRead(img.blocks, Blocks(exts), |Blocks(exts)|);
      Finished(img, Marked(), slots, dir, parent, whole, errors == old(errors), dot, dotdot);
      readable := true;
    }

    /** The blocks before block b of extent e could be read. */
    ghost predicate Passed(exts: seq<Extent>, e: nat, b: nat)
      requires e <= |exts|
    {
      Position(exts, e, b) <= |Blocks(exts)| && Readable(img.blocks, Blocks(exts)[..Position(exts, e, b)])
    }

    /** The middle loop: the blocks of one extent. */
    method WalkExtent(exts: seq<Extent>, e: nat, dir: nat, parent: nat, dot0: bool, dotdot0: bool,
                      ghost slots: seq<Dirent>, ghost whole: Visit, ghost clean: bool, ghost u: nat)
      returns (readable: bool, dot: bool, dotdot: bool, ghost k: nat)
      requires Valid() && Bounded(u) && slots == DirSlots(img.blocks, Blocks(exts)) && e < |exts| && Passed(exts, e, 0)
      requires Progress(img, Marked(), slots, 8 * Position(exts, e, 0), dir, parent, whole, clean, dot0, dotdot0)
      modifies this`errors, reachable
      ensures Valid() && errors >= old(errors) && Bounded(u)
      ensures readable ==> Passed(exts, e + 1, 0) && k == 8 * Position(exts, e + 1, 0)
      ensures !readable ==> !Readable(img.blocks, Blocks(exts)) && k == |slots|
      ensures Progress(img, Marked(), slots, k, dir, parent, whole, clean && errors == old(errors), dot, dotdot)
      decreases u, |slots|, 2
    {
      readable, dot, dotdot := true, dot0, dotdot0;
      ghost var bs, n := Blocks(exts), Position(exts, e, 0);
      k := 8 * n;
      for b := 0 to exts[e].len
        invariant n == Position(exts, e, b) <= |bs| && Readable(img.blocks, bs[..n]) && k == 8 * n
        invariant Progress(img, Marked(), slots, k, dir, parent, whole, clean && errors == old(errors), dot, dotdot)
        invariant errors >= old(errors) && Bounded(u)
      {
        VisitsAt(exts, e, b, n);
        readable, dot, dotdot, k := WalkBlock(Add32(exts[e].start, b), dir, parent, dot, dotdot, bs, n, slots, whole,
                                              clean && errors == old(errors), u);
        if !readable { return; }
        n := n + 1;
      }
      VisitsInOrder(exts, e);
    }

    /** One block: nothing is left when it cannot be read. */
    method WalkBlock(blk: nat, dir: nat, parent: nat, dot0: bool, dotdot0: bool, ghost bs: seq<nat>, ghost n: nat,
                     ghost slots: seq<Dirent>, ghost whole: Visit, ghost clean: bool, ghost u: nat)
      returns (readable: bool, dot: bool, dotdot: bool, ghost k: nat)
      requires Valid() && Bounded(u) && slots == DirSlots(img.blocks, bs)
      requires n < |bs| && bs[n] == blk && Readable(img.blocks, bs[..n])
      requires Progress(img, Marked(), slots, 8 * n, dir, parent, whole, clean, dot0, dotdot0)
      modifies this`errors, reachable
      ensures Valid() && errors >= old(errors) && Bounded(u)
      ensures readable ==> Readable(img.blocks, bs[..n + 1]) && k == 8 * (n + 1)
      ensures !readable ==> !Readable(img.blocks, bs) && k == |slots|
      ensures Progress(img, Marked(), slots, k, dir, parent, whole, clean && errors == old(errors), dot, dotdot)
      decreases u, |slots|, 1, 1
    {
      if blk >= |img.blocks| {
        StopsHere(img.blocks, bs, n);
        return false, dot0, dotdot0, 8 * n;
      }
      BlockSlots(img.blocks, bs, n);
      readable, k := true, 8 * (n + 1);
      dot, dotdot := WalkEntries(SlotsOf(img.blocks[blk]), dir, parent, dot0, dotdot0, slots, n, whole, clean, u);
    }

    /** One slot, and whether it is one of the two dots. */
    method WalkEntry(e: Dirent, dir: nat, parent: nat, dot0: bool, dotdot0: bool,
                     ghost slots: seq<Dirent>, ghost k: nat, ghost whole: Visit, ghost clean: bool, ghost u: nat)
      returns (dot: bool, dotdot: bool)
      requires Valid() && Bounded(u) && k < |slots| && slots[k] == e
      requires Progress(img, Marked(), slots, k, dir, parent, whole, clean, dot0, dotdot0)
      modifies this`errors, reachable
      ensures Valid() && errors >= old(errors) && Bounded(u)
      ensures Progress(img, Marked(), slots, k + 1, dir, parent, whole, clean && errors == old(errors), dot, dotdot)
      decreases u, |slots|, 0
    {
      ProgressStep(img, Marked(), slots, k, dir, parent, whole, clean, dot0, dotdot0);
      CheckDirEntry(e, dir, parent, u);
      dot, dotdot := dot0, dotdot0;
      if ValidSlot(img, e) {
        dot := dot || e.name == ".";
        dotdot := dotdot || e.name == "..";
      }
    }

    /** The innermost loop: the eight slots of one block. */
    method WalkEntries(entries: SlotTable, dir: nat, parent: nat, dot0: bool, dotdot0: bool,
                       ghost slots: seq<Dirent>, ghost n: nat, ghost whole: Visit, ghost clean: bool, ghost u: nat)
      returns (dot: bool, dotdot: bool)
      requires Valid() && Bounded(u) && |slots| >= 8 * n + 8 && forall i | 0 <= i < 8 :: slots[8 * n + i] == entries[i]
      requires Progress(img, Marked(), slots, 8 * n, dir, parent, whole, clean, dot0, dotdot0)
      modifies this`errors, reachable
      ensures Valid() && errors >= old(errors) && Bounded(u)
      ensures Progress(img, Marked(), slots, 8 * n + 8, dir, parent, whole, clean && errors == old(errors), dot, dotdot)
      decreases u, |slots|, 1, 0
    {
      dot, dotdot := dot0, dotdot0;
      for i := 0 to DIRENTS_PER_BLOCK
        invariant Progress(img, Marked(), slots, 8 * n + i, dir, parent, whole,
                           clean && errors == old(errors), dot, dotdot)
        invariant errors >= old(errors) && Bounded(u)
      {
        dot, dotdot := WalkEntry(entries[i], dir, parent, dot, dotdot, slots, 8 * n + i, whole,
                                 clean && errors == old(errors), u);
      }
    }

    method CheckDirectories()
      requires Valid() && 0 < |img.inodes| && forall i | 0 <= i < reachable.Length :: !reachable[i]
      modifies this`errors, reachable
      ensures errors >= old(errors) && (errors == old(errors) <==> TreeClean(img))
    {
      assert Marked() == {};
      if !img.inodeBits[ROOT] {
        errors := errors + 1;
      } else {
        CheckDirRecursive(ROOT, ROOT, |InodeSet(img)|);
        assert Marked() == RootWalk(img).reach;
      }
      ghost var before, marked := errors, Marked();
      for i := 0 to |img.inodes|
        invariant errors >= before && Marked() == marked
        invariant errors == before <==> forall j: nat | j < i && img.inodeBits[j] :: reachable[j]
      {
        if img.inodeBits[i] && !reachable[i] { errors := errors + 1; }
      }
      if img.inodeBits[ROOT] { AllReached(); }
    }

    lemma AllReached()
      requires Valid() && 0 < |img.inodes| && Marked() == RootWalk(img).reach
      ensures (forall i: nat | i < |img.inodes| && Live(img, i) :: i in RootWalk(img).reach)
              <==> forall j: nat | j < |img.inodes| && img.inodeBits[j] :: reachable[j]
    {
      assert forall i: nat {:trigger reachable[i]} | i < |img.inodes| ::
               i in Marked() <==> InTable(img, i) && reachable[i];
    }
  }

  /** The first k slots are done: the rest of the walk completes `whole`. */
  ghost predicate Progress(d: Disk, marked: set<nat>, slots: seq<Dirent>, k: nat, dir: nat, parent: nat, whole: Visit,
                           clean: bool, dot: bool, dotdot: bool)
  {
    && k <= |slots| && marked <= InodeSet(d)
    && CheckSlots(d, marked, slots[k..], dir, parent).reach == whole.reach
    && (clean && CheckSlots(d, marked, slots[k..], dir, parent).clean <==> whole.clean)
    && dot == HasSlot(d, slots[..k], ".") && dotdot == HasSlot(d, slots[..k], "..")
  }

  lemma ProgressStep(d: Disk, marked: set<nat>, slots: seq<Dirent>, k: nat, dir: nat, parent: nat, whole: Visit,
                     clean: bool, dot: bool, dotdot: bool)
    requires Progress(d, marked, slots, k, dir, parent, whole, clean, dot, dotdot) && k < |slots|
    ensures var e, v := slots[k], CheckSlot(d, marked, slots[k], dir, parent);
            Progress(d, v.reach, slots, k + 1, dir, parent, whole, clean && v.clean,
                     dot || (ValidSlot(d, e) && e.name == "."), dotdot || (ValidSlot(d, e) && e.name == ".."))
  {
    assert slots[k..][1..] == slots[k + 1..];
    HasSlotNext(d, slots, k, ".");
    HasSlotNext(d, slots, k, "..");
  }

  lemma HasSlotNext(d: Disk, slots: seq<Dirent>, k: nat, name: string)
    requires k < |slots|
    ensures HasSlot(d, slots[..k + 1], name) <==>
              HasSlot(d, slots[..k], name) || (ValidSlot(d, slots[k]) && slots[k].name == name)
  {
    if HasSlot(d, slots[..k], name) {
      var j :| 0 <= j < k && ValidSlot(d, slots[..k][j]) && slots[..k][j].name == name;
      assert slots[..k + 1][j] == slots[..k][j];
    }
    assert slots[..k + 1][k] == slots[k];
  }

  lemma Finished(d: Disk, marked: set<nat>, slots: seq<Dirent>, dir: nat, parent: nat, whole: Visit,
                 clean: bool, dot: bool, dotdot: bool)
    requires Progress(d, marked, slots, |slots|, dir, parent, whole, clean, dot, dotdot)
    ensures marked == whole.reach && (clean <==> whole.clean)
    ensures dot == HasSlot(d, slots, ".") && dotdot == HasSlot(d, slots, "..")
  {
    assert slots[..|slots|] == slots;
  }

  /** zeros_fsck: -1 exactly when one of the fields below is wrong, else 0 when the image is clean and 1
    * otherwise. */
  method ZerosFsck(img: Disk) returns (code: int)
    ensures code == -1 <==>
              || img.sb.magic != 0x5A45_524F || img.sb.blockSize != 1024
              || img.sb.totalBlocks == 0 || img.sb.totalInodes == 0
              || img.sb.inodeBitmapStart == 0 || img.sb.inodeBitmapStart >= img.sb.totalBlocks
              || img.sb.blockBitmapStart <= img.sb.inodeBitmapStart
              || img.sb.inodeTableStart <= img.sb.blockBitmapStart
              || img.sb.dataStart <= img.sb.inodeTableStart || img.sb.dataStart >= img.sb.totalBlocks
              || img.sb.freeBlocks > img.sb.totalBlocks || img.sb.freeInodes > img.sb.totalInodes
    ensures code == 0 <==> Clean(img)
    ensures code in {-1, 0, 1}
  {
    var f := new Checking(img);
    var r := f.CheckSuperblock();
    if r < 0 || f.errors > 0 {
      return -1;
    }
    for b := 0 to img.sb.dataStart
      invariant f.errors == 0 && f.Valid()
      invariant forall c: nat | c < f.realBlocks.Length :: f.realBlocks[c] == (c < b)
      invariant forall i | 0 <= i < f.realInodes.Length :: !f.realInodes[i] && !f.reachable[i]
    {
      f.realBlocks[b] := true;
    }
    var inodeMapErrors := f.CheckTables();
    f.CheckDirectories();
    code := if f.errors == 0 then 0 else 1;
  }
}
