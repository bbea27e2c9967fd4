/** fs/zeros_format.c as it runs: bitmaps and superblock counters updated in place. */
module Formatter {
  import opened ZerosFs
  import opened Bitmap
  import opened Directory
  import opened Volume
  import opened Paths
  import opened KString
  import opened BlockLoops
  import opened Layout
  import opened Formatting
  import Ops = Operations

  /** Allocating from the whole bitmap finds the same block as allocating from the data area. */
  lemma {:induction false} ScanFromZero(bits: seq<bool>, from: nat, start: nat)
    requires from <= start <= |bits| && forall b | from <= b < start :: bits[b]
    ensures FreeFrom(bits, from) == FreeFrom(bits, start)
    decreases start - from
  {
    if from < start {
      ScanFromZero(bits, from + 1, start);
    }
  }

  class ZerosFormatter {
    var sb: Superblock
    const inodeBits: array<bool>
    const blockBits: array<bool>
    var inodes: seq<Inode>
    var blocks: seq<Block>

    /** The metadata blocks are marked, so that no allocation returns one. */
    ghost predicate Valid()
      reads this, inodeBits, blockBits
    {
      && inodeBits != blockBits
      && Shaped(Image(sb, inodeBits[..], blockBits[..], inodes, blocks))
      && sb.dataStart <= blockBits.Length && forall b | 0 <= b < sb.dataStart :: blockBits[b]
    }

    ghost function Vol(): Disk
      requires Valid()
      reads this, inodeBits, blockBits
    {
      Image(sb, inodeBits[..], blockBits[..], inodes, blocks)
    }

    /** Empty bitmaps, then the metadata blocks marked one by one. */
    constructor (sb: Superblock, inodes: seq<Inode>, blocks: seq<Block>)
      requires |inodes| == sb.totalInodes <= NONE && |blocks| == sb.totalBlocks <= NONE
      requires sb.dataStart < sb.totalBlocks
      ensures Valid() && Vol() == Blank(sb, inodes, blocks) && fresh(inodeBits) && fresh(blockBits)
    {
      var inodeMap, blockMap := new bool[|inodes|](_ => false), new bool[|blocks|](_ => false);
      for b := 0 to sb.dataStart
        invariant forall c | 0 <= c < blockMap.Length :: blockMap[c] == (c < b)
        invariant forall i | 0 <= i < inodeMap.Length :: !inodeMap[i]
      {
        blockMap[b] := true;
      }
      this.sb, this.inodes, this.blocks := sb, inodes, blocks;
      inodeBits, blockBits := inodeMap, blockMap;
      new;
      assert inodeBits[..] == seq(|inodes|, _ => false);
      assert blockBits[..] == seq(|blocks|, b => b < sb.dataStart);
    }

    /** The first clear bit of a bitmap, now set, or NONE. */
    static method BitmapAlloc(bm: array<bool>) returns (at: nat)
      requires bm.Length <= NONE
      modifies bm
      ensures at == if FreeFrom(old(bm[..]), 0) == [] then NONE else FreeFrom(old(bm[..]), 0)[0]
      ensures bm[..] == if at == NONE then old(bm[..]) else old(bm[..])[at := true]
    {
      for i := 0 to bm.Length
        invariant bm[..] == old(bm[..]) && forall j | 0 <= j < i :: bm[j]
      {
        if !bm[i] {
          FreeHeadIsLowest(bm[..], 0, i);
          bm[i] := true;
          return i;
        }
      }
      FreeEmpty(bm[..], 0);
      at := NONE;
    }

    method AllocInode() returns (at: nat)
      requires Valid()
      modifies this, inodeBits
      ensures Valid() && Alloc(Vol(), at) == Volume.AllocInode(old(Vol()))
    {
      at := BitmapAlloc(inodeBits);
      if at != NONE {
        sb := sb.(freeInodes := Dec32(sb.freeInodes));
      }
    }

    method AllocBlock() returns (at: nat)
      requires Valid()
      modifies this, blockBits
      ensures Valid() && Alloc(Vol(), at) == Volume.AllocBlock(old(Vol()))
      ensures at == NONE || sb.dataStart <= at
    {
      ScanFromZero(blockBits[..], 0, sb.dataStart);
      at := BitmapAlloc(blockBits);
      if at != NONE {
        sb := sb.(freeBlocks := Dec32(sb.freeBlocks));
      }
    }

    method DirLookup(dir: nat, name: string) returns (ino: nat)
      requires Valid()
      ensures ino == Lookup(Vol(), dir, name)
    {
      if dir >= |inodes| {
        return NONE;
      }
      var r := Scan(blocks, inodes[dir].extents, Named(name));
      match r
      case Found(b, i) =>
        SlotBlockReadable(blocks, BlocksOf(Vol(), dir), Find(SlotsIn(Vol(), dir), Named(name)));
        ino := SlotsOf(blocks[b])[i].ino;
      case _ => ino := NONE;
    }

    method DirAddEntry(dir: nat, name: string, child: nat, t: FileType) returns (ok: bool)
      requires Valid()
      modifies this, blockBits
      ensures Valid() && Step(Vol(), ok) == DirAdd(old(Vol()), dir, name, child, t)
    {
      if dir >= |inodes| {
        return false;
      }
      var node, entry := inodes[dir], Dirent(child, t, TruncName(name));
      var r := Scan(blocks, node.extents, FreeSlot);
      match r
      case Unreadable => ok := false;
      case Found(b, i) =>
        blocks := blocks[b := Slots(SlotsOf(blocks[b])[i := entry])];
        inodes := inodes[dir := node.(size := node.size + DIRENT_SIZE)];
        ok := true;
      case Missing => ok := GrowDir(dir, entry);
    }

    method GrowDir(dir: nat, entry: Dirent) returns (ok: bool)
      requires Valid() && dir < |inodes|
      modifies this, blockBits
      ensures Valid() && Step(Vol(), ok) == Grown(old(Vol()), dir, entry)
    {
      var node := inodes[dir];
      if |node.extents| >= MAX_EXTENTS {
        return false;
      }
      var b := AllocBlock();
      if b == NONE {
        return false;
      }
      blocks := blocks[b := Slots(BLANK_SLOTS[0 := entry])];
      inodes := inodes[dir := node.(extents := node.extents + [Extent(b, 1)], size := node.size + DIRENT_SIZE)];
      ok := true;
    }

    /** create_dir: NONE on failure. */
    method CreateDir(parent: nat, name: string) returns (ino: nat)
      requires Valid()
      modifies this, inodeBits, blockBits
      ensures Valid() && Made(Vol(), ino) == Formatting.CreateDir(old(Vol()), parent, name)
    {
      var i := AllocInode();
      if i == NONE {
        return NONE;
      }
      var b := AllocBlock();
      if b == NONE {
        return NONE;
      }
      blocks := blocks[b := Slots(BLANK_SLOTS)];
      inodes := inodes[i := Ops.NewDirInode(b)];
      var ok := DirAddEntry(i, ".", i, Dir);
      if !ok {
        return NONE;
      }
      ok := DirAddEntry(i, "..", parent, Dir);
      if !ok {
        return NONE;
      }
      if parent != i {
        ok := DirAddEntry(parent, name, i, Dir);
        if !ok {
          return NONE;
        }
      }
      ino := i;
    }

    /** The strtok loop over one initial path. */
    method PlantPath(path: string) returns (ino: nat)
      requires Valid() && '\0' !in path
      modifies this, inodeBits, blockBits
      ensures Valid() && Made(Vol(), ino) == Plant(old(Vol()), ROOT, Tokens(TruncCopy(path)))
    {
      ghost var whole, left := Plant(Vol(), ROOT, Tokens(TruncCopy(path))), Tokens(TruncCopy(path));
      var cur: nat := ROOT;
      var scanner := new Tokenizer(TruncCopy(path));
      var tok := scanner.Next();
      while tok.Token?
        invariant scanner.Valid() && fresh(scanner) && fresh(scanner.buf)
        invariant tok == if left == [] then NoToken else Token(left[0])
        invariant Tokens(scanner.Remaining()) == if left == [] then [] else left[1..]
        invariant Valid() && Plant(Vol(), cur, left) == whole
        decreases |left|
      {
        var next := DirLookup(cur, tok.text);
        if next == NONE {
          next := CreateDir(cur, tok.text);
          if next == NONE {
            return NONE;
          }
        }
        cur := next;
        tok := scanner.Next();
        left := left[1..];
      }
      ino := cur;
    }
  }

  /** zeros_format. */
  method ZerosFormat(size: nat, inodes: seq<Inode>, blocks: seq<Block>) returns (r: Formatted)
    requires Device(size, inodes, blocks)
    ensures r == Format(size, inodes, blocks)
  {
    var sb := LayoutOf(size);
    if size < MIN_DISK_SIZE || sb.dataStart >= sb.totalBlocks {
      return Failed;
    }
    var f := new ZerosFormatter(sb, inodes, blocks);
    var root := f.CreateDir(ROOT, "/");
    if root != ROOT {
      return Failed;
    }
    ghost var d := f.Vol();
    for k := 0 to |INITIAL_DIRS|
      invariant f.Valid() && fresh(f) && fresh(f.inodeBits) && fresh(f.blockBits)
      invariant Step(f.Vol(), true) == PlantAll(d, INITIAL_DIRS[..k])
    {
      PlantAllNext(d, INITIAL_DIRS, k);
      NoNul(k);
      var ino := f.PlantPath(INITIAL_DIRS[k]);
      if ino == NONE {
        PlantAllFails(d, INITIAL_DIRS, k + 1);
        return Failed;
      }
    }
    assert INITIAL_DIRS[..|INITIAL_DIRS|] == INITIAL_DIRS;
    r := Done(Image(f.sb, f.inodeBits[..], f.blockBits[..], f.inodes, f.blocks));
  }

  /** A failure is final. */
  lemma {:induction false} PlantAllFails(d: Disk, paths: seq<string>, k: nat)
    requires k <= |paths| && !PlantAll(d, paths[..k]).ok
    ensures !PlantAll(d, paths).ok
    decreases |paths| - k
  {
    if k == |paths| {
      assert paths[..k] == paths;
    } else {
      PlantAllNext(d, paths, k);
      PlantAllFails(d, paths, k + 1);
    }
  }

  lemma NoNul(k: nat)
    requires k < |INITIAL_DIRS|
    ensures '\0' !in INITIAL_DIRS[k]
  {
  }
}
