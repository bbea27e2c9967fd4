/** kernel/kzeros.c: the kernel port. Its bitmaps live on disk and are read, changed and written back
  * block by block; only the superblock is cached. Every method is proved against the same function of
  * the volume as the runtime's method of the same name. */
module KernelPort {
  import opened ZerosFs
  import opened Bitmap
  import opened BitBlocks
  import opened Extents
  import opened Directory
  import opened Volume
  import opened Paths
  import opened KString
  import opened BlockLoops
  import opened KernelSpec
  import opened Mount
  import Ops = Operations

  class KernelMount {
    var sb: Superblock          // cached
    var storedSb: Superblock    // block 0 of the disk
    var inodeMap: seq<BitBlock> // on disk
    var blockMap: seq<BitBlock> // on disk
    var inodes: seq<Inode>
    var blocks: seq<Block>
    var cwd: nat
    var cwdPath: string

    /** Both bitmaps cover what they should, and no inode bitmap block lies past the last inode. */
    ghost predicate Valid()
      reads this
    {
      && |inodeMap| == sb.inodeBitmapBlocks && |blockMap| == sb.blockBitmapBlocks
      && |inodes| == sb.totalInodes <= |inodeMap| * BITS_PER_BLOCK && sb.totalInodes <= NONE
      && (|inodeMap| - 1) * BITS_PER_BLOCK < sb.totalInodes
      && |blocks| == sb.totalBlocks <= |blockMap| * BITS_PER_BLOCK && sb.totalBlocks <= NONE
      && cwdPath != ""
    }

    ghost function Vol(): Disk
      requires Valid()
      reads this
    {
      Image(sb, Bits(inodeMap, sb.totalInodes), Bits(blockMap, sb.totalBlocks), inodes, blocks)
    }

    ghost function State(): Ops.Mounted
      requires Valid()
      reads this
    {
      Ops.Mounted(Vol(), cwd, cwdPath)
    }

    /** kzeros_open once the magic number is accepted. */
    constructor (sb: Superblock, inodeMap: seq<BitBlock>, blockMap: seq<BitBlock>, inodes: seq<Inode>,
                 blocks: seq<Block>)
      requires |inodeMap| == sb.inodeBitmapBlocks && |blockMap| == sb.blockBitmapBlocks
      requires |inodes| == sb.totalInodes <= |inodeMap| * BITS_PER_BLOCK && sb.totalInodes <= NONE
      requires (|inodeMap| - 1) * BITS_PER_BLOCK < sb.totalInodes
      requires |blocks| == sb.totalBlocks <= |blockMap| * BITS_PER_BLOCK && sb.totalBlocks <= NONE
      ensures Valid() && Flushed()
      ensures State() == Ops.Mounted(Image(sb, Bits(inodeMap, sb.totalInodes), Bits(blockMap, sb.totalBlocks),
                                           inodes, blocks), ROOT, "/")
    {
      this.sb, storedSb, this.inodeMap, this.blockMap := sb, sb, inodeMap, blockMap;
      this.inodes, this.blocks, cwd, cwdPath := inodes, blocks, ROOT, "/";
    }

    /** kzeros_open: null when the magic number is wrong. */
    static method Open(sb: Superblock, inodeMap: seq<BitBlock>, blockMap: seq<BitBlock>, inodes: seq<Inode>,
                       blocks: seq<Block>)
      returns (m: KernelMount?)
      requires |inodeMap| == sb.inodeBitmapBlocks && |blockMap| == sb.blockBitmapBlocks
      requires |inodes| == sb.totalInodes <= |inodeMap| * BITS_PER_BLOCK && sb.totalInodes <= NONE
      requires (|inodeMap| - 1) * BITS_PER_BLOCK < sb.totalInodes
      requires |blocks| == sb.totalBlocks <= |blockMap| * BITS_PER_BLOCK && sb.totalBlocks <= NONE
      ensures m == null <==> sb.magic != MAGIC
      ensures m != null ==>
        && fresh(m) && m.Valid() && m.Flushed()
        && m.State() == Ops.Mounted(Image(sb, Bits(inodeMap, sb.totalInodes), Bits(blockMap, sb.totalBlocks),
                                          inodes, blocks), ROOT, "/")
    {
      if sb.magic != MAGIC {
        return null;
      }
      m := new KernelMount(sb, inodeMap, blockMap, inodes, blocks);
    }

    // ---- bitmaps ----

    /** Setting one bit of the inode bitmap: the block is changed in the buffer and written back. */
    method TakeInode(b: nat, i: nat, buf: BitBlock)
      requires Valid() && i < BITS_PER_BLOCK && b * BITS_PER_BLOCK + i < sb.totalInodes && buf == inodeMap[b]
      requires (b * BITS_PER_BLOCK + i) / BITS_PER_BLOCK == b && (b * BITS_PER_BLOCK + i) % BITS_PER_BLOCK == i
      requires FreeFrom(Vol().inodeBits, 0) != [] && FreeFrom(Vol().inodeBits, 0)[0] == b * BITS_PER_BLOCK + i
      modifies this
      ensures Valid() && cwd == old(cwd) && cwdPath == old(cwdPath)
      ensures Alloc(Vol(), b * BITS_PER_BLOCK + i) == Volume.AllocInode(old(Vol()))
    {
      BitWritten(inodeMap, sb.totalInodes, b * BITS_PER_BLOCK + i, true);
      inodeMap := inodeMap[b := buf[i := true]];
      sb := sb.(freeInodes := Dec32(sb.freeInodes));
    }

    method TakeBlock(b: nat, i: nat, buf: BitBlock)
      requires Valid() && i < BITS_PER_BLOCK && b * BITS_PER_BLOCK + i < sb.totalBlocks && buf == blockMap[b]
      requires (b * BITS_PER_BLOCK + i) / BITS_PER_BLOCK == b && (b * BITS_PER_BLOCK + i) % BITS_PER_BLOCK == i
      requires FreeBlockList(Vol()) != [] && FreeBlockList(Vol())[0] == b * BITS_PER_BLOCK + i
      modifies this
      ensures Valid() && cwd == old(cwd) && cwdPath == old(cwdPath)
      ensures Alloc(Vol(), b * BITS_PER_BLOCK + i) == Volume.AllocBlock(old(Vol()))
    {
      BitWritten(blockMap, sb.totalBlocks, b * BITS_PER_BLOCK + i, true);
      blockMap := blockMap[b := buf[i := true]];
      sb := sb.(freeBlocks := Dec32(sb.freeBlocks));
    }

    method AllocInode() returns (at: nat)
      requires Valid()
      modifies this
      ensures Valid() && cwd == old(cwd) && cwdPath == old(cwdPath)
      ensures Alloc(Vol(), at) == Volume.AllocInode(old(Vol()))
    {
      for b := 0 to sb.inodeBitmapBlocks
        invariant Valid() && State() == old(State())
        invariant FullUpTo(Bits(inodeMap, sb.totalInodes), 0, b)
      {
        var buf, base := inodeMap[b], b * BITS_PER_BLOCK;
        var lim := InodeLimit(sb.totalInodes, base);
        var i := ScanBlock(buf, 0, lim);
        if i < lim {
          StopsAtLowest(inodeMap, sb.totalInodes, 0, b, 0, lim, i);
          TakeInode(b, i, buf);
          return base + i;
        }
        FullNext(inodeMap, sb.totalInodes, 0, b, 0, lim);
      }
      FreeEmpty(Bits(inodeMap, sb.totalInodes), 0);
      at := NONE;
    }

    method AllocBlock() returns (at: nat)
      requires Valid()
      modifies this
      ensures Valid() && cwd == old(cwd) && cwdPath == old(cwdPath)
      ensures Alloc(Vol(), at) == Volume.AllocBlock(old(Vol()))
    {
      for b := 0 to sb.blockBitmapBlocks
        invariant Valid() && State() == old(State())
        invariant FullUpTo(Bits(blockMap, sb.totalBlocks), sb.dataStart, b)
      {
        var buf, base := blockMap[b], b * BITS_PER_BLOCK;
        var start := if sb.dataStart > base then sb.dataStart - base else 0;
        var lim := BlockLimit(sb.totalBlocks, base);
        var i := ScanBlock(buf, start, lim);
        if i < lim {
          StopsAtLowest(blockMap, sb.totalBlocks, sb.dataStart, b, start, lim, i);
          TakeBlock(b, i, buf);
          return base + i;
        }
        FullNext(blockMap, sb.totalBlocks, sb.dataStart, b, start, lim);
      }
      FreeEmpty(Bits(blockMap, sb.totalBlocks), sb.dataStart);
      at := NONE;
    }

    method FreeInode(i: nat)
      requires Valid() && i < |inodes|
      modifies this
      ensures Valid() && cwd == old(cwd) && cwdPath == old(cwdPath)
      ensures Vol() == Volume.FreeInode(old(Vol()), i)
    {
      var b, bit := i / BITS_PER_BLOCK, i % BITS_PER_BLOCK;
      BitWritten(inodeMap, sb.totalInodes, i, false);
      inodeMap := inodeMap[b := inodeMap[b][bit := false]];
      sb := sb.(freeInodes := Inc32(sb.freeInodes));
    }

    method FreeBlock(blk: nat)
      requires Valid() && blk < |blocks|
      modifies this
      ensures Valid() && cwd == old(cwd) && cwdPath == old(cwdPath)
      ensures Vol() == Volume.FreeBlock(old(Vol()), blk)
    {
      var b, bit := blk / BITS_PER_BLOCK, blk % BITS_PER_BLOCK;
      BitWritten(blockMap, sb.totalBlocks, blk, false);
      blockMap := blockMap[b := blockMap[b][bit := false]];
      sb := sb.(freeBlocks := Inc32(sb.freeBlocks));
    }

    /** The loops that release every block of an inode. */
    method FreeExtents(exts: seq<Extent>)
      requires Valid() && Readable(blocks, Blocks(exts))
      modifies this
      ensures Valid() && cwd == old(cwd) && cwdPath == old(cwdPath)
      ensures Vol() == FreeBlocks(old(Vol()), Blocks(exts))
    {
      ghost var d, bs := Vol(), Blocks(exts);
      VisitsAll(exts);
      for e := 0 to |exts|
        invariant Valid() && cwd == old(cwd) && cwdPath == old(cwdPath)
        invariant Freed(d, bs, Position(exts, e, 0), Vol())
      {
        VisitsInOrder(exts, e);
        FreeExtent(exts, e, d, bs);
      }
      FreedAll(d, bs, Vol());
    }

    /** The inner loop: the blocks of one extent. */
    method FreeExtent(exts: seq<Extent>, e: nat, ghost d: Disk, ghost bs: seq<nat>)
      requires Valid() && e < |exts| && bs == Blocks(exts) && Freed(d, bs, Position(exts, e, 0), Vol())
      modifies this
      ensures Valid() && cwd == old(cwd) && cwdPath == old(cwdPath)
      ensures Freed(d, bs, Position(exts, e, exts[e].len), Vol())
    {
      VisitsInOrder(exts, e);
      for b := 0 to exts[e].len
        invariant Valid() && cwd == old(cwd) && cwdPath == old(cwdPath)
        invariant Freed(d, bs, Position(exts, e, b), Vol())
      {
        FreeBlocksNext(d, bs, Position(exts, e, b), Vol());
        FreeBlock(Add32(exts[e].start, b));
      }
    }

    // ---- directories ----

    method DirLookup(dir: nat, name: string) returns (ino: nat)
      requires Valid()
      ensures ino == Lookup(Vol(), dir, name)
    {
      if dir >= |inodes| {
        return NONE;
      }
      var r := Scan(blocks, inodes[dir].extents, Named(name));
      match r
      case Found(b, i) =>
        SlotBlockReadable(blocks, BlocksOf(Vol(), dir), Find(SlotsIn(Vol(), dir), Named(name)));
        ino := SlotsOf(blocks[b])[i].ino;
      case _ => ino := NONE;
    }

    method DirAddEntry(dir: nat, name: string, child: nat, t: FileType) returns (ok: bool)
      requires Valid()
      modifies this
      ensures Valid() && cwd == old(cwd) && cwdPath == old(cwdPath)
      ensures Step(Vol(), ok) == DirAdd(old(Vol()), dir, name, child, t)
    {
      if dir >= |inodes| {
        return false;
      }
      var node, entry := inodes[dir], Dirent(child, t, TruncName(name));
      var r := Scan(blocks, node.extents, FreeSlot);
      match r
      case Unreadable => ok := false;
      case Found(b, i) =>
        blocks := blocks[b := Slots(SlotsOf(blocks[b])[i := entry])];
        inodes := inodes[dir := node.(size := node.size + DIRENT_SIZE)];
        ok := true;
      case Missing => ok := GrowDir(dir, entry);
    }

    /** The tail of dir_add_entry: no free slot, so a new one-block extent. */
    method GrowDir(dir: nat, entry: Dirent) returns (ok: bool)
      requires Valid() && dir < |inodes|
      modifies this
      ensures Valid() && cwd == old(cwd) && cwdPath == old(cwdPath)
      ensures Step(Vol(), ok) == Grown(old(Vol()), dir, entry)
    {
      var node := inodes[dir];
      if |node.extents| >= MAX_EXTENTS {
        return false;
      }
      var b := AllocBlock();
      if b == NONE {
        return false;
      }
      blocks := blocks[b := Slots(BLANK_SLOTS[0 := entry])];
      inodes := inodes[dir := node.(extents := node.extents + [Extent(b, 1)], size := node.size + DIRENT_SIZE)];
      ok := true;
    }

    method DirRemoveEntry(dir: nat, name: string) returns (ok: bool)
      requires Valid()
      modifies this
      ensures Valid() && cwd == old(cwd) && cwdPath == old(cwdPath)
      ensures Step(Vol(), ok) == DirRemove(old(Vol()), dir, name)
    {
      if dir >= |inodes| {
        return false;
      }
      var r := Scan(blocks, inodes[dir].extents, Named(name));
      if r.Found? {
        SlotBlockReadable(blocks, BlocksOf(Vol(), dir), Find(SlotsIn(Vol(), dir), Named(name)));
        var table := SlotsOf(blocks[r.block]);
        blocks := blocks[r.block := Slots(table[r.slot := table[r.slot].(ino := NONE)])];
        assert inodes[dir := inodes[dir].(size := inodes[dir].size)] == inodes;
        ok := true;
      } else {
        ok := false;
      }
    }

    // ---- paths ----

    /** resolve_path: a strtok loop over a private copy of the path. */
    method ResolvePath(path: string) returns (ino: nat)
      requires Valid() && '\0' !in path
      ensures ino == Resolve(Vol(), cwd, path)
    {
      if path == "" {
        return cwd;
      }
      if path == "/" {
        return ROOT;
      }
      var cur: nat := if path[0] == '/' then ROOT else cwd;
      var copy := TruncPath(path);
      ghost var d, start, toks := Vol(), cur, Tokens(copy);
      var scanner := new Tokenizer(copy);
      var tok := scanner.Next();
      ghost var left := toks;
      while tok.Token?
        invariant scanner.Valid() && fresh(scanner) && fresh(scanner.buf)
        invariant tok == if left == [] then NoToken else Token(left[0])
        invariant Tokens(scanner.Remaining()) == if left == [] then [] else left[1..]
        invariant Valid() && Vol() == d && Walk(d, start, toks) == Walk(d, cur, left)
        decreases |left|
      {
        var next := DirLookup(cur, tok.text);
        if next == NONE {
          return NONE;
        }
        cur := next;
        tok := scanner.Next();
        left := left[1..];
      }
      ino := cur;
    }

    /** resolve_parent: split at the last slash. */
    method ResolveParentOf(path: string) returns (p: Parent)
      requires Valid() && '\0' !in path
      ensures p == ResolveParent(Vol(), cwd, path)
    {
      var slash := StrRChr(path);
      var name := TruncName(path[slash + 1..]);
      if slash < 0 {
        return Parent(cwd, name);
      }
      if slash == 0 {
        return Parent(ROOT, name);
      }
      var ino := ResolvePath(path[..slash]);
      p := Parent(ino, name);
    }

    // ---- metadata ----

    /** The superblock on disk is the cached one; the bitmaps always are on disk. */
    ghost predicate Flushed()
      reads this
    {
      storedSb == sb
    }

    method FlushMetadata()
      requires Valid()
      modifies this`storedSb
      ensures Valid() && Flushed() && State() == old(State())
    {
      storedSb := sb;
    }

    // ---- public operations ----

    method Mkdir(path: string) returns (ok: bool)
      requires Valid() && '\0' !in path
      modifies this
      ensures Valid() && cwd == old(cwd) && cwdPath == old(cwdPath)
      ensures Step(Vol(), ok) == Ops.Mkdir(old(State()), path)
      ensures ok ==> Flushed()
    {
      var p := ResolveParentOf(path);
      if p.ino == NONE {
        return false;
      }
      var present := DirLookup(p.ino, p.name);
      if present != NONE {
        return false;
      }
      ok := MakeDir(p.ino, p.name);
      if ok {
        FlushMetadata();
      }
    }

    method MakeDir(parent: nat, name: string) returns (ok: bool)
      requires Valid()
      modifies this
      ensures Valid() && cwd == old(cwd) && cwdPath == old(cwdPath)
      ensures Step(Vol(), ok) == Ops.MakeDir(old(Vol()), parent, name)
    {
      var i := AllocInode();
      if i == NONE {
        return false;
      }
      var b := AllocBlock();
      if b == NONE {
        return false;
      }
      blocks := blocks[b := Slots(BLANK_SLOTS)];
      inodes := inodes[i := Ops.NewDirInode(b)];
      ok := DirAddEntry(i, ".", i, Dir);
      if !ok {
        return false;
      }
      ok := DirAddEntry(i, "..", parent, Dir);
      if !ok {
        return false;
      }
      ok := DirAddEntry(parent, name, i, Dir);
    }

    method Touch(path: string) returns (ok: bool)
      requires Valid() && '\0' !in path
      modifies this
      ensures Valid() && cwd == old(cwd) && cwdPath == old(cwdPath)
      ensures Step(Vol(), ok) == Ops.Touch(old(State()), path)
      ensures ok && old(Flushed()) ==> Flushed()
    {
      var existing := ResolvePath(path);
      if existing != NONE {
        return true;
      }
      var p := ResolveParentOf(path);
      if p.ino == NONE {
        return false;
      }
      ok := MakeFile(p.ino, p.name);
      if ok {
        FlushMetadata();
      }
    }

    /** The part of touch that creates. */
    method MakeFile(parent: nat, name: string) returns (ok: bool)
      requires Valid()
      modifies this
      ensures Valid() && cwd == old(cwd) && cwdPath == old(cwdPath)
      ensures Step(Vol(), ok) == Ops.MakeFile(old(Vol()), parent, name)
    {
      var i := AllocInode();
      if i == NONE {
        return false;
      }
      inodes := inodes[i := Inode(Reg, 1, 0, [])];
      ok := DirAddEntry(parent, name, i, Reg);
    }

    /** One turn of the block loop: a block for the next chunk, unless extents or blocks have run out. */
    method StoreTurn(exts: seq<Extent>, data: seq<byte>, written: nat, ghost whole: Ops.Written)
      returns (more: bool, exts': seq<Extent>)
      requires Valid() && Storing(whole, Vol(), exts, data, written) && written < |data|
      modifies this
      ensures Valid() && cwd == old(cwd) && cwdPath == old(cwdPath)
      ensures more ==> Storing(whole, Vol(), exts', data, written + ChunkSize(|data| - written))
      ensures !more ==> whole == Ops.Written(Vol(), false, exts')
    {
      ghost var before := Vol();
      if |exts| >= MAX_EXTENTS {
        StoreStops(whole, before, exts, data, written);
        return false, exts;
      }
      var b := AllocBlock();
      if b == NONE {
        StoreStops(whole, before, exts, data, written);
        return false, exts;
      }
      blocks := blocks[b := Bytes(Ops.Pad(data[written..written + ChunkSize(|data| - written)]))];
      StoreNext(whole, before, exts, data, written, Volume.AllocBlock(before), Vol());
      more, exts' := true, AddBlock(exts, b);
    }

    /** The block loop of the write. */
    method StoreData(data: seq<byte>) returns (ok: bool, exts: seq<Extent>)
      requires Valid()
      modifies this
      ensures Valid() && cwd == old(cwd) && cwdPath == old(cwdPath)
      ensures Ops.Written(Vol(), ok, exts) == Ops.WriteLoop(old(Vol()), [], data)
    {
      ghost var whole := Ops.WriteLoop(Vol(), [], data);
      exts := [];
      var written := 0;
      StoreStart(Vol(), data, whole);
      while written < |data|
        invariant Valid() && cwd == old(cwd) && cwdPath == old(cwdPath)
        invariant Storing(whole, Vol(), exts, data, written)
      {
        var more;
        more, exts := StoreTurn(exts, data, written, whole);
        if !more {
          return false, exts;
        }
        written := written + ChunkSize(|data| - written);
      }
      StoreDone(whole, Vol(), exts, data);
      ok := true;
    }

    method Overwrite(i: nat, data: seq<byte>) returns (ok: bool)
      requires Valid() && Mapped(Vol(), i)
      modifies this
      ensures Valid() && cwd == old(cwd) && cwdPath == old(cwdPath)
      ensures Step(Vol(), ok) == Ops.Overwrite(old(Vol()), i, data)
      ensures ok ==> Flushed()
    {
      if i >= |inodes| {
        return false;
      }
      var node := inodes[i];
      if node.ftype == Dir {
        return false;
      }
      FreeExtents(node.extents);
      var exts;
      ok, exts := StoreData(data);
      if ok {
        inodes := inodes[i := node.(extents := exts, size := |data|)];
        FlushMetadata();
      }
    }

    method WriteFile(path: string, data: seq<byte>) returns (ok: bool)
      requires Valid() && '\0' !in path && TargetMapped(State(), path)
      modifies this
      ensures Valid() && cwd == old(cwd) && cwdPath == old(cwdPath)
      ensures Step(Vol(), ok) == Ops.WriteFile(old(State()), path, data)
      ensures ok ==> Flushed()
    {
      var i := ResolvePath(path);
      if i == NONE {
        ok := Touch(path);
        if !ok {
          return false;
        }
        i := ResolvePath(path);
        if i == NONE {
          return false;
        }
      }
      ok := Overwrite(i, data);
    }

    method Rm(path: string) returns (ok: bool)
      requires Valid() && '\0' !in path && Mapped(Vol(), Resolve(Vol(), cwd, path))
      modifies this
      ensures Valid() && cwd == old(cwd) && cwdPath == old(cwdPath)
      ensures Step(Vol(), ok) == Ops.Rm(old(State()), path)
      ensures ok ==> Flushed()
    {
      var i := ResolvePath(path);
      if i == NONE || i == ROOT || i == cwd || i >= |inodes| {
        return false;
      }
      var node := inodes[i];
      if node.ftype == Dir {
        var empty := HoldsOnlyDots(blocks, node.extents);
        if !empty {
          return false;
        }
      }
      FreeExtents(node.extents);
      FreeInode(i);
      var p := ResolveParentOf(path);
      if p.ino != NONE {
        var removed := DirRemoveEntry(p.ino, p.name);
      }
      FlushMetadata();
      ok := true;
    }

    /** kzeros_cat: what it prints, the blocks in order and the last one cut at the file size; None when it
      * fails, whatever it has printed by then. */
    method ReadFile(path: string) returns (r: Ops.Option<seq<byte>>)
      requires Valid() && '\0' !in path
      ensures r == Ops.ReadFile(State(), path)
    {
      var i := ResolvePath(path);
      if i == NONE || i >= |inodes| || inodes[i].ftype == Dir {
        return Ops.None;
      }
      var ok, data := Collect(blocks, inodes[i].extents, inodes[i].size);
      r := if ok then Ops.Some(data) else Ops.None;
    }

    method Cd(path: string) returns (ok: bool)
      requires Valid() && '\0' !in path
      modifies this`cwd, this`cwdPath
      ensures Valid()
      ensures Ops.Moved(State(), ok) == KCd(old(State()), path)
    {
      var target := if path == "" then "/" else path;
      var i := ResolvePath(target);
      if i == NONE || i >= |inodes| || inodes[i].ftype != Dir {
        return false;
      }
      cwd := i;
      cwdPath := KNextCwdPath(cwdPath, target);
      ok := true;
    }
  }
}
