/** The mounted file system as fs/zeros_mount.c keeps it: in-memory superblock and bitmaps,
  * updated in place, over a disk of inodes and blocks. Every method is proved against the
  * function of the same operation on the volume it represents. */
module Mount {
  import opened ZerosFs
  import opened Bitmap
  import opened Extents
  import opened Directory
  import opened Volume
  import opened Paths
  import opened KString
  import opened BlockLoops
  import FileSystem
  import MountTheorems
  import VolumeSteps
  import Ops = Operations

  /** d' is d with the first n blocks released. */
  ghost predicate Freed(d: Disk, bs: seq<nat>, n: nat, d': Disk) {
    n <= |bs| && Readable(d.blocks, bs) && d' == FreeBlocks(d, bs[..n])
  }

  lemma FreeBlocksNext(d: Disk, bs: seq<nat>, n: nat, d': Disk)
    requires Freed(d, bs, n, d') && n < |bs|
    ensures bs[n] < |d'.blockBits| && Freed(d, bs, n + 1, Volume.FreeBlock(d', bs[n]))
  {
    assert bs[..n + 1][..n] == bs[..n];
  }

  lemma FreedAll(d: Disk, bs: seq<nat>, d': Disk)
    requires Freed(d, bs, |bs|, d')
    ensures d' == FreeBlocks(d, bs)
  {
    assert bs[..|bs|] == bs;
  }

  datatype Metadata = Metadata(sb: Superblock, inodeBits: seq<bool>, blockBits: seq<bool>)

  /** The inodes a write to this path frees blocks of have all their extents on the disk. */
  ghost predicate TargetMapped(fs: Ops.Mounted, path: string) {
    && Mapped(fs.disk, Resolve(fs.disk, fs.cwd, path))
    && (Ops.Touch(fs, path).ok ==>
          Mapped(Ops.Touch(fs, path).disk, Resolve(Ops.Touch(fs, path).disk, fs.cwd, path)))
  }

  /** If inode i exists its extents lie on the disk. */
  ghost predicate Mapped(d: Disk, i: nat) {
    i < |d.inodes| ==> Readable(d.blocks, BlocksOf(d, i))
  }

  class ZerosMount {
    var sb: Superblock
    const inodeBits: array<bool>
    const blockBits: array<bool>
    var inodes: seq<Inode>      // the inode table on disk
    var blocks: seq<Block>      // the blocks on disk
    var stored: Metadata        // superblock and bitmaps as last written to disk
    var cwd: nat
    var cwdPath: string

    ghost predicate Valid()
      reads this, inodeBits, blockBits
    {
      && inodeBits != blockBits
      && Shaped(Image(sb, inodeBits[..], blockBits[..], inodes, blocks))
      && cwdPath != ""
    }

    /** The volume these fields represent. */
    ghost function Vol(): Disk
      requires Valid()
      reads this, inodeBits, blockBits
    {
      Image(sb, inodeBits[..], blockBits[..], inodes, blocks)
    }

    ghost function State(): Ops.Mounted
      requires Valid()
      reads this, inodeBits, blockBits
    {
      Ops.Mounted(Vol(), cwd, cwdPath)
    }

    /** zeros_mount_open once the magic number is accepted: load the metadata, start at the root. */
    constructor Load(meta: Metadata, inodes: seq<Inode>, blocks: seq<Block>)
      requires Shaped(Image(meta.sb, meta.inodeBits, meta.blockBits, inodes, blocks))
      ensures Valid() && Flushed() && fresh(inodeBits) && fresh(blockBits)
      ensures State() == Ops.Mounted(Image(meta.sb, meta.inodeBits, meta.blockBits, inodes, blocks), ROOT, "/")
    {
      this.sb, this.inodes, this.blocks, stored := meta.sb, inodes, blocks, meta;
      inodeBits := new bool[|meta.inodeBits|](i requires 0 <= i < |meta.inodeBits| => meta.inodeBits[i]);
      blockBits := new bool[|meta.blockBits|](i requires 0 <= i < |meta.blockBits| => meta.blockBits[i]);
      cwd, cwdPath := ROOT, "/";
      new;
      assert inodeBits[..] == meta.inodeBits && blockBits[..] == meta.blockBits;
    }

    /** zeros_mount_open: null when the magic number is wrong. */
    static method Open(meta: Metadata, inodes: seq<Inode>, blocks: seq<Block>) returns (m: ZerosMount?)
      requires Shaped(Image(meta.sb, meta.inodeBits, meta.blockBits, inodes, blocks))
      ensures m == null <==> meta.sb.magic != MAGIC
      ensures m != null ==>
        && fresh(m) && m.Valid() && m.Flushed()
        && m.State() == Ops.Mounted(Image(meta.sb, meta.inodeBits, meta.blockBits, inodes, blocks), ROOT, "/")
    {
      if meta.sb.magic != MAGIC {
        return null;
      }
      m := new ZerosMount.Load(meta, inodes, blocks);
    }

    /** Unmounting after a flush and mounting again finds the same volume. */
    method Remount() returns (m: ZerosMount?)
      requires Valid() && Flushed() && sb.magic == MAGIC
      ensures m != null && fresh(m) && m.Valid() && m.State() == Ops.Mounted(Vol(), ROOT, "/")
    {
      m := Open(stored, inodes, blocks);
    }

    // ---- bitmaps ----

    method AllocInode() returns (at: nat)
      requires Valid()
      modifies this, inodeBits
      ensures Valid() && cwd == old(cwd) && cwdPath == old(cwdPath) && stored == old(stored)
      ensures Alloc(Vol(), at) == Volume.AllocInode(old(Vol()))
    {
      for i := 0 to sb.totalInodes
        invariant Valid() && Vol() == old(Vol()) && cwd == old(cwd) && cwdPath == old(cwdPath) && stored == old(stored)
        invariant forall j | 0 <= j < i :: inodeBits[j]
      {
        if !inodeBits[i] {
          FreeHeadIsLowest(inodeBits[..], 0, i);
          inodeBits[i] := true;
          sb := sb.(freeInodes := Dec32(sb.freeInodes));
          return i;
        }
      }
      FreeEmpty(inodeBits[..], 0);
      at := NONE;
    }

    method AllocBlock() returns (at: nat)
      requires Valid()
      modifies this, blockBits
      ensures Valid() && cwd == old(cwd) && cwdPath == old(cwdPath) && stored == old(stored)
      ensures Alloc(Vol(), at) == Volume.AllocBlock(old(Vol()))
    {
      var i := sb.dataStart;
      while i < sb.totalBlocks
        invariant Valid() && Vol() == old(Vol()) && cwd == old(cwd) && cwdPath == old(cwdPath) && stored == old(stored)
        invariant sb.dataStart <= i && forall j | sb.dataStart <= j < i && j < blockBits.Length :: blockBits[j]
      {
        if !blockBits[i] {
          FreeHeadIsLowest(blockBits[..], sb.dataStart, i);
          blockBits[i] := true;
          sb := sb.(freeBlocks := Dec32(sb.freeBlocks));
          return i;
        }
        i := i + 1;
      }
      FreeEmpty(blockBits[..], sb.dataStart);
      at := NONE;
    }

    method FreeInode(i: nat)
      requires Valid() && i < inodeBits.Length
      modifies this, inodeBits
      ensures Valid() && cwd == old(cwd) && cwdPath == old(cwdPath) && stored == old(stored)
      ensures Vol() == Volume.FreeInode(old(Vol()), i)
    {
      inodeBits[i] := false;
      sb := sb.(freeInodes := Inc32(sb.freeInodes));
    }

    method FreeBlock(b: nat)
      requires Valid() && b < blockBits.Length
      modifies this, blockBits
      ensures Valid() && cwd == old(cwd) && cwdPath == old(cwdPath) && stored == old(stored)
      ensures Vol() == Volume.FreeBlock(old(Vol()), b)
    {
      blockBits[b] := false;
      sb := sb.(freeBlocks := Inc32(sb.freeBlocks));
    }

    /** The loops that release every block of an inode. */
    method FreeExtents(exts: seq<Extent>)
      requires Valid() && Readable(blocks, Blocks(exts))
      modifies this, blockBits
      ensures Valid() && cwd == old(cwd) && cwdPath == old(cwdPath) && stored == old(stored)
      ensures Vol() == FreeBlocks(old(Vol()), Blocks(exts))
    {
      ghost var d, bs := Vol(), Blocks(exts);
      VisitsAll(exts);
      for e := 0 to |exts|
        invariant Valid() && cwd == old(cwd) && cwdPath == old(cwdPath) && stored == old(stored)
        invariant Freed(d, bs, Position(exts, e, 0), Vol())
      {
        VisitsInOrder(exts, e);
        FreeExtent(exts, e, d, bs);
      }
      FreedAll(d, bs, Vol());
    }

    /** The inner loop: the blocks of one extent. */
    method FreeExtent(exts: seq<Extent>, e: nat, ghost d: Disk, ghost bs: seq<nat>)
      requires Valid() && e < |exts| && bs == Blocks(exts) && Freed(d, bs, Position(exts, e, 0), Vol())
      modifies this, blockBits
      ensures Valid() && cwd == old(cwd) && cwdPath == old(cwdPath) && stored == old(stored)
      ensures Freed(d, bs, Position(exts, e, exts[e].len), Vol())
    {
      VisitsInOrder(exts, e);
      for b := 0 to exts[e].len
        invariant Valid() && cwd == old(cwd) && cwdPath == old(cwdPath) && stored == old(stored)
        invariant Freed(d, bs, Position(exts, e, b), Vol())
      {
        FreeBlocksNext(d, bs, Position(exts, e, b), Vol());
        FreeBlock(Add32(exts[e].start, b));
      }
    }

    // ---- directories ----

    method DirLookup(dir: nat, name: string) returns (ino: nat)
      requires Valid()
      ensures ino == Lookup(Vol(), dir, name)
    {
      if dir >= |inodes| {
        return NONE;
      }
      var r := Scan(blocks, inodes[dir].extents, Named(name));
      match r
      case Found(b, i) =>
        SlotBlockReadable(blocks, BlocksOf(Vol(), dir), Find(SlotsIn(Vol(), dir), Named(name)));
        ino := SlotsOf(blocks[b])[i].ino;
      case _ => ino := NONE;
    }

    method DirAddEntry(dir: nat, name: string, child: nat, t: FileType) returns (ok: bool)
      requires Valid()
      modifies this, blockBits
      ensures Valid() && cwd == old(cwd) && cwdPath == old(cwdPath) && stored == old(stored)
      ensures Step(Vol(), ok) == DirAdd(old(Vol()), dir, name, child, t)
    {
      if dir >= |inodes| {
        return false;
      }
      var node, entry := inodes[dir], Dirent(child, t, TruncName(name));
      var r := Scan(blocks, node.extents, FreeSlot);
      match r
      case Unreadable => ok := false;
      case Found(b, i) =>
        blocks := blocks[b := Slots(SlotsOf(blocks[b])[i := entry])];
        inodes := inodes[dir := node.(size := node.size + DIRENT_SIZE)];
        ok := true;
      case Missing => ok := GrowDir(dir, entry);
    }

    /** The tail of dir_add_entry: no free slot, so a new one-block extent. */
    method GrowDir(dir: nat, entry: Dirent) returns (ok: bool)
      requires Valid() && dir < |inodes|
      modifies this, blockBits
      ensures Valid() && cwd == old(cwd) && cwdPath == old(cwdPath) && stored == old(stored)
      ensures Step(Vol(), ok) == Grown(old(Vol()), dir, entry)
    {
      var node := inodes[dir];
      if |node.extents| >= MAX_EXTENTS {
        return false;
      }
      var b := AllocBlock();
      if b == NONE {
        return false;
      }
      blocks := blocks[b := Slots(BLANK_SLOTS[0 := entry])];
      inodes := inodes[dir := node.(extents := node.extents + [Extent(b, 1)], size := node.size + DIRENT_SIZE)];
      ok := true;
    }

    method DirRemoveEntry(dir: nat, name: string) returns (ok: bool)
      requires Valid()
      modifies this
      ensures Valid() && cwd == old(cwd) && cwdPath == old(cwdPath) && stored == old(stored)
      ensures Step(Vol(), ok) == DirRemove(old(Vol()), dir, name)
    {
      if dir >= |inodes| {
        return false;
      }
      var r := Scan(blocks, inodes[dir].extents, Named(name));
      if r.Found? {
        SlotBlockReadable(blocks, BlocksOf(Vol(), dir), Find(SlotsIn(Vol(), dir), Named(name)));
        var table := SlotsOf(blocks[r.block]);
        blocks := blocks[r.block := Slots(table[r.slot := table[r.slot].(ino := NONE)])];
        assert inodes[dir := inodes[dir].(size := inodes[dir].size)] == inodes;
        ok := true;
      } else {
        ok := false;
      }
    }

    // ---- paths ----

    /** resolve_path: a strtok loop over a private copy of the path. */
    method ResolvePath(path: string) returns (ino: nat)
      requires Valid() && '\0' !in path
      ensures ino == Resolve(Vol(), cwd, path)
    {
      if path == "" {
        return cwd;
      }
      if path == "/" {
        return ROOT;
      }
      var cur: nat := if path[0] == '/' then ROOT else cwd;
      var copy := TruncPath(path);
      ghost var d, start, toks := Vol(), cur, Tokens(copy);
      var scanner := new Tokenizer(copy);
      var tok := scanner.Next();
      ghost var left := toks;
      while tok.Token?
        invariant scanner.Valid() && fresh(scanner) && fresh(scanner.buf)
        invariant tok == if left == [] then NoToken else Token(left[0])
        invariant Tokens(scanner.Remaining()) == if left == [] then [] else left[1..]
        invariant Valid() && Vol() == d && Walk(d, start, toks) == Walk(d, cur, left)
        decreases |left|
      {
        var next := DirLookup(cur, tok.text);
        if next == NONE {
          return NONE;
        }
        cur := next;
        tok := scanner.Next();
        left := left[1..];
      }
      ino := cur;
    }

    /** resolve_parent: split at the last slash. */
    method ResolveParentOf(path: string) returns (p: Parent)
      requires Valid() && '\0' !in path
      ensures p == ResolveParent(Vol(), cwd, path)
    {
      var slash := StrRChr(path);
      var name := TruncName(path[slash + 1..]);
      if slash < 0 {
        return Parent(cwd, name);
      }
      if slash == 0 {
        return Parent(ROOT, name);
      }
      var ino := ResolvePath(path[..slash]);
      p := Parent(ino, name);
    }

    // ---- metadata ----

    /** The metadata on disk is what the mount holds in memory. */
    ghost predicate Flushed()
      reads this, inodeBits, blockBits
    {
      stored == Metadata(sb, inodeBits[..], blockBits[..])
    }

    method FlushMetadata()
      requires Valid()
      modifies this`stored
      ensures Valid() && Flushed()
      ensures State() == old(State())
    {
      stored := Metadata(sb, inodeBits[..], blockBits[..]);
    }

    // ---- public operations ----

    method Mkdir(path: string) returns (ok: bool)
      requires Valid() && '\0' !in path
      modifies this, inodeBits, blockBits
      ensures Valid() && cwd == old(cwd) && cwdPath == old(cwdPath)
      ensures Step(Vol(), ok) == Ops.Mkdir(old(State()), path)
      ensures ok ==> Flushed()
    {
      var p := ResolveParentOf(path);
      if p.ino == NONE {
        return false;
      }
      var present := DirLookup(p.ino, p.name);
      if present != NONE {
        return false;
      }
      ok := MakeDir(p.ino, p.name);
      if ok {
        FlushMetadata();
      }
    }

    method MakeDir(parent: nat, name: string) returns (ok: bool)
      requires Valid()
      modifies this, inodeBits, blockBits
      ensures Valid() && cwd == old(cwd) && cwdPath == old(cwdPath)
      ensures Step(Vol(), ok) == Ops.MakeDir(old(Vol()), parent, name)
    {
      var i := AllocInode();
      if i == NONE {
        return false;
      }
      var b := AllocBlock();
      if b == NONE {
        return false;
      }
      blocks := blocks[b := Slots(BLANK_SLOTS)];
      inodes := inodes[i := Ops.NewDirInode(b)];
      ok := DirAddEntry(i, ".", i, Dir);
      if !ok {
        return false;
      }
      ok := DirAddEntry(i, "..", parent, Dir);
      if !ok {
        return false;
      }
      ok := DirAddEntry(parent, name, i, Dir);
    }

    /** read_inode and write_inode with a new access time. */
    method StampInode(i: nat, stamped: Block) returns (ok: bool)
      requires Valid() && i != NONE
      modifies this`blocks
      ensures Valid()
      ensures Vol() == if Ops.Astray(old(Vol()), i) then PutBlock(old(Vol()), Ops.NumberBlock(old(Vol()), i), stamped)
                       else old(Vol())
      ensures ok <==> !Ops.PastEnd(old(Vol()), i)
    {
      if i < |inodes| {
        return true;
      }
      var b := Add32(sb.inodeTableStart, i / INODES_PER_BLOCK);
      if b >= |blocks| {
        return false;
      }
      blocks := blocks[b := stamped];
      ok := true;
    }

    method Touch(path: string, stamped: Block) returns (ok: bool)
      requires Valid() && '\0' !in path
      modifies this, inodeBits, blockBits
      ensures Valid() && cwd == old(cwd) && cwdPath == old(cwdPath)
      ensures Step(Vol(), ok) == Ops.TouchAnywhere(old(State()), path, stamped)
      ensures ok && old(Flushed()) ==> Flushed()
    {
      var existing := ResolvePath(path);
      if existing != NONE {
        ok := StampInode(existing, stamped);
        return;
      }
      var p := ResolveParentOf(path);
      if p.ino == NONE {
        return false;
      }
      ok := MakeFile(p.ino, p.name);
      if ok {
        FlushMetadata();
      }
    }

    /** The part of touch that creates. */
    method MakeFile(parent: nat, name: string) returns (ok: bool)
      requires Valid()
      modifies this, inodeBits, blockBits
      ensures Valid() && cwd == old(cwd) && cwdPath == old(cwdPath)
      ensures Step(Vol(), ok) == Ops.MakeFile(old(Vol()), parent, name)
    {
      var i := AllocInode();
      if i == NONE {
        return false;
      }
      inodes := inodes[i := Inode(Reg, 1, 0, [])];
      ok := DirAddEntry(parent, name, i, Reg);
    }

    /** One turn of the block loop: a block for the next chunk, unless extents or blocks have run out. */
    method StoreTurn(exts: seq<Extent>, data: seq<byte>, written: nat, ghost whole: Ops.Written)
      returns (more: bool, exts': seq<Extent>)
      requires Valid() && Storing(whole, Vol(), exts, data, written) && written < |data|
      modifies this, blockBits
      ensures Valid() && cwd == old(cwd) && cwdPath == old(cwdPath)
      ensures more ==> Storing(whole, Vol(), exts', data, written + ChunkSize(|data| - written))
      ensures !more ==> whole == Ops.Written(Vol(), false, exts')
    {
      ghost var before := Vol();
      if |exts| >= MAX_EXTENTS {
        StoreStops(whole, before, exts, data, written);
        return false, exts;
      }
      var b := AllocBlock();
      if b == NONE {
        StoreStops(whole, before, exts, data, written);
        return false, exts;
      }
      blocks := blocks[b := Bytes(Ops.Pad(data[written..written + ChunkSize(|data| - written)]))];
      StoreNext(whole, before, exts, data, written, Volume.AllocBlock(before), Vol());
      more, exts' := true, AddBlock(exts, b);
    }

    /** The block loop of the write. */
    method StoreData(data: seq<byte>) returns (ok: bool, exts: seq<Extent>)
      requires Valid()
      modifies this, blockBits
      ensures Valid() && cwd == old(cwd) && cwdPath == old(cwdPath)
      ensures Ops.Written(Vol(), ok, exts) == Ops.WriteLoop(old(Vol()), [], data)
    {
      ghost var whole := Ops.WriteLoop(Vol(), [], data);
      exts := [];
      var written := 0;
      StoreStart(Vol(), data, whole);
      while written < |data|
        invariant Valid() && cwd == old(cwd) && cwdPath == old(cwdPath)
        invariant Storing(whole, Vol(), exts, data, written)
      {
        var more;
        more, exts := StoreTurn(exts, data, written, whole);
        if !more {
          return false, exts;
        }
        written := written + ChunkSize(|data| - written);
      }
      StoreDone(whole, Vol(), exts, data);
      ok := true;
    }

    method Overwrite(i: nat, data: seq<byte>) returns (ok: bool)
      requires Valid() && Mapped(Vol(), i)
      modifies this, inodeBits, blockBits
      ensures Valid() && cwd == old(cwd) && cwdPath == old(cwdPath)
      ensures Step(Vol(), ok) == Ops.Overwrite(old(Vol()), i, data)
      ensures ok ==> Flushed()
    {
      if i >= |inodes| {
        return false;
      }
      var node := inodes[i];
      if node.ftype == Dir {
        return false;
      }
      FreeExtents(node.extents);
      var exts;
      ok, exts := StoreData(data);
      if ok {
        inodes := inodes[i := node.(extents := exts, size := |data|)];
        FlushMetadata();
      }
    }

    method WriteFile(path: string, data: seq<byte>) returns (ok: bool)
      requires Valid() && '\0' !in path && TargetMapped(State(), path)
      modifies this, inodeBits, blockBits
      ensures Valid() && cwd == old(cwd) && cwdPath == old(cwdPath)
      ensures Step(Vol(), ok) == Ops.WriteFile(old(State()), path, data)
      ensures ok ==> Flushed()
    {
      var i := ResolvePath(path);
      if i == NONE {
        ok := Touch(path, Bytes(Ops.Pad([])));    // the path is missing: nothing is stamped
        if !ok {
          return false;
        }
        i := ResolvePath(path);
        if i == NONE {
          return false;
        }
      }
      ok := Overwrite(i, data);
    }

    method Rm(path: string) returns (ok: bool)
      requires Valid() && '\0' !in path && Mapped(Vol(), Resolve(Vol(), cwd, path))
      modifies this, inodeBits, blockBits
      ensures Valid() && cwd == old(cwd) && cwdPath == old(cwdPath)
      ensures Step(Vol(), ok) == Ops.Rm(old(State()), path)
      ensures ok ==> Flushed()
    {
      var i := ResolvePath(path);
      if i == NONE || i == ROOT || i == cwd || i >= |inodes| {
        return false;
      }
      var node := inodes[i];
      if node.ftype == Dir {
        var empty := HoldsOnlyDots(blocks, node.extents);
        if !empty {
          return false;
        }
      }
      FreeExtents(node.extents);
      FreeInode(i);
      var p := ResolveParentOf(path);
      if p.ino != NONE {
        var removed := DirRemoveEntry(p.ino, p.name);
      }
      FlushMetadata();
      ok := true;
    }

    /** zeros_read_file: the blocks in order, the last one cut at the file size. */
    method ReadFile(path: string) returns (r: Ops.Option<seq<byte>>)
      requires Valid() && '\0' !in path
      ensures r == Ops.ReadFile(State(), path)
    {
      var i := ResolvePath(path);
      if i == NONE || i >= |inodes| || inodes[i].ftype == Dir {
        return Ops.None;
      }
      var ok, data := Collect(blocks, inodes[i].extents, inodes[i].size);
      r := if ok then Ops.Some(data) else Ops.None;
    }

    method Cd(path: string) returns (ok: bool)
      requires Valid() && '\0' !in path
      modifies this`cwd, this`cwdPath
      ensures Valid()
      ensures Ops.Moved(State(), ok) == Ops.Cd(old(State()), path)
    {
      var target := if path == "" then "/" else path;
      var i := ResolvePath(target);
      if i == NONE || i >= |inodes| || inodes[i].ftype != Dir {
        return false;
      }
      cwd := i;
      cwdPath := Ops.NextCwdPath(cwdPath, target);
      ok := true;
    }
  }

  /** On a well-formed mount every inode a path names has its extents on the disk. */
  lemma WellFormedIsMapped(fs: Ops.Mounted, path: string)
    requires FileSystem.MountOk(fs) && FileSystem.PathSound(fs, path)
    ensures Mapped(fs.disk, Resolve(fs.disk, fs.cwd, path))
  {
    FileSystem.ResolveAgrees(fs, path);
    var i := Resolve(fs.disk, fs.cwd, path);
    if i != NONE {
      VolumeSteps.OwnedIsReadable(fs.disk, i);
    }
  }

  /** ... and a write has what it needs, whether the path exists already or not. */
  lemma WellFormedTargets(fs: Ops.Mounted, path: string)
    requires FileSystem.MountOk(fs) && FileSystem.PathOk(fs, path) && MountTheorems.Storable(fs, path)
    ensures TargetMapped(fs, path)
  {
    FileSystem.PathOkIsSound(fs, path);
    WellFormedIsMapped(fs, path);
    if Ops.Touch(fs, path).ok {
      MountTheorems.TouchedIsSound(fs, path);
      WellFormedIsMapped(MountTheorems.After(fs, Ops.Touch(fs, path)), path);
    }
  }
}
