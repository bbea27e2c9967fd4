/** The public operations of fs/zeros_mount.c on a mounted file system. */
module Operations {
  import opened ZerosFs
  import opened Extents
  import opened Directory
  import opened Volume
  import opened Paths

  /** A mount: the volume and the current directory. */
  datatype Mounted = Mounted(disk: Disk, cwd: nat, cwdPath: string)

  // ---- mkdir ----

  function NewDirInode(b: nat): Inode {
    Inode(Dir, 2, 0, [Extent(b, 1)])
  }

  /** The part of mkdir after the two allocations. */
  function FillNewDir(d: Disk, parent: nat, name: string, i: nat, b: nat): Step
    requires i < |d.inodes| && b < |d.blocks|
  {
    var blank := PutInode(PutBlock(d, b, Slots(BLANK_SLOTS)), i, NewDirInode(b));
    var dot := DirAdd(blank, i, ".", i, Dir);
    if !dot.ok then dot
    else
      var dotdot := DirAdd(dot.disk, i, "..", parent, Dir);
      if !dotdot.ok then dotdot else DirAdd(dotdot.disk, parent, name, i, Dir)
  }

  /** Allocation of the inode, then of the block; a failure keeps what was taken. */
  function MakeDir(d: Disk, parent: nat, name: string): Step {
    var a := AllocInode(d);
    if a.at == NONE then Step(d, false)
    else
      var b := AllocBlock(a.disk);
      if b.at == NONE then Step(a.disk, false)
      else FillNewDir(b.disk, parent, name, a.at, b.at)
  }

  /** zeros_mkdir (fs/zeros_mount.c:516-557). */
  function Mkdir(fs: Mounted, path: string): Step {
    var p := ResolveParent(fs.disk, fs.cwd, path);
    if p.ino == NONE || Lookup(fs.disk, p.ino, p.name) != NONE then Step(fs.disk, false)
    else MakeDir(fs.disk, p.ino, p.name)
  }

  // ---- touch ----

  function MakeFile(d: Disk, parent: nat, name: string): Step {
    var a := AllocInode(d);
    if a.at == NONE then Step(d, false)
    else DirAdd(PutInode(a.disk, a.at, Inode(Reg, 1, 0, [])), parent, name, a.at, Reg)
  }

  /** kzeros_touch (kernel/kzeros.c:428-447), and zeros_touch of a path that is missing or names an inode of the
    * table: timestamps are not modelled. */
  function Touch(fs: Mounted, path: string): Step {
    if Resolve(fs.disk, fs.cwd, path) != NONE then Step(fs.disk, true)
    else
      var p := ResolveParent(fs.disk, fs.cwd, path);
      if p.ino == NONE then Step(fs.disk, false) else MakeFile(fs.disk, p.ino, p.name)
  }

  // ---- numbers outside the inode table ----

  /** The block in which read_inode looks for a number; it compares it with nothing. */
  function NumberBlock(d: Disk, i: nat): (b: nat)
    ensures b < 0x1_0000_0000 && (d.sb.inodeTableStart + i / 8 - b) % 0x1_0000_0000 == 0
  {
    Add32(d.sb.inodeTableStart, i / INODES_PER_BLOCK)
  }

  /** read_inode finds something, but not an inode of the table. */
  predicate Astray(d: Disk, i: nat) {
    i != NONE && |d.inodes| <= i && NumberBlock(d, i) < |d.blocks|
  }

  /** read_inode fails: the block lies past the end of the device. */
  predicate PastEnd(d: Disk, i: nat) {
    i != NONE && |d.inodes| <= i && NumberBlock(d, i) >= |d.blocks|
  }

  /** zeros_touch (fs/zeros_mount.c:559-592) reads and rewrites the inode of a path it finds. Outside the
    * table that fails, or puts the clock into whatever block is there; `stamped` is what that block holds then. */
  function TouchAnywhere(fs: Mounted, path: string, stamped: Block): Step {
    var i := Resolve(fs.disk, fs.cwd, path);
    if Astray(fs.disk, i) then Step(PutBlock(fs.disk, NumberBlock(fs.disk, i), stamped), true)
    else if PastEnd(fs.disk, i) then Step(fs.disk, false)
    else Touch(fs, path)
  }

  // ---- write ----

  function Pad(chunk: seq<byte>): Sector
    requires |chunk| <= BLOCK_SIZE
  {
    chunk + seq(BLOCK_SIZE - |chunk|, _ => 0)
  }

  datatype Written = Written(disk: Disk, ok: bool, extents: seq<Extent>)

  /** The block loop of zeros_write_file (fs/zeros_mount.c:623-652). */
  function WriteLoop(d: Disk, exts: seq<Extent>, data: seq<byte>): (w: Written)
    ensures w.disk.inodes == d.inodes && w.disk.inodeBits == d.inodeBits
    decreases |data|
  {
    if data == [] then Written(d, true, exts)
    else if |exts| >= MAX_EXTENTS then Written(d, false, exts)
    else
      var a := AllocBlock(d);
      if a.at == NONE then Written(d, false, exts)
      else
        var n := if |data| > BLOCK_SIZE then BLOCK_SIZE else |data|;
        WriteLoop(PutBlock(a.disk, a.at, Bytes(Pad(data[..n]))), AddBlock(exts, a.at), data[n..])
  }

  /** Replacing the contents of an existing inode. */
  function Overwrite(d: Disk, i: nat, data: seq<byte>): Step {
    if i >= |d.inodes| || d.inodes[i].ftype == Dir || !Readable(d.blocks, BlocksOf(d, i)) then Step(d, false)
    else
      var w := WriteLoop(FreeBlocks(d, BlocksOf(d, i)), [], data);
      if !w.ok then Step(w.disk, false)
      else Step(PutInode(w.disk, i, d.inodes[i].(extents := w.extents, size := |data|)), true)
  }

  /** zeros_write_file (fs/zeros_mount.c:594-657). */
  function WriteFile(fs: Mounted, path: string, data: seq<byte>): Step {
    var i := Resolve(fs.disk, fs.cwd, path);
    if i != NONE then Overwrite(fs.disk, i, data)
    else
      var t := Touch(fs, path);
      if !t.ok then t
      else
        var j := Resolve(t.disk, fs.cwd, path);
        if j == NONE then Step(t.disk, false) else Overwrite(t.disk, j, data)
  }

  // ---- rm ----

  predicate DotName(name: string) {
    name == "." || name == ".."
  }

  /** dir_is_empty (fs/zeros_mount.c:222-240). */
  predicate OnlyDots(slots: seq<Dirent>) {
    forall k | 0 <= k < |slots| && !slots[k].Free() :: DotName(slots[k].name)
  }

  /** Freeing blocks and inode, then removing the entry the path names. */
  function Remove(fs: Mounted, path: string, i: nat): Disk
    requires i < |fs.disk.inodes| && Readable(fs.disk.blocks, BlocksOf(fs.disk, i))
  {
    var d := FreeInode(FreeBlocks(fs.disk, BlocksOf(fs.disk, i)), i);
    var p := ResolveParent(d, fs.cwd, path);
    if p.ino == NONE then d else DirRemove(d, p.ino, p.name).disk
  }

  predicate MayRemove(fs: Mounted, i: nat) {
    && i != NONE && i != ROOT && i != fs.cwd
    && i < |fs.disk.inodes|
    && Readable(fs.disk.blocks, BlocksOf(fs.disk, i))
    && (fs.disk.inodes[i].ftype == Dir ==> OnlyDots(SlotsIn(fs.disk, i)))
  }

  /** zeros_rm (fs/zeros_mount.c:659-691). */
  function Rm(fs: Mounted, path: string): Step {
    var i := Resolve(fs.disk, fs.cwd, path);
    if MayRemove(fs, i) then Step(Remove(fs, path, i), true) else Step(fs.disk, false)
  }

  // ---- read ----

  datatype Option<T> = None | Some(value: T)

  /** The blocks a read of `size` bytes touches: block k as long as bytes remain from 1024 * k on. */
  function Needed(bs: seq<nat>, size: nat): (r: seq<nat>)
    ensures r <= bs && forall k | 0 <= k < |bs| :: k < |r| <==> 1024 * k < size
  {
    if BlocksFor(size) <= |bs| then bs[..BlocksFor(size)] else bs
  }

  /** zeros_read_file (fs/zeros_mount.c:697-727); None for its null pointer. */
  function ReadFile(fs: Mounted, path: string): Option<seq<byte>> {
    var i := Resolve(fs.disk, fs.cwd, path);
    if i == NONE || i >= |fs.disk.inodes| || fs.disk.inodes[i].ftype == Dir then None
    else if !Readable(fs.disk.blocks, Needed(BlocksOf(fs.disk, i), fs.disk.inodes[i].size)) then None
    else Some(Content(fs.disk, i))
  }

  // ---- cd ----

  /** strncat bounded by the path buffer. */
  function Append(s: string, t: string): (r: string)
    ensures s <= r <= s + t && (|s + t| <= 1023 ==> r == s + t)
    ensures |s| <= 1023 < |s + t| ==> |r| == 1023
  {
    var room := PATH_BUFFER - 1 - |s|;
    if room <= 0 then s else if |t| <= room then s + t else s + t[..room]
  }

  function Chop(path: string): string {
    if |path| > 1 && path[|path| - 1] == '/' then path[..|path| - 1] else path
  }

  /** The prompt path after a successful cd (fs/zeros_mount.c:404-424). */
  function NextCwdPath(cwdPath: string, target: string): (next: string)
    requires cwdPath != "" && target != ""
    ensures next != ""
  {
    if target[0] == '/' then Chop(TruncPath(target))
    else if target == ".." then
      Chop(if LastSlash(cwdPath) > 0 then cwdPath[..LastSlash(cwdPath)] else "/")
    else
      var base := if cwdPath[|cwdPath| - 1] == '/' then cwdPath else Append(cwdPath, "/");
      Chop(Append(base, target))
  }

  datatype Moved = Moved(fs: Mounted, ok: bool)

  /** zeros_cd (fs/zeros_mount.c:389-427). */
  function Cd(fs: Mounted, path: string): Moved
    requires fs.cwdPath != ""
  {
    var target := if path == "" then "/" else path;
    var i := Resolve(fs.disk, fs.cwd, target);
    if i == NONE || i >= |fs.disk.inodes| || fs.disk.inodes[i].ftype != Dir then Moved(fs, false)
    else Moved(fs.(cwd := i, cwdPath := NextCwdPath(fs.cwdPath, target)), true)
  }
}
