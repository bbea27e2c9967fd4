/** The mounted volume: superblock, both bitmaps, inode table and block store,
  * with the primitive steps of fs/zeros_mount.c and its physical invariant. */
module Volume {
  import opened ZerosFs
  import opened Bitmap
  import opened Extents
  import opened Directory
  import opened Namespace

  datatype Image = Image(
    sb: Superblock,
    inodeBits: seq<bool>,    // one bit per inode, set when in use
    blockBits: seq<bool>,    // one bit per block, set when in use
    inodes: seq<Inode>,
    blocks: seq<Block>)

  /** The bitmaps, the table and the block store have the advertised sizes. */
  predicate Shaped(d: Image) {
    && |d.inodeBits| == |d.inodes| == d.sb.totalInodes <= NONE
    && |d.blockBits| == |d.blocks| == d.sb.totalBlocks <= NONE
  }

  const EMPTY_SUPERBLOCK := Superblock(0, 0, 0, 0, 0, 0, 0, 0, 0, 0, 0, 0, 0, 0)

  type Disk = d: Image | Shaped(d) witness Image(EMPTY_SUPERBLOCK, [], [], [], [])

  predicate Live(d: Disk, i: nat) {
    i < |d.inodeBits| && d.inodeBits[i]
  }

  function BlocksOf(d: Disk, i: nat): seq<nat> {
    if i < |d.inodes| then Blocks(d.inodes[i].extents) else []
  }

  function FreeBlockList(d: Disk): seq<nat> {
    FreeFrom(d.blockBits, d.sb.dataStart)
  }

  // ---- primitive steps ----

  /** A disk together with an allocated number, NONE when nothing was free. */
  datatype Alloc = Alloc(disk: Disk, at: nat)

  function AllocInode(d: Disk): Alloc {
    var free := FreeFrom(d.inodeBits, 0);
    if free == [] then Alloc(d, NONE)
    else Alloc(d.(inodeBits := d.inodeBits[free[0] := true],
                  sb := d.sb.(freeInodes := Dec32(d.sb.freeInodes))), free[0])
  }

  function AllocBlock(d: Disk): Alloc {
    var free := FreeBlockList(d);
    if free == [] then Alloc(d, NONE)
    else Alloc(d.(blockBits := d.blockBits[free[0] := true],
                  sb := d.sb.(freeBlocks := Dec32(d.sb.freeBlocks))), free[0])
  }

  function FreeInode(d: Disk, i: nat): Disk
    requires i < |d.inodeBits|
  {
    d.(inodeBits := d.inodeBits[i := false],
       sb := d.sb.(freeInodes := Inc32(d.sb.freeInodes)))
  }

  function FreeBlock(d: Disk, b: nat): Disk
    requires b < |d.blockBits|
  {
    d.(blockBits := d.blockBits[b := false],
       sb := d.sb.(freeBlocks := Inc32(d.sb.freeBlocks)))
  }

  function FreeBlocks(d: Disk, bs: seq<nat>): (d': Disk)
    requires Readable(d.blocks, bs)
    ensures d'.inodes == d.inodes && d'.blocks == d.blocks && d'.inodeBits == d.inodeBits
    ensures d'.sb == d.sb.(freeBlocks := d'.sb.freeBlocks)
    ensures forall b | 0 <= b < |d.blockBits| :: d'.blockBits[b] == (d.blockBits[b] && b !in bs)
  {
    if bs == [] then d else FreeBlock(FreeBlocks(d, bs[..|bs| - 1]), bs[|bs| - 1])
  }

  function PutInode(d: Disk, i: nat, node: Inode): Disk
    requires i < |d.inodes|
  {
    d.(inodes := d.inodes[i := node])
  }

  function PutBlock(d: Disk, b: nat, block: Block): Disk
    requires b < |d.blocks|
  {
    d.(blocks := d.blocks[b := block])
  }

  // ---- directory steps ----

  function SlotsIn(d: Disk, dir: nat): seq<Dirent> {
    DirSlots(d.blocks, BlocksOf(d, dir))
  }

  /** dir_lookup: the inode of the first slot with this name, or NONE. */
  function Lookup(d: Disk, dir: nat, name: string): nat {
    var slots := SlotsIn(d, dir);
    var k := Find(slots, Named(name));
    if k < |slots| then slots[k].ino else NONE
  }

  datatype Step = Step(disk: Disk, ok: bool)

  /** Rewriting slot k of a directory, and its inode's size. */
  function PutSlot(d: Disk, dir: nat, k: nat, e: Dirent, size: nat): Disk
    requires dir < |d.inodes| && k < |SlotsIn(d, dir)|
  {
    SlotBlockReadable(d.blocks, BlocksOf(d, dir), k);
    var b := BlocksOf(d, dir)[k / 8];
    PutInode(PutBlock(d, b, Slots(SlotsOf(d.blocks[b])[k % 8 := e])), dir, d.inodes[dir].(size := size))
  }

  /** Growing a directory by one fresh block whose first slot is e. */
  function Grown(d: Disk, dir: nat, e: Dirent): Step
    requires dir < |d.inodes|
  {
    var node, a := d.inodes[dir], AllocBlock(d);
    if |node.extents| >= MAX_EXTENTS || a.at == NONE then Step(d, false)
    else
      var put := PutBlock(a.disk, a.at, Slots(BLANK_SLOTS[0 := e]));
      Step(PutInode(put, dir, node.(extents := node.extents + [Extent(a.at, 1)],
                                    size := node.size + DIRENT_SIZE)), true)
  }

  /** dir_add_entry: reuse the first free slot, or grow the directory by one block. */
  function DirAdd(d: Disk, dir: nat, name: string, child: nat, t: FileType): Step {
    if dir >= |d.inodes| then Step(d, false)
    else
      var node := d.inodes[dir];
      var bs := Blocks(node.extents);
      var slots := DirSlots(d.blocks, bs);
      var k := Find(slots, FreeSlot);
      var e := Dirent(child, t, TruncName(name));
      if k < |slots| then
        Step(PutSlot(d, dir, k, e, node.size + DIRENT_SIZE), true)
      else if !Readable(d.blocks, bs) then Step(d, false)
      else Grown(d, dir, e)
  }

  /** dir_remove_entry: mark the first slot with this name free. */
  function DirRemove(d: Disk, dir: nat, name: string): Step {
    var slots := SlotsIn(d, dir);
    var k := Find(slots, Named(name));
    if k < |slots| then Step(PutSlot(d, dir, k, slots[k].(ino := NONE), d.inodes[dir].size), true)
    else Step(d, false)
  }

  lemma {:induction false} SlotBlockReadable(blocks: seq<Block>, bs: seq<nat>, k: nat)
    requires k < |DirSlots(blocks, bs)|
    ensures k / 8 < |bs| && bs[k / 8] < |blocks|
    ensures DirSlots(blocks, bs)[k] == SlotsOf(blocks[bs[k / 8]])[k % 8]
  {
    if k >= 8 {
      SlotBlockReadable(blocks, bs[1..], k - 8);
    }
  }

  // ---- file contents ----

  function BytesOf(b: Block): Sector {
    match b
    case Bytes(data) => data
    case Slots(_) => seq(BLOCK_SIZE, _ => 0)
  }

  /** The bytes of a block list, up to the first unreadable block. */
  function Gather(blocks: seq<Block>, bs: seq<nat>): seq<byte> {
    if bs == [] || bs[0] >= |blocks| then []
    else BytesOf(blocks[bs[0]]) + Gather(blocks, bs[1..])
  }

  function Content(d: Disk, i: nat): seq<byte> {
    if i >= |d.inodes| then []
    else
      FirstBytes(Gather(d.blocks, BlocksOf(d, i)), d.inodes[i].size)
  }

  function FirstBytes(raw: seq<byte>, size: nat): (r: seq<byte>)
    ensures r <= raw && |r| == if size < |raw| then size else |raw|
  {
    if size <= |raw| then raw[..size] else raw
  }

  function BlocksFor(size: nat): (n: nat)
    ensures size <= 1024 * n < size + 1024
  {
    (size + BLOCK_SIZE - 1) / BLOCK_SIZE
  }

  // ---- the physical invariant ----

  /** The counters equal the number of clear bits; metadata blocks are in use. */
  ghost predicate Counted(d: Disk) {
    && d.sb.dataStart <= |d.blockBits|
    && (forall b | 0 <= b < d.sb.dataStart :: d.blockBits[b])
    && d.sb.freeInodes == |FreeFrom(d.inodeBits, 0)|
    && d.sb.freeBlocks == |FreeBlockList(d)|
  }

  ghost predicate Owns(d: Disk, i: nat, b: nat) {
    Live(d, i) && b in BlocksOf(d, i)
  }

  ghost predicate HasOwner(d: Disk, b: nat) {
    exists i: nat :: Owns(d, i, b)
  }

  /** Every data block in use belongs to exactly one live inode, once. */
  ghost predicate Owned(d: Disk) {
    && (forall i: nat, b: nat :: Owns(d, i, b) ==> d.sb.dataStart <= b < |d.blockBits| && d.blockBits[b])
    && (forall i: nat {:trigger NoDup(BlocksOf(d, i))} | Live(d, i) :: NoDup(BlocksOf(d, i)))
    && (forall i: nat, j: nat, b: nat :: Owns(d, i, b) && Owns(d, j, b) ==> i == j)
    && (forall b {:trigger HasOwner(d, b)} | d.sb.dataStart <= b < |d.blockBits| && d.blockBits[b] :: HasOwner(d, b))
  }

  ghost predicate DirNodeOk(blocks: seq<Block>, node: Inode) {
    && (forall k | 0 <= k < |node.extents| :: node.extents[k].len == 1)
    && (forall b | b in Blocks(node.extents) && b < |blocks| :: blocks[b].Slots?)
    && UniqueNames(DirSlots(blocks, Blocks(node.extents)))
  }

  ghost predicate FileNodeOk(blocks: seq<Block>, node: Inode) {
    && (forall b | b in Blocks(node.extents) && b < |blocks| :: blocks[b].Bytes?)
    && (forall k | 0 <= k < |node.extents| :: node.extents[k].len >= 1)
    && |Blocks(node.extents)| == BlocksFor(node.size)
    && node.size < TWO_32
  }

  /** No extent runs past the last block number. */
  ghost predicate Unwrapped(exts: seq<Extent>) {
    forall k | 0 <= k < |exts| :: exts[k].start + exts[k].len <= NONE
  }

  ghost predicate NodeOk(blocks: seq<Block>, node: Inode) {
    && |node.extents| <= MAX_EXTENTS && Unwrapped(node.extents)
    && node.links > 0
    && (match node.ftype
        case Dir => DirNodeOk(blocks, node)
        case Reg => FileNodeOk(blocks, node)
        case OtherType(_) => false)
  }

  ghost predicate Typed(d: Disk) {
    forall i: nat {:trigger NodeOk(d.blocks, d.inodes[i])} | Live(d, i) :: NodeOk(d.blocks, d.inodes[i])
  }

  ghost predicate Physical(d: Disk) {
    Counted(d) && Owned(d) && Typed(d)
  }

  // ---- the abstract file system a volume represents ----

  ghost function KindMap(d: Disk): map<nat, FileType> {
    map i: nat | i < |d.inodes| && Live(d, i) :: d.inodes[i].ftype
  }

  ghost function DirMap(d: Disk): map<nat, map<string, Entry>> {
    map i: nat | i < |d.inodes| && Live(d, i) && d.inodes[i].ftype == Dir :: Entries(SlotsIn(d, i))
  }

  ghost function FileMap(d: Disk): map<nat, seq<byte>> {
    map i: nat | i < |d.inodes| && Live(d, i) && d.inodes[i].ftype == Reg :: Content(d, i)
  }

  ghost function View(d: Disk): Namespace {
    Namespace(KindMap(d), DirMap(d), FileMap(d))
  }
}
