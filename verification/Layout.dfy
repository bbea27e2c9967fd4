/** The layout arithmetic of fs/zeros_format.c, in unsigned 32-bit arithmetic. */
module Layout {
  import opened ZerosFs
  import opened FileSystem

  const MIN_DISK_SIZE := 64 * 1024

  function Wrap32(x: nat): nat {
    x % TWO_32
  }

  function DivCeil(a: nat, b: nat): nat
    requires b > 0
  {
    (a + b - 1) / b
  }

  /** The blocks of the inode table: a tenth of the disk, in 32-bit arithmetic, at least one. */
  function TableBlocks(total: nat): nat {
    var tenth := Wrap32(total * INODE_RATIO) / 100;
    if tenth == 0 then 1 else tenth
  }

  /** The superblock zeros_format computes for a device of `size` bytes, before any allocation. */
  function LayoutOf(size: nat): Superblock {
    var total := Wrap32(size / BLOCK_SIZE);
    var table := TableBlocks(total);
    var inodes := Wrap32(table * INODES_PER_BLOCK);
    var inodeMap := DivCeil(inodes, BITS_PER_BLOCK);
    var blockMap := DivCeil(total, BITS_PER_BLOCK);
    var dataStart := 1 + inodeMap + blockMap + table;
    Superblock(MAGIC, FS_VERSION, BLOCK_SIZE, total, inodes,
               if dataStart < total then total - dataStart else 0, inodes,
               1, inodeMap, 1 + inodeMap, blockMap, 1 + inodeMap + blockMap, table, dataStart)
  }

  /** Block b of the disk belongs to the region of `len` blocks from `start`. */
  predicate InRegion(b: nat, start: nat, len: nat) {
    start <= b < start + len
  }

  /** Number of regions block b belongs to. */
  function Regions(sb: Superblock, b: nat): nat {
    (if b == 0 then 1 else 0)
    + (if InRegion(b, sb.inodeBitmapStart, sb.inodeBitmapBlocks) then 1 else 0)
    + (if InRegion(b, sb.blockBitmapStart, sb.blockBitmapBlocks) then 1 else 0)
    + (if InRegion(b, sb.inodeTableStart, sb.inodeTableBlocks) then 1 else 0)
    + (if sb.dataStart <= b < sb.totalBlocks then 1 else 0)
  }

  lemma TableBounds(total: nat)
    requires total < TWO_32
    ensures Wrap32(total * INODE_RATIO) / 100 <= total / 10 && total / 10 <= 429_496_729
    ensures Wrap32(total * INODE_RATIO) / 100 <= 42_949_672
    ensures total * INODE_RATIO < TWO_32 ==> Wrap32(total * INODE_RATIO) / 100 == total / 10
  {
  }

  lemma CeilCovers(a: nat)
    ensures a <= DivCeil(a, BITS_PER_BLOCK) * BITS_PER_BLOCK
    ensures a > 0 ==> (DivCeil(a, BITS_PER_BLOCK) - 1) * BITS_PER_BLOCK < a
    ensures DivCeil(a, BITS_PER_BLOCK) <= a / BITS_PER_BLOCK + 1
  {
  }

  /** Whenever some data area is left, the layout is right: this holds for every device size, even
    * where the 32-bit arithmetic wraps around. */
  lemma LayoutIsOk(size: nat)
    requires LayoutOf(size).dataStart < LayoutOf(size).totalBlocks
    ensures LayoutOk(LayoutOf(size))
  {
    var sb := LayoutOf(size);
    TableBounds(sb.totalBlocks);
    CeilCovers(sb.totalInodes);
    CeilCovers(sb.totalBlocks);
  }

  /** Superblock, two bitmaps, inode table and data area tile the disk. */
  lemma RegionsTile(sb: Superblock, b: nat)
    requires LayoutOk(sb) && b < sb.totalBlocks
    ensures Regions(sb, b) == 1
  {
  }

  /** Metadata takes about an eighth of the blocks at most. */
  lemma MetadataIsSmall(total: nat, table: nat, inodeMap: nat, blockMap: nat)
    requires total >= 64 && table == total / 10
    requires inodeMap <= table * INODES_PER_BLOCK / BITS_PER_BLOCK + 1 && blockMap <= total / BITS_PER_BLOCK + 1
    ensures table >= 6 && 1 + inodeMap + blockMap + table + 54 <= total
  {
  }

  lemma TableExact(total: nat)
    requires total >= 64 && total * INODE_RATIO < TWO_32
    ensures TableBlocks(total) == total / 10 && Wrap32(total) == total
    ensures Wrap32(total / 10 * INODES_PER_BLOCK) == total / 10 * INODES_PER_BLOCK
  {
    assert Wrap32(total * INODE_RATIO) == total * INODE_RATIO;
  }

  /** The numbers of the layout where nothing wraps around. */
  lemma LayoutNumbers(size: nat, total: nat)
    requires total == size / BLOCK_SIZE && total >= 64 && total * INODE_RATIO < TWO_32
    ensures var sb := LayoutOf(size);
            && sb.totalBlocks == total && sb.totalInodes == total / 10 * INODES_PER_BLOCK
            && sb.inodeBitmapBlocks == DivCeil(sb.totalInodes, BITS_PER_BLOCK)
            && sb.blockBitmapBlocks == DivCeil(total, BITS_PER_BLOCK)
            && sb.dataStart == 1 + sb.inodeBitmapBlocks + sb.blockBitmapBlocks + total / 10
            && (sb.dataStart < total ==> sb.freeBlocks == total - sb.dataStart)
  {
    TableExact(total);
  }

  /** From 64 KB, below 2^32/10 blocks, the "too small" exit is unreachable and the root and the 22
    * initial directories always fit. */
  lemma LayoutHasRoom(size: nat)
    requires size >= MIN_DISK_SIZE && size / BLOCK_SIZE * INODE_RATIO < TWO_32
    ensures LayoutOk(LayoutOf(size))
    ensures LayoutOf(size).freeBlocks >= 54 && LayoutOf(size).totalInodes >= 48
  {
    var total, sb := size / BLOCK_SIZE, LayoutOf(size);
    LayoutNumbers(size, total);
    CeilCovers(sb.totalInodes);
    CeilCovers(total);
    MetadataIsSmall(total, total / 10, sb.inodeBitmapBlocks, sb.blockBitmapBlocks);
    LayoutIsOk(size);
  }

  /** Just above that bound the inode table wraps down to one block: eight inodes. */
  lemma LayoutWraps()
    ensures LayoutOf(429_496_730 * BLOCK_SIZE).totalInodes == 8
    ensures LayoutOk(LayoutOf(429_496_730 * BLOCK_SIZE))
  {
    LayoutIsOk(429_496_730 * BLOCK_SIZE);
  }
}
