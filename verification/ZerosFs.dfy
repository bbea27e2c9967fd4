/** Constants and on-disk records of the ZEROS filesystem (fs/zeros_fs.h).
  *
  * Bitmaps are sequences of bits, the inode table a sequence of inodes and the
  * data area a sequence of blocks. A block holds either file bytes or the eight
  * 128-byte directory slots; timestamps and permission bits are not modelled. */
module ZerosFs {

  const BLOCK_SIZE := 1024
  const BITS_PER_BLOCK := 8192
  const INODE_RATIO := 10
  const INODES_PER_BLOCK := 8
  const MAX_EXTENTS := 8
  const DIRENT_SIZE := 128
  const DIRENTS_PER_BLOCK := 8
  const NAME_MAX := 119
  const PATH_BUFFER := 1024
  const MAGIC := 0x5A45_524F
  const FS_VERSION := 1
  const ROOT := 0

  /** UINT32_MAX: "no inode", "no block", and the mark of a free directory slot. */
  const NONE := 0xFFFF_FFFF
  const TWO_32 := 0x1_0000_0000

  type byte = bv8

  datatype FileType = Reg | Dir | OtherType(bits: nat)

  datatype Extent = Extent(start: nat, len: nat)

  /** `extents` holds the first `extent_count` extents of the inode. */
  datatype Inode = Inode(ftype: FileType, links: nat, size: nat, extents: seq<Extent>)

  datatype Dirent = Dirent(ino: nat, ftype: FileType, name: string) {
    predicate Free() { ino == NONE }
  }

  /** A slot of a block filled with 0xFF bytes. */
  const BLANK := Dirent(NONE, OtherType(NONE), "")

  const BLANK_SLOTS: SlotTable := [BLANK, BLANK, BLANK, BLANK, BLANK, BLANK, BLANK, BLANK]

  type SlotTable = s: seq<Dirent> | |s| == DIRENTS_PER_BLOCK
    witness [BLANK, BLANK, BLANK, BLANK, BLANK, BLANK, BLANK, BLANK]

  type Sector = s: seq<byte> | |s| == BLOCK_SIZE
    witness seq(BLOCK_SIZE, _ => 0)

  datatype Block = Bytes(data: Sector) | Slots(slots: SlotTable)

  datatype Superblock = Superblock(
    magic: nat, version: nat, blockSize: nat,
    totalBlocks: nat, totalInodes: nat, freeBlocks: nat, freeInodes: nat,
    inodeBitmapStart: nat, inodeBitmapBlocks: nat,
    blockBitmapStart: nat, blockBitmapBlocks: nat,
    inodeTableStart: nat, inodeTableBlocks: nat,
    dataStart: nat)

  /** Unsigned 32-bit decrement and increment, with wrap-around. */
  function Dec32(x: nat): nat {
    if x == 0 then NONE else x - 1
  }

  /** Unsigned 32-bit addition. */
  function Add32(x: nat, y: nat): nat {
    (x + y) % TWO_32
  }

  function Inc32(x: nat): nat {
    (x + 1) % TWO_32
  }

  /** strncpy into a name buffer: at most NAME_MAX characters survive. */
  function TruncName(name: string): (cut: string)
    ensures cut <= name && |cut| == if |name| < 119 then |name| else 119
  {
    if |name| > NAME_MAX then name[..NAME_MAX] else name
  }
}
