/** A block of bytes read as eight 128-byte directory entries (fs/zeros_fs.h): what the directory loops see
  * when they are led through a regular file. */
module Dirents {
  import opened ZerosFs

  const FT_REG := 0x1000
  const FT_DIR := 0x2000

  /** The little-endian 32-bit number at an offset. */
  function Word(data: Sector, at: nat): nat
    requires at + 4 <= BLOCK_SIZE
  {
    (data[at] as nat) + 0x100 * (data[at + 1] as nat) + 0x1_0000 * (data[at + 2] as nat)
    + 0x100_0000 * (data[at + 3] as nat)
  }

  function TypeOf(word: nat): FileType {
    if word == FT_DIR then Dir else if word == FT_REG then Reg else OtherType(word)
  }

  /** The C string at an offset; it ends with the block at the latest. */
  function CName(data: Sector, at: nat): string
    requires at <= BLOCK_SIZE
    decreases BLOCK_SIZE - at
  {
    if at == BLOCK_SIZE || data[at] == 0 then "" else [data[at] as int as char] + CName(data, at + 1)
  }

  function DecodeSlot(data: Sector, k: nat): Dirent
    requires k < DIRENTS_PER_BLOCK
  {
    Dirent(Word(data, k * DIRENT_SIZE), TypeOf(Word(data, k * DIRENT_SIZE + 4)), CName(data, k * DIRENT_SIZE + 8))
  }

  function DecodeSlots(data: Sector): SlotTable {
    [DecodeSlot(data, 0), DecodeSlot(data, 1), DecodeSlot(data, 2), DecodeSlot(data, 3),
     DecodeSlot(data, 4), DecodeSlot(data, 5), DecodeSlot(data, 6), DecodeSlot(data, 7)]
  }

  /** Slot k spells a 32-bit number, lowest byte first, a type, and a name with its NUL. */
  ghost predicate Spells(data: Sector, k: nat, ino: Four, t: FileType, name: seq<byte>) {
    && k < 8 && |name| <= 119 && 0 !in name
    && (forall j | 0 <= j < 4 :: data[128 * k + j] == ino[j])
    && data[128 * k + 4] == 0 && data[128 * k + 5] == (if t == Dir then 0x20 else 0x10)
    && data[128 * k + 6] == 0 && data[128 * k + 7] == 0
    && (forall j | 0 <= j < |name| :: data[128 * k + 8 + j] == name[j]) && data[128 * k + 8 + |name|] == 0
  }

  function Chars(name: seq<byte>): string {
    seq(|name|, j requires 0 <= j < |name| => name[j] as int as char)
  }

  lemma {:induction false} NameReads(data: Sector, at: nat, name: seq<byte>)
    requires at + |name| < BLOCK_SIZE && 0 !in name && data[at + |name|] == 0
    requires forall j | 0 <= j < |name| :: data[at + j] == name[j]
    ensures CName(data, at) == Chars(name)
    decreases |name|
  {
    if name != [] {
      assert data[at] == name[0];
      NameReads(data, at + 1, name[1..]);
      assert Chars(name) == [name[0] as int as char] + Chars(name[1..]);
    }
  }

  /** Entry k of a block lies in its bytes 128k to 128k + 127: the inode's number in the first four, the type in the
    * next four, then the name. */
  lemma SlotReads(data: Sector, k: nat, ino: Four, t: FileType, name: seq<byte>)
    requires Spells(data, k, ino, t, name) && (t == Reg || t == Dir)
    ensures DecodeSlots(data)[k] == Dirent(Number(ino), t, Chars(name))
  {
    WordReads(data, 128 * k, ino);
    TypeReads(data, 128 * k + 4, t);
    NameReads(data, 128 * k + 8, name);
    DecodedAt(data, k);
  }

  lemma DecodedAt(data: Sector, k: nat)
    requires k < 8
    ensures DecodeSlots(data)[k] == DecodeSlot(data, k)
  {
  }

  lemma WordReads(data: Sector, at: nat, b: Four)
    requires at + 4 <= BLOCK_SIZE && forall j | 0 <= j < 4 :: data[at + j] == b[j]
    ensures Word(data, at) == Number(b)
  {
    assert data[at + 0] == b[0] && data[at + 1] == b[1] && data[at + 2] == b[2] && data[at + 3] == b[3];
  }

  lemma TypeReads(data: Sector, at: nat, t: FileType)
    requires at + 4 <= BLOCK_SIZE && (t == Reg || t == Dir)
    requires data[at] == 0 && data[at + 1] == (if t == Dir then 0x20 else 0x10)
    requires data[at + 2] == 0 && data[at + 3] == 0
    ensures TypeOf(Word(data, at)) == t
  {
  }

  /** Four bytes, and the number they stand for, lowest first. */
  type Four = s: seq<byte> | |s| == 4
    witness [0, 0, 0, 0]

  function Number(b: Four): nat {
    (b[0] as nat) + 0x100 * (b[1] as nat) + 0x1_0000 * (b[2] as nat) + 0x100_0000 * (b[3] as nat)
  }

  function ForgedByte(ino: Four, k: nat): byte {
    if k < 4 then ino[k] else if k == 5 then 0x10 else if k == 8 then 0x78 else 0
  }

  /** Bytes whose first entry says: this inode, a regular file, named "x". */
  predicate IsForged(data: Sector, ino: Four) {
    forall k | 0 <= k < BLOCK_SIZE :: data[k] == ForgedByte(ino, k)
  }

  /** Nothing keeps a file from holding them. */
  function ForgedSector(ino: Four): (data: Sector)
    ensures IsForged(data, ino)
  {
    seq(BLOCK_SIZE, k requires 0 <= k => ForgedByte(ino, k))
  }

  lemma ForgedReads(data: Sector, ino: Four)
    requires IsForged(data, ino)
    ensures DecodeSlots(data)[0] == Dirent(Number(ino), Reg, "x")
  {
    assert Word(data, 0) == Number(ino);
    assert Word(data, 4) == FT_REG;
    assert data[8] == 0x78 && data[9] == 0;
    assert CName(data, 9) == "";
    assert CName(data, 8) == "x";
  }
}
