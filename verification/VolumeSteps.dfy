/** How the primitive steps change the physical invariant and the abstract view. */
module VolumeSteps {
  import opened ZerosFs
  import opened Bitmap
  import opened Extents
  import opened Directory
  import opened Volume

  /** Inode j is stored identically in both volumes, blocks included. */
  ghost predicate SameNode(d: Disk, d': Disk, j: nat) {
    && j < |d.inodes| && j < |d'.inodes|
    && d.inodes[j] == d'.inodes[j]
    && |d.blocks| == |d'.blocks|
    && forall b | b in BlocksOf(d, j) && b < |d.blocks| :: d.blocks[b] == d'.blocks[b]
  }

  lemma {:induction false} GatherFrame(blocks: seq<Block>, blocks': seq<Block>, bs: seq<nat>)
    requires |blocks| == |blocks'|
    requires forall i | 0 <= i < |bs| && bs[i] < |blocks| :: blocks[bs[i]] == blocks'[bs[i]]
    ensures Gather(blocks, bs) == Gather(blocks', bs)
  {
    if bs != [] && bs[0] < |blocks| {
      GatherFrame(blocks, blocks', bs[1..]);
    }
  }

  lemma SameNodeFrame(d: Disk, d': Disk, j: nat)
    requires SameNode(d, d', j)
    ensures BlocksOf(d', j) == BlocksOf(d, j)
    ensures SlotsIn(d', j) == SlotsIn(d, j)
    ensures Content(d', j) == Content(d, j)
    ensures NodeOk(d.blocks, d.inodes[j]) <==> NodeOk(d'.blocks, d'.inodes[j])
  {
    var bs := BlocksOf(d, j);
    assert forall i | 0 <= i < |bs| && bs[i] < |d.blocks| :: bs[i] in bs;
    DirSlotsFrame(d.blocks, d'.blocks, bs);
    GatherFrame(d.blocks, d'.blocks, bs);
  }

  /** Only inode x differs between the two volumes. */
  ghost predicate OnlyNode(d: Disk, d': Disk, x: nat) {
    && |d.inodeBits| == |d'.inodeBits|
    && (forall j: nat | j != x :: Live(d, j) <==> Live(d', j))
    && (forall j: nat | j != x && Live(d, j) :: SameNode(d, d', j))
  }

  /** ... and then the abstract view differs at x only. */
  lemma KindsAwayFrom(d: Disk, d': Disk, x: nat)
    requires OnlyNode(d, d', x)
    ensures KindMap(d') - {x} == KindMap(d) - {x}
  {
    forall j: nat | j != x && Live(d, j) ensures d'.inodes[j] == d.inodes[j] {
      assert SameNode(d, d', j);
    }
  }

  lemma DirsAwayFrom(d: Disk, d': Disk, x: nat)
    requires OnlyNode(d, d', x)
    ensures DirMap(d') - {x} == DirMap(d) - {x}
  {
    forall j: nat | j != x && Live(d, j)
      ensures d'.inodes[j] == d.inodes[j] && SlotsIn(d', j) == SlotsIn(d, j)
    {
      SameNodeFrame(d, d', j);
    }
  }

  lemma FilesAwayFrom(d: Disk, d': Disk, x: nat)
    requires OnlyNode(d, d', x)
    ensures FileMap(d') - {x} == FileMap(d) - {x}
  {
    forall j: nat | j != x && Live(d, j)
      ensures d'.inodes[j] == d.inodes[j] && Content(d', j) == Content(d, j)
    {
      SameNodeFrame(d, d', j);
    }
  }

  lemma TypedAwayFrom(d: Disk, d': Disk, x: nat)
    requires Typed(d) && OnlyNode(d, d', x)
    requires Live(d', x) ==> NodeOk(d'.blocks, d'.inodes[x])
    ensures Typed(d')
  {
    forall j: nat | Live(d', j) ensures NodeOk(d'.blocks, d'.inodes[j]) {
      if j != x {
        SameNodeFrame(d, d', j);
      }
    }
  }

  lemma OnlyNodeTrans(a: Disk, b: Disk, c: Disk, x: nat)
    requires OnlyNode(a, b, x) && OnlyNode(b, c, x)
    ensures OnlyNode(a, c, x)
  {
    forall j: nat | j != x && Live(a, j) ensures SameNode(a, c, j) {
      assert SameNode(a, b, j) && SameNode(b, c, j);
    }
  }

  lemma OwnedIsReadable(d: Disk, x: nat)
    requires Owned(d) && Live(d, x)
    ensures Readable(d.blocks, BlocksOf(d, x)) && NoDup(BlocksOf(d, x))
  {
    var bs := BlocksOf(d, x);
    forall i | 0 <= i < |bs| ensures bs[i] < |d.blocks| {
      assert Owns(d, x, bs[i]);
    }
  }

  /** Rewriting a block of x touches no other inode. */
  lemma BlockIsPrivate(d: Disk, x: nat, b: nat)
    requires Owned(d) && Owns(d, x, b)
    ensures forall j: nat | j != x && Live(d, j) :: b !in BlocksOf(d, j)
  {
    forall j: nat | j != x && Live(d, j) ensures b !in BlocksOf(d, j) {
      assert b in BlocksOf(d, j) ==> Owns(d, j, b);
    }
  }

  // ---- attaching a freshly allocated block to a live inode ----

  function Attach(d: Disk, x: nat, node: Inode, block: Block): Disk
    requires FreeBlockList(d) != [] && x < |d.inodes|
  {
    PutInode(PutBlock(AllocBlock(d).disk, FreeBlockList(d)[0], block), x, node)
  }

  lemma AttachIsPrivate(d: Disk, x: nat, node: Inode, block: Block)
    requires Owned(d) && Live(d, x) && FreeBlockList(d) != []
    ensures OnlyNode(d, Attach(d, x, node, block), x)
  {
    var b, d' := FreeBlockList(d)[0], Attach(d, x, node, block);
    forall j: nat | j != x && Live(d, j) ensures SameNode(d, d', j) {
      assert b in BlocksOf(d, j) ==> Owns(d, j, b);
    }
  }

  lemma AttachKeepsCounts(d: Disk, x: nat, node: Inode, block: Block)
    requires Counted(d) && x < |d.inodes| && FreeBlockList(d) != []
    ensures Counted(Attach(d, x, node, block))
    ensures FreeBlockList(Attach(d, x, node, block)) == FreeBlockList(d)[1..]
  {
    FreeAfterAlloc(d.blockBits, d.sb.dataStart);
  }

  /** The blocks of x with one more at the end. */
  lemma OneMoreBlock(bs: seq<nat>, b: nat)
    requires NoDup(bs) && b !in bs
    ensures NoDup(bs + [b]) && forall c: nat :: c in bs + [b] <==> c in bs || c == b
  {
  }

  lemma FreeIsNotOwned(d: Disk, j: nat)
    requires Owned(d) && Live(d, j) && FreeBlockList(d) != []
    ensures FreeBlockList(d)[0] !in BlocksOf(d, j)
  {
    forall c: nat | c in BlocksOf(d, j) ensures c != FreeBlockList(d)[0] {
      assert Owns(d, j, c);
    }
  }

  /** d' is d with one more block owned, by x. */
  ghost predicate OwnsMore(d: Disk, d': Disk, x: nat, b: nat) {
    && d'.sb.dataStart == d.sb.dataStart && |d'.blockBits| == |d.blockBits| && d'.inodeBits == d.inodeBits
    && d.sb.dataStart <= b < |d.blockBits| && d'.blockBits == d.blockBits[b := true]
    && (forall j: nat, c: nat :: Owns(d', j, c) <==> Owns(d, j, c) || (j == x && c == b))
    && (forall j: nat :: !Owns(d, j, b))
  }

  lemma AttachOwns(d: Disk, x: nat, node: Inode, block: Block)
    requires Owned(d) && Live(d, x) && FreeBlockList(d) != []
    requires Blocks(node.extents) == BlocksOf(d, x) + [FreeBlockList(d)[0]]
    ensures OwnsMore(d, Attach(d, x, node, block), x, FreeBlockList(d)[0])
    ensures NoDup(BlocksOf(Attach(d, x, node, block), x))
  {
    var b, d' := FreeBlockList(d)[0], Attach(d, x, node, block);
    assert NoDup(BlocksOf(d, x));
    FreeIsNotOwned(d, x);
    OneMoreBlock(BlocksOf(d, x), b);
    forall j: nat ensures !Owns(d, j, b) {
      if Live(d, j) {
        FreeIsNotOwned(d, j);
      }
    }
    forall j: nat, c: nat ensures Owns(d', j, c) <==> Owns(d, j, c) || (j == x && c == b) {
      assert j != x ==> BlocksOf(d', j) == BlocksOf(d, j);
    }
  }

  lemma StillHasOwner(d: Disk, d': Disk, x: nat, b: nat, c: nat)
    requires OwnsMore(d, d', x, b) && (c == b || HasOwner(d, c))
    ensures HasOwner(d', c)
  {
    if c == b {
      assert Owns(d', x, b);
    } else {
      var j: nat :| Owns(d, j, c);
      assert Owns(d', j, c);
    }
  }

  lemma MoreOwned(d: Disk, d': Disk, x: nat, b: nat)
    requires Owned(d) && OwnsMore(d, d', x, b)
    requires forall j: nat {:trigger NoDup(BlocksOf(d', j))} | Live(d', j) :: NoDup(BlocksOf(d', j))
    ensures Owned(d')
  {
    forall c: nat | d'.sb.dataStart <= c < |d'.blockBits| && d'.blockBits[c] ensures HasOwner(d', c) {
      assert c != b ==> HasOwner(d, c);
      StillHasOwner(d, d', x, b, c);
    }
  }

  lemma AttachKeepsOwners(d: Disk, x: nat, node: Inode, block: Block)
    requires Owned(d) && Live(d, x) && FreeBlockList(d) != []
    requires Blocks(node.extents) == BlocksOf(d, x) + [FreeBlockList(d)[0]]
    ensures Owned(Attach(d, x, node, block))
  {
    var d' := Attach(d, x, node, block);
    AttachOwns(d, x, node, block);
    forall j: nat | Live(d', j) ensures NoDup(BlocksOf(d', j)) {
      assert j != x ==> BlocksOf(d', j) == BlocksOf(d, j) && NoDup(BlocksOf(d, j));
    }
    MoreOwned(d, d', x, FreeBlockList(d)[0]);
  }

  lemma AttachKeepsPhysical(d: Disk, x: nat, node: Inode, block: Block)
    requires Physical(d) && Live(d, x) && FreeBlockList(d) != []
    requires Blocks(node.extents) == BlocksOf(d, x) + [FreeBlockList(d)[0]]
    requires NodeOk(d.blocks[FreeBlockList(d)[0] := block], node)
    ensures Physical(Attach(d, x, node, block)) && OnlyNode(d, Attach(d, x, node, block), x)
    ensures FreeBlockList(Attach(d, x, node, block)) == FreeBlockList(d)[1..]
  {
    AttachIsPrivate(d, x, node, block);
    AttachKeepsCounts(d, x, node, block);
    AttachKeepsOwners(d, x, node, block);
    TypedAwayFrom(d, Attach(d, x, node, block), x);
  }

  // ---- rewriting an inode that keeps its blocks, and one of those blocks ----

  lemma RewriteKeepsOwners(d: Disk, d': Disk)
    requires Counted(d) && Owned(d)
    requires d'.sb == d.sb && d'.inodeBits == d.inodeBits && d'.blockBits == d.blockBits
    requires forall j: nat :: BlocksOf(d', j) == BlocksOf(d, j)
    ensures Counted(d') && Owned(d')
  {
    assert forall j: nat, c: nat :: Owns(d', j, c) <==> Owns(d, j, c);
    forall j: nat | Live(d', j) ensures NoDup(BlocksOf(d', j)) {
      assert NoDup(BlocksOf(d, j));
    }
    forall c: nat | d'.sb.dataStart <= c < |d'.blockBits| && d'.blockBits[c] ensures HasOwner(d', c) {
      assert HasOwner(d, c);
      var j: nat :| Owns(d, j, c);
      assert Owns(d', j, c);
    }
  }

  lemma RewriteIsPrivate(d: Disk, x: nat, node: Inode, b: nat, block: Block)
    requires Owned(d) && Owns(d, x, b)
    ensures b < |d.blocks|
    ensures OnlyNode(d, PutInode(PutBlock(d, b, block), x, node), x)
  {
    BlockIsPrivate(d, x, b);
  }

  // ---- a new inode without blocks ----

  function NewNode(d: Disk, node: Inode): Disk
    requires FreeFrom(d.inodeBits, 0) != []
  {
    PutInode(AllocInode(d).disk, FreeFrom(d.inodeBits, 0)[0], node)
  }

  lemma NewNodeKeepsPhysical(d: Disk, node: Inode)
    requires Physical(d) && FreeFrom(d.inodeBits, 0) != []
    requires node.extents == [] && NodeOk(d.blocks, node)
    ensures Physical(NewNode(d, node))
    ensures var i := FreeFrom(d.inodeBits, 0)[0];
            && !Live(d, i) && Live(NewNode(d, node), i)
            && OnlyNode(d, NewNode(d, node), i)
  {
    var i, d' := FreeFrom(d.inodeBits, 0)[0], NewNode(d, node);
    FreeAfterAlloc(d.inodeBits, 0);
    assert forall j: nat, c: nat :: Owns(d', j, c) <==> Owns(d, j, c);
    forall j: nat | Live(d', j) ensures NoDup(BlocksOf(d', j)) {
      assert j != i ==> NoDup(BlocksOf(d, j));
    }
    forall c: nat | d'.sb.dataStart <= c < |d'.blockBits| && d'.blockBits[c] ensures HasOwner(d', c) {
      assert HasOwner(d, c);
      var j: nat :| Owns(d, j, c);
      assert Owns(d', j, c);
    }
    TypedAwayFrom(d, d', i);
  }

  // ---- giving blocks back ----

  ghost predicate BlocksCounted(d: Disk) {
    d.sb.freeBlocks == |FreeBlockList(d)|
  }

  lemma FreeBlockCounts(d: Disk, b: nat)
    requires BlocksCounted(d) && d.sb.dataStart <= b < |d.blockBits| && d.blockBits[b]
    ensures BlocksCounted(FreeBlock(d, b))
  {
    FreeAfterRelease(d.blockBits, d.sb.dataStart, b);
    FreeCountBound(d.blockBits[b := false], d.sb.dataStart);
  }

  lemma {:induction false} FreeBlocksCounts(d: Disk, bs: seq<nat>)
    requires Readable(d.blocks, bs) && NoDup(bs)
    requires forall i | 0 <= i < |bs| :: d.sb.dataStart <= bs[i] && d.blockBits[bs[i]]
    requires BlocksCounted(d)
    ensures BlocksCounted(FreeBlocks(d, bs))
  {
    if bs != [] {
      var prefix, b := bs[..|bs| - 1], bs[|bs| - 1];
      FreeBlocksCounts(d, prefix);
      assert b !in prefix;
      FreeBlockCounts(FreeBlocks(d, prefix), b);
    }
  }

  lemma OwnedBlocksCount(d: Disk, x: nat)
    requires Counted(d) && Owned(d) && Live(d, x)
    ensures Readable(d.blocks, BlocksOf(d, x)) && Counted(FreeBlocks(d, BlocksOf(d, x)))
  {
    var bs := BlocksOf(d, x);
    OwnedIsReadable(d, x);
    forall i | 0 <= i < |bs| ensures d.sb.dataStart <= bs[i] && d.blockBits[bs[i]] {
      assert Owns(d, x, bs[i]);
    }
    FreeBlocksCounts(d, bs);
  }

  lemma FreeInodeCounts(d: Disk, x: nat)
    requires Counted(d) && Live(d, x)
    ensures Counted(FreeInode(d, x))
  {
    FreeAfterRelease(d.inodeBits, 0, x);
    FreeCountBound(d.inodeBits[x := false], 0);
  }

  /** d' is d with every block of x free and x itself dead or without blocks. */
  ghost predicate Released(d: Disk, d': Disk, x: nat) {
    && |d'.blocks| == |d.blocks| && |d'.inodes| == |d.inodes|
    && d'.sb.dataStart == d.sb.dataStart
    && (forall j: nat | j != x :: Live(d', j) <==> Live(d, j))
    && (forall j: nat | j != x && j < |d.inodes| :: d'.inodes[j] == d.inodes[j])
    && (Live(d', x) ==> BlocksOf(d', x) == [])
    && (forall b: nat | b < |d.blockBits| :: d'.blockBits[b] == (d.blockBits[b] && b !in BlocksOf(d, x)))
  }

  lemma ReleaseKeepsOwners(d: Disk, d': Disk, x: nat)
    requires Owned(d) && Live(d, x) && Released(d, d', x)
    ensures Owned(d')
  {
    forall j: nat, c: nat ensures Owns(d', j, c) <==> Owns(d, j, c) && j != x {
    }
    forall j: nat | Live(d', j) ensures NoDup(BlocksOf(d', j)) {
      assert j != x ==> NoDup(BlocksOf(d, j));
    }
    forall j: nat, c: nat | Owns(d', j, c) ensures d'.sb.dataStart <= c < |d'.blockBits| && d'.blockBits[c] {
      assert Owns(d, j, c);
      assert c in BlocksOf(d, x) ==> Owns(d, x, c);
    }
    forall c: nat | d'.sb.dataStart <= c < |d'.blockBits| && d'.blockBits[c] ensures HasOwner(d', c) {
      assert HasOwner(d, c);
      var j: nat :| Owns(d, j, c);
      assert Owns(d', j, c);
    }
  }

  /** The state a write starts from: the file owns nothing and is empty. */
  function Emptied(d: Disk, x: nat): Disk
    requires x < |d.inodes| && Readable(d.blocks, BlocksOf(d, x))
  {
    PutInode(FreeBlocks(d, BlocksOf(d, x)), x, d.inodes[x].(extents := [], size := 0))
  }

  lemma EmptiedKeepsPhysical(d: Disk, x: nat)
    requires Physical(d) && Live(d, x) && d.inodes[x].ftype == Reg
    ensures Readable(d.blocks, BlocksOf(d, x))
    ensures Physical(Emptied(d, x)) && OnlyNode(d, Emptied(d, x), x)
  {
    OwnedBlocksCount(d, x);
    var d' := Emptied(d, x);
    ReleaseKeepsOwners(d, d', x);
    assert OnlyNode(d, d', x);
    assert NodeOk(d.blocks, d.inodes[x]);
    TypedAwayFrom(d, d', x);
  }

  /** Releasing an inode together with its blocks. */
  function Dropped(d: Disk, x: nat): Disk
    requires x < |d.inodes| && Readable(d.blocks, BlocksOf(d, x))
  {
    FreeInode(FreeBlocks(d, BlocksOf(d, x)), x)
  }

  lemma DroppedKeepsCounts(d: Disk, x: nat)
    requires Counted(d) && Owned(d) && Live(d, x)
    ensures Readable(d.blocks, BlocksOf(d, x))
    ensures Counted(Dropped(d, x))
  {
    OwnedBlocksCount(d, x);
    FreeInodeCounts(FreeBlocks(d, BlocksOf(d, x)), x);
  }

  lemma DroppedKeepsPhysical(d: Disk, x: nat)
    requires Physical(d) && Live(d, x)
    ensures Readable(d.blocks, BlocksOf(d, x))
    ensures Physical(Dropped(d, x)) && OnlyNode(d, Dropped(d, x), x) && !Live(Dropped(d, x), x)
  {
    DroppedKeepsCounts(d, x);
    var d' := Dropped(d, x);
    assert Released(d, d', x);
    ReleaseKeepsOwners(d, d', x);
    assert OnlyNode(d, d', x);
    TypedAwayFrom(d, d', x);
  }
}
