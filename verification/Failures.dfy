/** What failing operations leave behind: which failures keep the mount well-formed, and which do not. */
module Failures {
  import opened ZerosFs
  import opened Bitmap
  import opened Extents
  import opened Directory
  import opened Namespace
  import opened Volume
  import opened VolumeSteps
  import opened DirectorySteps
  import opened Creation
  import opened FileContents
  import opened Paths
  import opened Operations
  import opened FileSystem
  import opened MountTheorems
  import opened Runs
  import opened Counters

  // ---- an inode that is taken and never listed ----

  /** A new inode that no directory lists cannot be reached. */
  lemma UnlistedIsLost(d: Disk, e: Disk, i: nat)
    requires TreeInv(View(d)) && OnlyNode(d, e, i) && !Live(d, i) && Live(e, i)
    ensures !WellFormed(e)
  {
    if TreeInv(View(e)) {
      var q, m := HasParent(View(e), i);
      SameNodeFrame(d, e, q);
      ChildIsLive(View(d), q, m, i);
    }
  }

  lemma NoBlockLeaks(d: Disk, p: nat, name: string)
    requires FreeFrom(d.inodeBits, 0) != [] && FreeBlockList(d) == []
    ensures MakeDir(d, p, name).disk == AllocInode(d).disk
    ensures var i, e := FirstFreeInode(d), AllocInode(d).disk; OnlyNode(d, e, i) && !Live(d, i) && Live(e, i)
  {
  }

  lemma FailedMakeDirLeaks(d: Disk, p: nat, name: string)
    requires WellFormed(d) && LiveDir(d, p) && |name| <= NAME_MAX && name !in Entries(SlotsIn(d, p))
    requires FreeFrom(d.inodeBits, 0) != [] && !MakeDir(d, p, name).ok
    ensures !WellFormed(MakeDir(d, p, name).disk)
  {
    if FreeBlockList(d) == [] {
      NoBlockLeaks(d, p, name);
      UnlistedIsLost(d, AllocInode(d).disk, FirstFreeInode(d));
    } else {
      UnlistedDir(d, p, name);
    }
  }

  /** The parent has no room for the finished directory. */
  lemma UnlistedDir(d: Disk, p: nat, name: string)
    requires WellFormed(d) && LiveDir(d, p) && |name| <= NAME_MAX && name !in Entries(SlotsIn(d, p))
    requires FreeFrom(d.inodeBits, 0) != [] && FreeBlockList(d) != [] && !MakeDir(d, p, name).ok
    ensures !WellFormed(MakeDir(d, p, name).disk)
  {
    var i, e := FirstFreeInode(d), DottedDir(d, p);
    DottedIsApart(d, p);
    MakeDirIsFill(d, p, name);
    DottedDirStep(d, p);
    DirAddInserts(e, p, name, i, Dir);
    UnlistedIsLost(d, e, i);
  }

  lemma DottedIsApart(d: Disk, p: nat)
    requires Physical(d) && LiveDir(d, p) && FreeFrom(d.inodeBits, 0) != [] && FreeBlockList(d) != []
    ensures var i, e := FirstFreeInode(d), DottedDir(d, p); OnlyNode(d, e, i) && !Live(d, i) && Live(e, i)
    ensures var dot := DirAdd(BlankDir(d), FirstFreeInode(d), ".", FirstFreeInode(d), Dir);
            dot.ok && DirAdd(dot.disk, FirstFreeInode(d), "..", p, Dir).ok
  {
    BlankDirStep(d);
    DotsStep(d, p);
    OnlyNodeTrans(d, BlankDir(d), DottedDir(d, p), FirstFreeInode(d));
  }

  /** Nothing has been taken yet when mkdir gives up. */
  ghost predicate MkdirTakesNothing(fs: Mounted, path: string) {
    var p := ResolveParent(fs.disk, fs.cwd, path);
    p.ino == NONE || p.name in Entries(SlotsIn(fs.disk, p.ino)) || FreeFrom(fs.disk.inodeBits, 0) == []
  }

  /** A mkdir that fails leaves the volume as it was, or with an inode nobody can reach. */
  lemma FailedMkdirIff(fs: Mounted, path: string)
    requires MountOk(fs) && PathOk(fs, path) && !Mkdir(fs, path).ok
    ensures MountOk(After(fs, Mkdir(fs, path))) <==> MkdirTakesNothing(fs, path)
    ensures MkdirTakesNothing(fs, path) ==> Mkdir(fs, path).disk == fs.disk
  {
    HolderIsDir(fs, path);
    var p := ResolveParent(fs.disk, fs.cwd, path);
    if p.ino != NONE {
      LookupReads(fs.disk, p.ino, p.name);
      assert p.name in Entries(SlotsIn(fs.disk, p.ino)) ==> Lookup(fs.disk, p.ino, p.name) != NONE by {
        LookupLive(View(fs.disk), p.ino, p.name);
      }
      if p.name !in Entries(SlotsIn(fs.disk, p.ino)) && FreeFrom(fs.disk.inodeBits, 0) != [] {
        FailedMakeDirLeaks(fs.disk, p.ino, p.name);
      }
    }
  }

  ghost predicate TouchTakesNothing(fs: Mounted, path: string) {
    ResolveParent(fs.disk, fs.cwd, path).ino == NONE || FreeFrom(fs.disk.inodeBits, 0) == []
  }

  /** The same for touch. */
  lemma FailedTouchIff(fs: Mounted, path: string)
    requires MountOk(fs) && PathOk(fs, path) && !Touch(fs, path).ok
    ensures MountOk(After(fs, Touch(fs, path))) <==> TouchTakesNothing(fs, path)
    ensures TouchTakesNothing(fs, path) ==> Touch(fs, path).disk == fs.disk
  {
    HolderIsDir(fs, path);
    var p := ResolveParent(fs.disk, fs.cwd, path);
    if p.ino != NONE && FreeFrom(fs.disk.inodeBits, 0) != [] {
      EmptyFileStep(fs.disk, p.ino);
      DirAddEffect(WithEmptyFile(fs.disk), p.ino, p.name, FirstFreeInode(fs.disk), Reg);
      UnlistedIsLost(fs.disk, WithEmptyFile(fs.disk), FirstFreeInode(fs.disk));
    }
  }

  // ---- a write that does not finish ----

  /** How many more of the free blocks a write takes that runs out of extents or of blocks. */
  function Reach(used: seq<nat>, free: seq<nat>): (k: nat)
    ensures k <= |free|
    decreases |free|
  {
    if free == [] || RunCount(used) >= MAX_EXTENTS then 0 else 1 + Reach(used + [free[0]], free[1..])
  }

  /** k is where the eighth run starts, or everything. */
  ghost predicate Exhausts(used: seq<nat>, free: seq<nat>, k: nat) {
    && k <= |free| && (k == |free| || RunCount(used + free[..k]) >= MAX_EXTENTS)
    && forall j: nat {:trigger free[..j]} | j < k :: RunCount(used + free[..j]) < MAX_EXTENTS
  }

  lemma {:induction false} ReachExhausts(used: seq<nat>, free: seq<nat>)
    ensures Exhausts(used, free, Reach(used, free))
    decreases |free|
  {
    assert used + free[..0] == used;
    if free != [] && RunCount(used) < MAX_EXTENTS {
      var used', rest, k := used + [free[0]], free[1..], Reach(used, free);
      ReachExhausts(used', rest);
      assert used' + rest[..k - 1] == used + free[..k];
      forall j: nat {:trigger free[..j]} | j < k ensures RunCount(used + free[..j]) < MAX_EXTENTS {
        if j > 0 {
          assert used' + rest[..j - 1] == used + free[..j];
        }
      }
    }
  }

  /** d' is d with file bytes in these blocks, which are now in use. */
  ghost predicate Takes(d: Disk, d': Disk, taken: seq<nat>) {
    && d'.inodes == d.inodes && d'.inodeBits == d.inodeBits && SameLayout(d.sb, d'.sb)
    && |d'.blockBits| == |d.blockBits| && |d'.blocks| == |d.blocks|
    && (forall b | 0 <= b < |d.blockBits| :: d'.blockBits[b] <==> d.blockBits[b] || b in taken)
    && (forall b | 0 <= b < |d.blocks| ::
          if b in taken then d'.blocks[b].Bytes? else d'.blocks[b] == d.blocks[b])
  }

  lemma TakesMore(d: Disk, d1: Disk, d2: Disk, b: nat, rest: seq<nat>, all: seq<nat>)
    requires Takes(d, d1, [b]) && Takes(d1, d2, rest) && all == [b] + rest
    ensures Takes(d, d2, all)
  {
  }

  lemma ChunkTakes(d: Disk, data: seq<byte>)
    requires FreeBlockList(d) != []
    ensures Takes(d, AfterChunk(d, data), [FreeBlockList(d)[0]])
  {
  }

  lemma ReachTurn(used: seq<nat>, free: seq<nat>, used': seq<nat>, rest: seq<nat>)
    requires free != [] && RunCount(used) < MAX_EXTENTS && used' == used + [free[0]] && rest == free[1..]
    ensures used' + rest == used + free
    ensures free[..Reach(used, free)] == [free[0]] + rest[..Reach(used', rest)]
  {
    TakeNext(free, rest, Reach(used', rest));
  }

  lemma TakeNext(free: seq<nat>, rest: seq<nat>, k: nat)
    requires free != [] && rest == free[1..] && k <= |rest|
    ensures free[..1 + k] == [free[0]] + rest[..k]
  {
  }

  lemma FailedLoopTurn(d: Disk, used: seq<nat>, data: seq<byte>, d': Disk, used': seq<nat>, rest: seq<byte>)
    requires data != [] && FreeBlockList(d) != [] && |ExtentsFor(used)| == RunCount(used) < MAX_EXTENTS
    requires d' == AfterChunk(d, data) && used' == used + [FreeBlockList(d)[0]] && rest == data[|FirstChunk(data)|..]
    ensures WriteLoop(d, ExtentsFor(used), data) == WriteLoop(d', ExtentsFor(used'), rest)
    ensures FreeBlockList(d') == FreeBlockList(d)[1..]
  {
    WriteLoopStep(d, ExtentsFor(used), data);
    ExtentsForNext(used, FreeBlockList(d)[0]);
  }

  /** A loop that fails later on: what is left after its first turn. */
  lemma FailsLater(d: Disk, used: seq<nat>, data: seq<byte>, d': Disk, used': seq<nat>, rest: seq<byte>)
    requires Ascending(used + FreeBlockList(d)) && !WriteLoop(d, ExtentsFor(used), data).ok
    requires FreeBlockList(d) != [] && RunCount(used) < MAX_EXTENTS
    requires d' == AfterChunk(d, data) && used' == used + [FreeBlockList(d)[0]] && rest == data[|FirstChunk(data)|..]
    ensures data != [] && FreeBlockList(d') == FreeBlockList(d)[1..] && Ascending(used' + FreeBlockList(d'))
    ensures WriteLoop(d, ExtentsFor(used), data) == WriteLoop(d', ExtentsFor(used'), rest)
  {
    PrefixAscending(used, FreeBlockList(d));
    ExtentsForMaximal(used);
    FailedLoopTurn(d, used, data, d', used', rest);
    ReachTurn(used, FreeBlockList(d), used', FreeBlockList(d'));
  }

  lemma {:induction false} FailedLoopTakes(d: Disk, used: seq<nat>, data: seq<byte>)
    requires Ascending(used + FreeBlockList(d)) && !WriteLoop(d, ExtentsFor(used), data).ok
    ensures Takes(d, WriteLoop(d, ExtentsFor(used), data).disk, FreeBlockList(d)[..Reach(used, FreeBlockList(d))])
    decreases |data|
  {
    if FreeBlockList(d) == [] || RunCount(used) >= MAX_EXTENTS {
      PrefixAscending(used, FreeBlockList(d));
      ExtentsForMaximal(used);
    } else {
      var d', used', rest := AfterChunk(d, data), used + [FreeBlockList(d)[0]], data[|FirstChunk(data)|..];
      FailsLater(d, used, data, d', used', rest);
      ChunkTakes(d, data);
      ReachTurn(used, FreeBlockList(d), used', FreeBlockList(d'));
      FailedLoopTakes(d', used', rest);
      TakesMore(d, d', WriteLoop(d', ExtentsFor(used'), rest).disk, FreeBlockList(d)[0],
                FreeBlockList(d')[..Reach(used', FreeBlockList(d'))],
                FreeBlockList(d)[..Reach(used, FreeBlockList(d))]);
    }
  }

  /** Chunk k of what is written. */
  function Chunk(data: seq<byte>, k: nat): seq<byte>
    requires k * BLOCK_SIZE < |data|
  {
    FirstChunk(data[k * BLOCK_SIZE..])
  }

  lemma ChunkNext(data: seq<byte>, rest: seq<byte>, k: nat)
    requires |data| > BLOCK_SIZE && rest == data[BLOCK_SIZE..] && k * BLOCK_SIZE < |rest|
    ensures (k + 1) * BLOCK_SIZE < |data| && Chunk(data, k + 1) == Chunk(rest, k)
  {
    assert rest[k * BLOCK_SIZE..] == data[(k + 1) * BLOCK_SIZE..];
  }

  ghost predicate HoldsChunk(d: Disk, b: nat, data: seq<byte>, k: nat) {
    k * BLOCK_SIZE < |data| && b < |d.blocks| && d.blocks[b] == Bytes(Pad(Chunk(data, k)))
  }

  /** The k-th block taken holds the k-th chunk. */
  lemma {:induction false} FailedLoopStores(d: Disk, used: seq<nat>, data: seq<byte>, k: nat)
    requires Ascending(used + FreeBlockList(d)) && !WriteLoop(d, ExtentsFor(used), data).ok
    requires k < Reach(used, FreeBlockList(d))
    ensures HoldsChunk(WriteLoop(d, ExtentsFor(used), data).disk, FreeBlockList(d)[k], data, k)
    decreases |data|
  {
    var d', used', rest := AfterChunk(d, data), used + [FreeBlockList(d)[0]], data[|FirstChunk(data)|..];
    FailsLater(d, used, data, d', used', rest);
    if k == 0 {
      FirstChunkStays(d, used', data, d', rest);
    } else {
      FailedLoopStores(d', used', rest, k - 1);
      LaterChunk(WriteLoop(d', ExtentsFor(used'), rest).disk, FreeBlockList(d)[k], data, rest, k - 1);
    }
  }

  lemma LaterChunk(d: Disk, b: nat, data: seq<byte>, rest: seq<byte>, k: nat)
    requires rest == data[|FirstChunk(data)|..] && HoldsChunk(d, b, rest, k)
    ensures HoldsChunk(d, b, data, k + 1)
  {
    ChunkNext(data, rest, k);
  }

  lemma FirstChunkStays(d: Disk, used': seq<nat>, data: seq<byte>, d': Disk, rest: seq<byte>)
    requires data != [] && FreeBlockList(d) != [] && d' == AfterChunk(d, data)
    requires FreeBlockList(d') == FreeBlockList(d)[1..]
    requires Ascending(used' + FreeBlockList(d')) && !WriteLoop(d', ExtentsFor(used'), rest).ok
    ensures HoldsChunk(WriteLoop(d', ExtentsFor(used'), rest).disk, FreeBlockList(d)[0], data, 0)
  {
    FailedLoopTakes(d', used', rest);
    assert data[0..] == data;
    assert FreeBlockList(d)[0] !in FreeBlockList(d');
  }

  /** The blocks a failing write to file i takes. */
  function TakenBy(d: Disk, i: nat): seq<nat>
    requires i < |d.inodes| && Readable(d.blocks, BlocksOf(d, i))
  {
    BlocksForWrite(d, i)[..Reach([], BlocksForWrite(d, i))]
  }

  /** d' is d with the blocks of file i released and those of `taken` in use, file bytes in them. */
  ghost predicate Exchanged(d: Disk, d': Disk, i: nat, taken: seq<nat>) {
    && Readable(d.blocks, BlocksOf(d, i)) && Takes(FreeBlocks(d, BlocksOf(d, i)), d', taken)
    && (forall b | b in taken :: d.sb.dataStart <= b < |d.blockBits| && (!d.blockBits[b] || b in BlocksOf(d, i)))
  }

  lemma FailedOverwrite(d: Disk, i: nat, data: seq<byte>)
    requires Physical(d) && LiveFile(d, i) && !Overwrite(d, i, data).ok
    ensures Readable(d.blocks, BlocksOf(d, i))
    ensures Exchanged(d, Overwrite(d, i, data).disk, i, TakenBy(d, i)) && Counted(Overwrite(d, i, data).disk)
  {
    OverwriteCounts(d, i, data);
    EmptiedHoldsNothing(d, i);
    var freed := FreeBlocks(d, BlocksOf(d, i));
    assert [] + FreeBlockList(freed) == FreeBlockList(freed);
    FailedLoopTakes(freed, [], data);
  }

  /** What another file owns was neither released nor free. */
  lemma NotTaken(d: Disk, d': Disk, i: nat, j: nat, b: nat, taken: seq<nat>)
    requires Owned(d) && Live(d, i) && Exchanged(d, d', i, taken) && j != i && Live(d, j) && b in BlocksOf(d, j)
    ensures b !in taken && b !in BlocksOf(d, i)
  {
    assert Owns(d, j, b);
    BlockIsPrivate(d, j, b);
  }

  /** What becomes of the file: each of its blocks that was taken again holds the chunk written there, at
    * whatever place in the file; the others hold what they held. */
  lemma FailedWriteMixes(d: Disk, i: nat, data: seq<byte>, p: nat)
    requires Physical(d) && LiveFile(d, i) && !Overwrite(d, i, data).ok && p < |BlocksOf(d, i)|
    ensures Readable(d.blocks, BlocksOf(d, i)) && BlocksOf(Overwrite(d, i, data).disk, i) == BlocksOf(d, i)
    ensures var d', b := Overwrite(d, i, data).disk, BlocksOf(d, i)[p];
            && |d'.blocks| == |d.blocks| && (b !in TakenBy(d, i) ==> d'.blocks[b] == d.blocks[b])
            && forall k | 0 <= k < |TakenBy(d, i)| && TakenBy(d, i)[k] == b :: HoldsChunk(d', b, data, k)
  {
    FailedOverwrite(d, i, data);
    EmptiedHoldsNothing(d, i);
    var freed, d', b := FreeBlocks(d, BlocksOf(d, i)), Overwrite(d, i, data).disk, BlocksOf(d, i)[p];
    assert [] + FreeBlockList(freed) == FreeBlockList(freed);
    forall k | 0 <= k < |TakenBy(d, i)| && TakenBy(d, i)[k] == b ensures HoldsChunk(d', b, data, k) {
      FailedLoopStores(freed, [], data, k);
    }
  }

  lemma ExchangedIsPrivate(d: Disk, d': Disk, i: nat, taken: seq<nat>)
    requires Physical(d) && LiveFile(d, i) && Exchanged(d, d', i, taken)
    ensures OnlyNode(d, d', i) && Typed(d')
  {
    forall j: nat | j != i && Live(d, j) ensures SameNode(d, d', j) {
      forall b | b in BlocksOf(d, j) && b < |d.blocks| ensures d.blocks[b] == d'.blocks[b] {
        NotTaken(d, d', i, j, b, taken);
      }
    }
    assert NodeOk(d.blocks, d.inodes[i]);
    TypedAwayFrom(d, d', i);
  }

  ghost predicate SameBlocks(a: seq<nat>, b: seq<nat>) {
    forall x: nat :: x in a <==> x in b
  }

  /** Ownership survives exactly when what was taken is what was given back. */
  lemma ExchangeKeepsOwners(d: Disk, d': Disk, i: nat, taken: seq<nat>)
    requires Physical(d) && LiveFile(d, i) && Exchanged(d, d', i, taken)
    ensures SameBlocks(taken, BlocksOf(d, i)) ==> Owned(d')
  {
    if SameBlocks(taken, BlocksOf(d, i)) {
      forall b | 0 <= b < |d.blockBits| ensures d'.blockBits[b] == d.blockBits[b] {
        assert b in BlocksOf(d, i) ==> Owns(d, i, b);
      }
      assert forall j: nat, c: nat :: Owns(d', j, c) <==> Owns(d, j, c);
      forall j: nat | Live(d', j) ensures NoDup(BlocksOf(d', j)) {
        assert NoDup(BlocksOf(d, j));
      }
      forall c: nat | d'.sb.dataStart <= c < |d'.blockBits| && d'.blockBits[c] ensures HasOwner(d', c) {
        assert HasOwner(d, c);
        var j: nat :| Owns(d, j, c);
        assert Owns(d', j, c);
      }
    }
  }

  lemma TakenWasOwned(d: Disk, d': Disk, i: nat, taken: seq<nat>, x: nat)
    requires Physical(d) && LiveFile(d, i) && Exchanged(d, d', i, taken) && Owned(d') && x in taken
    ensures x in BlocksOf(d, i)
  {
    assert HasOwner(d', x);
    var j: nat :| Owns(d', j, x);
    assert Owns(d, j, x);
  }

  lemma ExchangeNeedsSame(d: Disk, d': Disk, i: nat, taken: seq<nat>)
    requires Physical(d) && LiveFile(d, i) && Exchanged(d, d', i, taken) && Owned(d')
    ensures SameBlocks(taken, BlocksOf(d, i))
  {
    forall x: nat ensures x in taken <==> x in BlocksOf(d, i) {
      if x in BlocksOf(d, i) {
        assert Owns(d, i, x) && Owns(d', i, x);
      } else if x in taken {
        TakenWasOwned(d, d', i, taken, x);
      }
    }
  }

  /** A write to an existing file that fails keeps the mount well-formed exactly when the blocks it took
    * before giving up are the ones the file had. Then that file's bytes may be others, and nothing else is. */
  lemma FailedWriteIff(fs: Mounted, path: string, data: seq<byte>, i: nat)
    requires MountOk(fs) && CPath(path) && i == Names(View(fs.disk), fs.cwd, path) && i in View(fs.disk).files
    requires !WriteFile(fs, path, data).ok
    ensures Readable(fs.disk.blocks, BlocksOf(fs.disk, i))
    ensures var d' := WriteFile(fs, path, data).disk;
            && (MountOk(fs.(disk := d')) <==> SameBlocks(TakenBy(fs.disk, i), BlocksOf(fs.disk, i)))
            && View(d') == SetFile(View(fs.disk), i, Content(d', i))
  {
    var d, d' := fs.disk, WriteFile(fs, path, data).disk;
    NamedIsSound(fs, path);
    ResolveAgrees(fs, path);
    FailedOverwrite(d, i, data);
    ExchangedIsPrivate(d, d', i, TakenBy(d, i));
    ExchangeKeepsOwners(d, d', i, TakenBy(d, i));
    ExchangedView(d, d', i);
    SetFileKeepsTree(View(d), i, Content(d', i));
    if Owned(d') {
      ExchangeNeedsSame(d, d', i, TakenBy(d, i));
      CwdInView(fs);
      MountOkAfter(fs, d', SetFile(View(d), i, Content(d', i)));
    }
  }

  lemma ExchangedView(d: Disk, d': Disk, i: nat)
    requires OnlyNode(d, d', i) && LiveFile(d, i) && d'.inodes == d.inodes && d'.inodeBits == d.inodeBits
    ensures View(d') == SetFile(View(d), i, Content(d', i))
  {
    ViewChange(d, d', i);
    KnownFile(d, i);
  }

  // ---- all operations ----

  /** What a write that fails may have done: nothing, or put other bytes in the file's own blocks, or left
    * a new empty file. */
  ghost predicate WriteIsHarmless(fs: Mounted, path: string) {
    var i := Resolve(fs.disk, fs.cwd, path);
    if i != NONE then
      && i < |fs.disk.inodes| && Readable(fs.disk.blocks, BlocksOf(fs.disk, i))
      && (fs.disk.inodes[i].ftype == Dir || SameBlocks(TakenBy(fs.disk, i), BlocksOf(fs.disk, i)))
    else if Touch(fs, path).ok then
      |LastComponent(path)| > NAME_MAX || FreeBlockList(Touch(fs, path).disk) == []
    else TouchTakesNothing(fs, path)
  }

  ghost predicate Harmless(fs: Mounted, op: Op) {
    match op
    case MkdirOp(path) => MkdirTakesNothing(fs, path)
    case TouchOp(path) => TouchTakesNothing(fs, path)
    case WriteOp(path, _) => WriteIsHarmless(fs, path)
    case RmOp(_) => true
    case CdOp(_) => true
  }

  lemma EmptyFileTakes(d: Disk, i: nat)
    requires i < |d.inodes| && BlocksOf(d, i) == []
    ensures SameBlocks(TakenBy(d, i), []) <==> FreeBlockList(d) == []
  {
    var free := BlocksForWrite(d, i);
    assert FreeBlocks(d, []) == d && free == FreeBlockList(d);
    if free != [] {
      assert free[0] in TakenBy(d, i);
      assert free[0] !in [];
    } else {
      assert TakenBy(d, i) == [];
    }
  }

  /** The file touch has just made. */
  lemma TouchedIsEmpty(fs: Mounted, path: string)
    requires MountOk(fs) && PathOk(fs, path) && Storable(fs, path) && |LastComponent(path)| <= NAME_MAX
    requires Resolve(fs.disk, fs.cwd, path) == NONE && Touch(fs, path).ok
    ensures var t := Touch(fs, path).disk;
            Live(t, Names(View(t), fs.cwd, path)) && BlocksOf(t, Names(View(t), fs.cwd, path)) == []
  {
    CreatedResolves(fs, path);
    FreshInParent(fs, path);
    HolderIsDir(fs, path);
    var p, i, t := ResolveParent(fs.disk, fs.cwd, path), FirstFreeInode(fs.disk), Touch(fs, path).disk;
    EmptyFileStep(fs.disk, p.ino);
    DirAddEffect(WithEmptyFile(fs.disk), p.ino, p.name, i, Reg);
    DirAddInserts(WithEmptyFile(fs.disk), p.ino, p.name, i, Reg);
    assert SameNode(WithEmptyFile(fs.disk), t, i);
  }

  lemma FailedFreshWriteIff(fs: Mounted, path: string, data: seq<byte>)
    requires MountOk(fs) && Allowed(fs, WriteOp(path, data)) && !WriteFile(fs, path, data).ok
    requires Resolve(fs.disk, fs.cwd, path) == NONE
    ensures MountOk(After(fs, WriteFile(fs, path, data))) <==> WriteIsHarmless(fs, path)
  {
    WriteFresh(fs, path, data);
    if !Touch(fs, path).ok {
      FailedTouchIff(fs, path);
    } else if |LastComponent(path)| <= NAME_MAX {
      var t := After(fs, Touch(fs, path));
      var i := Names(View(t.disk), t.cwd, path);
      TouchedIsEmpty(fs, path);
      FailedWriteIff(t, path, data, i);
      EmptyFileTakes(t.disk, i);
    }
  }

  lemma FailedOldWriteIff(fs: Mounted, path: string, data: seq<byte>)
    requires MountOk(fs) && Allowed(fs, WriteOp(path, data)) && !WriteFile(fs, path, data).ok
    requires Resolve(fs.disk, fs.cwd, path) != NONE
    ensures MountOk(After(fs, WriteFile(fs, path, data))) <==> WriteIsHarmless(fs, path)
  {
    PathOkIsSound(fs, path);
    ResolveAgrees(fs, path);
    var i := Resolve(fs.disk, fs.cwd, path);
    KindIsKnown(fs.disk, i);
    OwnedIsReadable(fs.disk, i);
    if fs.disk.inodes[i].ftype == Dir {
      WriteToDirectoryFails(fs, path, data);
    } else {
      FailedWriteIff(fs, path, data, i);
    }
  }

  /** A failing operation keeps the mount well-formed exactly when it is harmless. */
  lemma FailureKeepsIff(fs: Mounted, op: Op)
    requires MountOk(fs) && fs.cwdPath != "" && Allowed(fs, op) && !Apply(fs, op).ok
    ensures MountOk(Apply(fs, op).fs) <==> Harmless(fs, op)
  {
    match op
    case MkdirOp(path) => FailedMkdirIff(fs, path);
    case TouchOp(path) => FailedTouchIff(fs, path);
    case WriteOp(path, data) =>
      if Resolve(fs.disk, fs.cwd, path) == NONE {
        FailedFreshWriteIff(fs, path, data);
      } else {
        FailedOldWriteIff(fs, path, data);
      }
    case _ =>
  }

  /** A run in which operations may fail, as long as the failures are harmless. */
  ghost predicate MixedRun(fs: Mounted, ops: seq<Op>, fs': Mounted)
    decreases ops
  {
    if ops == [] then fs' == fs
    else
      && fs.cwdPath != "" && Allowed(fs, ops[0]) && (Apply(fs, ops[0]).ok || Harmless(fs, ops[0]))
      && MixedRun(Apply(fs, ops[0]).fs, ops[1..], fs')
  }

  lemma MixedStepKeeps(fs: Mounted, op: Op)
    requires MountOk(fs) && fs.cwdPath != "" && Allowed(fs, op) && (Apply(fs, op).ok || Harmless(fs, op))
    ensures MountOk(Apply(fs, op).fs)
  {
    if Apply(fs, op).ok {
      StepRefines(fs, op);
    } else {
      FailureKeepsIff(fs, op);
    }
  }

  /** Every such run keeps the mount well-formed. */
  lemma {:induction false} MixedRunKeeps(fs: Mounted, ops: seq<Op>, fs': Mounted)
    requires MountOk(fs) && MixedRun(fs, ops, fs')
    ensures MountOk(fs')
    decreases ops
  {
    if ops != [] {
      MixedStepKeeps(fs, ops[0]);
      MixedRunKeeps(Apply(fs, ops[0]).fs, ops[1..], fs');
    }
  }
}
