/** Whole-file writes: exact success condition, extent shape, and contents. */
module FileContents {
  import opened ZerosFs
  import opened Bitmap
  import opened Extents
  import opened Directory
  import opened Namespace
  import opened Volume
  import opened VolumeSteps
  import opened DirectorySteps
  import opened Operations

  // ---- the extents of an ascending block list ----

  /** Feeding the blocks one by one to AddBlock. */
  function ExtentsFor(bs: seq<nat>): seq<Extent> {
    if bs == [] then [] else AddBlock(ExtentsFor(bs[..|bs| - 1]), bs[|bs| - 1])
  }

  /** An ascending list of block numbers. */
  ghost predicate Ascending(bs: seq<nat>) {
    && (forall i, j | 0 <= i < j < |bs| :: bs[i] < bs[j])
    && forall i | 0 <= i < |bs| :: bs[i] < NONE
  }

  lemma {:induction false} ExtentsForCovers(bs: seq<nat>)
    requires Ascending(bs)
    ensures Blocks(ExtentsFor(bs)) == bs
  {
    if bs != [] {
      var prefix, b := bs[..|bs| - 1], bs[|bs| - 1];
      ExtentsForCovers(prefix);
      AddBlockAppends(ExtentsFor(prefix), b);
      LastBack(bs);
    }
  }

  lemma LastBack(bs: seq<nat>)
    requires bs != []
    ensures bs[..|bs| - 1] + [bs[|bs| - 1]] == bs
  {
  }

  /** One more block above all others: the last extent grows, or a new one of one block is opened. */
  lemma AddBlockMaximal(exts: seq<Extent>, b: nat, next: nat)
    requires Maximal(exts) && exts != [] && exts[|exts| - 1].start + exts[|exts| - 1].len == next <= b < NONE
    ensures var exts' := AddBlock(exts, b);
            && Maximal(exts') && exts' != [] && |exts'| == |exts| + (if b == next then 0 else 1)
            && exts'[|exts'| - 1].start + exts'[|exts'| - 1].len == b + 1
            && (b != next ==> exts'[|exts'| - 1].len == 1)
  {
    assert Add32(exts[|exts| - 1].start, exts[|exts| - 1].len) == next;
  }

  /** The extents are the maximal runs of the list, in order. */
  lemma {:induction false} ExtentsForMaximal(bs: seq<nat>)
    requires Ascending(bs)
    ensures Maximal(ExtentsFor(bs)) && |ExtentsFor(bs)| == RunCount(bs)
    ensures bs != [] ==>
              var exts := ExtentsFor(bs);
              && exts != []
              && exts[|exts| - 1].start + exts[|exts| - 1].len == bs[|bs| - 1] + 1
    ensures |bs| >= 2 && RunCount(bs) > RunCount(bs[..|bs| - 1]) ==>
              ExtentsFor(bs)[|ExtentsFor(bs)| - 1].len == 1
  {
    if |bs| >= 2 {
      var prefix := bs[..|bs| - 1];
      ExtentsForMaximal(prefix);
      assert prefix[|prefix| - 1] == bs[|bs| - 2];
      AddBlockMaximal(ExtentsFor(prefix), bs[|bs| - 1], bs[|bs| - 2] + 1);
    } else if |bs| == 1 {
      assert bs[..0] == [] && ExtentsFor([]) == [];
    }
  }

  lemma {:induction false} RunCountMonotone(bs: seq<nat>, k: nat)
    requires k <= |bs|
    ensures RunCount(bs[..k]) <= RunCount(bs)
    decreases |bs|
  {
    if k == |bs| {
      assert bs[..k] == bs;
    } else {
      RunCountMonotone(bs[..|bs| - 1], k);
      assert bs[..|bs| - 1][..k] == bs[..k];
      assert |bs| == 1 ==> RunCount(bs[..k]) == 0;
    }
  }

  // ---- exact success condition of the block loop ----

  /** n blocks fit: enough are free, and all but the last form at most seven runs. */
  ghost predicate Fits(free: seq<nat>, n: nat) {
    n <= |free| && (n >= 1 ==> RunCount(free[..n - 1]) < MAX_EXTENTS)
  }

  function FirstChunk(data: seq<byte>): seq<byte> {
    if |data| > BLOCK_SIZE then data[..BLOCK_SIZE] else data
  }

  /** One turn of the loop: the volume with the first chunk stored. */
  function AfterChunk(d: Disk, data: seq<byte>): Disk
    requires FreeBlockList(d) != []
  {
    var a := AllocBlock(d);
    PutBlock(a.disk, a.at, Bytes(Pad(FirstChunk(data))))
  }

  lemma WriteLoopStep(d: Disk, exts: seq<Extent>, data: seq<byte>)
    requires data != [] && |exts| < MAX_EXTENTS && FreeBlockList(d) != []
    ensures WriteLoop(d, exts, data)
         == WriteLoop(AfterChunk(d, data), AddBlock(exts, FreeBlockList(d)[0]), data[|FirstChunk(data)|..])
    ensures FreeBlockList(AfterChunk(d, data)) == FreeBlockList(d)[1..]
    ensures BlocksFor(|data|) == 1 + BlocksFor(|data| - |FirstChunk(data)|)
  {
    Bitmap.FreeAfterAlloc(d.blockBits, d.sb.dataStart);
    assert data[..|FirstChunk(data)|] == FirstChunk(data);
  }

  /** The loop, having stored the blocks `used`, finishes iff the rest fits, and then its
    * extents are those of the lowest free blocks. */
  ghost predicate ExactFrom(d: Disk, used: seq<nat>, data: seq<byte>) {
    var w, free, n := WriteLoop(d, ExtentsFor(used), data), FreeBlockList(d), BlocksFor(|data|);
    && (w.ok <==> FitsAfter(used, free, n))
    && (w.ok ==> w.extents == ExtentsFor(used + free[..n]))
  }

  /** Whether a loop that has stored `used` finishes n more blocks out of `free`. */
  ghost predicate FitsAfter(used: seq<nat>, free: seq<nat>, n: nat) {
    n <= |free| && (n >= 1 ==> RunCount(used + free[..n - 1]) < MAX_EXTENTS)
  }

  lemma FitsBackwards(used: seq<nat>, free: seq<nat>, n: nat)
    requires 1 <= n <= |free| && RunCount(used) < MAX_EXTENTS
    ensures FitsAfter(used, free, n) <==> FitsAfter(used + [free[0]], free[1..], n - 1)
    ensures (used + [free[0]]) + free[1..][..n - 1] == used + free[..n]
  {
    ShiftHead(used, free, n);
  }

  lemma ExactBackwards(d: Disk, used: seq<nat>, data: seq<byte>, d': Disk, used': seq<nat>, data': seq<byte>)
    requires data != [] && FreeBlockList(d) != []
    requires |ExtentsFor(used)| < MAX_EXTENTS && RunCount(used) < MAX_EXTENTS
    requires BlocksFor(|data|) <= |FreeBlockList(d)|
    requires d' == AfterChunk(d, data) && used' == used + [FreeBlockList(d)[0]] && data' == data[|FirstChunk(data)|..]
    requires ExactFrom(d', used', data')
    ensures ExactFrom(d, used, data)
  {
    var w, free, n := WriteLoop(d', ExtentsFor(used'), data'), FreeBlockList(d), BlocksFor(|data|);
    WriteLoopStep(d, ExtentsFor(used), data);
    ExtentsForNext(used, free[0]);
    assert w == WriteLoop(d, ExtentsFor(used), data);
    ExactMeans(d', used', data', w, free[1..], n - 1);
    SameOutcome(w, used, free, n);
  }

  lemma ExactMeans(d: Disk, used: seq<nat>, data: seq<byte>, w: Written, free: seq<nat>, n: nat)
    requires ExactFrom(d, used, data) && w == WriteLoop(d, ExtentsFor(used), data)
    requires free == FreeBlockList(d) && n == BlocksFor(|data|)
    ensures w.ok <==> FitsAfter(used, free, n)
    ensures w.ok ==> w.extents == ExtentsFor(used + free[..n])
  {
  }

  /** The outcome of the loop, seen one turn earlier. */
  lemma SameOutcome(w: Written, used: seq<nat>, free: seq<nat>, n: nat)
    requires 1 <= n <= |free| && RunCount(used) < MAX_EXTENTS
    requires w.ok <==> FitsAfter(used + [free[0]], free[1..], n - 1)
    requires w.ok ==> w.extents == ExtentsFor((used + [free[0]]) + free[1..][..n - 1])
    ensures w.ok <==> FitsAfter(used, free, n)
    ensures w.ok ==> w.extents == ExtentsFor(used + free[..n])
  {
    FitsBackwards(used, free, n);
  }

  lemma ExtentsForNext(used: seq<nat>, b: nat)
    ensures ExtentsFor(used + [b]) == AddBlock(ExtentsFor(used), b)
  {
    assert (used + [b])[..|used + [b]| - 1] == used;
  }

  lemma {:induction false} WriteLoopExact(d: Disk, used: seq<nat>, data: seq<byte>)
    requires Ascending(used + FreeBlockList(d))
    ensures ExactFrom(d, used, data)
    decreases |data|
  {
    var free, n := FreeBlockList(d), BlocksFor(|data|);
    PrefixAscending(used, free);
    ExtentsForMaximal(used);
    if data == [] {
      assert used + free[..0] == used;
    } else if n > |free| {
      WriteLoopTooFew(d, ExtentsFor(used), data);
    } else if |ExtentsFor(used)| >= MAX_EXTENTS {
      FullAlready(used, free, n);
    } else {
      WriteLoopStep(d, ExtentsFor(used), data);
      ShiftHead(used, free, n);
      WriteLoopExact(AfterChunk(d, data), used + [free[0]], data[|FirstChunk(data)|..]);
      ExactBackwards(d, used, data, AfterChunk(d, data), used + [free[0]], data[|FirstChunk(data)|..]);
    }
  }

  lemma FullAlready(used: seq<nat>, free: seq<nat>, n: nat)
    requires 1 <= n <= |free| && RunCount(used) >= MAX_EXTENTS
    ensures !FitsAfter(used, free, n)
  {
    assert (used + free[..n - 1])[..|used|] == used;
    RunCountMonotone(used + free[..n - 1], |used|);
  }

  lemma PrefixAscending(used: seq<nat>, free: seq<nat>)
    requires Ascending(used + free)
    ensures Ascending(used)
  {
    assert forall i | 0 <= i < |used| :: (used + free)[i] == used[i];
  }

  lemma ShiftHead(used: seq<nat>, free: seq<nat>, n: nat)
    requires 1 <= n <= |free|
    ensures (used + [free[0]]) + free[1..] == used + free
    ensures (used + [free[0]]) + free[1..][..n - 1] == used + free[..n]
    ensures if n >= 2 then (used + [free[0]]) + free[1..][..n - 2] == used + free[..n - 1]
            else used + free[..0] == used
  {
  }

  lemma {:induction false} WriteLoopTooFew(d: Disk, exts: seq<Extent>, data: seq<byte>)
    requires |FreeBlockList(d)| < BlocksFor(|data|)
    ensures !WriteLoop(d, exts, data).ok
    decreases |data|
  {
    if |exts| < MAX_EXTENTS && FreeBlockList(d) != [] {
      WriteLoopStep(d, exts, data);
      WriteLoopTooFew(AfterChunk(d, data), AddBlock(exts, FreeBlockList(d)[0]), data[|FirstChunk(data)|..]);
    }
  }

  // ---- what the loop stores ----

  lemma {:induction false} GatherAppend(blocks: seq<Block>, bs: seq<nat>, b: nat)
    requires Readable(blocks, bs) && b < |blocks|
    ensures Gather(blocks, bs + [b]) == Gather(blocks, bs) + BytesOf(blocks[b])
    ensures |Gather(blocks, bs)| == BLOCK_SIZE * |bs|
  {
    if bs == [] {
      assert bs + [b] == [b];
      assert Gather(blocks, [b]) == BytesOf(blocks[b]) + Gather(blocks, [b][1..]);
    } else {
      assert (bs + [b])[1..] == bs[1..] + [b];
      GatherAppend(blocks, bs[1..], b);
    }
  }

  /** The file as it would be if its inode were stored now. */
  function Stored(d: Disk, x: nat, node: Inode, exts: seq<Extent>, size: nat): Disk
    requires x < |d.inodes|
  {
    PutInode(d, x, node.(extents := exts, size := size))
  }

  /** Attaching one more chunk to file x, inode included. */
  function WithChunk(v: Disk, x: nat, chunk: seq<byte>): Disk
    requires x < |v.inodes| && FreeBlockList(v) != [] && |chunk| <= BLOCK_SIZE
  {
    var node := v.inodes[x];
    Attach(v, x, node.(extents := AddBlock(node.extents, FreeBlockList(v)[0]), size := node.size + |chunk|),
           Bytes(Pad(chunk)))
  }

  lemma StoreChunkIsAttach(d: Disk, x: nat, node: Inode, exts: seq<Extent>, size: nat, data: seq<byte>)
    requires x < |d.inodes| && FreeBlockList(d) != []
    ensures Stored(AfterChunk(d, data), x, node, AddBlock(exts, FreeBlockList(d)[0]), size + |FirstChunk(data)|)
         == WithChunk(Stored(d, x, node, exts, size), x, FirstChunk(data))
  {
    var node' := node.(extents := AddBlock(exts, FreeBlockList(d)[0]), size := size + |FirstChunk(data)|);
    assert d.inodes[x := node.(extents := exts, size := size)][x := node'] == d.inodes[x := node'];
  }

  /** A volume whose file x holds whole blocks so far. */
  ghost predicate WholeBlocks(d: Disk, x: nat) {
    LiveFile(d, x) && d.inodes[x].size % BLOCK_SIZE == 0
  }

  lemma ChunkNodeOk(v: Disk, x: nat, node': Inode, chunk: seq<byte>)
    requires Physical(v) && WholeBlocks(v, x) && FreeBlockList(v) != [] && 1 <= |chunk| <= BLOCK_SIZE
    requires |v.inodes[x].extents| < MAX_EXTENTS && v.inodes[x].size + |chunk| < TWO_32
    requires node' == v.inodes[x].(extents := AddBlock(v.inodes[x].extents, FreeBlockList(v)[0]),
                                   size := v.inodes[x].size + |chunk|)
    ensures Blocks(node'.extents) == BlocksOf(v, x) + [FreeBlockList(v)[0]]
    ensures NodeOk(v.blocks[FreeBlockList(v)[0] := Bytes(Pad(chunk))], node')
  {
    AddBlockAppends(v.inodes[x].extents, FreeBlockList(v)[0]);
    assert NodeOk(v.blocks, v.inodes[x]);
    AddBlockShape(v.inodes[x].extents, FreeBlockList(v)[0]);
  }

  lemma AddBlockShape(exts: seq<Extent>, b: nat)
    requires Unwrapped(exts) && |exts| < MAX_EXTENTS && b < NONE && forall k | 0 <= k < |exts| :: exts[k].len >= 1
    ensures var exts' := AddBlock(exts, b);
            Unwrapped(exts') && |exts'| <= MAX_EXTENTS && forall k | 0 <= k < |exts'| :: exts'[k].len >= 1
  {
    if exts != [] {
      var last := exts[|exts| - 1];
      assert Add32(last.start, last.len) == last.start + last.len;
    }
  }

  lemma ChunkContent(v: Disk, v': Disk, x: nat, chunk: seq<byte>)
    requires Physical(v) && WholeBlocks(v, x) && FreeBlockList(v) != []
    requires |chunk| <= BLOCK_SIZE
    requires LiveFile(v', x) && v'.blocks == v.blocks[FreeBlockList(v)[0] := Bytes(Pad(chunk))]
    requires BlocksOf(v', x) == BlocksOf(v, x) + [FreeBlockList(v)[0]]
    requires v'.inodes[x].size == v.inodes[x].size + |chunk|
    ensures Content(v', x) == Content(v, x) + chunk
  {
    var bs, b := BlocksOf(v, x), FreeBlockList(v)[0];
    OwnedIsReadable(v, x);
    forall i | 0 <= i < |bs| ensures bs[i] != b {
      assert Owns(v, x, bs[i]);
    }
    GatherFrame(v.blocks, v'.blocks, bs);
    GatherAppend(v.blocks, bs, b);
    GatherAppend(v'.blocks, bs, b);
    assert NodeOk(v.blocks, v.inodes[x]);
    assert |Gather(v.blocks, bs)| == v.inodes[x].size;
    assert (Gather(v.blocks, bs) + Pad(chunk))[..v'.inodes[x].size] == Gather(v.blocks, bs) + chunk;
  }

  /** v' differs from v at file x only, whose contents are now `total`. */
  ghost predicate FileBecomes(v: Disk, v': Disk, x: nat, total: seq<byte>) {
    && Physical(v') && OnlyNode(v, v', x) && LiveFile(v, x) && LiveFile(v', x)
    && v'.inodeBits == v.inodeBits && SameLayout(v.sb, v'.sb)
    && Content(v', x) == total
  }

  /** The loop's invariant: if its inode were stored now, file x would hold `done`. */
  ghost predicate Progress(v0: Disk, d: Disk, x: nat, node: Inode, exts: seq<Extent>, size: nat, done: seq<byte>) {
    && x < |d.inodes| && Live(d, x) && node.ftype == Reg
    && FileBecomes(v0, Stored(d, x, node, exts, size), x, done)
  }

  lemma ProgressStep(v0: Disk, d: Disk, x: nat, node: Inode, exts: seq<Extent>, size: nat, done: seq<byte>,
                     data: seq<byte>)
    requires Progress(v0, d, x, node, exts, size, done)
    requires data != [] && |exts| < MAX_EXTENTS && FreeBlockList(d) != []
    requires size % BLOCK_SIZE == 0 && size + |data| < TWO_32
    ensures Progress(v0, AfterChunk(d, data), x, node, AddBlock(exts, FreeBlockList(d)[0]),
                     size + |FirstChunk(data)|, done + FirstChunk(data))
  {
    var chunk, v := FirstChunk(data), Stored(d, x, node, exts, size);
    StoreChunkIsAttach(d, x, node, exts, size, data);
    ChunkAttached(v, x, chunk);
    FileBecomesTrans(v0, v, WithChunk(v, x, chunk), x, done, done + chunk);
  }

  lemma ChunkAttached(v: Disk, x: nat, chunk: seq<byte>)
    requires Physical(v) && WholeBlocks(v, x) && FreeBlockList(v) != [] && 1 <= |chunk| <= BLOCK_SIZE
    requires |v.inodes[x].extents| < MAX_EXTENTS && v.inodes[x].size + |chunk| < TWO_32
    ensures FileBecomes(v, WithChunk(v, x, chunk), x, Content(v, x) + chunk)
  {
    var v' := WithChunk(v, x, chunk);
    ChunkNodeOk(v, x, v'.inodes[x], chunk);
    AttachKeepsPhysical(v, x, v'.inodes[x], Bytes(Pad(chunk)));
    ChunkContent(v, v', x, chunk);
  }

  lemma FileBecomesTrans(a: Disk, b: Disk, c: Disk, x: nat, s: seq<byte>, t: seq<byte>)
    requires FileBecomes(a, b, x, s) && FileBecomes(b, c, x, t)
    ensures FileBecomes(a, c, x, t)
  {
    OnlyNodeTrans(a, b, c, x);
  }

  ghost predicate Completes(v0: Disk, w: Written, x: nat, node: Inode, size: nat, total: seq<byte>) {
    w.ok ==> Progress(v0, w.disk, x, node, w.extents, size, total)
  }

  /** The loop, if it finishes, leaves exactly `total` in the file. */
  lemma {:induction false} WriteLoopCompletes(v0: Disk, d: Disk, x: nat, node: Inode, exts: seq<Extent>,
                                              done: seq<byte>, data: seq<byte>, total: seq<byte>)
    requires Progress(v0, d, x, node, exts, |done|, done)
    requires data != [] ==> |done| % BLOCK_SIZE == 0
    requires total == done + data && |total| < TWO_32
    ensures Completes(v0, WriteLoop(d, exts, data), x, node, |total|, total)
    decreases |data|
  {
    if data == [] {
      assert total == done;
    } else if |exts| < MAX_EXTENTS && FreeBlockList(d) != [] {
      var done', rest := done + FirstChunk(data), data[|FirstChunk(data)|..];
      WriteLoopStep(d, exts, data);
      ProgressStep(v0, d, x, node, exts, |done|, done, data);
      SplitTotal(done, data, total);
      WriteLoopCompletes(v0, AfterChunk(d, data), x, node, AddBlock(exts, FreeBlockList(d)[0]), done', rest, total);
    }
  }

  lemma SplitTotal(done: seq<byte>, data: seq<byte>, total: seq<byte>)
    requires total == done + data && |done| % BLOCK_SIZE == 0
    ensures var done', rest := done + FirstChunk(data), data[|FirstChunk(data)|..];
            total == done' + rest && (rest != [] ==> |done'| % BLOCK_SIZE == 0)
  {
    assert FirstChunk(data) + data[|FirstChunk(data)|..] == data;
  }

  // ---- replacing the contents of a file ----

  lemma EmptiedHoldsNothing(d: Disk, x: nat)
    requires Physical(d) && LiveFile(d, x)
    ensures Readable(d.blocks, BlocksOf(d, x))
    ensures Progress(d, FreeBlocks(d, BlocksOf(d, x)), x, d.inodes[x], [], 0, [])
    ensures FreeBlockList(FreeBlocks(d, BlocksOf(d, x))) == FreeBlockList(Emptied(d, x))
  {
    EmptiedKeepsPhysical(d, x);
    assert Stored(FreeBlocks(d, BlocksOf(d, x)), x, d.inodes[x], [], 0) == Emptied(d, x);
    assert BlocksOf(Emptied(d, x), x) == [];
  }

  lemma FileBecomesView(d: Disk, d': Disk, x: nat, total: seq<byte>)
    requires FileBecomes(d, d', x, total)
    ensures View(d') == SetFile(View(d), x, total)
  {
    ViewChange(d, d', x);
    KnownFile(d, x);
  }

  lemma KnownFile(d: Disk, x: nat)
    requires LiveFile(d, x)
    ensures KindMap(d)[x := Reg] == KindMap(d)
    ensures DirMap(d) - {x} == DirMap(d)
  {
  }

  /** The blocks a write to x allocates from: those free once its old ones are released. */
  function BlocksForWrite(d: Disk, x: nat): seq<nat>
    requires x < |d.inodes| && Readable(d.blocks, BlocksOf(d, x))
  {
    FreeBlockList(Emptied(d, x))
  }

  /** The extents of a freshly written file: the maximal runs of the n lowest free blocks, at
    * most eight, the eighth of length one. */
  ghost predicate WrittenShape(exts: seq<Extent>, lowest: seq<nat>) {
    && Maximal(exts) && Blocks(exts) == lowest
    && |exts| <= MAX_EXTENTS
    && (|exts| == MAX_EXTENTS ==> exts[MAX_EXTENTS - 1].len == 1)
  }

  lemma LastRunIsNew(bs: seq<nat>, prefix: seq<nat>)
    requires Ascending(bs) && bs != [] && prefix == bs[..|bs| - 1]
    requires RunCount(bs) == MAX_EXTENTS && RunCount(prefix) < MAX_EXTENTS
    ensures |ExtentsFor(bs)| == MAX_EXTENTS && ExtentsFor(bs)[MAX_EXTENTS - 1].len == 1
  {
    ExtentsForMaximal(bs);
    assert |bs| >= 2;
  }

  lemma ExtentsForShape(lowest: seq<nat>)
    requires Ascending(lowest) && (lowest != [] ==> RunCount(lowest[..|lowest| - 1]) < MAX_EXTENTS)
    ensures WrittenShape(ExtentsFor(lowest), lowest)
  {
    ExtentsForCovers(lowest);
    ExtentsForMaximal(lowest);
    if lowest != [] {
      RunCountStep(lowest, lowest[..|lowest| - 1]);
      if RunCount(lowest) == MAX_EXTENTS {
        LastRunIsNew(lowest, lowest[..|lowest| - 1]);
      }
    }
  }

  lemma RunCountStep(bs: seq<nat>, prefix: seq<nat>)
    requires bs != [] && prefix == bs[..|bs| - 1]
    ensures RunCount(bs) <= RunCount(prefix) + 1
  {
  }

  lemma NothingUsed(free: seq<nat>, n: nat)
    ensures [] + free == free
    ensures n <= |free| ==> [] + free[..n] == free[..n] && (n >= 1 ==> [] + free[..n - 1] == free[..n - 1])
  {
  }

  lemma LoopFromScratch(d: Disk, data: seq<byte>)
    ensures var w, free, n := WriteLoop(d, [], data), FreeBlockList(d), BlocksFor(|data|);
            && (w.ok <==> Fits(free, n))
            && (w.ok ==> w.extents == ExtentsFor(free[..n]))
  {
    var w, free, n := WriteLoop(d, [], data), FreeBlockList(d), BlocksFor(|data|);
    NothingUsed(free, n);
    WriteLoopExact(d, [], data);
    ExactMeans(d, [], data, w, free, n);
    NothingUsedFits(free, n, w);
  }

  lemma NothingUsedFits(free: seq<nat>, n: nat, w: Written)
    requires w.ok <==> FitsAfter([], free, n)
    requires w.ok ==> w.extents == ExtentsFor([] + free[..n])
    ensures w.ok <==> Fits(free, n)
    ensures w.ok ==> w.extents == ExtentsFor(free[..n])
  {
    NothingUsed(free, n);
  }

  /** A write of n blocks succeeds iff they fit, and then takes exactly the n lowest free blocks. */
  lemma OverwriteExact(d: Disk, x: nat, data: seq<byte>)
    requires Physical(d) && LiveFile(d, x)
    ensures Readable(d.blocks, BlocksOf(d, x))
    ensures var s, free, n := Overwrite(d, x, data), BlocksForWrite(d, x), BlocksFor(|data|);
            && (s.ok <==> Fits(free, n))
            && (s.ok ==> x < |s.disk.inodes| && WrittenShape(s.disk.inodes[x].extents, free[..n]))
  {
    EmptiedHoldsNothing(d, x);
    var free, n := BlocksForWrite(d, x), BlocksFor(|data|);
    LoopFromScratch(FreeBlocks(d, BlocksOf(d, x)), data);
    if Fits(free, n) {
      FitsShape(free, n);
    }
  }

  lemma FitsShape(free: seq<nat>, n: nat)
    requires Ascending(free) && Fits(free, n)
    ensures WrittenShape(ExtentsFor(free[..n]), free[..n])
  {
    assert n >= 1 ==> free[..n][..n - 1] == free[..n - 1];
    ExtentsForShape(free[..n]);
  }

  /** A write that succeeds replaces the contents of x by `data` and nothing else. */
  lemma OverwriteRefines(d: Disk, x: nat, data: seq<byte>)
    requires Physical(d) && LiveFile(d, x) && |data| < TWO_32
    requires Overwrite(d, x, data).ok
    ensures FileBecomes(d, Overwrite(d, x, data).disk, x, data)
    ensures View(Overwrite(d, x, data).disk) == SetFile(View(d), x, data)
  {
    EmptiedHoldsNothing(d, x);
    assert [] + data == data;
    WriteLoopCompletes(d, FreeBlocks(d, BlocksOf(d, x)), x, d.inodes[x], [], [], data, data);
    FileBecomesView(d, Overwrite(d, x, data).disk, x, data);
  }
}
