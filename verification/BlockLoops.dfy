/** The loops over a node's extents, their blocks and the slots or bytes in them, shared word for
  * word by the runtime (fs/zeros_mount.c), the kernel port (kernel/kzeros.c) and the formatter. */
module BlockLoops {
  import opened ZerosFs
  import opened Extents
  import opened Directory
  import opened Volume
  import FileContents
  import Ops = Operations

  /** Outcome of scanning a directory for a slot. */
  datatype ScanResult = Found(block: nat, slot: nat) | Missing | Unreadable

  /** The scan stopped at the first matching slot, at the end, or at an unreadable block. */
  ghost predicate ScanOk(blocks: seq<Block>, bs: seq<nat>, key: Key, r: ScanResult) {
    var slots := DirSlots(blocks, bs);
    var k := Find(slots, key);
    match r
    case Found(b, i) => k < |slots| && k / 8 < |bs| && b == bs[k / 8] < |blocks| && i == k % 8
    case Missing => k == |slots| && Readable(blocks, bs)
    case Unreadable => k == |slots| && !Readable(blocks, bs)
  }

  /** The blocks can be read and hold no entry but "." and "..". */
  ghost predicate DotsIn(blocks: seq<Block>, bs: seq<nat>) {
    Readable(blocks, bs) && Ops.OnlyDots(DirSlots(blocks, bs))
  }

  /** The first n blocks were read and held no match. */
  ghost predicate Passed(blocks: seq<Block>, bs: seq<nat>, n: nat, key: Key) {
    n <= |bs| && Readable(blocks, bs[..n]) && Find(DirSlots(blocks, bs[..n]), key) == |DirSlots(blocks, bs[..n])|
  }

  lemma PassedBlock(blocks: seq<Block>, bs: seq<nat>, n: nat, key: Key)
    requires Passed(blocks, bs, n, key) && n < |bs| && bs[n] < |blocks|
    requires Find(SlotsOf(blocks[bs[n]]), key) == DIRENTS_PER_BLOCK
    ensures Passed(blocks, bs, n + 1, key)
  {
    SlotsOfPrefix(blocks, bs, n);
    FindConcat(DirSlots(blocks, bs[..n]), SlotsOf(blocks[bs[n]]), key);
  }

  lemma FoundInBlock(blocks: seq<Block>, bs: seq<nat>, n: nat, key: Key)
    requires Passed(blocks, bs, n, key) && n < |bs| && bs[n] < |blocks|
    requires Find(SlotsOf(blocks[bs[n]]), key) < DIRENTS_PER_BLOCK
    ensures ScanOk(blocks, bs, key, Found(bs[n], Find(SlotsOf(blocks[bs[n]]), key)))
  {
    var table, rest := SlotsOf(blocks[bs[n]]), DirSlots(blocks, bs[n + 1..]);
    SlotsFromPrefix(blocks, bs, n);
    assert bs[n..][1..] == bs[n + 1..];
    FindPrefix(table, rest, key);
    FindConcat(DirSlots(blocks, bs[..n]), table + rest, key);
    DirSlotsAt(blocks, bs[..n]);
  }

  lemma {:induction false} FindPrefix(s: seq<Dirent>, t: seq<Dirent>, key: Key)
    requires Find(s, key) < |s|
    ensures Find(s + t, key) == Find(s, key)
  {
    assert (s + t)[1..] == s[1..] + t;
    if !Matches(s[0], key) {
      FindPrefix(s[1..], t, key);
    }
  }

  lemma StopsUnreadable(blocks: seq<Block>, bs: seq<nat>, n: nat, key: Key)
    requires Passed(blocks, bs, n, key) && n < |bs| && bs[n] >= |blocks|
    ensures ScanOk(blocks, bs, key, Unreadable)
  {
    SlotsFromPrefix(blocks, bs, n);
  }

  lemma PassedAll(blocks: seq<Block>, bs: seq<nat>, key: Key)
    requires Passed(blocks, bs, |bs|, key)
    ensures ScanOk(blocks, bs, key, Missing)
  {
    assert bs[..|bs|] == bs;
  }

  /** One block more: the directory has only dots so far iff the block adds no other name. */
  lemma DotsAfterBlock(blocks: seq<Block>, bs: seq<nat>, n: nat)
    requires n < |bs| && bs[n] < |blocks| && DotsIn(blocks, bs[..n])
    ensures if Ops.OnlyDots(SlotsOf(blocks[bs[n]])) then DotsIn(blocks, bs[..n + 1]) else !DotsIn(blocks, bs)
  {
    var before, table := DirSlots(blocks, bs[..n]), SlotsOf(blocks[bs[n]]);
    SlotsOfPrefix(blocks, bs, n);
    if !Ops.OnlyDots(table) {
      SlotsFromPrefix(blocks, bs, n);
      assert DirSlots(blocks, bs[n..]) == table + DirSlots(blocks, bs[n..][1..]);
      var i :| 0 <= i < |table| && !table[i].Free() && !Ops.DotName(table[i].name);
      assert DirSlots(blocks, bs)[|before| + i] == table[i];
    }
  }

  /** The innermost loop: the first matching slot of one block, 8 if there is none. */
  method FindInBlock(entries: SlotTable, key: Key) returns (i: nat)
    ensures i == Find(entries, key)
  {
    i := 0;
    while i < DIRENTS_PER_BLOCK && !Matches(entries[i], key)
      invariant i <= DIRENTS_PER_BLOCK
      invariant forall k | 0 <= k < i :: !Matches(entries[k], key)
    {
      i := i + 1;
    }
  }

  /** The scan shared by dir_lookup, dir_add_entry and dir_remove_entry. */
  method Scan(blocks: seq<Block>, exts: seq<Extent>, key: Key) returns (r: ScanResult)
    ensures ScanOk(blocks, Blocks(exts), key, r)
  {
    ghost var bs := Blocks(exts);
    VisitsAll(exts);
    for e := 0 to |exts|
      invariant Passed(blocks, bs, Position(exts, e, 0), key)
    {
      VisitsInOrder(exts, e);
      for b := 0 to exts[e].len
        invariant Passed(blocks, bs, Position(exts, e, b), key)
      {
        ghost var n := Position(exts, e, b);
        var blk := Add32(exts[e].start, b);
        assert bs[n] == blk;
        if blk >= |blocks| {
          StopsUnreadable(blocks, bs, n, key);
          return Unreadable;
        }
        var i := FindInBlock(SlotsOf(blocks[blk]), key);
        if i < DIRENTS_PER_BLOCK {
          FoundInBlock(blocks, bs, n, key);
          return Found(blk, i);
        }
        PassedBlock(blocks, bs, n, key);
      }
    }
    PassedAll(blocks, bs, key);
    r := Missing;
  }

  method BlockHasOnlyDots(entries: SlotTable) returns (dots: bool)
    ensures dots == Ops.OnlyDots(entries)
  {
    for i := 0 to DIRENTS_PER_BLOCK
      invariant forall k | 0 <= k < i && !entries[k].Free() :: Ops.DotName(entries[k].name)
    {
      if !entries[i].Free() && !Ops.DotName(entries[i].name) {
        return false;
      }
    }
    dots := true;
  }

  /** dir_is_empty; an unreadable block counts as "not empty". */
  method HoldsOnlyDots(blocks: seq<Block>, exts: seq<Extent>) returns (empty: bool)
    ensures empty == DotsIn(blocks, Blocks(exts))
  {
    ghost var bs := Blocks(exts);
    VisitsAll(exts);
    for e := 0 to |exts|
      invariant Position(exts, e, 0) <= |bs| && DotsIn(blocks, bs[..Position(exts, e, 0)])
    {
      VisitsInOrder(exts, e);
      for b := 0 to exts[e].len
        invariant Position(exts, e, b) <= |bs| && DotsIn(blocks, bs[..Position(exts, e, b)])
      {
        ghost var n := Position(exts, e, b);
        var blk := Add32(exts[e].start, b);
        assert bs[n] == blk;
        if blk >= |blocks| {
          return false;
        }
        var dots := BlockHasOnlyDots(SlotsOf(blocks[blk]));
        DotsAfterBlock(blocks, bs, n);
        if !dots {
          return false;
        }
      }
    }
    assert bs[..|bs|] == bs;
    empty := true;
  }

  /** After n blocks, all readable, `data` is the file's first min(size, n blocks) bytes. */
  ghost predicate Gathered(blocks: seq<Block>, bs: seq<nat>, size: nat, n: nat, data: seq<byte>, remaining: nat) {
    && n <= |bs| && Readable(blocks, bs[..n])
    && data == FirstBytes(Gather(blocks, bs[..n]), size) && remaining == size - |data|
  }

  /** What one block contributes while `remaining` bytes are missing. */
  function Chunk(block: Block, remaining: nat): (chunk: seq<byte>)
    ensures |chunk| <= remaining
  {
    if remaining < BLOCK_SIZE then BytesOf(block)[..remaining] else BytesOf(block)
  }

  lemma GatheredNext(blocks: seq<Block>, bs: seq<nat>, size: nat, n: nat, data: seq<byte>, remaining: nat)
    requires Gathered(blocks, bs, size, n, data, remaining) && n < |bs| && bs[n] < |blocks|
    ensures var chunk := Chunk(blocks[bs[n]], remaining);
            Gathered(blocks, bs, size, n + 1, data + chunk, remaining - |chunk|)
  {
    assert bs[..n + 1] == bs[..n] + [bs[n]];
    FileContents.GatherAppend(blocks, bs[..n], bs[n]);
  }

  lemma {:induction false} GatherSplit(blocks: seq<Block>, a: seq<nat>, b: seq<nat>)
    requires Readable(blocks, a)
    ensures Gather(blocks, a + b) == Gather(blocks, a) + Gather(blocks, b)
    ensures |Gather(blocks, a)| == BLOCK_SIZE * |a|
  {
    if a == [] {
      assert a + b == b;
    } else {
      assert (a + b)[1..] == a[1..] + b;
      GatherSplit(blocks, a[1..], b);
    }
  }

  /** Nothing is missing any more, or there are no more blocks. */
  lemma GatheredAll(blocks: seq<Block>, bs: seq<nat>, size: nat, n: nat, data: seq<byte>, remaining: nat)
    requires Gathered(blocks, bs, size, n, data, remaining) && (remaining == 0 || n == |bs|)
    ensures Readable(blocks, Ops.Needed(bs, size)) && data == FirstBytes(Gather(blocks, bs), size)
  {
    assert bs == bs[..n] + bs[n..];
    GatherSplit(blocks, bs[..n], bs[n..]);
    forall k | 0 <= k < |Ops.Needed(bs, size)| ensures Ops.Needed(bs, size)[k] < |blocks| {
      assert bs[..n][k] == bs[k];
    }
  }

  /** A block that is still needed cannot be read. */
  lemma GatherStops(blocks: seq<Block>, bs: seq<nat>, size: nat, n: nat, data: seq<byte>, remaining: nat)
    requires Gathered(blocks, bs, size, n, data, remaining) && remaining > 0 && n < |bs| && bs[n] >= |blocks|
    ensures !Readable(blocks, Ops.Needed(bs, size))
  {
    GatherSplit(blocks, bs[..n], []);
    assert n < BlocksFor(size);
    assert Ops.Needed(bs, size)[n] == bs[n];
  }

  /** The copying loops of zeros_read_file: they end early when nothing is missing any more, or at a block
    * that cannot be read. */
  method Collect(blocks: seq<Block>, exts: seq<Extent>, size: nat) returns (ok: bool, data: seq<byte>)
    ensures ok == Readable(blocks, Ops.Needed(Blocks(exts), size))
    ensures ok ==> data == FirstBytes(Gather(blocks, Blocks(exts)), size)
  {
    ok, data := true, [];
    var remaining: nat := size;
    ghost var bs, n := Blocks(exts), 0;
    VisitsAll(exts);
    var e := 0;
    while e < |exts| && remaining > 0
      invariant e <= |exts| && Gathered(blocks, bs, size, n, data, remaining)
      invariant remaining > 0 ==> n == Position(exts, e, 0)
    {
      VisitsInOrder(exts, e);
      var b := 0;
      while b < exts[e].len && remaining > 0
        invariant b <= exts[e].len && Gathered(blocks, bs, size, n, data, remaining)
        invariant n == Position(exts, e, b)
      {
        var blk := Add32(exts[e].start, b);
        assert bs[n] == blk;
        if blk >= |blocks| {
          GatherStops(blocks, bs, size, n, data, remaining);
          return false, data;
        }
        GatheredNext(blocks, bs, size, n, data, remaining);
        var chunk := Chunk(blocks[blk], remaining);
        data, remaining := data + chunk, remaining - |chunk|;
        b, n := b + 1, n + 1;
      }
      e := e + 1;
    }
    GatheredAll(blocks, bs, size, n, data, remaining);
  }

  /** The next block of a write: how many bytes it takes, and what is left to write. */
  function ChunkSize(left: nat): nat {
    if left > BLOCK_SIZE then BLOCK_SIZE else left
  }

  /** The block loop at byte `written`: what is left to do comes out as the whole. */
  ghost predicate Storing(whole: Ops.Written, d: Disk, exts: seq<Extent>, data: seq<byte>, written: nat) {
    written <= |data| && Ops.WriteLoop(d, exts, data[written..]) == whole
  }

  lemma StoreStart(d: Disk, data: seq<byte>, whole: Ops.Written)
    requires whole == Ops.WriteLoop(d, [], data)
    ensures Storing(whole, d, [], data, 0)
  {
    assert data[0..] == data;
  }

  lemma StoreNext(whole: Ops.Written, d: Disk, exts: seq<Extent>, data: seq<byte>, written: nat, a: Alloc, next: Disk)
    requires Storing(whole, d, exts, data, written) && written < |data| && |exts| < MAX_EXTENTS
    requires a == Volume.AllocBlock(d) && a.at != NONE
    requires next == PutBlock(a.disk, a.at, Bytes(Ops.Pad(data[written..written + ChunkSize(|data| - written)])))
    ensures Storing(whole, next, AddBlock(exts, a.at), data, written + ChunkSize(|data| - written))
  {
    var left, n := data[written..], ChunkSize(|data| - written);
    assert left[..n] == data[written..written + n];
    assert left[n..] == data[written + n..];
  }

  lemma StoreStops(whole: Ops.Written, d: Disk, exts: seq<Extent>, data: seq<byte>, written: nat)
    requires Storing(whole, d, exts, data, written) && written < |data|
    requires |exts| >= MAX_EXTENTS || Volume.AllocBlock(d).at == NONE
    ensures whole == Ops.Written(d, false, exts)
  {
  }

  lemma StoreDone(whole: Ops.Written, d: Disk, exts: seq<Extent>, data: seq<byte>)
    requires Storing(whole, d, exts, data, |data|)
    ensures whole == Ops.Written(d, true, exts)
  {
    assert data[|data|..] == [];
  }
}
