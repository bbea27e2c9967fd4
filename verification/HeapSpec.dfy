/** The kernel heap as a list of blocks in address order: first fit, splitting, coalescing
  * (kernel/heap.c). */
module HeapSpec {

  const HDR := 16
  const MIN_SPLIT := HDR + 8
  const PAGE := 4096
  const TWO_32 := 0x1_0000_0000

  /** A block: the address of its header, the bytes behind the header, and whether it is free. */
  datatype Blk = Blk(addr: nat, size: nat, free: bool) {
    function End(): nat { addr + HDR + size }
  }

  /** Rounding up to a multiple of eight, in 32-bit arithmetic. */
  function Align8(n: nat): nat {
    (n + 7) % TWO_32 / 8 * 8
  }

  // ---- growing ----

  /** heap_grow with a page at hand: a new last block, or a larger one if the last is free and touches it. */
  function Grow(bs: seq<Blk>, page: nat): seq<Blk> {
    var n := |bs| - 1;
    if bs != [] && bs[n].free && bs[n].End() == page then bs[n := bs[n].(size := bs[n].size + PAGE)]
    else bs + [Blk(page, PAGE - HDR, true)]
  }

  // ---- allocating ----

  predicate Fits(b: Blk, size: nat) {
    b.free && b.size >= size
  }

  /** Index of the first block that fits, |bs| if none does. */
  function FirstFit(bs: seq<Blk>, size: nat): (k: nat)
    ensures k <= |bs| && (k < |bs| ==> Fits(bs[k], size))
    ensures forall j | 0 <= j < k :: !Fits(bs[j], size)
  {
    if bs == [] || Fits(bs[0], size) then 0 else 1 + FirstFit(bs[1..], size)
  }

  /** What becomes of a block that is taken: the rest is split off when it is worth a header. */
  function Pieces(b: Blk, size: nat): (r: seq<Blk>)
    requires size <= b.size
    ensures r != [] && r[0].addr == b.addr && !r[0].free && size <= r[0].size < size + 24
    ensures r[|r| - 1].End() == b.End()
    ensures |r| == if b.size >= size + 24 then 2 else 1
    ensures |r| == 2 ==> r[0].size == size && r[1].free && r[1].addr == r[0].End()
  {
    if b.size >= size + MIN_SPLIT
    then [Blk(b.addr, size, false), Blk(b.addr + HDR + size, b.size - size - HDR, true)]
    else [b.(free := false)]
  }

  function Take(bs: seq<Blk>, k: nat, size: nat): seq<Blk>
    requires k < |bs| && size <= bs[k].size
  {
    bs[..k] + Pieces(bs[k], size) + bs[k + 1..]
  }

  /** The list, the pages left, and the address handed out (0 for none). */
  datatype Given = Given(bs: seq<Blk>, pages: seq<nat>, ptr: nat)

  /** kmalloc of an aligned size: first fit, growing page by page while nothing fits. A page at address 0
    * reads as "no page" and is lost. */
  function Allocate(bs: seq<Blk>, size: nat, pages: seq<nat>): Given
    decreases |pages|
  {
    var k := FirstFit(bs, size);
    if k < |bs| then Given(Take(bs, k, size), pages, bs[k].addr + HDR)
    else if pages == [] then Given(bs, [], 0)
    else if pages[0] == 0 then Given(bs, pages[1..], 0)
    else Allocate(Grow(bs, pages[0]), size, pages[1..])
  }

  function KMalloc(bs: seq<Blk>, n: nat, pages: seq<nat>): Given {
    if n == 0 then Given(bs, pages, 0) else Allocate(bs, Align8(n), pages)
  }

  // ---- freeing ----

  /** The pass that merges each free block with the free blocks after it in the list. */
  function Coalesce(bs: seq<Blk>): seq<Blk>
    decreases |bs|
  {
    if |bs| < 2 then bs
    else if bs[0].free && bs[1].free then
      Coalesce([bs[0].(size := bs[0].size + HDR + bs[1].size)] + bs[2..])
    else [bs[0]] + Coalesce(bs[1..])
  }

  function SetFree(bs: seq<Blk>, addr: nat): seq<Blk> {
    seq(|bs|, i requires 0 <= i < |bs| => if bs[i].addr == addr then bs[i].(free := true) else bs[i])
  }

  /** kfree of a pointer the heap handed out. */
  function KFree(bs: seq<Blk>, ptr: nat): seq<Blk> {
    if ptr < HDR then bs else Coalesce(SetFree(bs, ptr - HDR))
  }

  // ---- the invariant ----

  /** The blocks tile the heap: each starts where the one before it ends. */
  ghost predicate Tiles(bs: seq<Blk>) {
    forall i | 0 <= i < |bs| - 1 :: bs[i].End() == bs[i + 1].addr
  }

  /** The blocks lie in order of address and do not overlap; there may be gaps. */
  ghost predicate Ordered(bs: seq<Blk>) {
    forall i, j | 0 <= i < j < |bs| :: bs[i].End() <= bs[j].addr
  }

  /** The pages come in order of address, after the heap; there may be gaps. */
  ghost predicate Above(bs: seq<Blk>, pages: seq<nat>) {
    && (forall i, j | 0 <= i < j < |pages| :: pages[i] + PAGE <= pages[j])
    && (pages != [] ==> pages[0] > 0 && (bs != [] ==> bs[|bs| - 1].End() <= pages[0]))
  }

  /** No two neighbouring blocks are both free. */
  ghost predicate Merged(bs: seq<Blk>) {
    forall i | 0 <= i < |bs| - 1 :: !(bs[i].free && bs[i + 1].free)
  }

  /** Header address and size are multiples of eight, and the block is not empty. */
  ghost predicate Sized(b: Blk) {
    b.addr % 8 == 0 && b.addr > 0 && b.size % 8 == 0 && b.size >= 8
  }

  ghost predicate Aligned(bs: seq<Blk>) {
    forall i | 0 <= i < |bs| :: Sized(bs[i])
  }

  ghost predicate HeapOk(bs: seq<Blk>) {
    Tiles(bs) && Merged(bs) && Aligned(bs)
  }

  /** The pages continue the heap without a gap; the first page of an empty heap may be anywhere but 0. */
  ghost predicate Contiguous(bs: seq<Blk>, pages: seq<nat>) {
    && (forall i | 0 <= i < |pages| - 1 :: pages[i + 1] == pages[i] + PAGE)
    && (pages != [] ==> pages[0] % 8 == 0 && pages[0] > 0 && (bs != [] ==> bs[|bs| - 1].End() == pages[0]))
  }

  /** All bytes of the list, headers included. */
  function Bytes(bs: seq<Blk>): nat {
    if bs == [] then 0 else Bytes(bs[..|bs| - 1]) + HDR + bs[|bs| - 1].size
  }

  lemma {:induction false} BytesConcat(a: seq<Blk>, b: seq<Blk>)
    ensures Bytes(a + b) == Bytes(a) + Bytes(b)
    decreases |b|
  {
    if b == [] {
      assert a + b == a;
    } else {
      assert (a + b)[..|a + b| - 1] == a + b[..|b| - 1];
      BytesConcat(a, b[..|b| - 1]);
    }
  }

  lemma BytesOne(b: Blk)
    ensures Bytes([b]) == HDR + b.size
  {
    assert [b][..0] == [];
  }

  lemma BytesTwo(b: Blk, c: Blk)
    ensures Bytes([b, c]) == HDR + b.size + HDR + c.size
  {
    assert [b, c][..1] == [b];
    BytesOne(b);
  }

  // ---- growing keeps the invariant ----

  lemma GrowInPlace(bs: seq<Blk>, page: nat)
    requires HeapOk(bs) && page % 8 == 0 && bs != [] && bs[|bs| - 1].free && bs[|bs| - 1].End() == page
    ensures HeapOk(Grow(bs, page)) && Bytes(Grow(bs, page)) == Bytes(bs) + PAGE
    ensures Grow(bs, page) != [] && Grow(bs, page)[|Grow(bs, page)| - 1].End() == page + PAGE
  {
    assert Grow(bs, page)[..|bs| - 1] == bs[..|bs| - 1];
  }

  /** The block a fresh page makes. */
  lemma PageBlock(page: nat)
    requires page % 8 == 0 && page > 0
    ensures Sized(Blk(page, PAGE - HDR, true)) && Bytes([Blk(page, PAGE - HDR, true)]) == PAGE
  {
    BytesOne(Blk(page, PAGE - HDR, true));
  }

  lemma AppendOk(bs: seq<Blk>, b: Blk)
    requires HeapOk(bs) && Sized(b) && (bs != [] ==> bs[|bs| - 1].End() == b.addr && !bs[|bs| - 1].free)
    ensures HeapOk(bs + [b]) && Bytes(bs + [b]) == Bytes(bs) + HDR + b.size
  {
    BytesConcat(bs, [b]);
    BytesOne(b);
    forall i | 0 <= i < |bs + [b]| ensures Sized((bs + [b])[i]) {
      assert i < |bs| ==> (bs + [b])[i] == bs[i];
    }
  }

  lemma GrowByBlock(bs: seq<Blk>, page: nat)
    requires HeapOk(bs) && page % 8 == 0 && page > 0 && (bs != [] ==> bs[|bs| - 1].End() == page && !bs[|bs| - 1].free)
    ensures HeapOk(Grow(bs, page)) && Bytes(Grow(bs, page)) == Bytes(bs) + PAGE
    ensures Grow(bs, page) != [] && Grow(bs, page)[|Grow(bs, page)| - 1].End() == page + PAGE
  {
    PageBlock(page);
    AppendOk(bs, Blk(page, PAGE - HDR, true));
  }

  lemma GrowKeeps(bs: seq<Blk>, pages: seq<nat>)
    requires HeapOk(bs) && Contiguous(bs, pages) && pages != []
    ensures HeapOk(Grow(bs, pages[0])) && Contiguous(Grow(bs, pages[0]), pages[1..])
    ensures Bytes(Grow(bs, pages[0])) == Bytes(bs) + 4096
  {
    if bs != [] && bs[|bs| - 1].free {
      GrowInPlace(bs, pages[0]);
    } else {
      GrowByBlock(bs, pages[0]);
    }
  }

  /** With gaps too the order is kept. */
  lemma GrowOrdered(bs: seq<Blk>, pages: seq<nat>)
    requires Ordered(bs) && Above(bs, pages) && pages != []
    ensures Ordered(Grow(bs, pages[0])) && Above(Grow(bs, pages[0]), pages[1..])
  {
    var grown := Grow(bs, pages[0]);
    forall i, j | 0 <= i < j < |grown| ensures grown[i].End() <= grown[j].addr {
      assert bs[i].End() <= bs[|bs| - 1].End();
    }
  }

  // ---- taking keeps the invariant ----

  lemma TakeOrdered(bs: seq<Blk>, k: nat, size: nat)
    requires Ordered(bs) && k < |bs| && size <= bs[k].size
    ensures Ordered(Take(bs, k, size))
    ensures Take(bs, k, size) != [] && Take(bs, k, size)[|Take(bs, k, size)| - 1].End() == bs[|bs| - 1].End()
  {
    var after, mid := Take(bs, k, size), Pieces(bs[k], size);
    forall i, j | 0 <= i < j < |after| ensures after[i].End() <= after[j].addr {
      TakenFrom(bs, k, size, i);
      TakenFrom(bs, k, size, j);
    }
  }

  /** Where element i of the list after taking comes from. */
  lemma TakenFrom(bs: seq<Blk>, k: nat, size: nat, i: nat)
    requires k < |bs| && size <= bs[k].size && i < |Take(bs, k, size)|
    ensures var mid := Pieces(bs[k], size);
            Take(bs, k, size)[i] ==
              if i < k then bs[i] else if i < k + |mid| then mid[i - k] else bs[i - |mid| + 1]
  {
  }

  lemma TakeTiles(bs: seq<Blk>, k: nat, size: nat)
    requires Tiles(bs) && k < |bs| && size <= bs[k].size
    ensures Tiles(Take(bs, k, size))
  {
    var after, mid := Take(bs, k, size), Pieces(bs[k], size);
    forall i | 0 <= i < |after| - 1 ensures after[i].End() == after[i + 1].addr {
      assert i < k ==> after[i] == bs[i];
      assert i >= k + |mid| ==> after[i] == bs[i - |mid| + 1];
      assert i + 1 >= k + |mid| ==> after[i + 1] == bs[i - |mid| + 2];
    }
  }

  lemma TakeMerged(bs: seq<Blk>, k: nat, size: nat)
    requires Merged(bs) && k < |bs| && Fits(bs[k], size)
    ensures Merged(Take(bs, k, size))
  {
    var after, mid := Take(bs, k, size), Pieces(bs[k], size);
    forall i | 0 <= i < |after| - 1 ensures !(after[i].free && after[i + 1].free) {
      assert i < k ==> after[i] == bs[i];
      assert i >= k + |mid| ==> after[i] == bs[i - |mid| + 1];
      assert i + 1 >= k + |mid| ==> after[i + 1] == bs[i - |mid| + 2];
    }
  }

  lemma PiecesSized(b: Blk, size: nat)
    requires Sized(b) && size <= b.size && size % 8 == 0 && size >= 8
    ensures Aligned(Pieces(b, size))
  {
  }

  lemma TakeAligned(bs: seq<Blk>, k: nat, size: nat)
    requires Aligned(bs) && k < |bs| && Fits(bs[k], size) && size % 8 == 0 && size >= 8
    ensures Aligned(Take(bs, k, size))
  {
    PiecesSized(bs[k], size);
    forall i | 0 <= i < |Take(bs, k, size)| ensures Sized(Take(bs, k, size)[i]) {
      var n := |Pieces(bs[k], size)|;
      assert i < k ==> Take(bs, k, size)[i] == bs[i];
      assert k <= i < k + n ==> Take(bs, k, size)[i] == Pieces(bs[k], size)[i - k];
      assert i >= k + n ==> Take(bs, k, size)[i] == bs[i - n + 1];
    }
  }

  lemma TakeKeeps(bs: seq<Blk>, k: nat, size: nat)
    requires HeapOk(bs) && k < |bs| && Fits(bs[k], size) && size % 8 == 0 && size >= 8
    ensures HeapOk(Take(bs, k, size))
  {
    TakeTiles(bs, k, size);
    TakeMerged(bs, k, size);
    TakeAligned(bs, k, size);
  }

  /** What is left of block k, when it is at least 24 bytes larger than asked for, is a free block directly
    * behind the one handed out; otherwise the whole block is handed out. */
  ghost predicate RestBehind(bs: seq<Blk>, after: seq<Blk>, k: nat, size: nat)
    requires k < |bs| && k < |after|
  {
    if bs[k].size >= size + 24 then
      && |after| == |bs| + 1
      && after[k].size == size && after[k + 1] == Blk(bs[k].addr + 16 + size, bs[k].size - size - 16, true)
    else |after| == |bs| && after[k].size == bs[k].size
  }

  /** Block k handed out: fewer than 24 bytes to spare, and nothing moves before it. */
  ghost predicate Placed(bs: seq<Blk>, after: seq<Blk>, k: nat, size: nat) {
    && k < |bs| && k < |after| && bs[k].free
    && after[k].addr == bs[k].addr && !after[k].free && size <= after[k].size < size + 24
    && RestBehind(bs, after, k, size)
    && forall j | 0 <= j < k :: after[j] == bs[j]
  }

  /** What an allocation hands out, and that nothing else moves. */
  ghost predicate Handed(bs: seq<Blk>, after: seq<Blk>, k: nat, size: nat) {
    && Placed(bs, after, k, size)
    && (forall b | b in bs && !b.free :: b in after)
    && (forall b | b in after && !b.free :: b in bs || b == after[k])
  }

  lemma TakeHands(bs: seq<Blk>, k: nat, size: nat)
    requires k < |bs| && Fits(bs[k], size)
    ensures Handed(bs, Take(bs, k, size), k, size)
  {
    var after := Take(bs, k, size);
    forall b | b in bs && !b.free ensures b in after {
      var j :| 0 <= j < |bs| && bs[j] == b;
      assert b in bs[..k] || b in bs[k + 1..];
    }
  }

  lemma PiecesBytes(b: Blk, size: nat)
    requires size <= b.size
    ensures Bytes(Pieces(b, size)) == HDR + b.size
  {
    if b.size >= size + MIN_SPLIT {
      BytesTwo(Pieces(b, size)[0], Pieces(b, size)[1]);
    } else {
      BytesOne(b.(free := false));
    }
  }

  lemma BytesAround(a: seq<Blk>, mid: seq<Blk>, c: seq<Blk>)
    ensures Bytes(a + mid + c) == Bytes(a) + Bytes(mid) + Bytes(c)
  {
    BytesConcat(a + mid, c);
    BytesConcat(a, mid);
  }

  lemma TakeBytes(bs: seq<Blk>, k: nat, size: nat)
    requires k < |bs| && Fits(bs[k], size)
    ensures Bytes(Take(bs, k, size)) == Bytes(bs)
  {
    assert bs == bs[..k] + [bs[k]] + bs[k + 1..];
    BytesAround(bs[..k], [bs[k]], bs[k + 1..]);
    BytesAround(bs[..k], Pieces(bs[k], size), bs[k + 1..]);
    BytesOne(bs[k]);
    PiecesBytes(bs[k], size);
  }
}
