/** What the heap keeps: the tiling, every live allocation, every byte; and where it needs its pages
  * side by side. */
module HeapProofs {
  import opened HeapSpec

  // ---- allocation ----

  /** Same live allocations before and after. */
  ghost predicate SameLive(bs: seq<Blk>, after: seq<Blk>) {
    forall b: Blk | !b.free :: b in bs <==> b in after
  }

  lemma GrowKeepsLive(bs: seq<Blk>, page: nat)
    ensures SameLive(bs, Grow(bs, page))
  {
    var after, n := Grow(bs, page), |bs| - 1;
    if bs != [] && bs[n].free && bs[n].End() == page {
      forall b: Blk | !b.free ensures b in bs <==> b in after {
        if b in bs {
          var j :| 0 <= j < |bs| && bs[j] == b;
          assert after[j] == b;
        }
        if b in after {
          var j :| 0 <= j < |after| && after[j] == b;
          assert bs[j] == b;
        }
      }
    }
  }

  /** One more live allocation: a block of at least `size` bytes behind `ptr`, with fewer than 24 to spare. */
  ghost predicate OneMore(bs: seq<Blk>, after: seq<Blk>, ptr: nat, size: nat, b: Blk) {
    && b in after && !b.free && size <= b.size < size + 24 && b.addr + HDR == ptr && ptr % 8 == 0
    && (forall c: Blk | c in bs && !c.free :: c in after)
    && (forall c: Blk | c in after && !c.free :: c in bs || c == b)
    && b !in bs
  }

  lemma {:induction false} TilesAscend(bs: seq<Blk>, i: nat, j: nat)
    requires Tiles(bs) && i < j < |bs|
    ensures bs[i].End() <= bs[j].addr
    decreases j
  {
    if i < j - 1 {
      TilesAscend(bs, i, j - 1);
    }
  }

  lemma TilesAreOrdered(bs: seq<Blk>)
    requires Tiles(bs)
    ensures Ordered(bs)
  {
    forall i, j | 0 <= i < j < |bs| ensures bs[i].End() <= bs[j].addr {
      TilesAscend(bs, i, j);
    }
  }

  /** Live allocations never overlap. */
  lemma LiveAreDisjoint(bs: seq<Blk>, i: nat, j: nat)
    requires Tiles(bs) && i < |bs| && j < |bs| && i != j
    ensures bs[i].End() <= bs[j].addr || bs[j].End() <= bs[i].addr
  {
    TilesAreOrdered(bs);
  }

  lemma NewIsNew(bs: seq<Blk>, k: nat, b: Blk)
    requires Tiles(bs) && k < |bs| && bs[k].free && b.addr == bs[k].addr && !b.free
    ensures b !in bs
  {
    if b in bs {
      var j :| 0 <= j < |bs| && bs[j] == b;
      LiveAreDisjoint(bs, j, k);
    }
  }

  lemma TakeIsOneMore(bs: seq<Blk>, k: nat, size: nat)
    requires HeapOk(bs) && k < |bs| && Fits(bs[k], size)
    ensures k < |Take(bs, k, size)| && OneMore(bs, Take(bs, k, size), bs[k].addr + HDR, size, Take(bs, k, size)[k])
  {
    TakeHands(bs, k, size);
    NewIsNew(bs, k, Take(bs, k, size)[k]);
  }

  /** The first block that fits is handed out, no page is taken, and what is left of the block stays free. */
  ghost predicate ServedAt(bs: seq<Blk>, size: nat, pages: seq<nat>, g: Given, k: nat) {
    && g.pages == pages && k < |bs| && k < |g.bs| && g.ptr == bs[k].addr + HDR
    && Placed(bs, g.bs, k, size)
  }

  /** What one kmalloc of an aligned size does: the invariant stays, each page taken adds 4096 bytes,
    * a success is exactly one more live allocation, and the first block that fits is used. */
  ghost predicate AllocatedOk(bs: seq<Blk>, size: nat, pages: seq<nat>, g: Given) {
    && HeapOk(g.bs) && Contiguous(g.bs, g.pages) && |g.pages| <= |pages|
    && Bytes(g.bs) == Bytes(bs) + 4096 * (|pages| - |g.pages|)
    && (g.ptr == 0 ==> SameLive(bs, g.bs))
    && (g.ptr != 0 ==> exists b :: OneMore(bs, g.bs, g.ptr, size, b))
    && (FirstFit(bs, size) < |bs| ==> ServedAt(bs, size, pages, g, FirstFit(bs, size)))
  }

  lemma AllocateFromFit(bs: seq<Blk>, size: nat, pages: seq<nat>)
    requires HeapOk(bs) && Contiguous(bs, pages) && size % 8 == 0 && size >= 8 && FirstFit(bs, size) < |bs|
    ensures AllocatedOk(bs, size, pages, Allocate(bs, size, pages))
  {
    var k := FirstFit(bs, size);
    TakeKeeps(bs, k, size);
    TakeIsOneMore(bs, k, size);
    TakeHands(bs, k, size);
    TakeBytes(bs, k, size);
    assert OneMore(bs, Take(bs, k, size), bs[k].addr + HDR, size, Take(bs, k, size)[k]);
    TakeEnd(bs, k, size);
  }

  lemma TakeEnd(bs: seq<Blk>, k: nat, size: nat)
    requires k < |bs| && size <= bs[k].size
    ensures Take(bs, k, size)[|Take(bs, k, size)| - 1].End() == bs[|bs| - 1].End()
  {
  }

  lemma OneMoreAfterGrowth(bs: seq<Blk>, mid: seq<Blk>, after: seq<Blk>, ptr: nat, size: nat)
    requires SameLive(bs, mid) && exists b :: OneMore(mid, after, ptr, size, b)
    ensures exists b :: OneMore(bs, after, ptr, size, b)
  {
    var b :| OneMore(mid, after, ptr, size, b);
    assert OneMore(bs, after, ptr, size, b);
  }

  lemma {:induction false} AllocateKeeps(bs: seq<Blk>, size: nat, pages: seq<nat>)
    requires HeapOk(bs) && Contiguous(bs, pages) && size % 8 == 0 && size >= 8
    ensures AllocatedOk(bs, size, pages, Allocate(bs, size, pages))
    decreases |pages|
  {
    if FirstFit(bs, size) < |bs| {
      AllocateFromFit(bs, size, pages);
    } else if pages != [] {
      var mid, g := Grow(bs, pages[0]), Allocate(bs, size, pages);
      GrowKeeps(bs, pages);
      GrowKeepsLive(bs, pages[0]);
      AllocateKeeps(mid, size, pages[1..]);
      if g.ptr != 0 {
        OneMoreAfterGrowth(bs, mid, g.bs, g.ptr, size);
      }
    }
  }

  /** Room at the end of the heap: the last block if it is free; a new page brings its own header. */
  function TailRoom(bs: seq<Blk>): int {
    if bs != [] && bs[|bs| - 1].free then bs[|bs| - 1].size else -HDR
  }

  lemma FitAfterGrowth(bs: seq<Blk>, size: nat, pages: seq<nat>)
    requires Contiguous(bs, pages) && pages != [] && FirstFit(bs, size) == |bs|
    ensures var mid := Grow(bs, pages[0]);
            && TailRoom(mid) == TailRoom(bs) + PAGE
            && (FirstFit(mid, size) < |mid| <==> TailRoom(mid) >= size)
  {
    var mid := Grow(bs, pages[0]);
    FirstFitExists(mid, size, |mid| - 1);
  }

  lemma {:induction false} FirstFitExists(bs: seq<Blk>, size: nat, k: nat)
    requires k < |bs|
    ensures Fits(bs[k], size) ==> FirstFit(bs, size) <= k
  {
  }

  /** kmalloc of an aligned size fails exactly when no free block fits and the end of the heap, with all
    * the pages left, is too small. */
  lemma {:induction false} AllocateExact(bs: seq<Blk>, size: nat, pages: seq<nat>)
    requires HeapOk(bs) && Contiguous(bs, pages)
    ensures Allocate(bs, size, pages).ptr == 0 <==>
              FirstFit(bs, size) == |bs| && TailRoom(bs) + PAGE * |pages| < size
    decreases |pages|
  {
    if FirstFit(bs, size) < |bs| {
    } else if pages == [] {
      if bs != [] {
        FirstFitExists(bs, size, |bs| - 1);
      }
    } else {
      GrowKeeps(bs, pages);
      FitAfterGrowth(bs, size, pages);
      AllocateExact(Grow(bs, pages[0]), size, pages[1..]);
    }
  }

  /** With no block that fits, a success takes just as many pages as the end of the heap lacks, and hands out the
    * end of the heap; a failure has taken them all. */
  lemma {:induction false} AllocateGrows(bs: seq<Blk>, size: nat, pages: seq<nat>)
    requires HeapOk(bs) && Contiguous(bs, pages) && FirstFit(bs, size) == |bs|
    ensures var g, taken := Allocate(bs, size, pages), |pages| - |Allocate(bs, size, pages).pages|;
            && 0 <= taken && g.pages == pages[taken..]
            && (g.ptr == 0 ==> g.pages == [])
            && (g.ptr != 0 ==> taken > 0 && TailRoom(bs) + PAGE * (taken - 1) < size <= TailRoom(bs) + PAGE * taken)
            && (g.ptr != 0 ==> g.ptr == HDR + if TailRoom(bs) >= 0 then bs[|bs| - 1].addr else pages[0])
    decreases |pages|
  {
    if pages != [] {
      var mid := Grow(bs, pages[0]);
      GrowKeeps(bs, pages);
      FitAfterGrowth(bs, size, pages);
      NoRoomAtEnd(bs, size);
      if FirstFit(mid, size) < |mid| {
        OnlyTheLastFits(bs, mid, size, pages[0]);
      } else {
        AllocateGrows(mid, size, pages[1..]);
      }
    }
  }

  lemma NoRoomAtEnd(bs: seq<Blk>, size: nat)
    requires FirstFit(bs, size) == |bs|
    ensures TailRoom(bs) < size
  {
    if bs != [] {
      FirstFitExists(bs, size, |bs| - 1);
    }
  }

  /** What fits after a growth is the end of the heap. */
  lemma OnlyTheLastFits(bs: seq<Blk>, mid: seq<Blk>, size: nat, page: nat)
    requires FirstFit(bs, size) == |bs| && mid == Grow(bs, page) && FirstFit(mid, size) < |mid|
    ensures FirstFit(mid, size) == |mid| - 1
  {
  }

  /** Any request of 1 to 2^32 - 8 bytes is served aligned and large enough, or not at all. */
  lemma KMallocKeeps(bs: seq<Blk>, n: nat, pages: seq<nat>)
    requires HeapOk(bs) && Contiguous(bs, pages) && 1 <= n <= TWO_32 - 8
    ensures Align8(n) >= n && AllocatedOk(bs, Align8(n), pages, KMalloc(bs, n, pages))
  {
    AllocateKeeps(bs, Align8(n), pages);
  }

  /** Where a second request of `more` bytes ends up. */
  lemma RestFits(bs: seq<Blk>, size: nat, more: nat, after: seq<Blk>, k: nat)
    requires k == FirstFit(bs, size) < |bs| && Placed(bs, after, k, size)
    requires more >= 8 && bs[k].size >= size + 16 + more
    ensures FirstFit(after, more) <= k + 1 < |after|
    ensures more >= size ==> FirstFit(after, more) == k + 1 && after[k + 1].addr == bs[k].addr + 16 + size
  {
    FirstFitExists(after, more, k + 1);
    if more >= size {
      forall j | 0 <= j <= k ensures !Fits(after[j], more) {
        assert j < k ==> after[j] == bs[j] && !Fits(bs[j], size);
      }
    }
  }

  lemma AlignUp(n: nat)
    requires 1 <= n <= TWO_32 - 8
    ensures n <= Align8(n) <= n + 7 && Align8(n) >= 8
  {
  }

  /** A request that fits is served at the first block that does. */
  lemma FitIsServed(bs: seq<Blk>, n: nat, pages: seq<nat>, size: nat, k: nat, g: Given)
    requires HeapOk(bs) && Contiguous(bs, pages) && 1 <= n <= TWO_32 - 8 && g == KMalloc(bs, n, pages)
    requires size == Align8(n) && k == FirstFit(bs, size) && k < |bs|
    ensures ServedAt(bs, size, pages, g, k) && HeapOk(g.bs) && Contiguous(g.bs, pages)
  {
    KMallocKeeps(bs, n, pages);
  }

  /** Served behind a request of `size` bytes that was served from the block at `at`. */
  ghost predicate ServedBehind(g: Given, h: Given, at: nat, size: nat, more: nat) {
    && g.ptr == at + 16 && h.ptr != 0 && h.pages == g.pages
    && (more >= size ==> h.ptr == g.ptr + size + 16)
  }

  lemma RestIsServed(bs: seq<Blk>, size: nat, k: nat, g: Given, more: nat, j: nat, h: Given, pages: seq<nat>)
    requires k == FirstFit(bs, size) && ServedAt(bs, size, pages, g, k)
    requires j == FirstFit(g.bs, more) && (j < |g.bs| ==> ServedAt(g.bs, more, pages, h, j))
    requires more >= 8 && bs[k].size >= size + 16 + more
    ensures ServedBehind(g, h, bs[k].addr, size, more)
  {
    RestFits(bs, size, more, g.bs, k);
  }

  /** A second request that fits what the first left of its block is served without a page; when it is not
    * the smaller one, from directly behind the first. */
  lemma RestServes(bs: seq<Blk>, n: nat, m: nat, pages: seq<nat>, k: nat, g: Given, h: Given)
    requires HeapOk(bs) && Contiguous(bs, pages) && 1 <= n <= TWO_32 - 8 && 1 <= m <= TWO_32 - 8
    requires k == FirstFit(bs, Align8(n)) && k < |bs| && bs[k].size >= Align8(n) + 16 + Align8(m)
    requires g == KMalloc(bs, n, pages) && h == KMalloc(g.bs, m, g.pages)
    ensures ServedBehind(g, h, bs[k].addr, Align8(n), Align8(m)) && g.pages == pages
  {
    AlignUp(m);
    FitIsServed(bs, n, pages, Align8(n), k, g);
    if FirstFit(g.bs, Align8(m)) < |g.bs| {
      FitIsServed(g.bs, m, pages, Align8(m), FirstFit(g.bs, Align8(m)), h);
    }
    RestIsServed(bs, Align8(n), k, g, Align8(m), FirstFit(g.bs, Align8(m)), h, pages);
  }

  /** The seven largest requests wrap around to zero bytes, which any free block satisfies. */
  lemma HugeRequestsWrap(n: nat)
    requires n < TWO_32
    ensures Align8(n) < n <==> n > TWO_32 - 8
    ensures n > TWO_32 - 8 ==> Align8(n) == 0
  {
  }

  // ---- the coalescing pass ----

  lemma {:induction false} CoalesceHead(bs: seq<Blk>)
    requires bs != []
    ensures Coalesce(bs) != [] && Coalesce(bs)[0].addr == bs[0].addr
    ensures Coalesce(bs)[0].free == bs[0].free && Coalesce(bs)[0].size >= bs[0].size
    ensures !bs[0].free ==> Coalesce(bs)[0] == bs[0]
    decreases |bs|
  {
    if |bs| >= 2 && bs[0].free && bs[1].free {
      CoalesceHead([bs[0].(size := bs[0].size + HDR + bs[1].size)] + bs[2..]);
    }
  }

  /** Whatever the list, no two neighbours are free afterwards. */
  lemma {:induction false} CoalesceMerges(bs: seq<Blk>)
    ensures Merged(Coalesce(bs))
    decreases |bs|
  {
    if |bs| >= 2 {
      if bs[0].free && bs[1].free {
        CoalesceMerges([bs[0].(size := bs[0].size + HDR + bs[1].size)] + bs[2..]);
      } else {
        CoalesceMerges(bs[1..]);
        CoalesceHead(bs[1..]);
      }
    }
  }

  lemma {:induction false} CoalesceBytes(bs: seq<Blk>)
    ensures Bytes(Coalesce(bs)) == Bytes(bs)
    decreases |bs|
  {
    if |bs| >= 2 {
      var m := bs[0].(size := bs[0].size + HDR + bs[1].size);
      if bs[0].free && bs[1].free {
        CoalesceBytes([m] + bs[2..]);
        PairBytes(bs, m);
      } else {
        CoalesceBytes(bs[1..]);
        BytesConcat([bs[0]], bs[1..]);
        BytesConcat([bs[0]], Coalesce(bs[1..]));
        assert bs == [bs[0]] + bs[1..];
      }
    }
  }

  lemma PairBytes(bs: seq<Blk>, m: Blk)
    requires |bs| >= 2 && m.size == bs[0].size + HDR + bs[1].size
    ensures Bytes([m] + bs[2..]) == Bytes(bs)
  {
    BytesConcat([m], bs[2..]);
    BytesConcat([bs[0], bs[1]], bs[2..]);
    BytesOne(m);
    BytesTwo(bs[0], bs[1]);
    assert bs == [bs[0], bs[1]] + bs[2..];
  }

  lemma {:induction false} CoalesceTiles(bs: seq<Blk>)
    requires Tiles(bs) && Aligned(bs)
    ensures Tiles(Coalesce(bs)) && Aligned(Coalesce(bs))
    ensures bs != [] ==> Coalesce(bs) != [] && Coalesce(bs)[|Coalesce(bs)| - 1].End() == bs[|bs| - 1].End()
    decreases |bs|
  {
    if |bs| >= 2 {
      if bs[0].free && bs[1].free {
        var m := bs[0].(size := bs[0].size + HDR + bs[1].size);
        assert Tiles([m] + bs[2..]) && Aligned([m] + bs[2..]);
        CoalesceTiles([m] + bs[2..]);
      } else {
        CoalesceTiles(bs[1..]);
        CoalesceHead(bs[1..]);
      }
    }
  }

  /** Merging across a gap keeps the order too: the sizes are added, the gap is not. */
  lemma {:induction false} CoalesceOrdered(bs: seq<Blk>)
    requires Ordered(bs)
    ensures Ordered(Coalesce(bs)) && |Coalesce(bs)| <= |bs| && (bs != [] ==> Coalesce(bs) != [])
    ensures bs != [] ==> Coalesce(bs)[|Coalesce(bs)| - 1].End() <= bs[|bs| - 1].End()
    decreases |bs|
  {
    if |bs| >= 2 && bs[0].free && bs[1].free {
      var joined := [bs[0].(size := bs[0].size + HDR + bs[1].size)] + bs[2..];
      JoinedOrdered(bs, joined);
      CoalesceOrdered(joined);
    } else if |bs| >= 2 {
      CoalesceOrdered(bs[1..]);
      FirstStaysBelow(bs, Coalesce(bs[1..]));
    }
  }

  lemma JoinedOrdered(bs: seq<Blk>, joined: seq<Blk>)
    requires Ordered(bs) && |bs| >= 2 && joined == [bs[0].(size := bs[0].size + HDR + bs[1].size)] + bs[2..]
    ensures Ordered(joined) && joined[|joined| - 1].End() <= bs[|bs| - 1].End()
  {
    forall i, j | 0 <= i < j < |joined| ensures joined[i].End() <= joined[j].addr {
      assert bs[0].End() <= bs[1].addr && bs[1].End() <= bs[j + 1].addr;
    }
  }

  lemma FirstStaysBelow(bs: seq<Blk>, rest: seq<Blk>)
    requires Ordered(bs) && |bs| >= 2 && rest == Coalesce(bs[1..]) && Ordered(rest)
    ensures rest != [] && Ordered([bs[0]] + rest)
  {
    CoalesceHead(bs[1..]);
    forall j | 0 <= j < |rest| ensures bs[0].End() <= rest[j].addr {
      assert j > 0 ==> rest[0].End() <= rest[j].addr;
    }
  }

  lemma {:induction false} CoalesceKeepsLive(bs: seq<Blk>, b: Blk)
    requires !b.free
    ensures b in Coalesce(bs) <==> b in bs
    decreases |bs|
  {
    if |bs| >= 2 {
      if bs[0].free && bs[1].free {
        CoalesceKeepsLive([bs[0].(size := bs[0].size + HDR + bs[1].size)] + bs[2..], b);
        assert bs == [bs[0], bs[1]] + bs[2..];
      } else {
        CoalesceKeepsLive(bs[1..], b);
        assert bs == [bs[0]] + bs[1..];
      }
    }
  }

  /** A list without free neighbours is left alone. */
  lemma {:induction false} CoalesceIdle(bs: seq<Blk>)
    requires Merged(bs)
    ensures Coalesce(bs) == bs
    decreases |bs|
  {
    if |bs| >= 2 {
      CoalesceIdle(bs[1..]);
      assert bs == [bs[0]] + bs[1..];
    }
  }

  // ---- kfree ----

  lemma SetFreeAt(bs: seq<Blk>, k: nat)
    requires Ordered(bs) && k < |bs|
    ensures SetFree(bs, bs[k].addr) == bs[k := bs[k].(free := true)]
  {
    forall j | 0 <= j < |bs| && j != k ensures bs[j].addr != bs[k].addr {
      assert if j < k then bs[j].End() <= bs[k].addr else bs[k].End() <= bs[j].addr;
    }
  }

  /** Whatever block is freed, the list stays in order. */
  lemma KFreeOrdered(bs: seq<Blk>, k: nat)
    requires Ordered(bs) && k < |bs|
    ensures var after := KFree(bs, bs[k].addr + HDR);
            Ordered(after) && after != [] && after[|after| - 1].End() <= bs[|bs| - 1].End()
  {
    var marked := bs[k := bs[k].(free := true)];
    SetFreeAt(bs, k);
    assert KFree(bs, bs[k].addr + HDR) == Coalesce(marked);
    MarkedOrdered(bs, k, marked);
    CoalesceOrdered(marked);
  }

  lemma MarkedOrdered(bs: seq<Blk>, k: nat, marked: seq<Blk>)
    requires Ordered(bs) && k < |bs| && marked == bs[k := bs[k].(free := true)]
    ensures Ordered(marked) && marked != [] && marked[|marked| - 1].End() == bs[|bs| - 1].End()
  {
    assert forall i | 0 <= i < |bs| :: marked[i].addr == bs[i].addr && marked[i].End() == bs[i].End();
  }

  /** A heap that ends no later leaves the pages above it. */
  lemma StillAbove(bs: seq<Blk>, after: seq<Blk>, pages: seq<nat>)
    requires Above(bs, pages) && bs != [] && after != [] && after[|after| - 1].End() <= bs[|bs| - 1].End()
    ensures Above(after, pages)
  {
  }

  lemma MarkedOk(bs: seq<Blk>, k: nat)
    requires HeapOk(bs) && k < |bs|
    ensures var marked := bs[k := bs[k].(free := true)];
            && Tiles(marked) && Aligned(marked) && Bytes(marked) == Bytes(bs)
            && marked[|marked| - 1].End() == bs[|bs| - 1].End()
  {
    MarkedBytes(bs, k);
  }

  lemma CoalesceRestores(bs: seq<Blk>)
    requires Tiles(bs) && Aligned(bs) && bs != []
    ensures var after := Coalesce(bs);
            && HeapOk(after) && Bytes(after) == Bytes(bs)
            && after != [] && after[|after| - 1].End() == bs[|bs| - 1].End()
  {
    CoalesceTiles(bs);
    CoalesceMerges(bs);
    CoalesceBytes(bs);
  }

  /** Freeing a live allocation keeps the invariant and every byte, and ends exactly that allocation. */
  lemma KFreeKeeps(bs: seq<Blk>, k: nat)
    requires HeapOk(bs) && k < |bs| && !bs[k].free
    ensures var after := KFree(bs, bs[k].addr + HDR);
            && HeapOk(after) && Bytes(after) == Bytes(bs)
            && after != [] && after[|after| - 1].End() == bs[|bs| - 1].End()
            && forall b: Blk | !b.free :: b in after <==> b in bs && b != bs[k]
  {
    var marked := bs[k := bs[k].(free := true)];
    TilesAreOrdered(bs);
    SetFreeAt(bs, k);
    assert KFree(bs, bs[k].addr + HDR) == Coalesce(marked);
    MarkedOk(bs, k);
    CoalesceRestores(marked);
    forall b: Blk | !b.free ensures b in Coalesce(marked) <==> b in bs && b != bs[k] {
      CoalesceKeepsLive(marked, b);
      MarkedLive(bs, k, b);
    }
  }

  lemma MarkedLive(bs: seq<Blk>, k: nat, b: Blk)
    requires Tiles(bs) && k < |bs| && !bs[k].free && !b.free
    ensures b in bs[k := bs[k].(free := true)] <==> b in bs && b != bs[k]
  {
    var marked := bs[k := bs[k].(free := true)];
    if b in marked {
      var j :| 0 <= j < |marked| && marked[j] == b;
      LiveAreDisjoint(bs, j, k);
    }
    if b in bs && b != bs[k] {
      var j :| 0 <= j < |bs| && bs[j] == b;
      assert marked[j] == b;
    }
  }

  lemma MarkedBytes(bs: seq<Blk>, k: nat)
    requires k < |bs|
    ensures Bytes(bs[k := bs[k].(free := true)]) == Bytes(bs)
  {
    var b := bs[k].(free := true);
    assert bs == bs[..k] + [bs[k]] + bs[k + 1..];
    assert bs[k := b] == bs[..k] + [b] + bs[k + 1..];
    BytesAround(bs[..k], [bs[k]], bs[k + 1..]);
    BytesAround(bs[..k], [b], bs[k + 1..]);
    BytesOne(b);
    BytesOne(bs[k]);
  }

  /** Two free blocks in an otherwise merged list are merged, and nothing else is. */
  lemma {:induction false} CoalescePair(a: seq<Blk>, x: Blk, y: Blk, c: seq<Blk>)
    requires x.free && y.free && Merged(a + [x.(size := x.size + HDR + y.size)] + c)
    ensures Coalesce(a + [x, y] + c) == a + [x.(size := x.size + HDR + y.size)] + c
    decreases |a|
  {
    var m, bs := x.(size := x.size + HDR + y.size), a + [x, y] + c;
    var goal := a + [m] + c;
    if a == [] {
      assert bs[2..] == c && goal == [m] + c;
      CoalesceIdle(goal);
    } else {
      assert bs[1..] == a[1..] + [x, y] + c;
      assert goal[1..] == a[1..] + [m] + c;
      assert !(goal[0].free && goal[1].free);
      CoalescePair(a[1..], x, y, c);
    }
  }

  /** Freeing right after allocating, with no page taken, gives back the very same list. */
  lemma FreeUndoesTake(bs: seq<Blk>, k: nat, size: nat)
    requires HeapOk(bs) && k < |bs| && Fits(bs[k], size) && size % 8 == 0 && size >= 8
    ensures KFree(Take(bs, k, size), bs[k].addr + HDR) == bs
  {
    var taken := Take(bs, k, size);
    TakeKeeps(bs, k, size);
    TilesAreOrdered(taken);
    SetFreeAt(taken, k);
    if bs[k].size >= size + MIN_SPLIT {
      SplitMerges(bs, k, size, taken[k := taken[k].(free := true)]);
    } else {
      assert taken[k := taken[k].(free := true)] == bs;
      CoalesceIdle(bs);
    }
  }

  /** The two pieces of a split block, both free again, are merged. */
  lemma SplitMerges(bs: seq<Blk>, k: nat, size: nat, marked: seq<Blk>)
    requires HeapOk(bs) && k < |bs| && Fits(bs[k], size) && bs[k].size >= size + MIN_SPLIT
    requires marked == Take(bs, k, size)[k := Take(bs, k, size)[k].(free := true)]
    ensures Coalesce(marked) == bs
  {
    var b := bs[k];
    var x, y := Blk(b.addr, size, true), Blk(b.addr + HDR + size, b.size - size - HDR, true);
    assert bs == bs[..k] + [b] + bs[k + 1..];
    assert marked == bs[..k] + [x, y] + bs[k + 1..];
    CoalescePair(bs[..k], x, y, bs[k + 1..]);
  }

  lemma FreeUndoesMalloc(bs: seq<Blk>, n: nat, pages: seq<nat>)
    requires HeapOk(bs) && 1 <= n <= TWO_32 - 8
    requires var g := KMalloc(bs, n, pages); g.ptr != 0 && g.pages == pages
    ensures KFree(KMalloc(bs, n, pages).bs, KMalloc(bs, n, pages).ptr) == bs
  {
    var size := Align8(n);
    if FirstFit(bs, size) < |bs| {
      FreeUndoesTake(bs, FirstFit(bs, size), size);
    } else {
      PagesShrink(Grow(bs, pages[0]), size, pages[1..]);
    }
  }

  lemma {:induction false} PagesShrink(bs: seq<Blk>, size: nat, pages: seq<nat>)
    ensures |Allocate(bs, size, pages).pages| <= |pages|
    decreases |pages|
  {
    if FirstFit(bs, size) == |bs| && pages != [] && pages[0] != 0 {
      PagesShrink(Grow(bs, pages[0]), size, pages[1..]);
    }
  }

  // ---- what happens when pages do not touch ----

  /** Some block of the list owns address a. */
  ghost predicate Covered(bs: seq<Blk>, a: nat) {
    exists i :: 0 <= i < |bs| && bs[i].addr <= a < bs[i].End()
  }

  ghost predicate Touches(bs: seq<Blk>, i: nat)
    requires i < |bs| - 1
  {
    bs[i].free && bs[i + 1].free ==> bs[i].End() == bs[i + 1].addr
  }

  /** Neighbouring free blocks lie side by side. */
  ghost predicate FreePairsTouch(bs: seq<Blk>) {
    forall i: nat {:trigger Touches(bs, i)} | i < |bs| - 1 :: Touches(bs, i)
  }

  function MergedHead(bs: seq<Blk>): seq<Blk>
    requires |bs| >= 2
  {
    [bs[0].(size := bs[0].size + HDR + bs[1].size)] + bs[2..]
  }

  lemma CoveredCons(bs: seq<Blk>, a: nat)
    requires bs != []
    ensures Covered(bs, a) <==> bs[0].addr <= a < bs[0].End() || Covered(bs[1..], a)
  {
    if Covered(bs, a) {
      var i :| 0 <= i < |bs| && bs[i].addr <= a < bs[i].End();
      assert i > 0 ==> bs[1..][i - 1] == bs[i];
    }
    if Covered(bs[1..], a) {
      var i :| 0 <= i < |bs[1..]| && bs[1..][i].addr <= a < bs[1..][i].End();
      assert bs[i + 1] == bs[1..][i];
    }
  }

  lemma MergedHeadCovers(bs: seq<Blk>, a: nat)
    requires |bs| >= 2 && bs[0].End() == bs[1].addr
    ensures Covered(MergedHead(bs), a) <==> Covered(bs, a)
  {
    CoveredCons(bs, a);
    CoveredCons(bs[1..], a);
    CoveredCons(MergedHead(bs), a);
    assert bs[1..][1..] == bs[2..] && MergedHead(bs)[1..] == bs[2..];
  }

  lemma MergedHeadTouches(bs: seq<Blk>)
    requires |bs| >= 2 && bs[0].free && bs[1].free && FreePairsTouch(bs)
    ensures FreePairsTouch(MergedHead(bs)) && bs[0].End() == bs[1].addr
  {
    assert Touches(bs, 0);
    forall i: nat | i < |MergedHead(bs)| - 1 ensures Touches(MergedHead(bs), i) {
      assert Touches(bs, i + 1);
    }
  }

  lemma RestTouches(bs: seq<Blk>)
    requires bs != [] && FreePairsTouch(bs)
    ensures FreePairsTouch(bs[1..])
  {
    forall i: nat | i < |bs[1..]| - 1 ensures Touches(bs[1..], i) {
      assert Touches(bs, i + 1);
    }
  }

  lemma {:induction false} CoalesceCovers(bs: seq<Blk>, a: nat)
    requires FreePairsTouch(bs)
    ensures Covered(Coalesce(bs), a) <==> Covered(bs, a)
    decreases |bs|
  {
    if |bs| >= 2 {
      if bs[0].free && bs[1].free {
        MergedHeadTouches(bs);
        MergedHeadCovers(bs, a);
        CoalesceCovers(MergedHead(bs), a);
      } else {
        RestTouches(bs);
        CoalesceCovers(bs[1..], a);
        CoveredCons(bs, a);
        CoveredCons([bs[0]] + Coalesce(bs[1..]), a);
      }
    }
  }

  /** The first gap between two free neighbours ends up inside a block. */
  lemma {:induction false} GapSwallowed(bs: seq<Blk>, i: nat)
    requires i < |bs| - 1 && bs[i].free && bs[i + 1].free
    requires forall j: nat {:trigger Touches(bs, j)} | j < i :: Touches(bs, j)
    ensures Covered(Coalesce(bs), bs[i].End())
    decreases |bs|
  {
    if bs[0].free && bs[1].free {
      var merged := MergedHead(bs);
      if i == 0 {
        CoalesceHead(merged);
        assert Coalesce(bs)[0].addr <= bs[0].End() < Coalesce(bs)[0].End();
      } else {
        assert Touches(bs, 0);
        forall j: nat | j < i - 1 ensures Touches(merged, j) {
          assert Touches(bs, j + 1);
        }
        GapSwallowed(merged, i - 1);
      }
    } else {
      forall j: nat | j < i - 1 ensures Touches(bs[1..], j) {
        assert Touches(bs, j + 1);
      }
      GapSwallowed(bs[1..], i - 1);
      CoveredCons(Coalesce(bs), bs[i].End());
    }
  }

  lemma {:induction false} FirstGap(bs: seq<Blk>, i: nat) returns (k: nat)
    requires i < |bs| - 1 && !Touches(bs, i)
    ensures k < |bs| - 1 && !Touches(bs, k) && forall j: nat {:trigger Touches(bs, j)} | j < k :: Touches(bs, j)
    decreases i
  {
    if j: nat :| j < i && !Touches(bs, j) {
      k := FirstGap(bs, j);
    } else {
      k := i;
    }
  }

  lemma GapIsUncovered(bs: seq<Blk>, i: nat)
    requires Ordered(bs) && i < |bs| - 1 && bs[i].End() < bs[i + 1].addr
    ensures !Covered(bs, bs[i].End())
  {
    forall j | 0 <= j < |bs| ensures !(bs[j].addr <= bs[i].End() < bs[j].End()) {
      assert j < i ==> bs[j].End() <= bs[i].addr;
      assert j > i + 1 ==> bs[i + 1].End() <= bs[j].addr;
    }
  }

  /** The coalescing pass of kfree stays within the heap's own memory exactly when neighbouring free
    * blocks lie side by side: it omits the test heap_grow makes. */
  lemma CoalesceStaysInsideIff(bs: seq<Blk>)
    requires Ordered(bs)
    ensures (forall a: nat :: Covered(Coalesce(bs), a) ==> Covered(bs, a)) <==> FreePairsTouch(bs)
  {
    if FreePairsTouch(bs) {
      forall a: nat ensures Covered(Coalesce(bs), a) ==> Covered(bs, a) {
        CoalesceCovers(bs, a);
      }
    } else {
      var i: nat :| i < |bs| - 1 && !Touches(bs, i);
      var k := FirstGap(bs, i);
      GapSwallowed(bs, k);
      GapIsUncovered(bs, k);
    }
  }

  /** Two pages with one page of somebody else's between them: after the first is freed the heap believes
    * it owns 8176 bytes from 4112 on, the foreign page included. */
  lemma ForeignPageIsSwallowed()
    ensures KFree([Blk(4096, 4080, false), Blk(12288, 4080, true)], 4112) == [Blk(4096, 8176, true)]
    ensures !Covered([Blk(4096, 4080, false), Blk(12288, 4080, true)], 8192)
  {
    var bs := [Blk(4096, 4080, false), Blk(12288, 4080, true)];
    var marked := [Blk(4096, 4080, true), Blk(12288, 4080, true)];
    assert SetFree(bs, 4096) == marked;
    assert MergedHead(marked) == [Blk(4096, 8176, true)];
  }
}
