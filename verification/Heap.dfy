/** The kernel heap as it runs: headers in memory, linked by address, split and merged in place
  * (kernel/heap.c). */
module Heap {
  import opened HeapSpec
  import opened HeapProofs
  import opened Pmm

  /** struct block_hdr; a null `next` is 0. */
  datatype Hdr = Hdr(size: nat, free: bool, next: nat)

  function At(chain: seq<nat>, i: nat): nat {
    if i < |chain| then chain[i] else 0
  }

  /** The header at position i is stored and leads to the next one. */
  ghost predicate Linked(mem: map<nat, Hdr>, chain: seq<nat>, i: nat)
    requires i < |chain|
  {
    chain[i] in mem && mem[chain[i]].next == At(chain, i + 1)
  }

  ghost predicate Sorted(chain: seq<nat>) {
    (chain != [] ==> chain[0] > 0) && forall i, j | 0 <= i < j < |chain| :: chain[i] < chain[j]
  }

  /** `chain` lists the headers reached from head, in ascending order of address. */
  ghost predicate List(mem: map<nat, Hdr>, head: nat, chain: seq<nat>) {
    && Sorted(chain) && head == At(chain, 0)
    && forall i: nat {:trigger Linked(mem, chain, i)} | i < |chain| :: Linked(mem, chain, i)
  }

  function BlkAt(mem: map<nat, Hdr>, addr: nat): Blk {
    if addr in mem then Blk(addr, mem[addr].size, mem[addr].free) else Blk(addr, 0, false)
  }

  /** The blocks of the chain. */
  function AbsOf(mem: map<nat, Hdr>, chain: seq<nat>): (bs: seq<Blk>)
    ensures |bs| == |chain| && forall i | 0 <= i < |chain| :: bs[i] == BlkAt(mem, chain[i])
  {
    seq(|chain|, i requires 0 <= i < |chain| => BlkAt(mem, chain[i]))
  }

  // ---- what each kind of update does to the list ----

  /** Rewriting one header, its link unchanged. */
  lemma Rewritten(mem: map<nat, Hdr>, head: nat, chain: seq<nat>, k: nat, h: Hdr, mem': map<nat, Hdr>)
    requires List(mem, head, chain) && k < |chain| && Linked(mem, chain, k) && h.next == mem[chain[k]].next
    requires mem' == mem[chain[k] := h]
    ensures List(mem', head, chain) && AbsOf(mem', chain) == AbsOf(mem, chain)[k := Blk(chain[k], h.size, h.free)]
  {
    forall i: nat | i < |chain| ensures Linked(mem', chain, i) {
      assert Linked(mem, chain, i);
    }
    assert forall i | 0 <= i < |chain| :: i != k ==> chain[i] != chain[k];
  }

  /** A list with n elements from index k on replaced. */
  function Splice<T>(s: seq<T>, k: nat, n: nat, mid: seq<T>): seq<T>
    requires k + n <= |s|
  {
    s[..k] + mid + s[k + n..]
  }

  lemma SpliceAt<T>(s: seq<T>, k: nat, n: nat, mid: seq<T>, i: nat)
    requires k + n <= |s| && i < |s| - n + |mid|
    ensures |Splice(s, k, n, mid)| == |s| - n + |mid|
    ensures Splice(s, k, n, mid)[i] == if i < k then s[i] else if i < k + |mid| then mid[i - k] else s[i - |mid| + n]
  {
  }

  /** Two lists with the same blocks. */
  lemma SameBlocks(mem: map<nat, Hdr>, chain: seq<nat>, bs: seq<Blk>)
    requires |bs| == |chain| && forall i | 0 <= i < |chain| :: BlkAt(mem, chain[i]) == bs[i]
    ensures AbsOf(mem, chain) == bs
  {
  }

  /** A new last header. */
  lemma Appended(mem: map<nat, Hdr>, head: nat, chain: seq<nat>, addr: nat, h: Hdr, mem': map<nat, Hdr>)
    requires List(mem, head, chain) && addr > 0 && h.next == 0
    requires chain != [] ==> chain[|chain| - 1] < addr && Linked(mem, chain, |chain| - 1)
    requires mem' == if chain == [] then mem[addr := h]
                     else mem[addr := h][chain[|chain| - 1] := mem[chain[|chain| - 1]].(next := addr)]
    ensures List(mem', if chain == [] then addr else head, chain + [addr])
    ensures AbsOf(mem', chain + [addr]) == AbsOf(mem, chain) + [Blk(addr, h.size, h.free)]
  {
    var chain', n := chain + [addr], |chain| - 1;
    forall i: nat | i < |chain'| ensures Linked(mem', chain', i) {
      if i < |chain| {
        assert Linked(mem, chain, i);
        assert i < n ==> chain[i] < chain[n];
      }
    }
    forall i | 0 <= i < |chain'|
      ensures BlkAt(mem', chain'[i]) == (AbsOf(mem, chain) + [Blk(addr, h.size, h.free)])[i]
    {
      if i < |chain| {
        assert Linked(mem, chain, i);
        assert i < n ==> chain[i] < chain[n];
      }
    }
    SameBlocks(mem', chain', AbsOf(mem, chain) + [Blk(addr, h.size, h.free)]);
  }

  /** Splitting: a second header after header k. */
  lemma InsertedList(mem: map<nat, Hdr>, head: nat, chain: seq<nat>, k: nat, h: Hdr, addr: nat, r: Hdr,
                     mem': map<nat, Hdr>)
    requires List(mem, head, chain) && k < |chain| && mem' == mem[addr := r][chain[k] := h]
    requires chain[k] < addr && (k + 1 < |chain| ==> addr < chain[k + 1])
    requires h.next == addr && Linked(mem, chain, k) && r.next == mem[chain[k]].next
    ensures List(mem', head, Splice(chain, k, 1, [chain[k], addr]))
  {
    var chain' := Splice(chain, k, 1, [chain[k], addr]);
    assert Sorted(chain') by {
      forall i, j | 0 <= i < j < |chain'| ensures chain'[i] < chain'[j] {
        SpliceAt(chain, k, 1, [chain[k], addr], i);
        SpliceAt(chain, k, 1, [chain[k], addr], j);
        assert k + 1 < j ==> chain[k + 1] <= chain[j - 1];
      }
    }
    forall i: nat | i < |chain'| ensures Linked(mem', chain', i) {
      InsertedLink(mem, chain, k, h, addr, r, mem', i);
    }
  }

  lemma InsertedLink(mem: map<nat, Hdr>, chain: seq<nat>, k: nat, h: Hdr, addr: nat, r: Hdr, mem': map<nat, Hdr>,
                     i: nat)
    requires Sorted(chain) && k < |chain| && mem' == mem[addr := r][chain[k] := h] && i < |chain| + 1
    requires chain[k] < addr && (k + 1 < |chain| ==> addr < chain[k + 1])
    requires h.next == addr && Linked(mem, chain, k) && r.next == mem[chain[k]].next
    requires i <= k ==> Linked(mem, chain, i)
    requires i > k + 1 ==> Linked(mem, chain, i - 1)
    ensures i < |Splice(chain, k, 1, [chain[k], addr])| && Linked(mem', Splice(chain, k, 1, [chain[k], addr]), i)
  {
    SpliceAt(chain, k, 1, [chain[k], addr], i);
    if i < |chain| {
      SpliceAt(chain, k, 1, [chain[k], addr], i + 1);
    }
    if i > k + 1 {
      assert chain[k] < chain[i - 1] && chain[k + 1] <= chain[i - 1];
    }
  }

  lemma InsertedBlocks(mem: map<nat, Hdr>, chain: seq<nat>, k: nat, h: Hdr, addr: nat, r: Hdr, mem': map<nat, Hdr>)
    requires Sorted(chain) && k < |chain| && mem' == mem[addr := r][chain[k] := h]
    requires chain[k] < addr && (k + 1 < |chain| ==> addr < chain[k + 1])
    ensures AbsOf(mem', Splice(chain, k, 1, [chain[k], addr]))
         == Splice(AbsOf(mem, chain), k, 1, [Blk(chain[k], h.size, h.free), Blk(addr, r.size, r.free)])
  {
    var chain' := Splice(chain, k, 1, [chain[k], addr]);
    var pieces := [Blk(chain[k], h.size, h.free), Blk(addr, r.size, r.free)];
    forall i | 0 <= i < |chain'| ensures BlkAt(mem', chain'[i]) == Splice(AbsOf(mem, chain), k, 1, pieces)[i] {
      SpliceAt(chain, k, 1, [chain[k], addr], i);
      SpliceAt(AbsOf(mem, chain), k, 1, pieces, i);
      if i > k + 1 {
        assert chain[k] < chain[i - 1] && chain[k + 1] <= chain[i - 1];
      }
    }
    SameBlocks(mem', chain', Splice(AbsOf(mem, chain), k, 1, pieces));
  }

  /** Merging: header k + 1 leaves the list. */
  lemma RemovedList(mem: map<nat, Hdr>, head: nat, chain: seq<nat>, k: nat, h: Hdr, mem': map<nat, Hdr>)
    requires List(mem, head, chain) && k + 1 < |chain| && Linked(mem, chain, k + 1)
    requires h.next == mem[chain[k + 1]].next && mem' == mem[chain[k] := h]
    ensures List(mem', head, Splice(chain, k, 2, [chain[k]]))
  {
    var chain' := Splice(chain, k, 2, [chain[k]]);
    RemovedSorted(chain, k);
    forall i: nat | i < |chain'| ensures Linked(mem', chain', i) {
      assert Linked(mem, chain, if i <= k then i else i + 1);
      SpliceAt(chain, k, 2, [chain[k]], i);
      if i + 1 < |chain'| {
        SpliceAt(chain, k, 2, [chain[k]], i + 1);
      }
    }
  }

  lemma RemovedSorted(chain: seq<nat>, k: nat)
    requires Sorted(chain) && k + 1 < |chain|
    ensures Sorted(Splice(chain, k, 2, [chain[k]]))
  {
    var chain' := Splice(chain, k, 2, [chain[k]]);
    forall i, j | 0 <= i < j < |chain'| ensures chain'[i] < chain'[j] {
      SpliceAt(chain, k, 2, [chain[k]], i);
      SpliceAt(chain, k, 2, [chain[k]], j);
    }
  }

  lemma RemovedBlocks(mem: map<nat, Hdr>, chain: seq<nat>, k: nat, h: Hdr, mem': map<nat, Hdr>)
    requires Sorted(chain) && k + 1 < |chain| && mem' == mem[chain[k] := h]
    ensures AbsOf(mem', Splice(chain, k, 2, [chain[k]]))
         == Splice(AbsOf(mem, chain), k, 2, [Blk(chain[k], h.size, h.free)])
  {
    var chain' := Splice(chain, k, 2, [chain[k]]);
    var merged := [Blk(chain[k], h.size, h.free)];
    forall i | 0 <= i < |chain'| ensures BlkAt(mem', chain'[i]) == Splice(AbsOf(mem, chain), k, 2, merged)[i] {
      RemovedBlockAt(mem, chain, k, h, mem', i);
    }
    SameBlocks(mem', chain', Splice(AbsOf(mem, chain), k, 2, merged));
  }

  lemma RemovedBlockAt(mem: map<nat, Hdr>, chain: seq<nat>, k: nat, h: Hdr, mem': map<nat, Hdr>, i: nat)
    requires Sorted(chain) && k + 1 < |chain| && mem' == mem[chain[k] := h]
    requires i < |Splice(chain, k, 2, [chain[k]])|
    ensures BlkAt(mem', Splice(chain, k, 2, [chain[k]])[i])
         == Splice(AbsOf(mem, chain), k, 2, [Blk(chain[k], h.size, h.free)])[i]
  {
    SpliceAt(chain, k, 2, [chain[k]], i);
    SpliceAt(AbsOf(mem, chain), k, 2, [Blk(chain[k], h.size, h.free)], i);
  }

  lemma FirstFitIs(bs: seq<Blk>, size: nat, k: nat)
    requires k <= |bs| && (k < |bs| ==> Fits(bs[k], size))
    requires NoneFits(bs, k, size)
    ensures FirstFit(bs, size) == k
  {
  }

  /** None of the first n blocks is free and large enough. */
  ghost predicate NoneFits(bs: seq<Blk>, n: nat, size: nat) {
    n <= |bs| && forall j | 0 <= j < n :: !Fits(bs[j], size)
  }

  /** The search has passed k blocks without a fit, and will come to `goal`. */
  ghost predicate Searching(bs: seq<Blk>, pages: seq<nat>, k: nat, size: nat, goal: Given) {
    NoneFits(bs, k, size) && Allocate(bs, size, pages) == goal
  }

  /** The addresses pmm_alloc hands out next. */
  function Addresses(pages: seq<nat>): (addrs: seq<nat>)
    ensures |addrs| == |pages| && forall i | 0 <= i < |pages| :: addrs[i] == pages[i] * PAGE
  {
    seq(|pages|, i requires 0 <= i < |pages| => pages[i] * PAGE)
  }

  class KernelHeap {
    var mem: map<nat, Hdr>
    var head: nat
    const pmm: PageAllocator
    ghost var chain: seq<nat>

    ghost function Blocks(): seq<Blk>
      reads this
    {
      AbsOf(mem, chain)
    }

    ghost function Supply(): seq<nat>
      requires pmm.Valid()
      reads pmm, pmm.used
    {
      Addresses(pmm.Pages())
    }

    /** The list is sound, in order of address, and the pages to come lie above it. */
    ghost predicate Valid()
      reads this, pmm, pmm.used
    {
      && pmm.Valid() && List(mem, head, chain) && Ordered(Blocks()) && Above(Blocks(), Supply())
    }

    /** heap_head = 0: no block yet. */
    constructor (pmm: PageAllocator)
      requires pmm.Valid() && Above([], Addresses(pmm.Pages()))
      ensures Valid() && Blocks() == [] && this.pmm == pmm
    {
      this.pmm, mem, head, chain := pmm, map[], 0, [];
    }

    /** The walk to the last header. */
    method Last() returns (cur: nat)
      requires List(mem, head, chain) && chain != []
      ensures cur == chain[|chain| - 1]
    {
      cur := head;
      ghost var k := 0;
      while mem[cur].next != 0
        invariant k < |chain| && cur == chain[k] && Linked(mem, chain, k)
        decreases |chain| - k
      {
        cur, k := mem[cur].next, k + 1;
      }
    }

    /** heap_grow: the last header, grown or new; 0 when there is no page. */
    method HeapGrow() returns (blk: nat)
      requires Valid()
      modifies this, pmm`freePages, pmm.used
      ensures Valid() && Supply() == if old(Supply()) == [] then [] else old(Supply())[1..]
      ensures if old(Supply()) == [] then blk == 0 && Blocks() == old(Blocks())
              else Blocks() == Grow(old(Blocks()), old(Supply())[0]) && chain != [] && blk == chain[|chain| - 1]
    {
      ghost var bs, supply := Blocks(), Supply();
      var page := NextPage();
      if page == 0 {
        return 0;
      }
      PageIsAbove(mem, head, chain, supply, page);
      blk := AddPage(page);
      GrownOk(bs, supply, Blocks(), Supply());
    }

    /** pmm_alloc, in terms of the pages to come. */
    method NextPage() returns (page: nat)
      requires pmm.Valid() && Above(Blocks(), Supply())
      modifies pmm`freePages, pmm.used
      ensures pmm.Valid() && Blocks() == old(Blocks())
      ensures page == 0 <==> old(Supply()) == []
      ensures page == 0 ==> Supply() == []
      ensures page != 0 ==> page == old(Supply())[0] && Supply() == old(Supply())[1..]
    {
      ghost var supply := Supply();
      page := pmm.Alloc();
      AddressesNext(supply, old(pmm.Pages()), pmm.Pages());
    }

    /** The rest of heap_grow, with a page at hand. */
    method AddPage(page: nat) returns (blk: nat)
      requires List(mem, head, chain) && page > 0 && (chain != [] ==> chain[|chain| - 1] < page)
      modifies this`mem, this`head, this`chain
      ensures List(mem, head, chain) && chain != [] && blk == chain[|chain| - 1]
      ensures Blocks() == Grow(old(Blocks()), page)
    {
      if head == 0 {
        LinkFirst(page);
        return page;
      }
      var cur := Last();
      assert Linked(mem, chain, |chain| - 1);
      var h := mem[cur];
      if h.free && cur + HDR + h.size == page {
        ghost var before := mem;
        mem := mem[cur := h.(size := h.size + HDR + (PAGE - HDR))];
        Rewritten(before, head, chain, |chain| - 1, mem[cur], mem);
        return cur;
      }
      LinkLast(cur, page);
      blk := page;
    }

    method LinkFirst(page: nat)
      requires List(mem, head, chain) && page > 0 && chain == []
      modifies this`mem, this`head, this`chain
      ensures List(mem, head, chain) && chain == [page] && Blocks() == [Blk(page, PAGE - HDR, true)]
    {
      var h := Hdr(PAGE - HDR, true, 0);
      Appended(mem, head, chain, page, h, mem[page := h]);
      mem, head, chain := mem[page := h], page, [page];
    }

    method LinkLast(cur: nat, page: nat)
      requires List(mem, head, chain) && chain != [] && cur == chain[|chain| - 1] < page
      modifies this`mem, this`chain
      ensures List(mem, head, chain) && chain == old(chain) + [page]
      ensures Blocks() == old(Blocks()) + [Blk(page, PAGE - HDR, true)]
    {
      var h := Hdr(PAGE - HDR, true, 0);
      ghost var before := mem;
      assert Linked(mem, chain, |chain| - 1);
      mem := mem[page := h];
      mem := mem[cur := mem[cur].(next := page)];
      Appended(before, head, chain, page, h, mem);
      chain := chain + [page];
    }

    /** kmalloc: first fit from the head, a page more whenever the end is reached. */
    method KMalloc(n: nat) returns (ptr: nat)
      requires Valid()
      modifies this, pmm`freePages, pmm.used
      ensures Valid()
      ensures Given(Blocks(), Supply(), ptr) == HeapSpec.KMalloc(old(Blocks()), n, old(Supply()))
      ensures n == 0 ==> ptr == 0 && Blocks() == old(Blocks()) && Supply() == old(Supply())
    {
      if n == 0 {
        return 0;
      }
      ptr := Walk(Align8(n));
    }

    /** The loop of kmalloc, for a size already rounded up. */
    method Walk(size: nat) returns (ptr: nat)
      requires Valid()
      modifies this, pmm`freePages, pmm.used
      ensures Valid() && Given(Blocks(), Supply(), ptr) == Allocate(old(Blocks()), size, old(Supply()))
    {
      ghost var goal := Allocate(Blocks(), size, Supply());
      var cur, done := head, false;
      ghost var k: nat := 0;
      ptr := 0;
      while !done
        invariant Valid() && Underway(done, ptr, cur, k, size, goal)
        decreases !done, |Supply()|, |chain| - k
      {
        done, ptr, cur, k := Turn(cur, size, k, goal);
      }
    }

    /** One turn: the header is fetched, with one page more at the end of the list, and visited. */
    method Turn(cur: nat, size: nat, ghost k: nat, ghost goal: Given)
      returns (done: bool, ptr: nat, next: nat, ghost n: nat)
      requires Valid() && Searching(Blocks(), Supply(), k, size, goal) && cur == At(chain, k)
      modifies this, pmm`freePages, pmm.used
      ensures Valid() && Underway(done, ptr, next, n, size, goal)
      ensures !done && |Supply()| >= |old(Supply())| ==>
                |Supply()| == |old(Supply())| && |chain| == |old(chain)| && n == k + 1
    {
      var here;
      here, n := Header(cur, size, k, goal);
      done, ptr, next := Visit(here, size, n, goal);
      n := n + 1;
    }

    /** The next header of the search: at the end of the list, that of one page more; 0 when there is none. */
    method Header(cur: nat, size: nat, ghost k: nat, ghost goal: Given) returns (here: nat, ghost n: nat)
      requires Valid() && Searching(Blocks(), Supply(), k, size, goal) && cur == At(chain, k)
      modifies this, pmm`freePages, pmm.used
      ensures Valid() && Arrived(here, n, size, goal)
      ensures here != 0 && |Supply()| >= |old(Supply())| ==>
                |Supply()| == |old(Supply())| && chain == old(chain) && n == k
    {
      here, n := cur, k;
      AtEnd(mem, head, chain, k);
      if cur == 0 {
        here := GrowFor(size, goal);
        n := if here == 0 then 0 else |chain| - 1;
      }
    }

    /** The search stands at header n, or has come to its end. */
    ghost predicate Arrived(here: nat, n: nat, size: nat, goal: Given)
      requires pmm.Valid()
      reads this, pmm, pmm.used
    {
      if here == 0 then Given(Blocks(), Supply(), 0) == goal
      else n < |chain| && here == chain[n] && Searching(Blocks(), Supply(), n, size, goal)
    }

    /** Done with this address, or on the way to header k. */
    ghost predicate Underway(done: bool, ptr: nat, cur: nat, k: nat, size: nat, goal: Given)
      requires pmm.Valid()
      reads this, pmm, pmm.used
    {
      if done then Given(Blocks(), Supply(), ptr) == goal
      else Searching(Blocks(), Supply(), k, size, goal) && cur == At(chain, k)
    }

    /** One header of the search: taken when it fits, otherwise on to the next. */
    method Visit(cur: nat, size: nat, ghost k: nat, ghost goal: Given) returns (done: bool, ptr: nat, next: nat)
      requires Valid() && Arrived(cur, k, size, goal)
      modifies this`mem, this`chain
      ensures Valid() && Underway(done, ptr, next, k + 1, size, goal)
      ensures Supply() == old(Supply()) && (!done ==> cur != 0 && chain == old(chain))
    {
      done, ptr, next := true, 0, 0;
      if cur != 0 {
        HeaderAt(mem, head, chain, k);
        if mem[cur].free && mem[cur].size >= size {
          ptr := TakeFit(cur, size, k);
        } else {
          done, next := false, mem[cur].next;
        }
      }
    }

    /** The end of the list was reached: one page more, or no memory. */
    method GrowFor(size: nat, ghost goal: Given) returns (cur: nat)
      requires Valid() && Searching(Blocks(), Supply(), |chain|, size, goal)
      modifies this, pmm`freePages, pmm.used
      ensures Valid() && (cur == 0 ==> Given(Blocks(), Supply(), 0) == goal)
      ensures cur != 0 ==> chain != [] && cur == chain[|chain| - 1] && |Supply()| < |old(Supply())|
      ensures cur != 0 ==> Searching(Blocks(), Supply(), |chain| - 1, size, goal)
    {
      ghost var bs, supply := Blocks(), Supply();
      cur := HeapGrow();
      GrownSearch(bs, supply, size, goal, Blocks(), Supply());
    }

    /** The successful end of kmalloc: block k is the first that fits. */
    method TakeFit(cur: nat, size: nat, ghost k: nat) returns (ptr: nat)
      requires Valid() && k < |chain| && cur == chain[k]
      requires Fits(Blocks()[k], size) && NoneFits(Blocks(), k, size)
      modifies this`mem, this`chain
      ensures Valid() && ptr > 0 && Given(Blocks(), Supply(), ptr) == Allocate(old(Blocks()), size, old(Supply()))
    {
      ghost var bs := Blocks();
      assert Linked(mem, chain, k);
      TakenOk(bs, k, size, Supply());
      TakeBlock(cur, size, k);
      ptr := cur + HDR;
    }

    /** The rest behind the block gets a header of its own. */
    method SplitBlock(cur: nat, size: nat, ghost k: nat)
      requires List(mem, head, chain) && k < |chain| && cur == chain[k] && Linked(mem, chain, k)
      requires Ordered(Blocks()) && mem[cur].size >= size + MIN_SPLIT
      modifies this`mem, this`chain
      ensures List(mem, head, chain) && old(k < |Blocks()| && size + MIN_SPLIT <= Blocks()[k].size)
      ensures Blocks() == Splice(old(Blocks()), k, 1, [Blk(cur, size, false),
                                                       Blk(cur + HDR + size, old(Blocks())[k].size - size - HDR, true)])
    {
      var h := mem[cur];
      var rest := cur + HDR + size;
      var r := Hdr(h.size - size - HDR, true, h.next);
      SplitSite(mem, chain, k, size);
      ghost var before, was := mem, chain;
      mem := mem[rest := r][cur := Hdr(size, false, rest)];
      chain := Splice(chain, k, 1, [cur, rest]);
      InsertedList(before, head, was, k, Hdr(size, false, rest), rest, r, mem);
      InsertedBlocks(before, was, k, Hdr(size, false, rest), rest, r, mem);
    }

    /** Taking a block: split off the rest when it is worth a header, then mark the block. */
    method TakeBlock(cur: nat, size: nat, ghost k: nat)
      requires List(mem, head, chain) && k < |chain| && cur == chain[k] && Linked(mem, chain, k)
      requires Ordered(Blocks()) && mem[cur].size >= size
      modifies this`mem, this`chain
      ensures List(mem, head, chain) && old(k < |Blocks()| && size <= Blocks()[k].size)
      ensures Blocks() == Take(old(Blocks()), k, size)
    {
      var h := mem[cur];
      if h.size >= size + MIN_SPLIT {
        SplitBlock(cur, size, k);
      } else {
        ghost var before := mem;
        mem := mem[cur := h.(free := false)];
        Rewritten(before, head, chain, k, h.(free := false), mem);
      }
    }

    /** kfree of null, or of the allocation behind header k: mark the block, then merge in one pass. */
    method KFree(ptr: nat, ghost k: nat)
      requires Valid() && (ptr == 0 || (k < |chain| && ptr == chain[k] + HDR && !Blocks()[k].free))
      modifies this`mem, this`chain
      ensures Valid() && Blocks() == HeapSpec.KFree(old(Blocks()), ptr)
      ensures ptr == 0 ==> Blocks() == old(Blocks())
    {
      if ptr != 0 {
        FreeBlock(ptr - HDR, k);
      }
    }

    method FreeBlock(blk: nat, ghost k: nat)
      requires Valid() && k < |chain| && blk == chain[k] && !Blocks()[k].free
      modifies this`mem, this`chain
      ensures Valid() && Blocks() == Coalesce(SetFree(old(Blocks()), blk))
    {
      ghost var after := Coalesce(SetFree(Blocks(), blk));
      FreedOk(Blocks(), k, after, Supply());
      MarkFree(blk, k);
      MergePass(after);
    }

    /** blk->free = 1. */
    method MarkFree(blk: nat, ghost k: nat)
      requires List(mem, head, chain) && k < |chain| && blk == chain[k] && Ordered(Blocks())
      modifies this`mem
      ensures List(mem, head, chain) && Blocks() == SetFree(old(Blocks()), blk)
    {
      ghost var before := mem;
      assert Linked(mem, chain, k);
      SetFreeAt(Blocks(), k);
      mem := mem[blk := mem[blk].(free := true)];
      Rewritten(before, head, chain, k, mem[blk], mem);
    }

    /** The coalescing loop. */
    method MergePass(ghost goal: seq<Blk>)
      requires List(mem, head, chain) && goal == Coalesce(Blocks())
      modifies this`mem, this`chain
      ensures List(mem, head, chain) && Blocks() == goal
    {
      var cur := head;
      ghost var k := 0;
      assert Blocks()[0..] == Blocks();
      while cur != 0
        invariant List(mem, head, chain) && k <= |chain| && cur == At(chain, k)
        invariant Blocks()[..k] + Coalesce(Blocks()[k..]) == goal
        decreases |chain|, |chain| - k
      {
        assert Linked(mem, chain, k);
        var next := mem[cur].next;
        if k + 1 < |chain| {
          assert Linked(mem, chain, k + 1);
        }
        if mem[cur].free && next != 0 && mem[next].free {
          MergeNext(cur, next, k, goal);
        } else {
          CoalesceSkips(Blocks(), k);
          cur, k := next, k + 1;
        }
      }
    }

    /** cur->size += ...; cur->next = cur->next->next. */
    method MergeNext(cur: nat, next: nat, ghost k: nat, ghost goal: seq<Blk>)
      requires List(mem, head, chain) && k + 1 < |chain| && cur == chain[k] && next == chain[k + 1]
      requires Linked(mem, chain, k) && Linked(mem, chain, k + 1) && mem[cur].free && mem[next].free
      requires Blocks()[..k] + Coalesce(Blocks()[k..]) == goal
      modifies this`mem, this`chain
      ensures List(mem, head, chain) && k < |chain| && |chain| < old(|chain|) && chain[k] == cur
      ensures Blocks()[..k] + Coalesce(Blocks()[k..]) == goal
    {
      ghost var bs, before, was := Blocks(), mem, chain;
      var h := mem[cur].(size := mem[cur].size + HDR + mem[next].size, next := mem[next].next);
      mem := mem[cur := h];
      chain := Splice(chain, k, 2, [cur]);
      RemovedList(before, head, was, k, h, mem);
      RemovedBlocks(before, was, k, h, mem);
      CoalesceJoins(bs, k, Blk(cur, h.size, h.free));
    }
  }

  /** Where a block is split there is room for a header before the next block. */
  lemma SplitSite(mem: map<nat, Hdr>, chain: seq<nat>, k: nat, size: nat)
    requires Ordered(AbsOf(mem, chain)) && k < |chain| && chain[k] in mem && mem[chain[k]].size >= size + MIN_SPLIT
    ensures k + 1 < |chain| ==> chain[k] + HDR + size < chain[k + 1]
  {
    if k + 1 < |chain| {
      assert AbsOf(mem, chain)[k].End() <= AbsOf(mem, chain)[k + 1].addr;
    }
  }

  lemma AtEnd(mem: map<nat, Hdr>, head: nat, chain: seq<nat>, k: nat)
    requires List(mem, head, chain) && k <= |chain|
    ensures At(chain, k) == 0 <==> k == |chain|
  {
  }

  lemma HeaderAt(mem: map<nat, Hdr>, head: nat, chain: seq<nat>, k: nat)
    requires List(mem, head, chain) && k < |chain|
    ensures chain[k] in mem && mem[chain[k]].next == At(chain, k + 1)
    ensures AbsOf(mem, chain)[k] == BlkAt(mem, chain[k])
  {
    assert Linked(mem, chain, k);
  }

  /** The end of the list: without a page the search is over, with one it goes on at the last block. */
  lemma GrownSearch(bs: seq<Blk>, supply: seq<nat>, size: nat, goal: Given, bs': seq<Blk>, rest: seq<nat>)
    requires Searching(bs, supply, |bs|, size, goal)
    ensures supply == [] ==> goal == Given(bs, [], 0)
    ensures supply != [] && supply[0] > 0 && bs' == Grow(bs, supply[0]) && rest == supply[1..] ==>
              bs' != [] && Searching(bs', rest, |bs'| - 1, size, goal)
  {
    FirstFitIs(bs, size, |bs|);
  }

  lemma CoalesceSkips(bs: seq<Blk>, k: nat)
    requires k < |bs| && (k + 1 < |bs| ==> !(bs[k].free && bs[k + 1].free))
    ensures bs[..k] + Coalesce(bs[k..]) == bs[..k + 1] + Coalesce(bs[k + 1..])
  {
    assert bs[k..][1..] == bs[k + 1..];
    if k + 1 == |bs| {
      assert Coalesce(bs[k..]) == [bs[k]] && Coalesce(bs[k + 1..]) == [];
    }
  }

  lemma CoalesceJoins(bs: seq<Blk>, k: nat, m: Blk)
    requires k + 1 < |bs| && bs[k].free && bs[k + 1].free
    requires m == bs[k].(size := bs[k].size + HDR + bs[k + 1].size)
    ensures var bs' := Splice(bs, k, 2, [m]);
            bs'[..k] + Coalesce(bs'[k..]) == bs[..k] + Coalesce(bs[k..])
  {
    var bs' := Splice(bs, k, 2, [m]);
    assert bs[k..][2..] == bs[k + 2..];
    assert bs'[k..] == [m] + bs[k + 2..] && bs'[..k] == bs[..k];
  }

  lemma PageIsAbove(mem: map<nat, Hdr>, head: nat, chain: seq<nat>, supply: seq<nat>, page: nat)
    requires List(mem, head, chain) && Above(AbsOf(mem, chain), supply) && supply != [] && page == supply[0]
    ensures page > 0 && (chain != [] ==> chain[|chain| - 1] < page)
  {
    if chain != [] {
      assert Linked(mem, chain, |chain| - 1);
    }
  }

  lemma GrownOk(bs: seq<Blk>, supply: seq<nat>, bs': seq<Blk>, rest: seq<nat>)
    requires Ordered(bs) && Above(bs, supply) && supply != [] && bs' == Grow(bs, supply[0]) && rest == supply[1..]
    ensures Ordered(bs') && Above(bs', rest)
  {
    GrowOrdered(bs, supply);
  }

  lemma FreedOk(bs: seq<Blk>, k: nat, after: seq<Blk>, supply: seq<nat>)
    requires Ordered(bs) && Above(bs, supply) && k < |bs| && after == Coalesce(SetFree(bs, bs[k].addr))
    ensures Ordered(after) && Above(after, supply)
  {
    KFreeOrdered(bs, k);
    assert KFree(bs, bs[k].addr + HDR) == after;
    StillAbove(bs, after, supply);
  }

  lemma TakenOk(bs: seq<Blk>, k: nat, size: nat, supply: seq<nat>)
    requires Ordered(bs) && Above(bs, supply) && k < |bs| && Fits(bs[k], size)
    requires NoneFits(bs, k, size)
    ensures Ordered(Take(bs, k, size)) && Above(Take(bs, k, size), supply)
    ensures Allocate(bs, size, supply) == Given(Take(bs, k, size), supply, bs[k].addr + HDR)
  {
    FirstFitIs(bs, size, k);
    TakeOrdered(bs, k, size);
    StillAbove(bs, Take(bs, k, size), supply);
  }

  lemma AddressesNext(supply: seq<nat>, pages: seq<nat>, rest: seq<nat>)
    requires supply == Addresses(pages) && rest == if pages == [] then [] else pages[1..]
    ensures Addresses(rest) == if supply == [] then [] else supply[1..]
    ensures supply != [] ==> supply[0] == pages[0] * PAGE
  {
  }
}
