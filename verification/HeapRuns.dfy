/** Whole runs of the heap: any interleaving of kmalloc and kfree calls, with the allocations handed out and not
  * yet given back. */
module HeapRuns {
  import opened HeapSpec
  import opened HeapProofs

  datatype Call = Malloc(n: nat) | Free(ptr: nat)

  /** The block list, the pages left, and the size asked for behind each pointer in use. */
  datatype Machine = Machine(bs: seq<Blk>, pages: seq<nat>, live: map<nat, nat>)

  function Next(m: Machine, call: Call): Machine {
    match call
    case Malloc(n) =>
      var g := KMalloc(m.bs, n, m.pages);
      Machine(g.bs, g.pages, if g.ptr == 0 then m.live else m.live[g.ptr := n])
    case Free(ptr) => Machine(KFree(m.bs, ptr), m.pages, m.live - {ptr})
  }

  /** What a caller must respect: sizes that do not wrap, and only pointers in use, or none, given back. */
  ghost predicate Proper(m: Machine, call: Call) {
    match call
    case Malloc(n) => n <= TWO_32 - 8
    case Free(ptr) => ptr == 0 || ptr in m.live
  }

  /** The block behind a pointer: large enough, with at most 30 bytes to spare. */
  ghost predicate Serves(bs: seq<Blk>, ptr: nat, n: nat, b: Blk) {
    b in bs && !b.free && b.addr + HDR == ptr && n <= b.size <= n + 30
  }

  ghost predicate Served(bs: seq<Blk>, live: map<nat, nat>, ptr: nat)
    requires ptr in live
  {
    exists b :: Serves(bs, ptr, live[ptr], b)
  }

  ghost predicate Accounted(live: map<nat, nat>, b: Blk) {
    b.addr + HDR in live
  }

  /** The blocks in use are exactly the allocations in use. */
  ghost predicate Books(bs: seq<Blk>, live: map<nat, nat>) {
    && (forall ptr {:trigger Served(bs, live, ptr)} | ptr in live :: Served(bs, live, ptr))
    && (forall b {:trigger Accounted(live, b)} | b in bs && !b.free :: Accounted(live, b))
  }

  ghost predicate Tracks(m: Machine) {
    HeapOk(m.bs) && Contiguous(m.bs, m.pages) && Books(m.bs, m.live)
  }

  /** Every block in use before and after stays where it is. */
  ghost predicate NothingMoves(m: Machine, m': Machine) {
    forall b: Blk | b in m.bs && !b.free && b.addr + HDR in m'.live :: b in m'.bs
  }

  function Total(m: Machine): nat {
    Bytes(m.bs) + PAGE * |m.pages|
  }

  // ---- one call ----

  lemma MallocTracks(m: Machine, n: nat, m': Machine)
    requires Tracks(m) && 1 <= n <= TWO_32 - 8 && m' == Next(m, Malloc(n))
    ensures Tracks(m') && NothingMoves(m, m') && Total(m') == Total(m)
  {
    var g := KMalloc(m.bs, n, m.pages);
    KMallocKeeps(m.bs, n, m.pages);
    if g.ptr == 0 {
      SameBooks(m.bs, m.live, g.bs);
    } else {
      var b :| OneMore(m.bs, g.bs, g.ptr, Align8(n), b);
      OneMoreInBooks(m.bs, m.live, g.bs, n, g.ptr, b);
    }
  }

  lemma SameBooks(bs: seq<Blk>, live: map<nat, nat>, bs': seq<Blk>)
    requires Books(bs, live) && SameLive(bs, bs')
    ensures Books(bs', live)
  {
    forall ptr | ptr in live ensures Served(bs', live, ptr) {
      StillServed(bs, live, bs', live, ptr);
    }
  }

  /** A pointer stays served as long as its block is there. */
  lemma StillServed(bs: seq<Blk>, live: map<nat, nat>, bs': seq<Blk>, live': map<nat, nat>, ptr: nat)
    requires Books(bs, live) && ptr in live && ptr in live' && live'[ptr] == live[ptr]
    requires forall b: Blk | b in bs && !b.free && b.addr + HDR == ptr :: b in bs'
    ensures Served(bs', live', ptr)
  {
    assert Served(bs, live, ptr);
    var b :| Serves(bs, ptr, live[ptr], b);
    assert Serves(bs', ptr, live'[ptr], b);
  }

  lemma OneMoreInBooks(bs: seq<Blk>, live: map<nat, nat>, bs': seq<Blk>, n: nat, ptr: nat, b: Blk)
    requires Books(bs, live) && OneMore(bs, bs', ptr, Align8(n), b) && n <= Align8(n) <= n + 7
    ensures Books(bs', live[ptr := n])
  {
    var live' := live[ptr := n];
    assert Serves(bs', ptr, n, b);
    forall p | p in live' ensures Served(bs', live', p) {
      if p != ptr {
        StillServed(bs, live, bs', live', p);
      }
    }
    forall c | c in bs' && !c.free ensures Accounted(live', c) {
      assert c != b ==> Accounted(live, c);
    }
  }

  lemma FreeTracks(m: Machine, ptr: nat, m': Machine)
    requires Tracks(m) && ptr in m.live && m' == Next(m, Free(ptr))
    ensures Tracks(m') && NothingMoves(m, m') && Total(m') == Total(m)
  {
    assert Served(m.bs, m.live, ptr);
    var b :| Serves(m.bs, ptr, m.live[ptr], b);
    FreedList(m.bs, b, m'.bs, m.pages);
    OneLessInBooks(m.bs, m.live, m'.bs, ptr, b);
  }

  lemma FreedList(bs: seq<Blk>, b: Blk, after: seq<Blk>, pages: seq<nat>)
    requires HeapOk(bs) && Contiguous(bs, pages) && b in bs && !b.free && after == KFree(bs, b.addr + HDR)
    ensures HeapOk(after) && Contiguous(after, pages) && Bytes(after) == Bytes(bs)
    ensures forall c: Blk | !c.free :: c in after <==> c in bs && c != b
    ensures forall c: Blk | c in bs && c.addr == b.addr :: c == b
  {
    var k :| 0 <= k < |bs| && bs[k] == b;
    KFreeKeeps(bs, k);
    forall c: Blk | c in bs && c.addr == b.addr ensures c == b {
      SameAddress(bs, c, b);
    }
  }

  lemma SameAddress(bs: seq<Blk>, b: Blk, c: Blk)
    requires Tiles(bs) && b in bs && c in bs && b.addr == c.addr
    ensures b == c
  {
    var i :| 0 <= i < |bs| && bs[i] == b;
    var j :| 0 <= j < |bs| && bs[j] == c;
    if i != j {
      LiveAreDisjoint(bs, i, j);
    }
  }

  lemma OneLessInBooks(bs: seq<Blk>, live: map<nat, nat>, bs': seq<Blk>, ptr: nat, b: Blk)
    requires Books(bs, live) && b in bs && b.addr + HDR == ptr
    requires forall c: Blk | !c.free :: c in bs' <==> c in bs && c != b
    requires forall c: Blk | c in bs && c.addr == b.addr :: c == b
    ensures Books(bs', live - {ptr})
  {
    forall p | p in live - {ptr} ensures Served(bs', live - {ptr}, p) {
      StillServed(bs, live, bs', live - {ptr}, p);
    }
    forall c | c in bs' && !c.free ensures Accounted(live - {ptr}, c) {
      assert Accounted(live, c);
    }
  }

  /** Any proper call keeps the books straight, moves nothing in use and loses no byte. */
  lemma CallTracks(m: Machine, call: Call)
    requires Tracks(m) && Proper(m, call)
    ensures Tracks(Next(m, call)) && NothingMoves(m, Next(m, call)) && Total(Next(m, call)) == Total(m)
    ensures call == Malloc(0) || call == Free(0) ==> Next(m, call) == m
  {
    if 0 in m.live {
      var i := BlockAt(m, 0);
    }
    match call
    case Malloc(n) =>
      if n > 0 {
        MallocTracks(m, n, Next(m, call));
      }
    case Free(ptr) =>
      if ptr in m.live {
        FreeTracks(m, ptr, Next(m, call));
      } else {
        assert m.live - {ptr} == m.live;
      }
  }

  // ---- runs ----

  function After(m: Machine, calls: seq<Call>): Machine
    decreases calls
  {
    if calls == [] then m else After(Next(m, calls[0]), calls[1..])
  }

  ghost predicate ProperRun(m: Machine, calls: seq<Call>)
    decreases calls
  {
    calls != [] ==> Proper(m, calls[0]) && ProperRun(Next(m, calls[0]), calls[1..])
  }

  /** After any run of proper calls the heap is in order, its blocks in use are the allocations in use, and no
    * byte is lost. */
  lemma {:induction false} RunTracks(m: Machine, calls: seq<Call>)
    requires Tracks(m) && ProperRun(m, calls)
    ensures Tracks(After(m, calls)) && Total(After(m, calls)) == Total(m)
    decreases calls
  {
    if calls != [] {
      CallTracks(m, calls[0]);
      RunTracks(Next(m, calls[0]), calls[1..]);
    }
  }

  /** Where in the list a pointer's block is. */
  lemma BlockAt(m: Machine, ptr: nat) returns (i: nat)
    requires Tracks(m) && ptr in m.live
    ensures i < |m.bs| && m.bs[i].addr + HDR == ptr && m.bs[i].size >= m.live[ptr] && ptr % 8 == 0
  {
    assert Served(m.bs, m.live, ptr);
    var b :| Serves(m.bs, ptr, m.live[ptr], b);
    i :| 0 <= i < |m.bs| && m.bs[i] == b;
    assert Sized(m.bs[i]);
  }

  /** At any time every allocation is aligned, and no two overlap or touch each other's headers. */
  lemma LiveApart(m: Machine, p: nat, q: nat)
    requires Tracks(m) && p in m.live && q in m.live && p != q
    ensures p % 8 == 0 && (p + m.live[p] + HDR <= q || q + m.live[q] + HDR <= p)
  {
    var i := BlockAt(m, p);
    var j := BlockAt(m, q);
    LiveAreDisjoint(m.bs, i, j);
  }

  lemma TwoNeedOneInUse(bs: seq<Blk>)
    ensures |bs| >= 2 && Merged(bs) ==> exists b :: b in bs && !b.free
  {
    if |bs| >= 2 && Merged(bs) {
      assert !(bs[0].free && bs[0 + 1].free);
      assert bs[0] in bs && bs[1] in bs;
    }
  }

  /** When nothing is in use the heap is one free block, or empty. */
  lemma NothingInUse(m: Machine)
    requires Tracks(m) && m.live == map[]
    ensures |m.bs| <= 1 && forall b | b in m.bs :: b.free
  {
    forall b | b in m.bs ensures b.free {
      assert !b.free ==> Accounted(m.live, b);
    }
    TwoNeedOneInUse(m.bs);
  }

  lemma EmptyTracks(pages: seq<nat>)
    requires Contiguous([], pages)
    ensures Tracks(Machine([], pages, map[])) && Total(Machine([], pages, map[])) == PAGE * |pages|
  {
  }

  /** From an empty heap, once everything has been given back, whatever happened in between, the heap is one free
    * block of all the pages it has taken. */
  lemma EverythingComesBack(pages: seq<nat>, calls: seq<Call>, m: Machine)
    requires Contiguous([], pages) && ProperRun(Machine([], pages, map[]), calls)
    requires m == After(Machine([], pages, map[]), calls) && m.live == map[]
    ensures m.bs == [] || (|m.bs| == 1 && m.bs[0].free)
    ensures m.bs != [] ==> 16 + m.bs[0].size == 4096 * (|pages| - |m.pages|)
  {
    EmptyTracks(pages);
    RunTracks(Machine([], pages, map[]), calls);
    NothingInUse(m);
    if m.bs != [] {
      assert m.bs[0] in m.bs && m.bs == [m.bs[0]];
      BytesOne(m.bs[0]);
    }
  }
}
